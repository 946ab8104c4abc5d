/**
 * One cell of the Game of Life: a mutable liveness flag with value equality.
 */
module Cells {

  /** The glyphs a cell renders as. */
  const LiveGlyph: string := "\U{2588}"
  const DeadGlyph: string := "\U{2591}"

  /** `Boolean.hashCode`: 1231 for true, 1237 for false. */
  const TrueHash: int := 1231
  const FalseHash: int := 1237

  class Cell {
    var alive: bool

    /** `new Cell(alive)`. */
    constructor (alive: bool)
      ensures this.alive == alive
    {
      this.alive := alive;
    }

    /** `new Cell()`: a dead cell. */
    constructor Dead()
      ensures !alive
    {
      alive := false;
    }

    function IsAlive(): (r: bool)
      reads this
      ensures r <==> alive
    {
      alive
    }

    method SetAlive(alive: bool)
      modifies this
      ensures this.alive == alive
    {
      this.alive := alive;
    }

    /** Kills the cell; killing a dead cell changes nothing. */
    method Kill()
      modifies this
      ensures !alive
      ensures !old(alive) ==> unchanged(this)
    {
      alive := false;
    }

    /** Revives the cell; reviving a live cell changes nothing. */
    method Revive()
      modifies this
      ensures alive
      ensures old(alive) ==> unchanged(this)
    {
      alive := true;
    }

    /** One glyph per cell, a full block exactly when the cell is alive. */
    function ToString(): (s: string)
      reads this
      ensures |s| == 1
      ensures s == LiveGlyph <==> alive
      ensures s == DeadGlyph <==> !alive
    {
      if alive then LiveGlyph else DeadGlyph
    }

    /**
     * Value equality: the same object, or another cell with the same
     * liveness; never null, never an object of another class.
     */
    function Equals(obj: object?): (r: bool)
      reads this, obj
      ensures obj == this ==> r
      ensures obj == null || !(obj is Cell) ==> !r
      ensures obj is Cell ==> (r <==> (obj as Cell).alive == alive)
    {
      if this == obj then true
      else if obj == null || !(obj is Cell) then false
      else alive == (obj as Cell).alive
    }

    /** The hash depends on the liveness only, and tells the two states apart. */
    function HashCode(): (h: int)
      reads this
      ensures h == TrueHash <==> alive
      ensures h == FalseHash <==> !alive
    {
      if alive then TrueHash else FalseHash
    }
  }

  /** Equality of cells is symmetric. */
  lemma EqualsSymmetric(a: Cell, b: Cell)
    ensures a.Equals(b) <==> b.Equals(a)
  {
  }

  /** Equality of cells is transitive. */
  lemma EqualsTransitive(a: Cell, b: Cell, c: Cell)
    requires a.Equals(b) && b.Equals(c)
    ensures a.Equals(c)
  {
  }

  /** Equal cells have equal hash codes. */
  lemma EqualCellsHashAlike(a: Cell, b: object?)
    requires a.Equals(b)
    ensures b is Cell && a.HashCode() == (b as Cell).HashCode()
  {
  }
}
