/** The cyclic field iterator: a cursor over a pb_field_t table that keeps the address of the current field,
    the address of its count or has_ flag, and the number of required fields passed. */
module FieldIter {

  datatype HType = HRequired | HOptional | HRepeated | HOneof
  datatype AType = Static | Pointer | Callback

  /** pb_field_s. */
  datatype Cell = Cell(tag: nat, htype: HType, atype: AType, extension: bool,
                       dataOffset: nat, sizeOffset: int, dataSize: nat, arraySize: nat)

  /** PB_SIZE_MAX with a 32-bit pb_size_t: the data_offset that marks a later member of a union. */
  const SIZE_MAX: nat := 0xFFFF_FFFF
  const POINTER_SIZE: nat := 8

  /** PB_LAST_FIELD. */
  const LAST_FIELD: Cell := Cell(0, HRequired, Static, false, 0, 0, 0, 0)

  /** A table without its terminator; only the terminator has tag zero. */
  predicate ValidTable(cells: seq<Cell>) {
    forall i | 0 <= i < |cells| :: cells[i].tag != 0
  }

  function At(cells: seq<Cell>, i: nat): Cell {
    if i < |cells| then cells[i] else LAST_FIELD
  }

  /** Bytes the field occupies in the struct. */
  function Span(c: Cell): nat {
    if c.atype.Static? && c.htype.HRepeated? then c.dataSize * c.arraySize
    else if c.atype.Pointer? then POINTER_SIZE
    else c.dataSize
  }

  predicate SharesUnion(prev: Cell, c: Cell) {
    prev.htype.HOneof? && c.htype.HOneof? && c.dataOffset == SIZE_MAX
  }

  /** Address of field `i` of a struct at `base`. */
  function DataAt(cells: seq<Cell>, base: int, i: nat): int {
    if i == 0 then base + At(cells, 0).dataOffset
    else if SharesUnion(At(cells, i - 1), At(cells, i)) then DataAt(cells, base, i - 1)
    else DataAt(cells, base, i - 1) + Span(At(cells, i - 1)) + At(cells, i).dataOffset
  }

  /** Address of the count, has_ flag or which_ member of field `i`. */
  function SizeAt(cells: seq<Cell>, base: int, i: nat): int {
    if i > 0 && SharesUnion(At(cells, i - 1), At(cells, i)) then SizeAt(cells, base, i - 1)
    else DataAt(cells, base, i) + At(cells, i).sizeOffset
  }

  /** Required fields before position `i`. */
  function RequiredAt(cells: seq<Cell>, i: nat): (n: nat)
    ensures n <= i
  {
    if i == 0 then 0 else RequiredAt(cells, i - 1) + if At(cells, i - 1).htype.HRequired? then 1 else 0
  }

  predicate Matches(c: Cell, tag: nat) {
    c.tag == tag && !c.extension
  }

  /** The position `k` steps after `start` in a table of `n` fields. */
  function Turned(start: nat, k: nat, n: nat): nat
    requires start < n && k <= n
  {
    if start + k < n then start + k else start + k - n
  }

  class Iterator {
    const cells: seq<Cell>
    const base: int
    var pos: nat
    var requiredIndex: nat
    var pData: int
    var pSize: int

    /** Everything the iterator holds is determined by the position alone. */
    ghost predicate Valid()
      reads this
    {
      && ValidTable(cells)
      && (pos < |cells| || (cells == [] && pos == 0))
      && requiredIndex == RequiredAt(cells, pos)
      && pData == DataAt(cells, base, pos)
      && pSize == SizeAt(cells, base, pos)
    }

    /** An iterator on which Begin has been called. */
    constructor (cells: seq<Cell>, base: int)
      requires ValidTable(cells)
      ensures Valid() && pos == 0 && this.cells == cells && this.base == base
    {
      this.cells := cells;
      this.base := base;
      pos := 0;
      requiredIndex := 0;
      pData := base + At(cells, 0).dataOffset;
      pSize := base + At(cells, 0).dataOffset + At(cells, 0).sizeOffset;
    }

    /** pb_field_iter_begin. */
    method Begin() returns (more: bool)
      requires ValidTable(cells)
      modifies this
      ensures Valid() && pos == 0
      ensures more <==> cells != []
    {
      pos := 0;
      requiredIndex := 0;
      pData := base + At(cells, pos).dataOffset;
      pSize := pData + At(cells, pos).sizeOffset;
      more := At(cells, pos).tag != 0;
    }

    /** pb_field_iter_next: one step, wrapping from the last field to the first. */
    method Next() returns (more: bool)
      requires Valid()
      modifies this
      ensures Valid()
      ensures more <==> old(pos) + 1 < |cells|
      ensures pos == if old(pos) + 1 < |cells| then old(pos) + 1 else 0
    {
      var prev := At(cells, pos);
      if prev.tag == 0 { return false; }
      pos := pos + 1;
      var cur := At(cells, pos);
      if cur.tag == 0 {
        var _ := Begin();
        return false;
      }
      var prevSize := prev.dataSize;
      if SharesUnion(prev, cur) {
        return true;
      } else if prev.atype.Static? && prev.htype.HRepeated? {
        prevSize := prevSize * prev.arraySize;
      } else if prev.atype.Pointer? {
        prevSize := POINTER_SIZE;
      }
      if prev.htype.HRequired? {
        requiredIndex := requiredIndex + 1;
      }
      pData := pData + prevSize + cur.dataOffset;
      pSize := pData + cur.sizeOffset;
      return true;
    }

    /** pb_field_iter_find: from any position, ends after at most |cells| steps, and finds the tag exactly when some
        non-extension field has it. The field found is the first one met going round; a failed search comes back
        to where it began. An empty table matches only the terminator's own tag zero. */
    method Find(tag: nat) returns (found: bool, ghost steps: nat)
      requires Valid()
      modifies this
      ensures Valid()
      ensures found <==>
              (exists i | 0 <= i < |cells| :: cells[i].tag == tag && !cells[i].extension) || (cells == [] && tag == 0)
      ensures found ==> At(cells, pos).tag == tag && !At(cells, pos).extension
      ensures !found ==> pos == old(pos)
      ensures steps <= if cells == [] then 1 else |cells|
      ensures cells != [] && steps < |cells| ==> pos == Turned(old(pos), steps, |cells|)
      ensures cells != [] ==> forall k: nat | k < steps :: !Matches(cells[Turned(old(pos), k, |cells|)], tag)
    {
      var start := pos;
      steps := 0;
      var going := true;
      while going
        invariant Valid()
        invariant cells == [] ==> pos == 0 && steps <= 1 && (steps == 1 ==> tag != 0)
        invariant cells != [] ==> steps <= |cells| && pos == Turned(start, steps, |cells|)
        invariant going <==> (if cells == [] then steps == 0 else steps < |cells|)
        invariant cells != [] ==> forall k: nat | k < steps :: !Matches(cells[Turned(start, k, |cells|)], tag)
        decreases (if cells == [] then 1 else |cells|) - steps
      {
        if Matches(At(cells, pos), tag) {
          return true, steps;
        }
        var _ := Next();
        steps := steps + 1;
        going := pos != start;
      }
      forall i | 0 <= i < |cells| ensures !Matches(cells[i], tag) {
        var k: nat := if i >= start then i - start else i - start + |cells|;
        assert Turned(start, k, |cells|) == i;
      }
      return false, steps;
    }
  }
}
