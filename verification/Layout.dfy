/** The struct behind a field table. The macros of the descriptor turn the absolute place of each member into distances
    between neighbours; the field iterator adds the distances up again. */
module Layout {
  import opened FieldIter

  /** A member of the struct as the compiler lays it out: where it begins, the size of one element, how many there are,
      and where its has_ flag, count or which_ tag is. `follows` marks a later member of the union of the one before. */
  datatype Member = Member(tag: nat, htype: HType, atype: AType, extension: bool, offset: nat, element: nat, count: nat,
                           sizePlace: int, follows: bool)

  /** sizeof the member: all of a static array, eight bytes of a pointer. */
  function SizeOf(m: Member): nat {
    match m.atype
    case Static => if m.htype.HRepeated? then m.element * m.count else m.element
    case Pointer => 8
    case Callback => m.element
  }

  /** PB_DATAOFFSET_FIRST, PB_DATAOFFSET_OTHER and PB_DATAOFFSET_UNION, and pb_delta to the has_ flag, count or tag. */
  function CellOf(members: seq<Member>, i: nat): Cell
    requires i < |members| && Laid(members, i)
  {
    var m := members[i];
    Cell(m.tag, m.htype, m.atype, m.extension,
         if i == 0 then m.offset
         else if m.follows then 0xFFFF_FFFF
         else m.offset - members[i - 1].offset - SizeOf(members[i - 1]),
         m.sizePlace - m.offset, m.element, m.count)
  }

  /** Member `i` lies behind the one before it, with less than 4 GB of padding, or shares its union and tag. */
  predicate Laid(members: seq<Member>, i: nat)
    requires i < |members|
  {
    var m := members[i];
    if i == 0 then !m.follows
    else
      var prev := members[i - 1];
      if m.follows then
        m.htype.HOneof? && prev.htype.HOneof? && m.offset == prev.offset && m.sizePlace == prev.sizePlace
      else 0 <= m.offset - prev.offset - SizeOf(prev) < 0xFFFF_FFFF
  }

  predicate AllLaid(members: seq<Member>) {
    forall i | 0 <= i < |members| :: Laid(members, i)
  }

  function Table(members: seq<Member>): (cells: seq<Cell>)
    requires AllLaid(members)
    ensures |cells| == |members|
  {
    seq(|members|, i requires 0 <= i < |members| => CellOf(members, i))
  }

  lemma SpanIsSize(members: seq<Member>, i: nat)
    requires i < |members| && AllLaid(members)
    ensures Span(At(Table(members), i)) == SizeOf(members[i])
  {}

  lemma SharesIff(members: seq<Member>, i: nat)
    requires 0 < i < |members| && AllLaid(members)
    ensures SharesUnion(At(Table(members), i - 1), At(Table(members), i)) <==> members[i].follows
  {
    assert Laid(members, i);
    assert At(Table(members), i) == CellOf(members, i) && At(Table(members), i - 1) == CellOf(members, i - 1);
  }

  /** Wherever the struct stands, the addresses the iterator keeps for a field are those of its member and of the
      member's has_ flag, count or tag. */
  lemma {:induction false} AddressesAreMembers(members: seq<Member>, base: int, i: nat)
    requires i < |members| && AllLaid(members)
    ensures DataAt(Table(members), base, i) == base + members[i].offset
    ensures SizeAt(Table(members), base, i) == base + members[i].sizePlace
    decreases i
  {
    if i > 0 {
      hide SharesUnion, Span, SizeOf;
      AddressesAreMembers(members, base, i - 1);
      SpanIsSize(members, i - 1);
      SharesIff(members, i);
      assert Laid(members, i);
    }
  }

  /** The required members in front of a position. */
  function RequiredIn(members: seq<Member>, i: nat): set<nat> {
    set j | 0 <= j < i && j < |members| && members[j].htype.HRequired?
  }

  lemma RequiredNext(members: seq<Member>, i: nat)
    requires i < |members|
    ensures |RequiredIn(members, i + 1)| ==
            |RequiredIn(members, i)| + if members[i].htype.HRequired? then 1 else 0
  {
    var s := RequiredIn(members, i);
    assert RequiredIn(members, i + 1) == if members[i].htype.HRequired? then s + {i} else s;
  }

  /** The index of required fields counts those before the position. */
  lemma {:induction false} RequiredCounts(members: seq<Member>, i: nat)
    requires i <= |members| && AllLaid(members)
    ensures RequiredAt(Table(members), i) == |RequiredIn(members, i)|
    decreases i
  {
    hide RequiredIn, Laid;
    if i > 0 {
      RequiredCounts(members, i - 1);
      RequiredNext(members, i - 1);
      assert At(Table(members), i - 1).htype == members[i - 1].htype;
    } else {
      assert RequiredIn(members, 0) == {} by { NoneBefore(members); }
    }
  }

  lemma NoneBefore(members: seq<Member>)
    ensures RequiredIn(members, 0) == {}
  {}
}
