/** Where the type parser puts the fields of a record (src/base/ExtentType.cpp:125-212, 505-549): groups of equal width,
    one behind the other, in either ordering and either padding mode. */
module RecordLayout {
  import opened Bytes

  datatype FieldType = FtBool | FtByte | FtInt32 | FtInt64 | FtDouble | FtVariable32 | FtFixedWidth

  /** An entry of field_info; -1 stands for a position not yet assigned and for a missing null field. */
  datatype FieldInfo = FieldInfo(
    name: string, ftype: FieldType, size: int, offset: int, bitpos: int, nullField: int, unique: bool)

  datatype Ordering = SmallToBig | BigToSmall

  datatype PadRecord = PadOriginal | PadMaxColumnSize

  /** The fields that one pass of the parser places. */
  datatype Group = BoolGroup | ByteGroup | Int32Group | Var32Group | EightGroup

  function GroupOf(f: FieldInfo): Group {
    match f.ftype
    case FtBool => BoolGroup
    case FtByte => ByteGroup
    case FtFixedWidth => ByteGroup
    case FtInt32 => Int32Group
    case FtVariable32 => Var32Group
    case FtInt64 => EightGroup
    case FtDouble => EightGroup
  }

  /** The bytes a field takes, and 1 for a bool. */
  function Weight(f: FieldInfo): (w: nat) {
    match f.ftype
    case FtBool => 1
    case FtByte => 1
    case FtFixedWidth => if f.size > 0 then f.size else 0
    case FtInt32 => 4
    case FtVariable32 => 4
    case FtInt64 => 8
    case FtDouble => 8
  }

  /** The alignment a field asks for. */
  function AlignmentOf(f: FieldInfo): (w: nat)
    ensures w == 1 || w == 4 || w == 8
  {
    if f.ftype.FtInt32? || f.ftype.FtVariable32? then 4
    else if f.ftype.FtInt64? || f.ftype.FtDouble? then 8
    else 1
  }

  /** The parser refuses a fixedwidth field without a size. */
  predicate Sized(f: FieldInfo) {
    f.ftype.FtFixedWidth? ==> f.size > 0
  }

  predicate AllSized(fs: seq<FieldInfo>) {
    forall i :: 0 <= i < |fs| ==> Sized(fs[i])
  }

  // ---------- positions inside a group ----------

  /** The weight of the fields of the group among the first n. */
  function Before(fs: seq<FieldInfo>, g: Group, n: nat): (w: nat)
    requires n <= |fs|
  {
    if n == 0 then 0
    else Before(fs, g, n - 1) + if GroupOf(fs[n - 1]) == g then Weight(fs[n - 1]) else 0
  }

  function Total(fs: seq<FieldInfo>, g: Group): nat {
    Before(fs, g, |fs|)
  }

  /** The bytes of a group: eight bools to a byte. */
  function Length(fs: seq<FieldInfo>, g: Group): nat {
    if g.BoolGroup? then (Total(fs, g) + 7) / 8 else Total(fs, g)
  }

  lemma {:induction false} BeforeGrows(fs: seq<FieldInfo>, g: Group, i: nat, n: nat)
    requires i < n <= |fs|
    ensures Before(fs, g, i) + (if GroupOf(fs[i]) == g then Weight(fs[i]) else 0) <= Before(fs, g, n)
    decreases n
  {
    if i < n - 1 {
      BeforeGrows(fs, g, i, n - 1);
    }
  }

  lemma {:induction false} BeforeAligned(fs: seq<FieldInfo>, g: Group, n: nat)
    requires n <= |fs|
    ensures g.Int32Group? || g.Var32Group? ==> Before(fs, g, n) % 4 == 0
    ensures g.EightGroup? ==> Before(fs, g, n) % 8 == 0
  {
    if n > 0 {
      BeforeAligned(fs, g, n - 1);
    }
  }

  /** Placing fields changes neither their types nor their weights. */
  predicate SameKinds(fs: seq<FieldInfo>, now: seq<FieldInfo>) {
    && |fs| == |now|
    && forall i :: 0 <= i < |fs| ==> GroupOf(now[i]) == GroupOf(fs[i]) && Weight(now[i]) == Weight(fs[i])
  }

  lemma {:induction false} BeforeSame(fs: seq<FieldInfo>, now: seq<FieldInfo>, g: Group, n: nat)
    requires SameKinds(fs, now) && n <= |fs|
    ensures Before(fs, g, n) == Before(now, g, n)
  {
    if n > 0 {
      BeforeSame(fs, now, g, n - 1);
    }
  }

  // ---------- the groups ----------

  datatype Starts = Starts(bools: nat, bytes: nat, int32s: nat, var32s: nat, eights: nat, size: nat)
  {
    function Of(g: Group): nat {
      match g
      case BoolGroup => bools
      case ByteGroup => bytes
      case Int32Group => int32s
      case Var32Group => var32s
      case EightGroup => eights
    }
  }

  function PadIf(cond: bool, pos: nat, width: nat): (r: nat)
    requires width == 1 || width == 4 || width == 8
    ensures pos <= r < pos + width
    ensures cond ==> r % width == 0
    ensures pos % width == 0 ==> r == pos
  {
    if cond then pos + Padding(pos, width) else pos
  }

  predicate AnyFour(fs: seq<FieldInfo>) {
    Total(fs, Int32Group) > 0 || Total(fs, Var32Group) > 0
  }

  predicate AnyEight(fs: seq<FieldInfo>) {
    Total(fs, EightGroup) > 0
  }

  function Layout(fs: seq<FieldInfo>, ordering: Ordering, pad: PadRecord): (s: Starts) {
    match ordering
    case SmallToBig =>
      var bytes := Length(fs, BoolGroup);
      var int32s := PadIf(pad.PadOriginal? || AnyFour(fs), bytes + Length(fs, ByteGroup), 4);
      var var32s := int32s + Length(fs, Int32Group);
      var eights := PadIf(pad.PadOriginal? || AnyEight(fs), var32s + Length(fs, Var32Group), 8);
      Starts(0, bytes, int32s, var32s, eights, eights + Length(fs, EightGroup))
    case BigToSmall =>
      var int32s := Length(fs, EightGroup);
      var var32s := int32s + Length(fs, Int32Group);
      var bytes := var32s + Length(fs, Var32Group);
      var bools := bytes + Length(fs, ByteGroup);
      var align := if AnyEight(fs) || pad.PadOriginal? then 8 else if AnyFour(fs) then 4 else 1;
      Starts(bools, bytes, int32s, var32s, 0, PadIf(true, bools + Length(fs, BoolGroup), align))
  }

  /** Groups do not overlap, and all end inside the record. */
  lemma GroupsApart(fs: seq<FieldInfo>, ordering: Ordering, pad: PadRecord, g: Group, h: Group)
    ensures var s := Layout(fs, ordering, pad);
            && s.Of(g) + Length(fs, g) <= s.size
            && (g != h ==> Apart(s.Of(g), Length(fs, g), s.Of(h), Length(fs, h)))
  {
  }

  lemma AlignedSum4(a: nat, b: nat)
    requires a % 4 == 0 && b % 4 == 0
    ensures (a + b) % 4 == 0
  {
  }

  lemma AlignedSum8(a: nat, b: nat)
    requires a % 8 == 0 && b % 8 == 0
    ensures (a + b) % 8 == 0
  {
  }

  lemma EightIsFour(a: nat)
    requires a % 8 == 0
    ensures a % 4 == 0
  {
  }

  lemma PadKeeps4(cond: bool, pos: nat)
    requires pos % 4 == 0
    ensures PadIf(cond, pos, 8) % 4 == 0
  {
  }

  lemma SmallGroupsAligned(fs: seq<FieldInfo>, pad: PadRecord)
    ensures var s := Layout(fs, SmallToBig, pad);
            && (AnyFour(fs) ==> s.int32s % 4 == 0 && s.var32s % 4 == 0 && s.size % 4 == 0)
            && (AnyEight(fs) ==> s.eights % 8 == 0 && s.size % 8 == 0)
            && (pad.PadOriginal? ==> s.size % 8 == 0)
  {
    var s := Layout(fs, SmallToBig, pad);
    BeforeAligned(fs, EightGroup, |fs|);
    if AnyFour(fs) {
      BeforeAligned(fs, Int32Group, |fs|);
      BeforeAligned(fs, Var32Group, |fs|);
      AlignedSum4(s.int32s, Total(fs, Int32Group));
      AlignedSum4(s.var32s, Total(fs, Var32Group));
      PadKeeps4(pad.PadOriginal? || AnyEight(fs), s.var32s + Total(fs, Var32Group));
      EightIsFour(Total(fs, EightGroup));
      AlignedSum4(s.eights, Total(fs, EightGroup));
    }
    if AnyEight(fs) || pad.PadOriginal? {
      AlignedSum8(s.eights, Total(fs, EightGroup));
    }
  }

  lemma BigGroupsAligned(fs: seq<FieldInfo>, pad: PadRecord)
    ensures var s := Layout(fs, BigToSmall, pad);
            && s.int32s % 4 == 0 && s.var32s % 4 == 0 && s.eights == 0
            && (AnyFour(fs) ==> s.size % 4 == 0)
            && (AnyEight(fs) || pad.PadOriginal? ==> s.size % 8 == 0)
  {
    var s := Layout(fs, BigToSmall, pad);
    BeforeAligned(fs, EightGroup, |fs|);
    BeforeAligned(fs, Int32Group, |fs|);
    EightIsFour(s.int32s);
    AlignedSum4(s.int32s, Total(fs, Int32Group));
    if AnyEight(fs) || pad.PadOriginal? {
      EightIsFour(s.size);
    }
  }

  /** A group that is not empty starts aligned, and the record size keeps it so. */
  lemma GroupsAligned(fs: seq<FieldInfo>, ordering: Ordering, pad: PadRecord)
    ensures var s := Layout(fs, ordering, pad);
            && (AnyFour(fs) ==> s.int32s % 4 == 0 && s.var32s % 4 == 0 && s.size % 4 == 0)
            && (AnyEight(fs) ==> s.eights % 8 == 0 && s.size % 8 == 0)
            && (pad.PadOriginal? ==> s.size % 8 == 0)
  {
    if ordering.SmallToBig? {
      SmallGroupsAligned(fs, pad);
    } else {
      BigGroupsAligned(fs, pad);
    }
  }

  // ---------- where a field ends up ----------

  /** The i-th field, placed in a group that starts at start. */
  function PlacedAt(fs: seq<FieldInfo>, start: nat, i: nat): (f: FieldInfo)
    requires i < |fs|
    ensures f.ftype == fs[i].ftype && Weight(f) == Weight(fs[i])
    ensures f.offset >= 0 && f.size >= 0 && (f.ftype.FtBool? ==> 0 <= f.bitpos < 8)
  {
    var before := Before(fs, GroupOf(fs[i]), i);
    if fs[i].ftype.FtBool? then fs[i].(size := 1, offset := start + before / 8, bitpos := before % 8)
    else fs[i].(size := Weight(fs[i]), offset := start + before)
  }

  function Placed(fs: seq<FieldInfo>, s: Starts, i: nat): (f: FieldInfo)
    requires i < |fs|
    ensures f.ftype == fs[i].ftype && f.offset >= 0 && f.size >= 0 && (f.ftype.FtBool? ==> 0 <= f.bitpos < 8)
  {
    PlacedAt(fs, s.Of(GroupOf(fs[i])), i)
  }

  /** The bytes and bits of two fields do not meet. */
  predicate NoOverlap(a: FieldInfo, b: FieldInfo)
    requires a.offset >= 0 && b.offset >= 0 && a.size >= 0 && b.size >= 0
  {
    if a.ftype.FtBool? && b.ftype.FtBool? then a.offset != b.offset || a.bitpos != b.bitpos
    else Apart(a.offset, a.size, b.offset, b.size)
  }

  lemma PlacedInGroup(fs: seq<FieldInfo>, s: Starts, i: nat)
    requires i < |fs|
    ensures var f, g := Placed(fs, s, i), GroupOf(fs[i]);
            && f.size >= 0 && s.Of(g) <= f.offset && f.offset + f.size <= s.Of(g) + Length(fs, g)
            && (f.ftype.FtBool? ==> f.size == 1 && 0 <= f.bitpos < 8)
  {
    BeforeGrows(fs, GroupOf(fs[i]), i, |fs|);
  }

  lemma SameGroupApart(fs: seq<FieldInfo>, s: Starts, i: nat, j: nat)
    requires i < j < |fs| && GroupOf(fs[i]) == GroupOf(fs[j])
    ensures Placed(fs, s, i).offset >= 0 && Placed(fs, s, j).offset >= 0
    ensures Placed(fs, s, i).size >= 0 && Placed(fs, s, j).size >= 0
    ensures NoOverlap(Placed(fs, s, i), Placed(fs, s, j))
    ensures !fs[i].ftype.FtBool? ==> Placed(fs, s, i).offset + Placed(fs, s, i).size <= Placed(fs, s, j).offset
  {
    BeforeGrows(fs, GroupOf(fs[i]), i, j);
    var m, n := Before(fs, GroupOf(fs[i]), i), Before(fs, GroupOf(fs[i]), j);
    if fs[i].ftype.FtBool? && m / 8 == n / 8 {
      assert m % 8 != n % 8;
    }
  }

  lemma DifferentGroupsApart(fs: seq<FieldInfo>, ordering: Ordering, pad: PadRecord, i: nat, j: nat)
    requires i < |fs| && j < |fs| && GroupOf(fs[i]) != GroupOf(fs[j])
    ensures var s := Layout(fs, ordering, pad);
            var a, b := Placed(fs, s, i), Placed(fs, s, j);
            a.offset >= 0 && b.offset >= 0 && a.size >= 0 && b.size >= 0 && Apart(a.offset, a.size, b.offset, b.size)
  {
    var s := Layout(fs, ordering, pad);
    PlacedInGroup(fs, s, i);
    PlacedInGroup(fs, s, j);
    GroupsApart(fs, ordering, pad, GroupOf(fs[i]), GroupOf(fs[j]));
  }

  /** Two fields never share a byte, except bools, which never share a bit. */
  lemma FieldsApart(fs: seq<FieldInfo>, ordering: Ordering, pad: PadRecord, i: nat, j: nat)
    requires i < |fs| && j < |fs| && i != j
    ensures var s := Layout(fs, ordering, pad);
            var a, b := Placed(fs, s, i), Placed(fs, s, j);
            a.offset >= 0 && b.offset >= 0 && a.size >= 0 && b.size >= 0 && NoOverlap(a, b)
  {
    var s := Layout(fs, ordering, pad);
    if GroupOf(fs[i]) != GroupOf(fs[j]) {
      DifferentGroupsApart(fs, ordering, pad, i, j);
    } else if i < j {
      SameGroupApart(fs, s, i, j);
    } else {
      SameGroupApart(fs, s, j, i);
    }
  }

  /** Every field lies inside the record, and a bool has a bit number below 8. */
  lemma FieldInside(fs: seq<FieldInfo>, ordering: Ordering, pad: PadRecord, i: nat)
    requires i < |fs|
    ensures var s := Layout(fs, ordering, pad);
            var f := Placed(fs, s, i);
            && 0 <= f.offset && 0 <= f.size && f.offset + f.size <= s.size
            && (f.ftype.FtBool? ==> 0 <= f.bitpos < 8)
  {
    var s := Layout(fs, ordering, pad);
    PlacedInGroup(fs, s, i);
    GroupsApart(fs, ordering, pad, GroupOf(fs[i]), GroupOf(fs[i]));
  }

  lemma OffsetAligned(fs: seq<FieldInfo>, ordering: Ordering, pad: PadRecord, i: nat)
    requires i < |fs|
    ensures var s, w := Layout(fs, ordering, pad), AlignmentOf(fs[i]);
            Placed(fs, s, i).offset % w == 0 && s.size % w == 0
  {
    var s, g := Layout(fs, ordering, pad), GroupOf(fs[i]);
    BeforeGrows(fs, g, i, |fs|);
    BeforeAligned(fs, g, i);
    GroupsAligned(fs, ordering, pad);
    if AlignmentOf(fs[i]) == 4 {
      AlignedSum4(s.Of(g), Before(fs, g, i));
    } else if AlignmentOf(fs[i]) == 8 {
      AlignedSum8(s.Of(g), Before(fs, g, i));
    }
  }

  lemma {:induction false} AlignedInArray(size: nat, off: nat, w: nat, k: nat)
    requires (w == 1 || w == 4 || w == 8) && off % w == 0 && size % w == 0
    ensures (k * size + off) % w == 0
    decreases k
  {
    if k > 0 {
      AlignedInArray(size, off, w, k - 1);
      var at := (k - 1) * size + off;
      assert k * size + off == at + size;
      if w == 4 {
        AlignedSum4(at, size);
      } else if w == 8 {
        AlignedSum8(at, size);
      }
    }
  }

  /** In every record of an array, 4 and 8 byte fields are aligned. */
  lemma FieldAlignedInArray(fs: seq<FieldInfo>, ordering: Ordering, pad: PadRecord, i: nat, k: nat)
    requires i < |fs|
    ensures var s := Layout(fs, ordering, pad);
            (k * s.size + Placed(fs, s, i).offset) % AlignmentOf(fs[i]) == 0
  {
    var s := Layout(fs, ordering, pad);
    OffsetAligned(fs, ordering, pad, i);
    FieldInside(fs, ordering, pad, i);
    AlignedInArray(s.size, Placed(fs, s, i).offset, AlignmentOf(fs[i]), k);
  }

  // ---------- no byte more than alignment asks for ----------

  /** The bytes of all fields. */
  function Content(fs: seq<FieldInfo>): nat {
    Length(fs, BoolGroup) + Length(fs, ByteGroup) + Length(fs, Int32Group) + Length(fs, Var32Group)
      + Length(fs, EightGroup)
  }

  /** What the record size is a multiple of: the widest field, or always 8 in the original mode. */
  function RecordAlignment(fs: seq<FieldInfo>, pad: PadRecord): (w: nat)
    ensures w == 1 || w == 4 || w == 8
  {
    if pad.PadOriginal? || AnyEight(fs) then 8 else if AnyFour(fs) then 4 else 1
  }

  /** Padding first to a multiple of 4 costs nothing, when a multiple of 8 is wanted behind 4-byte fields. */
  lemma TwoPads(front: nat, fours: nat, eights: nat, cond: bool)
    requires fours % 4 == 0 && eights % 8 == 0
    ensures var size := PadIf(true, PadIf(cond, front, 4) + fours, 8) + eights;
            size % 8 == 0 && front + fours + eights <= size < front + fours + eights + 8
  {
    var a := PadIf(cond, front, 4);
    var b := PadIf(true, a + fours, 8);
    AlignedSum8(b, eights);
    if cond {
      AlignedSum4(a, fours);
      EightIsFour(b);
      FourApart(a + fours, b);
    }
  }

  lemma FourApart(a: nat, b: nat)
    requires a % 4 == 0 && b % 4 == 0 && a <= b < a + 8
    ensures b == a || b == a + 4
  {
  }

  lemma NoneOfGroup(fs: seq<FieldInfo>)
    ensures !AnyEight(fs) ==> Length(fs, EightGroup) == 0
    ensures !AnyFour(fs) ==> Length(fs, Int32Group) == 0 && Length(fs, Var32Group) == 0
  {
  }

  lemma SmallestFromSmall(fs: seq<FieldInfo>, pad: PadRecord)
    ensures var size, w := Layout(fs, SmallToBig, pad).size, RecordAlignment(fs, pad);
            size % w == 0 && Content(fs) <= size < Content(fs) + w
  {
    var fours, eights := Length(fs, Int32Group) + Length(fs, Var32Group), Length(fs, EightGroup);
    var front := Length(fs, BoolGroup) + Length(fs, ByteGroup);
    BeforeAligned(fs, Int32Group, |fs|);
    BeforeAligned(fs, Var32Group, |fs|);
    BeforeAligned(fs, EightGroup, |fs|);
    AlignedSum4(Length(fs, Int32Group), Length(fs, Var32Group));
    NoneOfGroup(fs);
    if pad.PadOriginal? || AnyEight(fs) {
      TwoPads(front, fours, eights, pad.PadOriginal? || AnyFour(fs));
    } else if AnyFour(fs) {
      AlignedSum4(PadIf(true, front, 4), fours);
    }
  }

  /** In either ordering and either mode: the record is the smallest one that holds all fields and whose size is a multiple
      of the alignment. */
  lemma SmallestRecord(fs: seq<FieldInfo>, ordering: Ordering, pad: PadRecord)
    ensures var size, w := Layout(fs, ordering, pad).size, RecordAlignment(fs, pad);
            size % w == 0 && Content(fs) <= size < Content(fs) + w
  {
    if ordering.SmallToBig? {
      SmallestFromSmall(fs, pad);
    }
  }

  // ---------- the order of the fields ----------

  /** Which pass places the group. */
  function Pass(g: Group, ordering: Ordering): nat {
    match (ordering, g)
    case (SmallToBig, BoolGroup) => 0
    case (SmallToBig, ByteGroup) => 1
    case (SmallToBig, Int32Group) => 2
    case (SmallToBig, Var32Group) => 3
    case (SmallToBig, EightGroup) => 4
    case (BigToSmall, EightGroup) => 0
    case (BigToSmall, Int32Group) => 1
    case (BigToSmall, Var32Group) => 2
    case (BigToSmall, ByteGroup) => 3
    case (BigToSmall, BoolGroup) => 4
  }

  lemma PassesInOrder(fs: seq<FieldInfo>, ordering: Ordering, pad: PadRecord, g: Group, h: Group)
    requires Pass(g, ordering) < Pass(h, ordering)
    ensures var s := Layout(fs, ordering, pad);
            s.Of(g) + Length(fs, g) <= s.Of(h)
  {
  }

  /** Fields stand in the order of the passes, bools and bytes first or last, and within a pass in the order of their
      declarations; of two bools, the one declared first has the lower bit. */
  lemma {:induction false} FieldsInOrder(fs: seq<FieldInfo>, ordering: Ordering, pad: PadRecord, i: nat, j: nat)
    requires i < |fs| && j < |fs|
    requires var g, h := GroupOf(fs[i]), GroupOf(fs[j]);
             Pass(g, ordering) < Pass(h, ordering) || (g == h && i < j)
    ensures var s := Layout(fs, ordering, pad);
            var a, b := Placed(fs, s, i), Placed(fs, s, j);
            if a.ftype.FtBool? && b.ftype.FtBool? then 8 * a.offset + a.bitpos < 8 * b.offset + b.bitpos
            else a.offset + a.size <= b.offset
  {
    var s := Layout(fs, ordering, pad);
    var g, h := GroupOf(fs[i]), GroupOf(fs[j]);
    if g == h {
      SameGroupApart(fs, s, i, j);
      BeforeGrows(fs, g, i, j);
    } else {
      PassesInOrder(fs, ordering, pad, g, h);
      PlacedInGroup(fs, s, i);
      PlacedInGroup(fs, s, j);
    }
  }
}
