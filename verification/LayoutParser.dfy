/** The parser's passes over field_info (src/base/ExtentType.cpp:125-212, 505-549), each a loop that writes size, offset
    and bit position into the entries of its group. */
module LayoutParser {
  import opened Bytes
  import opened RecordLayout

  /** The entries of the group among the first n are placed from start on, all others are as before. */
  ghost predicate GroupPlaced(fs: seq<FieldInfo>, now: seq<FieldInfo>, g: Group, start: nat, n: nat) {
    && |now| == |fs|
    && forall i :: 0 <= i < |fs| ==> now[i] == if i < n && GroupOf(fs[i]) == g then PlacedAt(fs, start, i) else fs[i]
  }

  method ParsePackBitFields(info: array<FieldInfo>, pos: nat) returns (pos': nat)
    modifies info
    ensures GroupPlaced(old(info[..]), info[..], BoolGroup, pos, info.Length)
    ensures pos' == pos + Length(old(info[..]), BoolGroup)
  {
    ghost var fs := info[..];
    pos' := pos;
    var bit := 0;
    for i := 0 to info.Length
      invariant GroupPlaced(fs, info[..], BoolGroup, pos, i)
      invariant 0 <= bit < 8 && pos <= pos' && 8 * (pos' - pos) + bit == Before(fs, BoolGroup, i)
    {
      assert info[i] == fs[i];
      if info[i].ftype.FtBool? {
        info[i] := info[i].(size := 1, offset := pos', bitpos := bit);
        bit := bit + 1;
        if bit == 8 {
          pos', bit := pos' + 1, 0;
        }
      }
    }
    if bit > 0 {
      pos' := pos' + 1;
    }
  }

  /** It fails exactly when a fixedwidth field has no size. */
  method ParsePackByteAlignedFields(info: array<FieldInfo>, pos: nat) returns (ok: bool, pos': nat)
    modifies info
    ensures ok <==> AllSized(old(info[..]))
    ensures ok ==> GroupPlaced(old(info[..]), info[..], ByteGroup, pos, info.Length)
    ensures ok ==> pos' == pos + Length(old(info[..]), ByteGroup)
  {
    ghost var fs := info[..];
    pos' := pos;
    for i := 0 to info.Length
      invariant GroupPlaced(fs, info[..], ByteGroup, pos, i)
      invariant pos' == pos + Before(fs, ByteGroup, i)
      invariant forall k :: 0 <= k < i ==> Sized(fs[k])
    {
      assert info[i] == fs[i];
      if info[i].ftype.FtByte? {
        info[i] := info[i].(size := 1, offset := pos');
        pos' := pos' + 1;
      } else if info[i].ftype.FtFixedWidth? {
        if info[i].size <= 0 {
          assert !Sized(fs[i]);
          return false, pos';
        }
        info[i] := info[i].(offset := pos');
        pos' := pos' + info[i].size;
      }
    }
    ok := true;
  }

  /** Every int32 field meets an aligned position: the assertion inside the loop. */
  method ParsePackInt32Fields(info: array<FieldInfo>, pos: nat) returns (pos': nat)
    requires Total(info[..], Int32Group) > 0 ==> pos % 4 == 0
    modifies info
    ensures GroupPlaced(old(info[..]), info[..], Int32Group, pos, info.Length)
    ensures pos' == pos + Length(old(info[..]), Int32Group)
  {
    ghost var fs := info[..];
    pos' := pos;
    for i := 0 to info.Length
      invariant GroupPlaced(fs, info[..], Int32Group, pos, i)
      invariant pos' == pos + Before(fs, Int32Group, i)
    {
      assert info[i] == fs[i];
      if info[i].ftype.FtInt32? {
        BeforeGrows(fs, Int32Group, i, |fs|);
        BeforeAligned(fs, Int32Group, i);
        assert pos' % 4 == 0;
        info[i] := info[i].(size := 4, offset := pos');
        pos' := pos' + 4;
      }
    }
  }

  method ParsePackVar32Fields(info: array<FieldInfo>, pos: nat) returns (pos': nat)
    requires Total(info[..], Var32Group) > 0 ==> pos % 4 == 0
    modifies info
    ensures GroupPlaced(old(info[..]), info[..], Var32Group, pos, info.Length)
    ensures pos' == pos + Length(old(info[..]), Var32Group)
  {
    ghost var fs := info[..];
    pos' := pos;
    for i := 0 to info.Length
      invariant GroupPlaced(fs, info[..], Var32Group, pos, i)
      invariant pos' == pos + Before(fs, Var32Group, i)
    {
      assert info[i] == fs[i];
      if info[i].ftype.FtVariable32? {
        BeforeGrows(fs, Var32Group, i, |fs|);
        BeforeAligned(fs, Var32Group, i);
        assert pos' % 4 == 0;
        info[i] := info[i].(size := 4, offset := pos');
        pos' := pos' + 4;
      }
    }
  }

  method ParsePackSize8Fields(info: array<FieldInfo>, pos: nat) returns (pos': nat)
    requires Total(info[..], EightGroup) > 0 ==> pos % 8 == 0
    modifies info
    ensures GroupPlaced(old(info[..]), info[..], EightGroup, pos, info.Length)
    ensures pos' == pos + Length(old(info[..]), EightGroup)
  {
    ghost var fs := info[..];
    pos' := pos;
    for i := 0 to info.Length
      invariant GroupPlaced(fs, info[..], EightGroup, pos, i)
      invariant pos' == pos + Before(fs, EightGroup, i)
    {
      assert info[i] == fs[i];
      if info[i].ftype.FtInt64? || info[i].ftype.FtDouble? {
        BeforeGrows(fs, EightGroup, i, |fs|);
        BeforeAligned(fs, EightGroup, i);
        assert pos' % 8 == 0;
        info[i] := info[i].(size := 8, offset := pos');
        pos' := pos' + 8;
      }
    }
  }

  // ---------- all passes ----------

  /** The groups of the set are placed where s says, all others are as before. */
  ghost predicate Partly(fs: seq<FieldInfo>, now: seq<FieldInfo>, s: Starts, placed: set<Group>) {
    && |now| == |fs|
    && forall i :: 0 <= i < |fs| ==> now[i] == if GroupOf(fs[i]) in placed then Placed(fs, s, i) else fs[i]
  }

  lemma PartlySame(fs: seq<FieldInfo>, now: seq<FieldInfo>, s: Starts, placed: set<Group>)
    requires Partly(fs, now, s, placed)
    ensures SameKinds(fs, now)
    ensures AllSized(now) <==> AllSized(fs)
    ensures forall g :: Total(now, g) == Total(fs, g) && Length(now, g) == Length(fs, g)
  {
    forall i | 0 <= i < |fs|
      ensures Sized(now[i]) == Sized(fs[i])
    {
    }
    forall g
      ensures Total(now, g) == Total(fs, g)
    {
      BeforeSame(fs, now, g, |fs|);
    }
  }

  /** One more pass. */
  lemma PartlyStep(
      fs: seq<FieldInfo>, now: seq<FieldInfo>, next: seq<FieldInfo>, s: Starts, placed: set<Group>, g: Group)
    requires Partly(fs, now, s, placed) && g !in placed
    requires GroupPlaced(now, next, g, s.Of(g), |now|)
    ensures Partly(fs, next, s, placed + {g})
  {
    PartlySame(fs, now, s, placed);
    forall i | 0 <= i < |fs|
      ensures next[i] == if GroupOf(fs[i]) in placed + {g} then Placed(fs, s, i) else fs[i]
    {
      if GroupOf(fs[i]) == g {
        BeforeSame(fs, now, g, i);
      }
    }
  }

  const ALL_GROUPS: set<Group> := {BoolGroup, ByteGroup, Int32Group, Var32Group, EightGroup}

  /** A pass that has fields to place has to start aligned. */
  predicate StartAligned(fs: seq<FieldInfo>, g: Group, pos: nat) {
    Total(fs, g) > 0 ==>
      && (g.Int32Group? || g.Var32Group? ==> pos % 4 == 0)
      && (g.EightGroup? ==> pos % 8 == 0)
  }

  lemma StartsAligned(fs: seq<FieldInfo>, ordering: Ordering, pad: PadRecord, g: Group)
    ensures StartAligned(fs, g, Layout(fs, ordering, pad).Of(g))
  {
    GroupsAligned(fs, ordering, pad);
  }

  /** The pass for one group. */
  method PlaceGroup(info: array<FieldInfo>, g: Group, pos: nat, ghost fs: seq<FieldInfo>, ghost s: Starts,
                    ghost placed: set<Group>)
    returns (ok: bool, pos': nat)
    requires Partly(fs, info[..], s, placed) && g !in placed && pos == s.Of(g) && StartAligned(fs, g, pos)
    modifies info
    ensures ok <==> (g.ByteGroup? ==> AllSized(fs))
    ensures ok ==> Partly(fs, info[..], s, placed + {g}) && pos' == pos + Length(fs, g)
  {
    ghost var now := info[..];
    PartlySame(fs, now, s, placed);
    ok := true;
    match g {
      case BoolGroup => pos' := ParsePackBitFields(info, pos);
      case ByteGroup => ok, pos' := ParsePackByteAlignedFields(info, pos);
      case Int32Group => pos' := ParsePackInt32Fields(info, pos);
      case Var32Group => pos' := ParsePackVar32Fields(info, pos);
      case EightGroup => pos' := ParsePackSize8Fields(info, pos);
    }
    if ok {
      PartlyStep(fs, now, info[..], s, placed, g);
    }
  }

  /** Small to big: bools, bytes, int32, variable32, 8 byte fields. */
  method AssignSmallToBig(info: array<FieldInfo>, pad: PadRecord, anyFour: bool, anyEight: bool)
    returns (ok: bool, size: nat)
    requires anyFour == AnyFour(info[..]) && anyEight == AnyEight(info[..])
    modifies info
    ensures ok <==> AllSized(old(info[..]))
    ensures ok ==> size == Layout(old(info[..]), SmallToBig, pad).size
    ensures ok ==> Partly(old(info[..]), info[..], Layout(old(info[..]), SmallToBig, pad), ALL_GROUPS)
  {
    ghost var fs := info[..];
    ghost var s := Layout(fs, SmallToBig, pad);
    var pos, done;
    ghost var placed: set<Group> := {};
    StartsAligned(fs, SmallToBig, pad, BoolGroup);
    done, pos := PlaceGroup(info, BoolGroup, 0, fs, s, placed);
    placed := placed + {BoolGroup};
    StartsAligned(fs, SmallToBig, pad, ByteGroup);
    ok, pos := PlaceGroup(info, ByteGroup, pos, fs, s, placed);
    if !ok {
      return ok, pos;
    }
    placed := placed + {ByteGroup};
    if pad.PadOriginal? || anyFour {
      pos := pos + Padding(pos, 4);
    }
    assert pos == s.Of(Int32Group);
    StartsAligned(fs, SmallToBig, pad, Int32Group);
    done, pos := PlaceGroup(info, Int32Group, pos, fs, s, placed);
    placed := placed + {Int32Group};
    StartsAligned(fs, SmallToBig, pad, Var32Group);
    done, pos := PlaceGroup(info, Var32Group, pos, fs, s, placed);
    placed := placed + {Var32Group};
    if pad.PadOriginal? || anyEight {
      pos := pos + Padding(pos, 8);
    }
    assert pos == s.Of(EightGroup);
    StartsAligned(fs, SmallToBig, pad, EightGroup);
    done, size := PlaceGroup(info, EightGroup, pos, fs, s, placed);
    placed := placed + {EightGroup};
    assert placed == ALL_GROUPS;
  }

  /** Big to small: 8 byte fields, int32, variable32, bytes, bools. */
  method AssignBigToSmall(info: array<FieldInfo>, pad: PadRecord, anyFour: bool, anyEight: bool)
    returns (ok: bool, size: nat)
    requires anyFour == AnyFour(info[..]) && anyEight == AnyEight(info[..])
    modifies info
    ensures ok <==> AllSized(old(info[..]))
    ensures ok ==> size == Layout(old(info[..]), BigToSmall, pad).size
    ensures ok ==> Partly(old(info[..]), info[..], Layout(old(info[..]), BigToSmall, pad), ALL_GROUPS)
  {
    ghost var fs := info[..];
    ghost var s := Layout(fs, BigToSmall, pad);
    var pos, done;
    ghost var placed: set<Group> := {};
    StartsAligned(fs, BigToSmall, pad, EightGroup);
    done, pos := PlaceGroup(info, EightGroup, 0, fs, s, placed);
    placed := placed + {EightGroup};
    StartsAligned(fs, BigToSmall, pad, Int32Group);
    done, pos := PlaceGroup(info, Int32Group, pos, fs, s, placed);
    placed := placed + {Int32Group};
    StartsAligned(fs, BigToSmall, pad, Var32Group);
    done, pos := PlaceGroup(info, Var32Group, pos, fs, s, placed);
    placed := placed + {Var32Group};
    StartsAligned(fs, BigToSmall, pad, ByteGroup);
    ok, pos := PlaceGroup(info, ByteGroup, pos, fs, s, placed);
    if !ok {
      return ok, pos;
    }
    placed := placed + {ByteGroup};
    StartsAligned(fs, BigToSmall, pad, BoolGroup);
    done, pos := PlaceGroup(info, BoolGroup, pos, fs, s, placed);
    placed := placed + {BoolGroup};
    assert placed == ALL_GROUPS;
    var align := 1;
    if anyFour {
      align := 4;
    }
    if anyEight || pad.PadOriginal? {
      align := 8;
    }
    size := pos + Padding(pos, align);
  }

  /** All positions of a record.  The position where a pass starts is aligned whenever it has fields to place. */
  method AssignPositions(info: array<FieldInfo>, ordering: Ordering, pad: PadRecord, anyFour: bool, anyEight: bool)
    returns (ok: bool, size: nat)
    requires anyFour == AnyFour(info[..]) && anyEight == AnyEight(info[..])
    modifies info
    ensures ok <==> AllSized(old(info[..]))
    ensures ok ==> size == Layout(old(info[..]), ordering, pad).size
    ensures ok ==> forall i :: 0 <= i < info.Length ==>
      info[i] == Placed(old(info[..]), Layout(old(info[..]), ordering, pad), i)
  {
    ghost var fs := info[..];
    match ordering
    case SmallToBig => ok, size := AssignSmallToBig(info, pad, anyFour, anyEight);
    case BigToSmall => ok, size := AssignBigToSmall(info, pad, anyFour, anyEight);
    assert forall i :: 0 <= i < |fs| ==> GroupOf(fs[i]) in ALL_GROUPS;
  }
}
