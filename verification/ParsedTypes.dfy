/** The null compaction lists and bool_bytes (src/base/ExtentType.cpp:115-123, 551-603), and the theorem that the codec's
    layout assumptions hold for every type the parser produces. */
module ParsedTypes {
  import opened Bytes
  import opened RecordLayout
  import opened TypeParser
  import RF = RecordFormat

  // ---------- fields as the codec sees them ----------

  function NullBitOf(info: seq<FieldInfo>, s: Starts, i: nat): Option<RF.NullBit>
    requires i < |info|
  {
    var nf := info[i].nullField;
    if 0 < nf < |info| && info[nf].ftype.FtBool? then
      Some(RF.NullBit(Placed(info, s, nf).offset, Placed(info, s, nf).bitpos))
    else None
  }

  function FieldAt(info: seq<FieldInfo>, s: Starts, i: nat): RF.Field
    requires i < |info|
  {
    RF.Field(Placed(info, s, i).offset, Placed(info, s, i).size, NullBitOf(info, s, i))
  }

  /** A column that is neither a bool nor of fixed width. */
  predicate IsWord(f: FieldInfo) {
    !f.ftype.FtBool? && !f.ftype.FtFixedWidth?
  }

  /** The fields of a group among the first n, in declaration order. */
  function Pick(info: seq<FieldInfo>, s: Starts, g: Group, n: nat): (r: seq<RF.Field>)
    requires n <= |info|
  {
    if n == 0 then []
    else
      var rest := Pick(info, s, g, n - 1);
      if GroupOf(info[n - 1]) == g && IsWord(info[n - 1]) then rest + [FieldAt(info, s, n - 1)] else rest
  }

  lemma {:induction false} PickHas(info: seq<FieldInfo>, s: Starts, g: Group, n: nat, i: nat)
    requires i < n <= |info| && GroupOf(info[i]) == g && IsWord(info[i])
    ensures FieldAt(info, s, i) in Pick(info, s, g, n)
  {
    if i < n - 1 {
      PickHas(info, s, g, n - 1, i);
    }
  }

  lemma {:induction false} PickFrom(info: seq<FieldInfo>, s: Starts, g: Group, n: nat, f: RF.Field) returns (i: nat)
    requires n <= |info| && f in Pick(info, s, g, n)
    ensures i < n && GroupOf(info[i]) == g && IsWord(info[i]) && f == FieldAt(info, s, i)
    ensures s.Of(g) <= f.offset && f.offset + f.width <= s.Of(g) + Before(info, g, n)
  {
    if GroupOf(info[n - 1]) == g && IsWord(info[n - 1]) && f == FieldAt(info, s, n - 1) {
      i := n - 1;
    } else {
      i := PickFrom(info, s, g, n - 1, f);
    }
  }

  /** A run of fields in which each one ends before the next one starts. */
  ghost predicate Rising(fs: seq<RF.Field>, lo: nat, hi: nat) {
    && (forall i :: 0 <= i < |fs| ==> lo <= fs[i].offset && fs[i].offset + fs[i].width <= hi)
    && (forall i, j :: 0 <= i < j < |fs| ==> fs[i].offset + fs[i].width <= fs[j].offset)
  }

  lemma RisingJoin(a: seq<RF.Field>, b: seq<RF.Field>, lo: nat, mid: nat, start: nat, hi: nat)
    requires Rising(a, lo, mid) && Rising(b, start, hi) && lo <= mid <= start <= hi
    ensures Rising(a + b, lo, hi)
  {
    var c := a + b;
    forall i, j | 0 <= i < j < |c|
      ensures c[i].offset + c[i].width <= c[j].offset
    {
      if i < |a| <= j {
        assert c[i] == a[i] && c[j] == b[j - |a|];
      }
    }
  }

  lemma {:induction false} PickRising(info: seq<FieldInfo>, s: Starts, g: Group, n: nat)
    requires n <= |info|
    ensures Rising(Pick(info, s, g, n), s.Of(g), s.Of(g) + Before(info, g, n))
  {
    if n > 0 {
      PickRising(info, s, g, n - 1);
      if GroupOf(info[n - 1]) == g && IsWord(info[n - 1]) {
        var at := s.Of(g) + Before(info, g, n - 1);
        RisingJoin(Pick(info, s, g, n - 1), [FieldAt(info, s, n - 1)], s.Of(g), at, at, s.Of(g) + Before(info, g, n));
      }
    }
  }

  // ---------- sorting the lists by position ----------

  /** nonbool_compact_info_size4 as it is filled: int32 and variable32 fields in declaration order. */
  function PickFour(info: seq<FieldInfo>, s: Starts, n: nat): (r: seq<RF.Field>)
    requires n <= |info|
  {
    if n == 0 then []
    else
      var rest := PickFour(info, s, n - 1);
      if info[n - 1].ftype.FtInt32? || info[n - 1].ftype.FtVariable32? then rest + [FieldAt(info, s, n - 1)] else rest
  }

  /** The same field is new in the common list and in one of the two lists, or none is. */
  ghost predicate OneMore(
      p: seq<RF.Field>, a: seq<RF.Field>, b: seq<RF.Field>, p': seq<RF.Field>, a': seq<RF.Field>, b': seq<RF.Field>,
      f: RF.Field)
  {
    || (p' == p && a' == a && b' == b)
    || (p' == p + [f] && a' == a + [f] && b' == b)
    || (p' == p + [f] && a' == a && b' == b + [f])
  }

  lemma AppendToEither(
      p: seq<RF.Field>, a: seq<RF.Field>, b: seq<RF.Field>, p': seq<RF.Field>, a': seq<RF.Field>, b': seq<RF.Field>,
      f: RF.Field)
    requires multiset(p) == multiset(a + b) && OneMore(p, a, b, p', a', b', f)
    ensures multiset(p') == multiset(a' + b')
  {
    assert multiset(a' + b') == multiset(a') + multiset(b');
    assert multiset(a + b) == multiset(a) + multiset(b);
  }

  lemma PickStep(info: seq<FieldInfo>, s: Starts, n: nat)
    requires 0 < n <= |info|
    ensures OneMore(PickFour(info, s, n - 1), Pick(info, s, Int32Group, n - 1), Pick(info, s, Var32Group, n - 1),
                    PickFour(info, s, n), Pick(info, s, Int32Group, n), Pick(info, s, Var32Group, n),
                    FieldAt(info, s, n - 1))
  {
  }

  lemma {:induction false} PickFourIsBoth(info: seq<FieldInfo>, s: Starts, n: nat)
    requires n <= |info|
    ensures multiset(PickFour(info, s, n)) == multiset(Pick(info, s, Int32Group, n) + Pick(info, s, Var32Group, n))
  {
    if n > 0 {
      PickFourIsBoth(info, s, n - 1);
      PickStep(info, s, n);
      AppendToEither(PickFour(info, s, n - 1), Pick(info, s, Int32Group, n - 1), Pick(info, s, Var32Group, n - 1),
                     PickFour(info, s, n), Pick(info, s, Int32Group, n), Pick(info, s, Var32Group, n),
                     FieldAt(info, s, n - 1));
    }
  }

  /** In ascending order of position: what sort leaves. */
  ghost predicate SortedByOffset(fs: seq<RF.Field>) {
    forall i, j :: 0 <= i < j < |fs| ==> fs[i].offset <= fs[j].offset
  }

  ghost predicate StrictlyByOffset(fs: seq<RF.Field>) {
    forall i, j :: 0 <= i < j < |fs| ==> fs[i].offset < fs[j].offset
  }

  lemma SortedFront(a: seq<RF.Field>)
    requires a != []
    ensures SortedByOffset(a) ==> SortedByOffset(a[..|a| - 1])
    ensures StrictlyByOffset(a) ==> StrictlyByOffset(a[..|a| - 1])
  {
  }

  lemma SameLength(a: seq<RF.Field>, b: seq<RF.Field>)
    requires multiset(a) == multiset(b)
    ensures |a| == |b|
  {
    assert |multiset(a)| == |a| && |multiset(b)| == |b|;
  }

  lemma SameLast(a: seq<RF.Field>, b: seq<RF.Field>)
    requires a != [] && |a| == |b| && multiset(a) == multiset(b) && SortedByOffset(a)
    requires StrictlyByOffset(b)
    ensures a[|a| - 1] == b[|b| - 1]
  {
    var x, y := a[|a| - 1], b[|b| - 1];
    assert x in multiset(a) && y in multiset(b);
    var i :| 0 <= i < |b| && b[i] == x;
    var j :| 0 <= j < |a| && a[j] == y;
    assert y.offset <= x.offset;
  }

  lemma SplitLast(a: seq<RF.Field>)
    requires a != []
    ensures multiset(a[..|a| - 1]) == multiset(a) - multiset{a[|a| - 1]}
  {
    assert a == a[..|a| - 1] + [a[|a| - 1]];
  }

  lemma JoinLast(a: seq<RF.Field>, b: seq<RF.Field>)
    requires a != [] && |a| == |b| && a[..|a| - 1] == b[..|b| - 1] && a[|a| - 1] == b[|b| - 1]
    ensures a == b
  {
    assert a == a[..|a| - 1] + [a[|a| - 1]];
    assert b == b[..|b| - 1] + [b[|b| - 1]];
  }

  /** Only one order of distinct positions is sorted. */
  lemma {:induction false} SortedUnique(a: seq<RF.Field>, b: seq<RF.Field>)
    requires multiset(a) == multiset(b) && SortedByOffset(a)
    requires StrictlyByOffset(b)
    ensures a == b
    decreases |a|
  {
    SameLength(a, b);
    if a != [] {
      var x, y := a[..|a| - 1], b[..|b| - 1];
      SameLast(a, b);
      SplitLast(a);
      SplitLast(b);
      SortedFront(a);
      SortedFront(b);
      assert multiset(x) == multiset(y);
      SortedUnique(x, y);
      JoinLast(a, b);
    }
  }

  /** sortAssignNCI puts all int32 fields in front of all variable32 fields, whatever order the sort finds equal
      positions in: there are none. */
  lemma {:induction false} SortAssign(info: seq<FieldInfo>, ordering: Ordering, pad: PadRecord, sorted: seq<RF.Field>)
    requires var s := Layout(info, ordering, pad);
             multiset(sorted) == multiset(PickFour(info, s, |info|)) && SortedByOffset(sorted)
    ensures var s := Layout(info, ordering, pad);
            sorted == Pick(info, s, Int32Group, |info|) + Pick(info, s, Var32Group, |info|)
  {
    var s := Layout(info, ordering, pad);
    var a, b := Pick(info, s, Int32Group, |info|), Pick(info, s, Var32Group, |info|);
    PickFourIsBoth(info, s, |info|);
    FourRising(info, ordering, pad);
    var both: seq<RF.Field> := a + b;
    forall i | 0 <= i < |both|
      ensures both[i].width == 4
    {
      if i < |a| {
        var k := PickFrom(info, s, Int32Group, |info|, a[i]);
      } else {
        var k := PickFrom(info, s, Var32Group, |info|, b[i - |a|]);
      }
    }
    SortedUnique(sorted, both);
  }

  lemma FourRising(info: seq<FieldInfo>, ordering: Ordering, pad: PadRecord)
    ensures var s := Layout(info, ordering, pad);
            Rising(Pick(info, s, Int32Group, |info|) + Pick(info, s, Var32Group, |info|), s.int32s,
                   s.var32s + Total(info, Var32Group))
  {
    var s := Layout(info, ordering, pad);
    PickRising(info, s, Int32Group, |info|);
    PickRising(info, s, Var32Group, |info|);
    RisingJoin(Pick(info, s, Int32Group, |info|), Pick(info, s, Var32Group, |info|), s.int32s, s.var32s, s.var32s,
               s.var32s + Total(info, Var32Group));
  }

  // ---------- the bytes that hold bools ----------

  /** One more than the last byte with a bool in it. */
  method BoolBytes(info: array<FieldInfo>) returns (n: nat)
    requires forall i :: 0 <= i < info.Length && info[i].ftype.FtBool? ==> info[i].offset >= 0
    ensures forall i :: 0 <= i < info.Length && info[i].ftype.FtBool? ==> info[i].offset < n
    ensures n > 0 ==> exists i :: 0 <= i < info.Length && info[i].ftype.FtBool? && info[i].offset == n - 1
  {
    n := 0;
    for i := 0 to info.Length
      invariant forall k :: 0 <= k < i && info[k].ftype.FtBool? ==> info[k].offset < n
      invariant n > 0 ==> exists k :: 0 <= k < i && info[k].ftype.FtBool? && info[k].offset == n - 1
    {
      if info[i].ftype.FtBool? && info[i].offset + 1 > n {
        n := info[i].offset + 1;
      }
    }
  }

  /** The number that BoolBytes computes. */
  ghost predicate IsBoolBytes(info: seq<FieldInfo>, s: Starts, n: nat) {
    && (forall i :: 0 <= i < |info| && info[i].ftype.FtBool? ==> Placed(info, s, i).offset < n)
    && (n > 0 ==> exists i :: 0 <= i < |info| && info[i].ftype.FtBool? && Placed(info, s, i).offset == n - 1)
  }

  lemma {:induction false} LastBool(info: seq<FieldInfo>, n: nat) returns (i: nat)
    requires n <= |info| && Before(info, BoolGroup, n) > 0
    ensures i < n && info[i].ftype.FtBool? && Before(info, BoolGroup, i) == Before(info, BoolGroup, n) - 1
  {
    if info[n - 1].ftype.FtBool? {
      i := n - 1;
    } else {
      i := LastBool(info, n - 1);
    }
  }

  /** Small to big, the bool bytes are exactly the front of the record that only bools use. */
  lemma BoolBytesIsPrefix(info: seq<FieldInfo>, pad: PadRecord, n: nat)
    requires IsBoolBytes(info, Layout(info, SmallToBig, pad), n)
    ensures n == Length(info, BoolGroup) == Layout(info, SmallToBig, pad).bytes
  {
    var s := Layout(info, SmallToBig, pad);
    if Total(info, BoolGroup) > 0 {
      var last := LastBool(info, |info|);
      assert Placed(info, s, last).offset == (Total(info, BoolGroup) - 1) / 8;
    }
    if n > 0 {
      var i :| 0 <= i < |info| && info[i].ftype.FtBool? && Placed(info, s, i).offset == n - 1;
      PlacedInGroup(info, s, i);
    }
  }

  // ---------- the parsed type ----------

  /** The fields the codec works on: no relative packing of doubles, and with null compaction no fixedwidth field. */
  predicate Covered(p: Parsed, compact: bool) {
    && (forall i :: 0 <= i < |p.selfs| ==> p.selfs[i] < |p.info| && !p.info[p.selfs[i]].ftype.FtDouble?)
    && (forall i :: 0 <= i < |p.others| ==>
          p.others[i].field < |p.info| && p.others[i].base < |p.info| && !p.info[p.others[i].field].ftype.FtDouble?)
    && (forall i :: 0 <= i < |p.vars| ==> p.vars[i] < |p.info|)
    && (compact ==> forall i :: 0 <= i < |p.info| ==> !p.info[i].ftype.FtFixedWidth?)
  }

  function VarsOf(p: Parsed, s: Starts): (r: seq<RF.VarColumn>)
    requires forall i :: 0 <= i < |p.vars| ==> p.vars[i] < |p.info|
  {
    seq(|p.vars|, k requires 0 <= k < |p.vars| =>
          RF.VarColumn(FieldAt(p.info, s, p.vars[k]), p.info[p.vars[k]].unique))
  }

  function OthersOf(p: Parsed, s: Starts): (r: seq<RF.Relative>)
    requires forall i :: 0 <= i < |p.others| ==> p.others[i].field < |p.info| && p.others[i].base < |p.info|
  {
    seq(|p.others|, k requires 0 <= k < |p.others| =>
          RF.Relative(FieldAt(p.info, s, p.others[k].field), FieldAt(p.info, s, p.others[k].base)))
  }

  function SelfsOf(p: Parsed, s: Starts): (r: seq<RF.Field>)
    requires forall i :: 0 <= i < |p.selfs| ==> p.selfs[i] < |p.info|
  {
    seq(|p.selfs|, k requires 0 <= k < |p.selfs| => FieldAt(p.info, s, p.selfs[k]))
  }

  function TypeOf(p: Parsed, ordering: Ordering, pad: PadRecord, boolBytes: nat, compact: bool): RF.RecordType
    requires Covered(p, compact)
  {
    var s, n := Layout(p.info, ordering, pad), |p.info|;
    RF.RecordType(s.size, boolBytes,
                  Pick(p.info, s, ByteGroup, n),
                  Pick(p.info, s, Int32Group, n) + Pick(p.info, s, Var32Group, n),
                  Pick(p.info, s, EightGroup, n),
                  compact, VarsOf(p, s), OthersOf(p, s), SelfsOf(p, s))
  }

  /** Everything the theorem needs about a parse: what ParsedWell and BoolBytes give. */
  ghost predicate Parse(p: Parsed, ordering: Ordering, pad: PadRecord, boolBytes: nat, compact: bool) {
    && WellParsed(p) && AllSized(p.info) && Covered(p, compact)
    && IsBoolBytes(p.info, Layout(p.info, ordering, pad), boolBytes)
    && (compact ==> ordering.SmallToBig? && boolBytes > 0)
  }

  lemma FieldsHas(p: Parsed, ordering: Ordering, pad: PadRecord, boolBytes: nat, compact: bool, i: nat)
    requires Covered(p, compact) && i < |p.info| && IsWord(p.info[i])
    ensures FieldAt(p.info, Layout(p.info, ordering, pad), i) in TypeOf(p, ordering, pad, boolBytes, compact).fields
  {
    PickHas(p.info, Layout(p.info, ordering, pad), GroupOf(p.info[i]), |p.info|, i);
  }

  lemma FieldsFrom(p: Parsed, ordering: Ordering, pad: PadRecord, boolBytes: nat, compact: bool, f: RF.Field)
    returns (i: nat)
    requires Covered(p, compact) && f in TypeOf(p, ordering, pad, boolBytes, compact).fields
    ensures i < |p.info| && IsWord(p.info[i]) && f == FieldAt(p.info, Layout(p.info, ordering, pad), i)
  {
    var s, n, t := Layout(p.info, ordering, pad), |p.info|, TypeOf(p, ordering, pad, boolBytes, compact);
    if f in t.size1 {
      i := PickFrom(p.info, s, ByteGroup, n, f);
    } else if f in t.size8 {
      i := PickFrom(p.info, s, EightGroup, n, f);
    } else if f in Pick(p.info, s, Int32Group, n) {
      i := PickFrom(p.info, s, Int32Group, n, f);
    } else {
      i := PickFrom(p.info, s, Var32Group, n, f);
    }
  }

  /** A null bit is the bit of a bool of the same type. */
  lemma NullBitPlace(p: Parsed, ordering: Ordering, pad: PadRecord, i: nat)
    requires WellParsed(p) && i < |p.info|
    ensures var s := Layout(p.info, ordering, pad);
            var b := NullBitOf(p.info, s, i);
            b.Some? ==>
              && i + 1 < |p.info| && p.info[i + 1].ftype.FtBool?
              && b.value == RF.NullBit(Placed(p.info, s, i + 1).offset, Placed(p.info, s, i + 1).bitpos)
              && b.value.offset < s.size && b.value.bit < 8
  {
    assert NullFollows(p.info, i);
    if p.info[i].nullField == i + 1 {
      FieldInside(p.info, ordering, pad, i + 1);
    }
  }

  /** One field lies inside the record, its null bit too; with null compaction it is behind the bools. */
  lemma FieldSound(p: Parsed, ordering: Ordering, pad: PadRecord, boolBytes: nat, compact: bool, i: nat)
    requires Parse(p, ordering, pad, boolBytes, compact) && i < |p.info| && IsWord(p.info[i])
    ensures var t, f := TypeOf(p, ordering, pad, boolBytes, compact), FieldAt(p.info, Layout(p.info, ordering, pad), i);
            t.FieldFits(f) && (compact ==> t.BehindBools(f))
  {
    var s := Layout(p.info, ordering, pad);
    FieldInside(p.info, ordering, pad, i);
    NullBitPlace(p, ordering, pad, i);
    if compact {
      BoolBytesIsPrefix(p.info, pad, boolBytes);
      PlacedInGroup(p.info, s, i);
    }
  }

  /** Different columns are apart, no column covers a null bit. */
  lemma ColumnsApart(p: Parsed, ordering: Ordering, pad: PadRecord, i: nat, j: nat)
    requires WellParsed(p) && i < |p.info| && IsWord(p.info[i]) && j < |p.info| && IsWord(p.info[j])
    ensures var s := Layout(p.info, ordering, pad);
            var f, g := FieldAt(p.info, s, i), FieldAt(p.info, s, j);
            && (i != j ==> f != g && Apart(f.offset, f.width, g.offset, g.width))
            && (g.nullAt.Some? ==> Apart(f.offset, f.width, g.nullAt.value.offset, 1))
  {
    if i != j {
      FieldsApart(p.info, ordering, pad, i, j);
    }
    NullBitPlace(p, ordering, pad, j);
    if j + 1 < |p.info| && i != j + 1 {
      FieldsApart(p.info, ordering, pad, i, j + 1);
    }
  }

  lemma VarsInFields(p: Parsed, ordering: Ordering, pad: PadRecord, boolBytes: nat, compact: bool)
    requires Parse(p, ordering, pad, boolBytes, compact)
    ensures var t := TypeOf(p, ordering, pad, boolBytes, compact);
            forall c | c in t.vars :: c.field in t.fields && c.field.width == 4
  {
    var t := TypeOf(p, ordering, pad, boolBytes, compact);
    forall c | c in t.vars
      ensures c.field in t.fields && c.field.width == 4
    {
      var k :| 0 <= k < |p.vars| && c == t.vars[k];
      assert p.vars[k] in p.vars;
      FieldsHas(p, ordering, pad, boolBytes, compact, p.vars[k]);
    }
  }

  lemma ListsInFields(p: Parsed, ordering: Ordering, pad: PadRecord, boolBytes: nat, compact: bool)
    requires Parse(p, ordering, pad, boolBytes, compact)
    ensures var t := TypeOf(p, ordering, pad, boolBytes, compact);
            && (forall c | c in t.vars :: c.field in t.fields && c.field.width == 4)
            && (forall f | f in t.selfs :: f in t.fields)
  {
    var t := TypeOf(p, ordering, pad, boolBytes, compact);
    VarsInFields(p, ordering, pad, boolBytes, compact);
    forall f | f in t.selfs
      ensures f in t.fields
    {
      var k :| 0 <= k < |p.selfs| && f == t.selfs[k];
      assert p.selfs[k] in p.selfs;
      FieldsHas(p, ordering, pad, boolBytes, compact, p.selfs[k]);
    }
  }

  lemma OthersInFields(p: Parsed, ordering: Ordering, pad: PadRecord, boolBytes: nat, compact: bool)
    requires Parse(p, ordering, pad, boolBytes, compact)
    ensures var t := TypeOf(p, ordering, pad, boolBytes, compact);
            forall r | r in t.others :: r.field in t.fields && r.base in t.fields && r.field.width == r.base.width
  {
    var t := TypeOf(p, ordering, pad, boolBytes, compact);
    forall r | r in t.others
      ensures r.field in t.fields && r.base in t.fields && r.field.width == r.base.width
    {
      var k :| 0 <= k < |p.others| && r == t.others[k];
      assert BaseBefore(p.info, p.others[k]);
      FieldsHas(p, ordering, pad, boolBytes, compact, p.others[k].field);
      FieldsHas(p, ordering, pad, boolBytes, compact, p.others[k].base);
    }
  }

  lemma TypeShaped(p: Parsed, ordering: Ordering, pad: PadRecord, boolBytes: nat, compact: bool)
    requires Parse(p, ordering, pad, boolBytes, compact)
    ensures TypeOf(p, ordering, pad, boolBytes, compact).Shaped()
  {
    var t := TypeOf(p, ordering, pad, boolBytes, compact);
    forall f | f in t.fields
      ensures t.FieldFits(f) && (compact ==> t.BehindBools(f))
    {
      var i := FieldsFrom(p, ordering, pad, boolBytes, compact, f);
      FieldSound(p, ordering, pad, boolBytes, compact, i);
    }
    ListsInFields(p, ordering, pad, boolBytes, compact);
    OthersInFields(p, ordering, pad, boolBytes, compact);
    if compact {
      BoolBytesIsPrefix(p.info, pad, boolBytes);
      GroupsApart(p.info, ordering, pad, BoolGroup, BoolGroup);
    }
  }

  lemma TypeSeparate(p: Parsed, ordering: Ordering, pad: PadRecord, boolBytes: nat, compact: bool)
    requires Parse(p, ordering, pad, boolBytes, compact)
    ensures TypeOf(p, ordering, pad, boolBytes, compact).Separate()
  {
    var t := TypeOf(p, ordering, pad, boolBytes, compact);
    forall f, g | f in t.fields && g in t.fields
      ensures t.DisjointPair(f, g) && t.OffNullBit(f, g)
    {
      var i := FieldsFrom(p, ordering, pad, boolBytes, compact, f);
      var j := FieldsFrom(p, ordering, pad, boolBytes, compact, g);
      ColumnsApart(p, ordering, pad, i, j);
    }
  }

  lemma SelfsDiffer(p: Parsed, ordering: Ordering, pad: PadRecord, boolBytes: nat, compact: bool)
    requires Parse(p, ordering, pad, boolBytes, compact)
    ensures var t := TypeOf(p, ordering, pad, boolBytes, compact);
            && (forall i, j | 0 <= i < j < |t.selfs| :: t.selfs[i] != t.selfs[j])
            && (forall c, f | c in t.vars && f in t.selfs :: c.field != f)
  {
    var t := TypeOf(p, ordering, pad, boolBytes, compact);
    forall i, j | 0 <= i < j < |t.selfs|
      ensures t.selfs[i] != t.selfs[j]
    {
      assert p.selfs[i] in p.selfs && p.selfs[j] in p.selfs;
      ColumnsApart(p, ordering, pad, p.selfs[i], p.selfs[j]);
    }
    forall m, k | 0 <= m < |p.vars| && 0 <= k < |p.selfs|
      ensures t.vars[m].field != t.selfs[k]
    {
      assert p.vars[m] in p.vars && p.selfs[k] in p.selfs;
      ColumnsApart(p, ordering, pad, p.vars[m], p.selfs[k]);
    }
  }

  lemma VarsDiffer(p: Parsed, ordering: Ordering, pad: PadRecord, boolBytes: nat, compact: bool)
    requires Parse(p, ordering, pad, boolBytes, compact)
    ensures var t := TypeOf(p, ordering, pad, boolBytes, compact);
            forall i, j | 0 <= i < j < |t.vars| :: t.vars[i].field != t.vars[j].field
  {
    var t := TypeOf(p, ordering, pad, boolBytes, compact);
    forall i, j | 0 <= i < j < |t.vars|
      ensures t.vars[i].field != t.vars[j].field
    {
      assert p.vars[i] in p.vars && p.vars[j] in p.vars;
      ColumnsApart(p, ordering, pad, p.vars[i], p.vars[j]);
    }
  }

  lemma OthersDiffer(p: Parsed, ordering: Ordering, pad: PadRecord, boolBytes: nat, compact: bool)
    requires Parse(p, ordering, pad, boolBytes, compact)
    ensures var t := TypeOf(p, ordering, pad, boolBytes, compact);
            forall r | r in t.others :: r.field != r.base
  {
    var t := TypeOf(p, ordering, pad, boolBytes, compact);
    forall r | r in t.others
      ensures r.field != r.base
    {
      var k :| 0 <= k < |p.others| && r == t.others[k];
      assert BaseBefore(p.info, p.others[k]);
      ColumnsApart(p, ordering, pad, p.others[k].field, p.others[k].base);
    }
  }

  lemma OthersNotVars(p: Parsed, ordering: Ordering, pad: PadRecord, boolBytes: nat, compact: bool)
    requires Parse(p, ordering, pad, boolBytes, compact)
    ensures var t := TypeOf(p, ordering, pad, boolBytes, compact);
            forall c, r | c in t.vars && r in t.others :: c.field != r.field
  {
    var t := TypeOf(p, ordering, pad, boolBytes, compact);
    forall m, k | 0 <= m < |p.vars| && 0 <= k < |p.others|
      ensures t.vars[m].field != t.others[k].field
    {
      assert BaseBefore(p.info, p.others[k]) && p.vars[m] in p.vars;
      ColumnsApart(p, ordering, pad, p.vars[m], p.others[k].field);
    }
  }

  lemma FieldsRising(p: Parsed, pad: PadRecord, boolBytes: nat, compact: bool)
    requires Covered(p, compact)
    ensures var t := TypeOf(p, SmallToBig, pad, boolBytes, compact);
            Rising(t.fields, 0, t.size)
  {
    var s, n, t := Layout(p.info, SmallToBig, pad), |p.info|, TypeOf(p, SmallToBig, pad, boolBytes, compact);
    PickRising(p.info, s, ByteGroup, n);
    FourRising(p.info, SmallToBig, pad);
    PickRising(p.info, s, EightGroup, n);
    var bytesEnd, foursEnd := s.bytes + Total(p.info, ByteGroup), s.var32s + Total(p.info, Var32Group);
    RisingJoin(t.size1, t.size4, s.bytes, bytesEnd, s.int32s, foursEnd);
    RisingJoin(t.size1 + t.size4, t.size8, s.bytes, foursEnd, s.eights, s.size);
  }

  lemma TypeOrdered(p: Parsed, pad: PadRecord, boolBytes: nat)
    requires Parse(p, SmallToBig, pad, boolBytes, true)
    ensures TypeOf(p, SmallToBig, pad, boolBytes, true).Ordered()
  {
    var s, n, t := Layout(p.info, SmallToBig, pad), |p.info|, TypeOf(p, SmallToBig, pad, boolBytes, true);
    forall f | f in t.fields
      ensures RF.Aligned(f.offset, f.width) && RF.Aligned(t.size, f.width)
    {
      var i := FieldsFrom(p, SmallToBig, pad, boolBytes, true, f);
      OffsetAligned(p.info, SmallToBig, pad, i);
    }
    forall f | f in t.size1
      ensures f.width == 1
    {
      var i := PickFrom(p.info, s, ByteGroup, n, f);
    }
    forall f | f in t.size4
      ensures f.width == 4
    {
      if f in Pick(p.info, s, Int32Group, n) {
        var i := PickFrom(p.info, s, Int32Group, n, f);
      } else {
        var i := PickFrom(p.info, s, Var32Group, n, f);
      }
    }
    forall f | f in t.size8
      ensures f.width == 8
    {
      var i := PickFrom(p.info, s, EightGroup, n, f);
    }
    FieldsRising(p, pad, boolBytes, true);
  }

  /** Every type the parser produces is one the codec laws hold for. */
  lemma {:induction false} ParsedTypeValid(
      specs: seq<FieldSpec>, ordering: Ordering, pad: PadRecord, boolBytes: nat, compact: bool)
    requires AddFields(specs).Some?
    requires var p := AddFields(specs).value;
             && AllSized(p.info) && Covered(p, compact)
             && IsBoolBytes(p.info, Layout(p.info, ordering, pad), boolBytes)
             && (compact ==> ordering.SmallToBig? && boolBytes > 0)
    ensures TypeOf(AddFields(specs).value, ordering, pad, boolBytes, compact).Valid()
  {
    ParsedWell(specs);
    var p := AddFields(specs).value;
    TypeShaped(p, ordering, pad, boolBytes, compact);
    TypeSeparate(p, ordering, pad, boolBytes, compact);
    SelfsDiffer(p, ordering, pad, boolBytes, compact);
    VarsDiffer(p, ordering, pad, boolBytes, compact);
    OthersDiffer(p, ordering, pad, boolBytes, compact);
    OthersNotVars(p, ordering, pad, boolBytes, compact);
    if compact {
      TypeOrdered(p, pad, boolBytes);
    }
  }

  /** And the relative columns of a parsed type can be packed in reverse order and unpacked in order: each one is packed in
      one way, and its base is not packed after it. */
  lemma {:induction false} ParsedOneWay(
      specs: seq<FieldSpec>, ordering: Ordering, pad: PadRecord, boolBytes: nat, compact: bool)
    requires AddFields(specs).Some? && Covered(AddFields(specs).value, compact)
    ensures TypeOf(AddFields(specs).value, ordering, pad, boolBytes, compact).OneWay()
  {
    ParsedWell(specs);
    ParsedInOrder(specs);
    var p := AddFields(specs).value;
    var t := TypeOf(p, ordering, pad, boolBytes, compact);
    forall k, m | 0 <= k < |p.others| && 0 <= m < |p.selfs|
      ensures t.others[k].field != t.selfs[m]
    {
      assert BaseBefore(p.info, p.others[k]) && p.selfs[m] in p.selfs && p.others[k] in p.others;
      ColumnsApart(p, ordering, pad, p.others[k].field, p.selfs[m]);
    }
    forall i, j | 0 <= i < j < |t.others|
      ensures t.Chained(i, j)
    {
      assert FieldBefore(p.others, i, j) && BaseBefore(p.info, p.others[i]) && BaseBefore(p.info, p.others[j]);
      ColumnsApart(p, ordering, pad, p.others[i].field, p.others[j].field);
      ColumnsApart(p, ordering, pad, p.others[i].base, p.others[j].field);
    }
  }
}
