/** Writing variable32 fields into the records of an extent (src/base/ExtentField.cpp:132-194,
    include/DataSeries/Variable32Field.hpp:172-183): the offset words and null bits of the records, the string pool
    behind them, and why what is written this way packs. */
module StringColumns {
  import opened Bytes
  import opened RecordFormat
  import opened RelativePacking
  import opened StringPool
  import opened StringPacking
  import opened StringPackingLaws
  import opened StringFields

  // ---------- one field of one record ----------

  lemma Halve(b: u8, bit: nat)
    requires 0 < bit < 8
    ensures BitSet(b, bit) == BitSet(b / 2, bit - 1)
    ensures BitMask(bit) == 2 * BitMask(bit - 1)
  {
    match bit
    case 1 => assert b / 2 / 1 == b / 2;
    case 2 => assert b / 2 / 2 == b / 4;
    case 3 => assert b / 2 / 4 == b / 8;
    case 4 => assert b / 2 / 8 == b / 16;
    case 5 => assert b / 2 / 16 == b / 32;
    case 6 => assert b / 2 / 32 == b / 64;
    case 7 => assert b / 2 / 64 == b / 128;
  }

  /** The value of one bit added when it is clear, or taken away when it is set. */
  function Flip(b: u8, bit: nat): (c: u8)
    requires bit < 8
  {
    FlipFits(b, bit);
    if BitSet(b, bit) then b - BitMask(bit) else b + BitMask(bit)
  }

  lemma FlipFits(b: u8, bit: nat)
    requires bit < 8
    ensures BitSet(b, bit) ==> BitMask(bit) <= b
    ensures !BitSet(b, bit) ==> b + BitMask(bit) < 256
  {
  }

  lemma FlipHalves(b: u8, bit: nat)
    requires 0 < bit < 8
    ensures Flip(b, bit) / 2 == Flip(b / 2, bit - 1) && Flip(b, bit) % 2 == b % 2
  {
    Halve(b, bit);
  }

  /** That changes this bit and no other. */
  lemma {:induction false} FlipOne(b: u8, bit: nat, other: nat)
    requires bit < 8 && other < 8
    ensures BitSet(Flip(b, bit), other) == if other == bit then !BitSet(b, other) else BitSet(b, other)
    decreases bit
  {
    var c := Flip(b, bit);
    if bit > 0 {
      FlipHalves(b, bit);
    } else {
      assert c / 2 == b / 2;
    }
    if other > 0 {
      Halve(b, other);
      Halve(c, other);
      if bit > 0 {
        FlipOne(b / 2, bit - 1, other - 1);
      }
    }
  }

  /** A null byte with one bit set or cleared. */
  function MarkBit(b: u8, bit: nat, val: bool): (r: u8)
    requires bit < 8
    ensures BitSet(r, bit) == val
    ensures forall other :: 0 <= other < 8 && other != bit ==> BitSet(r, other) == BitSet(b, other)
  {
    assert forall other :: 0 <= other < 8 ==>
        BitSet(Flip(b, bit), other) == if other == bit then !BitSet(b, other) else BitSet(b, other) by {
      forall other: nat | other < 8
        ensures BitSet(Flip(b, bit), other) == if other == bit then !BitSet(b, other) else BitSet(b, other)
      {
        FlipOne(b, bit, other);
      }
    }
    if BitSet(b, bit) == val then b else Flip(b, bit)
  }

  /** Field::setNull, which does nothing for a field that cannot be null. */
  function SetNullBit(rec: Record, f: Field, val: bool): (r: Record)
    ensures |r| == |rec|
  {
    if f.nullAt.Some? && f.nullAt.value.offset < |rec| && f.nullAt.value.bit < 8 then
      var at := f.nullAt.value;
      rec[at.offset := MarkBit(rec[at.offset], at.bit, val)]
    else rec
  }

  /** The record with a new offset in field f, which then is not null. */
  function WriteOffset(rec: Record, f: Field, off: nat): (r: Record)
    requires f.offset + f.width <= |rec|
    ensures |r| == |rec|
  {
    SetNullBit(SetWord(rec, f, off), f, false)
  }

  /** Only the bytes of field f and its null bit differ. */
  ghost predicate OnlyField(rec: Record, rec': Record, f: Field) {
    && |rec'| == |rec|
    && (forall i :: 0 <= i < |rec| && rec'[i] != rec[i] ==>
          Covers(f, i) || (f.nullAt.Some? && i == f.nullAt.value.offset))
    && (f.nullAt.Some? && f.nullAt.value.offset < |rec| ==>
          forall bit :: 0 <= bit < 8 && bit != f.nullAt.value.bit ==>
            BitSet(rec'[f.nullAt.value.offset], bit) == BitSet(rec[f.nullAt.value.offset], bit))
  }

  lemma WriteOffsetEffect(t: RecordType, rec: Record, f: Field, off: nat)
    requires Separated(t, rec) && f in t.fields && f.width == 4 && off < MAX_INT32
    ensures t.FieldFits(f)
    ensures var w := WriteOffset(rec, f, off);
            Word(w, f) == off && !IsNull(w, f) && OnlyField(rec, w, f)
  {
    assert t.FieldFits(f) && t.OffNullBit(f, f);
    Pow256Values();
    SetWordSame(rec, f, off);
    assert Get(WriteOffset(rec, f, off), f.offset, f.width) == Get(SetWord(rec, f, off), f.offset, f.width);
  }

  /** Other fields keep their value. */
  lemma OtherWord(t: RecordType, rec: Record, rec': Record, f: Field, g: Field)
    requires Separated(t, rec) && f in t.fields && g in t.fields && f != g && OnlyField(rec, rec', f)
    ensures t.FieldFits(g) && Word(rec', g) == Word(rec, g)
  {
    assert t.FieldFits(g) && t.DisjointPair(f, g) && t.OffNullBit(g, f);
    assert Get(rec', g.offset, g.width) == Get(rec, g.offset, g.width);
  }

  // ---------- all offset words of an extent ----------

  predicate InTable(t: RecordType, recs: seq<Record>, r: nat, i: nat) {
    r < |recs| && i < |t.vars|
  }

  /** The offset word of the i-th variable32 field in record r. */
  function Slot(t: RecordType, recs: seq<Record>, r: nat, i: nat): (off: nat)
    requires AllReady(t, recs) && InTable(t, recs, r, i)
  {
    assert t.vars[i] in t.vars && t.FieldFits(t.vars[i].field);
    Word(recs[r], t.vars[i].field)
  }

  /** Every offset is 0 or the start of an entry of the pool. */
  ghost predicate SlotsSound(t: RecordType, recs: seq<Record>, pool: seq<u8>)
    requires AllReady(t, recs)
  {
    WellBuilt(pool) && forall r: nat, i: nat :: InTable(t, recs, r, i) ==> Sound(pool, Slot(t, recs, r, i))
  }

  /** No two fields share an entry. */
  ghost predicate NoneShared(t: RecordType, recs: seq<Record>)
    requires AllReady(t, recs)
  {
    forall r: nat, i: nat, q: nat, j: nat ::
      InTable(t, recs, r, i) && InTable(t, recs, q, j) && Slot(t, recs, r, i) == Slot(t, recs, q, j) != 0 ==>
        r == q && i == j
  }

  /** What the accessors keep. */
  ghost predicate Written(t: RecordType, recs: seq<Record>, pool: seq<u8>) {
    t.Valid() && AllReady(t, recs) && SlotsSound(t, recs, pool) && NoneShared(t, recs)
  }

  /** One offset word is replaced; no other is. */
  ghost predicate OneSlot(t: RecordType, recs: seq<Record>, recs': seq<Record>, r: nat, i: nat, off: nat)
    requires AllReady(t, recs) && InTable(t, recs, r, i)
  {
    && AllReady(t, recs') && |recs'| == |recs|
    && Slot(t, recs', r, i) == off
    && forall q: nat, j: nat :: InTable(t, recs, q, j) && (q != r || j != i) ==>
         Slot(t, recs', q, j) == Slot(t, recs, q, j)
  }

  lemma WriteSlot(t: RecordType, recs: seq<Record>, r: nat, i: nat, off: nat)
    requires t.Valid() && AllReady(t, recs) && InTable(t, recs, r, i) && off < MAX_INT32
    ensures t.vars[i] in t.vars && t.FieldFits(t.vars[i].field)
    ensures OneSlot(t, recs, recs[r := WriteOffset(recs[r], t.vars[i].field, off)], r, i, off)
    ensures OnlyField(recs[r], WriteOffset(recs[r], t.vars[i].field, off), t.vars[i].field)
    ensures !IsNull(WriteOffset(recs[r], t.vars[i].field, off), t.vars[i].field)
  {
    assert t.vars[i] in t.vars && t.FieldFits(t.vars[i].field);
    var f := t.vars[i].field;
    var rec' := WriteOffset(recs[r], f, off);
    WriteOffsetEffect(t, recs[r], f, off);
    forall q: nat, j: nat | InTable(t, recs, q, j) && (q != r || j != i)
      ensures Slot(t, recs[r := rec'], q, j) == Slot(t, recs, q, j)
    {
      if q == r {
        assert t.vars[j] in t.vars;
        OtherWord(t, recs[r], rec', f, t.vars[j].field);
      }
    }
  }

  /** Field f of record r and its null bit are all that differs. */
  ghost predicate OnlyHere(recs: seq<Record>, recs': seq<Record>, r: nat, f: Field) {
    && |recs'| == |recs| && r < |recs| && OnlyField(recs[r], recs'[r], f)
    && forall q :: 0 <= q < |recs| && q != r ==> recs'[q] == recs[q]
  }

  // ---------- the three ways in which the accessors change an extent ----------

  /** Every other string is as before. */
  ghost predicate OthersKept(
      t: RecordType, recs: seq<Record>, pool: seq<u8>, recs': seq<Record>, pool': seq<u8>, r: nat, i: nat)
    requires AllReady(t, recs) && AllReady(t, recs') && |recs'| == |recs|
  {
    forall q: nat, j: nat :: InTable(t, recs, q, j) && (q != r || j != i) ==>
      TextAt(pool', Slot(t, recs', q, j)) == TextAt(pool, Slot(t, recs, q, j))
  }

  lemma NothingChanged(t: RecordType, recs: seq<Record>, pool: seq<u8>, r: nat, i: nat)
    requires AllReady(t, recs)
    ensures OthersKept(t, recs, pool, recs, pool, r, i)
  {
  }

  lemma ClearKeeps(t: RecordType, recs: seq<Record>, pool: seq<u8>, recs': seq<Record>, r: nat, i: nat)
    requires Written(t, recs, pool) && InTable(t, recs, r, i) && OneSlot(t, recs, recs', r, i, 0)
    ensures Written(t, recs', pool) && TextAt(pool, 0) == [] && OthersKept(t, recs, pool, recs', pool, r, i)
  {
    SoundChecked(pool, 0);
    forall q: nat, j: nat | InTable(t, recs', q, j)
      ensures Sound(pool, Slot(t, recs', q, j))
    {
      if q != r || j != i {
        assert Sound(pool, Slot(t, recs, q, j));
      }
    }
  }

  lemma AllocateKeeps(
      t: RecordType, recs: seq<Record>, pool: seq<u8>, s: seq<u8>, recs': seq<Record>, r: nat, i: nat)
    requires Written(t, recs, pool) && InTable(t, recs, r, i) && OneSlot(t, recs, recs', r, i, |pool|)
    requires s != [] && |pool + Entry(s)| < MAX_INT32
    ensures Written(t, recs', pool + Entry(s)) && TextAt(pool + Entry(s), |pool|) == s
    ensures OthersKept(t, recs, pool, recs', pool + Entry(s), r, i)
  {
    NewEntry(pool, s, 0);
    forall q: nat, j: nat | InTable(t, recs, q, j) && (q != r || j != i)
      ensures Sound(pool + Entry(s), Slot(t, recs', q, j)) && Slot(t, recs', q, j) != |pool|
      ensures TextAt(pool + Entry(s), Slot(t, recs', q, j)) == TextAt(pool, Slot(t, recs, q, j))
    {
      NewEntry(pool, s, Slot(t, recs, q, j));
    }
  }

  lemma FillKeeps(t: RecordType, recs: seq<Record>, pool: seq<u8>, r: nat, i: nat, at: nat, data: seq<u8>)
    requires Written(t, recs, pool) && InTable(t, recs, r, i)
    requires Slot(t, recs, r, i) != 0 && TextWrite(pool, Slot(t, recs, r, i), at, data)
    ensures var off, q := Slot(t, recs, r, i), Put(pool, Slot(t, recs, r, i) + 4 + at, data);
            && Written(t, recs, q) && OthersKept(t, recs, pool, recs, q, r, i)
            && at + |data| <= |TextAt(pool, off)| && TextAt(q, off) == Put(TextAt(pool, off), at, data)
  {
    var off := Slot(t, recs, r, i);
    WriteText(pool, off, at, data, off);
    forall q: nat, j: nat | InTable(t, recs, q, j)
      ensures Sound(Put(pool, off + 4 + at, data), Slot(t, recs, q, j))
      ensures q != r || j != i ==>
        TextAt(Put(pool, off + 4 + at, data), Slot(t, recs, q, j)) == TextAt(pool, Slot(t, recs, q, j))
    {
      WriteText(pool, off, at, data, Slot(t, recs, q, j));
    }
  }

  lemma FreshRecords(t: RecordType, n: nat)
    requires t.Valid()
    ensures var recs := seq(n, _ => Zeros(t.size));
            && Written(t, recs, EMPTY.bytes)
            && forall r: nat, i: nat :: InTable(t, recs, r, i) ==> Slot(t, recs, r, i) == 0
  {
    var recs := seq(n, _ => Zeros(t.size));
    EmptyValid();
    forall r: nat, i: nat | InTable(t, recs, r, i)
      ensures Slot(t, recs, r, i) == 0
    {
      assert t.vars[i] in t.vars && t.FieldFits(t.vars[i].field);
      DecZero(Get(recs[r], t.vars[i].field.offset, t.vars[i].field.width));
    }
  }

  /** Behind the records there are, fresh ones hold empty strings. */
  lemma MoreRecords(t: RecordType, recs: seq<Record>, n: nat, pool: seq<u8>)
    requires Written(t, recs, pool)
    ensures var more := recs + seq(n, _ => Zeros(t.size));
            && Written(t, more, pool)
            && forall r: nat, i: nat :: InTable(t, more, r, i) ==>
                 Slot(t, more, r, i) == if r < |recs| then Slot(t, recs, r, i) else 0
  {
    var added := seq(n, _ => Zeros(t.size));
    FreshRecords(t, n);
    var more := recs + added;
    forall r: nat, i: nat | InTable(t, more, r, i)
      ensures Slot(t, more, r, i) == if r < |recs| then Slot(t, recs, r, i) else 0
      ensures Sound(pool, Slot(t, more, r, i))
    {
      if r < |recs| {
        assert more[r] == recs[r] && InTable(t, recs, r, i);
      } else {
        assert more[r] == added[r - |recs|] && InTable(t, added, r - |recs|, i);
      }
    }
  }

  /** Writing other fields, or null bits, changes nothing for the strings as long as no offset word changes. */
  lemma OtherFieldsFree(t: RecordType, recs: seq<Record>, recs': seq<Record>, pool: seq<u8>)
    requires Written(t, recs, pool) && AllReady(t, recs') && |recs'| == |recs|
    requires forall r: nat, i: nat :: InTable(t, recs, r, i) ==> Slot(t, recs', r, i) == Slot(t, recs, r, i)
    ensures Written(t, recs', pool)
  {
    forall r: nat, i: nat | InTable(t, recs', r, i)
      ensures Sound(pool, Slot(t, recs', r, i))
    {
      assert Sound(pool, Slot(t, recs, r, i));
    }
  }

  lemma NullWriteKeeps(t: RecordType, recs: seq<Record>, pool: seq<u8>, r: nat, i: nat, val: bool)
    requires Written(t, recs, pool) && InTable(t, recs, r, i)
    ensures t.FieldFits(t.vars[i].field)
    ensures var f := t.vars[i].field;
            var recs' := recs[r := SetNullBit(recs[r], f, val)];
            && Written(t, recs', pool) && OnlyHere(recs, recs', r, f)
            && (IsNull(recs'[r], f) <==> val && f.nullAt.Some?)
            && forall q: nat, j: nat :: InTable(t, recs, q, j) ==> Slot(t, recs', q, j) == Slot(t, recs, q, j)
  {
    var f := t.vars[i].field;
    assert t.vars[i] in t.vars && t.FieldFits(f);
    var rec' := SetNullBit(recs[r], f, val);
    forall q: nat, j: nat | InTable(t, recs, q, j)
      ensures Slot(t, recs[r := rec'], q, j) == Slot(t, recs, q, j)
    {
      if q == r {
        var g := t.vars[j].field;
        assert t.vars[j] in t.vars && t.FieldFits(g) && t.OffNullBit(g, f);
        assert Get(rec', g.offset, g.width) == Get(recs[r], g.offset, g.width);
      }
    }
    OtherFieldsFree(t, recs, recs[r := rec'], pool);
  }

  // ---------- why the extent packs ----------

  /** Clearing null fields leaves an offset word alone or makes it 0. */
  lemma ClearedWord(t: RecordType, rec: Record, f: Field)
    requires Separated(t, rec) && f in t.fields
    ensures t.FieldFits(f) && Ready(t, ClearNulls(t, rec))
    ensures Word(ClearNulls(t, rec), f) == 0 || Word(ClearNulls(t, rec), f) == Word(rec, f)
  {
    assert t.FieldFits(f);
    if t.nullCompact {
      ClearFieldsCleared(t, rec, t.fields);
      var x := Get(ClearNulls(t, rec), f.offset, f.width);
      if IsNull(rec, f) {
        forall k | 0 <= k < f.width
          ensures x[k] == 0
        {
          assert Covers(f, f.offset + k);
        }
        DecZero(x);
      } else {
        forall k | 0 <= k < f.width
          ensures x[k] == Get(rec, f.offset, f.width)[k]
        {
          NotNullThere(t, rec, f, f.offset + k);
        }
        assert x == Get(rec, f.offset, f.width);
      }
    }
  }

  /** The offset stands in one of the records from lo on; in record lo, in a field from k on. */
  ghost predicate StandsIn(t: RecordType, recs: seq<Record>, lo: nat, k: nat, off: nat)
    requires AllReady(t, recs)
  {
    exists r: nat, i: nat :: InTable(t, recs, r, i) && (r > lo || (r == lo && i >= k)) && Slot(t, recs, r, i) == off
  }

  /** The references come from different fields, of the records from lo on. */
  ghost predicate Drawn(t: RecordType, recs: seq<Record>, lo: nat, k: nat, refs: seq<Ref>)
    requires AllReady(t, recs)
  {
    && (forall m :: 0 <= m < |refs| ==> refs[m].off != 0 && StandsIn(t, recs, lo, k, refs[m].off))
    && (forall m, n :: 0 <= m < n < |refs| ==> refs[m].off != refs[n].off)
  }

  /** One more reference in front, from the field before. */
  lemma DrawnCons(t: RecordType, recs: seq<Record>, lo: nat, k: nat, ref: Ref, refs: seq<Ref>)
    requires AllReady(t, recs) && NoneShared(t, recs) && InTable(t, recs, lo, k)
    requires Drawn(t, recs, lo, k + 1, refs) && ref.off == Slot(t, recs, lo, k) != 0
    ensures Drawn(t, recs, lo, k, [ref] + refs)
  {
    forall m | 0 <= m < |refs|
      ensures refs[m].off != ref.off
    {
      assert StandsIn(t, recs, lo, k + 1, refs[m].off);
    }
    var all := [ref] + refs;
    forall m | 0 <= m < |all|
      ensures all[m].off != 0 && StandsIn(t, recs, lo, k, all[m].off)
    {
      assert m > 0 ==> all[m] == refs[m - 1] && StandsIn(t, recs, lo, k + 1, refs[m - 1].off);
    }
  }

  lemma RefsHead(t: RecordType, rec: Record, k: nat)
    requires Ready(t, rec) && k < |t.vars|
    ensures t.FieldFits(t.vars[k].field)
    ensures var c, off := t.vars[k], Word(rec, t.vars[k].field);
            RefsOf(t, rec, t.vars[k..]) ==
            (if off == 0 then [] else [Ref(off, c.unique)]) + RefsOf(t, rec, t.vars[k + 1..])
  {
    assert t.vars[k] in t.vars && t.FieldFits(t.vars[k].field);
    assert t.vars[k..][0] == t.vars[k] && t.vars[k..][1..] == t.vars[k + 1..];
  }

  lemma ColumnDrawn(t: RecordType, recs: seq<Record>, lo: nat, k: nat, tail: seq<Ref>, later: seq<Ref>)
    requires t.Valid() && AllReady(t, recs) && NoneShared(t, recs) && InTable(t, recs, lo, k)
    requires tail == RefsOf(t, ClearNulls(t, recs[lo]), t.vars[k + 1..]) && Drawn(t, recs, lo, k + 1, tail + later)
    ensures Drawn(t, recs, lo, k, RefsOf(t, ClearNulls(t, recs[lo]), t.vars[k..]) + later)
  {
    var clear, c := ClearNulls(t, recs[lo]), t.vars[k];
    assert c in t.vars;
    RefsHead(t, clear, k);
    ClearedWord(t, recs[lo], c.field);
    var off := Word(clear, c.field);
    if off != 0 {
      DrawnCons(t, recs, lo, k, Ref(off, c.unique), tail + later);
      assert [Ref(off, c.unique)] + tail + later == [Ref(off, c.unique)] + (tail + later);
    } else {
      assert [] + tail == tail;
      WiderDrawn(t, recs, lo, k, tail + later);
    }
  }

  /** The references of record lo, from column k on, in front of those of the later records. */
  lemma {:induction false} RowDrawn(t: RecordType, recs: seq<Record>, lo: nat, k: nat, later: seq<Ref>)
    requires t.Valid() && AllReady(t, recs) && NoneShared(t, recs) && lo < |recs| && k <= |t.vars|
    requires Drawn(t, recs, lo + 1, 0, later)
    ensures forall c | c in t.vars[k..] :: c in t.vars
    ensures Drawn(t, recs, lo, k, RefsOf(t, ClearNulls(t, recs[lo]), t.vars[k..]) + later)
    decreases |t.vars| - k
  {
    var clear := ClearNulls(t, recs[lo]);
    if k == |t.vars| {
      assert RefsOf(t, clear, t.vars[k..]) + later == later;
      forall m | 0 <= m < |later|
        ensures StandsIn(t, recs, lo, k, later[m].off)
      {
        assert StandsIn(t, recs, lo + 1, 0, later[m].off);
      }
    } else {
      RowDrawn(t, recs, lo, k + 1, later);
      ColumnDrawn(t, recs, lo, k, RefsOf(t, clear, t.vars[k + 1..]), later);
    }
  }

  lemma WiderDrawn(t: RecordType, recs: seq<Record>, lo: nat, k: nat, refs: seq<Ref>)
    requires AllReady(t, recs) && Drawn(t, recs, lo, k + 1, refs)
    ensures Drawn(t, recs, lo, k, refs)
  {
    forall m | 0 <= m < |refs|
      ensures StandsIn(t, recs, lo, k, refs[m].off)
    {
      assert StandsIn(t, recs, lo, k + 1, refs[m].off);
    }
  }

  lemma {:induction false} AllDrawn(t: RecordType, recs: seq<Record>, lo: nat)
    requires t.Valid() && AllReady(t, recs) && NoneShared(t, recs) && lo <= |recs|
    ensures Drawn(t, recs, lo, 0, AllRefs(t, recs[lo..]))
    decreases |recs| - lo
  {
    if lo < |recs| {
      assert recs[lo..][0] == recs[lo] && recs[lo..][1..] == recs[lo + 1..] && t.vars[0..] == t.vars;
      AllDrawn(t, recs, lo + 1);
      RowDrawn(t, recs, lo, 0, AllRefs(t, recs[lo + 1..]));
    }
  }

  /** What is written with the accessors meets the conditions under which packing cannot fail: its offsets are sound,
      and no storage is shared, whatever columns are unique. */
  lemma WrittenPacks(t: RecordType, recs: seq<Record>, pool: seq<u8>)
    requires Written(t, recs, pool)
    ensures SoundRefs(pool, AllRefs(t, recs)) && Unshared(AllRefs(t, recs))
    ensures Normalize(t, pool, recs, EMPTY).Some?
    ensures |Normalize(t, pool, recs, EMPTY).value.pool.bytes| <= |pool|
  {
    var refs := AllRefs(t, recs);
    AllDrawn(t, recs, 0);
    assert recs[0..] == recs;
    forall r | r in refs
      ensures r.off != 0 && Sound(pool, r.off)
    {
      var m :| 0 <= m < |refs| && refs[m] == r;
      assert StandsIn(t, recs, 0, 0, refs[m].off);
    }
    WellBuiltPacks(t, pool, recs);
  }

  // ---------- the accessors ----------

  /** An extent that is being written: its records and its pool. */
  class ExtentStrings {
    const t: RecordType
    var fixeddata: seq<Record>
    var variabledata: seq<u8>

    ghost predicate Valid()
      reads this
    {
      Written(t, fixeddata, variabledata)
    }

    ghost predicate Has(r: nat, i: nat)
      reads this
    {
      InTable(t, fixeddata, r, i)
    }

    /** The string of the i-th variable32 field in record r. */
    ghost function Text(r: nat, i: nat): (s: seq<u8>)
      reads this
      requires AllReady(t, fixeddata) && Has(r, i)
    {
      TextAt(variabledata, Slot(t, fixeddata, r, i))
    }

    /** createRecords: zero bytes, which are empty strings. */
    constructor (t: RecordType, nrecords: nat)
      requires t.Valid()
      ensures Valid() && this.t == t && |fixeddata| == nrecords
      ensures forall r: nat, i: nat :: Has(r, i) ==> Text(r, i) == []
    {
      this.t := t;
      fixeddata := seq(nrecords, _ => Zeros(t.size));
      variabledata := [0, 0, 0, 0];
      new;
      FreshRecords(t, nrecords);
      assert variabledata == EMPTY.bytes;
      SoundChecked(variabledata, 0);
    }

    /** createRecords between writes: more records of zero bytes, whose strings are empty; all others stay as they
        are. */
    method CreateRecords(nrecords: nat)
      requires Valid()
      modifies `fixeddata
      ensures Valid() && fixeddata == old(fixeddata) + seq(nrecords, _ => Zeros(t.size))
      ensures forall r: nat, i: nat :: Has(r, i) ==> Text(r, i) == if r < |old(fixeddata)| then old(Text(r, i)) else []
    {
      MoreRecords(t, fixeddata, nrecords, variabledata);
      fixeddata := fixeddata + seq(nrecords, _ => Zeros(t.size));
      SoundChecked(variabledata, 0);
    }

    method SetOffset(r: nat, i: nat, off: nat)
      requires t.Valid() && AllReady(t, fixeddata) && Has(r, i) && off < MAX_INT32
      modifies `fixeddata
      ensures OneSlot(t, old(fixeddata), fixeddata, r, i, off)
      ensures OnlyHere(old(fixeddata), fixeddata, r, t.vars[i].field) && !IsNull(fixeddata[r], t.vars[i].field)
    {
      WriteSlot(t, fixeddata, r, i, off);
      fixeddata := fixeddata[r := WriteOffset(fixeddata[r], t.vars[i].field, off)];
    }

    method Clear(r: nat, i: nat)
      requires Valid() && Has(r, i)
      modifies `fixeddata
      ensures Valid() && OnlyHere(old(fixeddata), fixeddata, r, t.vars[i].field)
      ensures Text(r, i) == [] && !IsNull(fixeddata[r], t.vars[i].field)
      ensures OthersKept(t, old(fixeddata), old(variabledata), fixeddata, variabledata, r, i)
    {
      ghost var recs := fixeddata;
      SetOffset(r, i, 0);
      ClearKeeps(t, recs, variabledata, fixeddata, r, i);
    }

    /** setNull: the null bit changes, and all strings stay where they are, that of the field itself included. */
    method SetNull(r: nat, i: nat, val: bool)
      requires Valid() && Has(r, i)
      modifies `fixeddata
      ensures Valid() && OnlyHere(old(fixeddata), fixeddata, r, t.vars[i].field)
      ensures IsNull(fixeddata[r], t.vars[i].field) <==> val && t.vars[i].field.nullAt.Some?
      ensures forall q: nat, j: nat :: Has(q, j) ==> Text(q, j) == old(Text(q, j))
    {
      NullWriteKeeps(t, fixeddata, variabledata, r, i, val);
      fixeddata := fixeddata[r := SetNullBit(fixeddata[r], t.vars[i].field, val)];
    }

    /** A fresh entry of that many zero bytes; every other field keeps its string. */
    method AllocateSpace(r: nat, i: nat, size: nat)
      requires Valid() && Has(r, i) && |variabledata| + 4 + RoundUp(size) < MAX_INT32
      modifies this
      ensures Valid() && OnlyHere(old(fixeddata), fixeddata, r, t.vars[i].field)
      ensures Text(r, i) == Zeros(size) && !IsNull(fixeddata[r], t.vars[i].field)
      ensures |variabledata| == |old(variabledata)| + if size == 0 then 0 else 4 + RoundUp(size)
      ensures OthersKept(t, old(fixeddata), old(variabledata), fixeddata, variabledata, r, i)
    {
      if size == 0 {
        Clear(r, i);
        return;
      }
      ghost var recs := fixeddata;
      var varoffset := |variabledata|;
      SetOffset(r, i, varoffset);
      AllocateKeeps(t, recs, variabledata, Zeros(size), fixeddata, r, i);
      variabledata := variabledata + Entry(Zeros(size));
    }

    /** Refused, as the source does, when the data does not lie inside the string. */
    method PartialSet(r: nat, i: nat, data: seq<u8>, offset: nat) returns (ok: bool)
      requires Valid() && Has(r, i)
      modifies `variabledata
      ensures Valid()
      ensures ok <==> data == [] || (offset < |old(Text(r, i))| && offset + |data| <= |old(Text(r, i))|)
      ensures ok ==> Text(r, i) == if data == [] then old(Text(r, i)) else Put(old(Text(r, i)), offset, data)
      ensures |variabledata| == |old(variabledata)| && (!ok ==> variabledata == old(variabledata))
      ensures OthersKept(t, fixeddata, old(variabledata), fixeddata, variabledata, r, i)
    {
      ghost var recs, pool := fixeddata, variabledata;
      NothingChanged(t, recs, pool, r, i);
      if data == [] {
        return true;
      }
      var varoffset := Slot(t, fixeddata, r, i);
      Writable(variabledata, varoffset, offset, data);
      var size := SizeAt(variabledata, varoffset);
      if !(offset < size && |data| <= size && offset + |data| <= size) {
        return false;
      }
      FillKeeps(t, recs, pool, r, i, offset, data);
      variabledata := Put(variabledata, varoffset + 4 + offset, data);
      assert fixeddata == recs && variabledata == Put(pool, varoffset + 4 + offset, data);
      ok := true;
    }

    /** The field holds exactly the data; nothing else in the records changes, and every other string is kept. */
    method Set(r: nat, i: nat, data: seq<u8>)
      requires Valid() && Has(r, i) && |variabledata| + 4 + RoundUp(|data|) < MAX_INT32
      modifies this
      ensures Valid() && OnlyHere(old(fixeddata), fixeddata, r, t.vars[i].field)
      ensures Text(r, i) == data && !IsNull(fixeddata[r], t.vars[i].field)
      ensures |variabledata| == |old(variabledata)| + if data == [] then 0 else 4 + RoundUp(|data|)
      ensures OthersKept(t, old(fixeddata), old(variabledata), fixeddata, variabledata, r, i)
    {
      AllocateSpace(r, i, |data|);
      var ok := PartialSet(r, i, data, 0);
      assert Put(Zeros(|data|), 0, data) == data;
    }
  }
}
