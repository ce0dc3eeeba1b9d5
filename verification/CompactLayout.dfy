/** Where null compaction puts the fields (src/base/Extent.cpp:325-423): every field that is not null once, aligned to its
    width, behind nothing but the zeros that this takes; nothing at all for a null field. */
module CompactLayout {
  import opened Bytes
  import opened RecordFormat
  import opened NullCompaction
  import NullBuffers

  // ---------- one field ----------

  /** The field stands in b at that position, which is aligned, with only zeros between the position from and it. */
  ghost predicate StandsAt(rec: Record, f: Field, b: seq<u8>, from: nat, at: nat) {
    && f.offset + f.width <= |rec|
    && from <= at < from + f.width && at + f.width <= |b|
    && Aligned(at, f.width) && AllZero(b, from, at)
    && Get(b, at, f.width) == Get(rec, f.offset, f.width)
  }

  lemma FieldStands(t: RecordType, rec: Record, f: Field, out: seq<u8>) returns (at: nat)
    requires Compacts(t, rec) && f in t.fields && !IsNull(rec, f)
    ensures var r := CompactField(t, rec, f, out);
            StandsAt(rec, f, r, |out|, at) && |r| == at + f.width
  {
    assert t.FieldFits(f);
    at := |out| + Padding(|out|, f.width);
    var front := out + Zeros(Padding(|out|, f.width));
    var r := CompactField(t, rec, f, out);
    SliceBehind(front, Get(rec, f.offset, f.width), r);
  }

  lemma StandsBehind(rec: Record, f: Field, b: seq<u8>, more: seq<u8>, from: nat, at: nat)
    requires StandsAt(rec, f, b, from, at) && b <= more
    ensures StandsAt(rec, f, more, from, at)
  {
    assert more[..|b|] == b;
    assert Get(more, at, f.width) == Get(b, at, f.width);
  }

  // ---------- one record ----------

  /** What is written in front of field i of the record. */
  ghost function InFrontOf(t: RecordType, rec: Record, out: seq<u8>, i: nat): seq<u8>
    requires Compacts(t, rec) && i <= |t.fields|
  {
    CompactFields(t, rec, t.fields[..i], out + rec[..t.boolBytes])
  }

  lemma FrontInside(t: RecordType, rec: Record, out: seq<u8>, i: nat)
    requires Compacts(t, rec) && i <= |t.fields|
    ensures InFrontOf(t, rec, out, i) <= CompactRecord(t, rec, out)
  {
    assert t.fields == t.fields[..i] + t.fields[i..];
    NullBuffers.CompactFieldsJoin(t, rec, t.fields[..i], t.fields[i..], out + rec[..t.boolBytes]);
  }

  lemma FrontGrows(t: RecordType, rec: Record, out: seq<u8>, i: nat)
    requires Compacts(t, rec) && i < |t.fields|
    ensures InFrontOf(t, rec, out, i + 1) == CompactField(t, rec, t.fields[i], InFrontOf(t, rec, out, i))
  {
    var start, f := out + rec[..t.boolBytes], t.fields[i];
    assert t.fields[..i + 1] == t.fields[..i] + [f];
    NullBuffers.CompactFieldsJoin(t, rec, t.fields[..i], [f], start);
    OneField(t, rec, f, InFrontOf(t, rec, out, i));
  }

  lemma OneField(t: RecordType, rec: Record, f: Field, out: seq<u8>)
    requires Compacts(t, rec) && f in t.fields
    ensures CompactFields(t, rec, [f], out) == CompactField(t, rec, f, out)
  {
  }

  /** Each field of a record: nothing if it is null, and otherwise the field, right behind those in front of it but for the
      zeros that align it. */
  lemma FieldInRecord(t: RecordType, rec: Record, out: seq<u8>, i: nat) returns (at: nat)
    requires Compacts(t, rec) && i < |t.fields|
    ensures var from, end := |InFrontOf(t, rec, out, i)|, |InFrontOf(t, rec, out, i + 1)|;
            if IsNull(rec, t.fields[i]) then end == from
            else StandsAt(rec, t.fields[i], CompactRecord(t, rec, out), from, at) && end == at + t.fields[i].width
  {
    FrontGrows(t, rec, out, i);
    FrontInside(t, rec, out, i + 1);
    at := 0;
    if !IsNull(rec, t.fields[i]) {
      var front, f := InFrontOf(t, rec, out, i), t.fields[i];
      at := FieldStands(t, rec, f, front);
      StandsBehind(rec, f, CompactField(t, rec, f, front), CompactRecord(t, rec, out), |front|, at);
    }
  }

  // ---------- all records ----------

  lemma {:induction false} CompactPrefix(t: RecordType, recs: seq<Record>, k: nat, out: seq<u8>)
    requires AllCompact(t, recs) && k < |recs|
    ensures AllCompact(t, recs[..k])
    ensures CompactRecord(t, recs[k], Compact(t, recs[..k], out)) <= Compact(t, recs, out)
    decreases k
  {
    if k > 0 {
      CompactPrefix(t, recs[1..], k - 1, CompactRecord(t, recs[0], out));
      assert recs[..k][1..] == recs[1..][..k - 1] && recs[1..][k - 1] == recs[k];
    }
  }

  lemma StoredInside(t: RecordType, rec: Record, out: seq<u8>, i: nat, b: seq<u8>) returns (at: nat)
    requires Compacts(t, rec) && i < |t.fields| && CompactRecord(t, rec, out) <= b
    ensures |out| + t.boolBytes <= |b| && Get(b, |out|, t.boolBytes) == rec[..t.boolBytes]
    ensures !IsNull(rec, t.fields[i]) ==> StandsAt(rec, t.fields[i], b, |InFrontOf(t, rec, out, i)|, at)
  {
    var r := CompactRecord(t, rec, out);
    assert out + rec[..t.boolBytes] <= r <= b;
    SliceBehind(out, rec[..t.boolBytes], b);
    at := FieldInRecord(t, rec, out, i);
    if !IsNull(rec, t.fields[i]) {
      StandsBehind(rec, t.fields[i], r, b, |InFrontOf(t, rec, out, i)|, at);
    }
  }

  /** In the whole output: the bools of record k stand behind those of the records before it, and each field of record k
      that is not null stands at a position aligned to its width. */
  lemma FieldStored(t: RecordType, recs: seq<Record>, k: nat, i: nat) returns (at: nat)
    requires AllCompact(t, recs) && k < |recs| && i < |t.fields|
    ensures AllCompact(t, recs[..k])
    ensures var b, start := Compact(t, recs, []), |Compact(t, recs[..k], [])|;
            && start + t.boolBytes <= |b| && Get(b, start, t.boolBytes) == recs[k][..t.boolBytes]
            && (!IsNull(recs[k], t.fields[i]) ==>
                  StandsAt(recs[k], t.fields[i], b, |InFrontOf(t, recs[k], Compact(t, recs[..k], []), i)|, at))
  {
    CompactPrefix(t, recs, k, []);
    var out := Compact(t, recs[..k], []);
    at := StoredInside(t, recs[k], out, i, Compact(t, recs, []));
  }

  // ---------- the length ----------

  /** The bytes of the fields that are not null. */
  function Widths(rec: Record, fs: seq<Field>): nat {
    if fs == [] then 0 else (if IsNull(rec, fs[0]) then 0 else fs[0].width) + Widths(rec, fs[1..])
  }

  /** The end of n bytes of fields of one width behind a position; alignment is paid for once, and not without fields. */
  function EndOf(from: nat, n: nat, width: nat): nat
    requires width == 1 || width == 4 || width == 8
  {
    if n == 0 then from else from + Padding(from, width) + n
  }

  lemma AlignedOn(from: nat, width: nat)
    requires width == 1 || width == 4 || width == 8
    ensures Padding(from + Padding(from, width) + width, width) == 0
  {
    AlignedSum(from + Padding(from, width), width, width);
  }

  /** The position behind the fields, from the position in front of them. */
  function Behind(rec: Record, fs: seq<Field>, from: nat): nat {
    if fs == [] then from else Behind(rec, fs[1..], BehindOne(rec, fs[0], from))
  }

  function BehindOne(rec: Record, f: Field, from: nat): nat {
    if IsNull(rec, f) then from
    else if f.width == 4 || f.width == 8 then from + Padding(from, f.width) + f.width
    else from + f.width
  }

  lemma FieldLength(t: RecordType, rec: Record, f: Field, out: seq<u8>)
    requires Compacts(t, rec) && f in t.fields
    ensures |CompactField(t, rec, f, out)| == BehindOne(rec, f, |out|)
  {
    assert t.FieldFits(f);
  }

  lemma {:induction false} FieldsLength(t: RecordType, rec: Record, fs: seq<Field>, out: seq<u8>)
    requires Compacts(t, rec) && forall f | f in fs :: f in t.fields
    ensures |CompactFields(t, rec, fs, out)| == Behind(rec, fs, |out|)
    decreases |fs|
  {
    if fs != [] {
      assert fs[0] in fs;
      FieldLength(t, rec, fs[0], out);
      FieldsLength(t, rec, fs[1..], CompactField(t, rec, fs[0], out));
    }
  }

  /** Fields of one width. */
  lemma {:induction false} ClassLength(rec: Record, fs: seq<Field>, width: nat, from: nat)
    requires (width == 1 || width == 4 || width == 8) && forall f | f in fs :: f.width == width
    ensures Behind(rec, fs, from) == EndOf(from, Widths(rec, fs), width)
    decreases |fs|
  {
    if fs != [] {
      if IsNull(rec, fs[0]) {
        ClassLength(rec, fs[1..], width, from);
      } else {
        ClassLength(rec, fs[1..], width, from + Padding(from, width) + width);
        EndOfNext(from, Widths(rec, fs[1..]), width);
      }
    }
  }

  lemma EndOfNext(from: nat, n: nat, width: nat)
    requires width == 1 || width == 4 || width == 8
    ensures EndOf(from + Padding(from, width) + width, n, width) == EndOf(from, width + n, width)
  {
    AlignedOn(from, width);
  }

  lemma {:induction false} BehindJoin(rec: Record, xs: seq<Field>, ys: seq<Field>, from: nat)
    ensures Behind(rec, xs + ys, from) == Behind(rec, ys, Behind(rec, xs, from))
    decreases |xs|
  {
    if xs == [] {
      assert xs + ys == ys;
    } else {
      assert (xs + ys)[1..] == xs[1..] + ys;
      BehindJoin(rec, xs[1..], ys, BehindOne(rec, xs[0], from));
    }
  }

  /** The three lists hold the fields of 1, 4 and 8 bytes, as those of every ordered type do. */
  ghost predicate ByWidth(t: RecordType) {
    && (forall f | f in t.size1 :: f.width == 1)
    && (forall f | f in t.size4 :: f.width == 4)
    && (forall f | f in t.size8 :: f.width == 8)
  }

  lemma ThreeClasses(rec: Record, ones: seq<Field>, fours: seq<Field>, eights: seq<Field>, from: nat)
    requires forall f | f in ones :: f.width == 1
    requires forall f | f in fours :: f.width == 4
    requires forall f | f in eights :: f.width == 8
    ensures Behind(rec, ones + fours + eights, from)
         == EndOf(EndOf(from + Widths(rec, ones), Widths(rec, fours), 4), Widths(rec, eights), 8)
  {
    BehindJoin(rec, ones + fours, eights, from);
    BehindJoin(rec, ones, fours, from);
    var end1 := Behind(rec, ones, from);
    var end4 := Behind(rec, fours, end1);
    ClassLength(rec, ones, 1, from);
    EndOfBytes(from, Widths(rec, ones));
    ClassLength(rec, fours, 4, end1);
    ClassLength(rec, eights, 8, end4);
  }

  /** The exact length of a record: its bools, and its fields that are not null, width by width. */
  lemma RecordLength(t: RecordType, rec: Record, out: seq<u8>)
    requires Compacts(t, rec) && ByWidth(t)
    ensures var bytes := |out| + t.boolBytes + Widths(rec, t.size1);
            |CompactRecord(t, rec, out)| == EndOf(EndOf(bytes, Widths(rec, t.size4), 4), Widths(rec, t.size8), 8)
  {
    RecordBehind(t, rec, out);
    ThreeClasses(rec, t.size1, t.size4, t.size8, |out| + t.boolBytes);
  }

  lemma RecordBehind(t: RecordType, rec: Record, out: seq<u8>)
    requires Compacts(t, rec)
    ensures |CompactRecord(t, rec, out)| == Behind(rec, t.size1 + t.size4 + t.size8, |out| + t.boolBytes)
  {
    FieldsLength(t, rec, t.fields, out + rec[..t.boolBytes]);
  }

  lemma EndOfBytes(from: nat, n: nat)
    ensures EndOf(from, n, 1) == from + n
  {
  }

  lemma {:induction false} FourWidths(t: RecordType, rec: Record, fs: seq<Field>)
    requires forall f | f in fs :: f.width == 4
    ensures Widths(rec, fs) % 4 == 0
  {
    if fs != [] {
      FourWidths(t, rec, fs[1..]);
    }
  }

  /** So a record costs its bools and the fields that it has, and never more than seven bytes besides. */
  lemma RecordTight(t: RecordType, rec: Record, out: seq<u8>)
    requires Compacts(t, rec) && ByWidth(t)
    ensures var least := |out| + t.boolBytes + Widths(rec, t.size1) + Widths(rec, t.size4) + Widths(rec, t.size8);
            least <= |CompactRecord(t, rec, out)| <= least + 7
  {
    RecordLength(t, rec, out);
    FourWidths(t, rec, t.size4);
    TwoEnds(|out| + t.boolBytes + Widths(rec, t.size1), Widths(rec, t.size4), Widths(rec, t.size8),
            |CompactRecord(t, rec, out)|);
  }

  lemma TwoEnds(from: nat, fours: nat, eights: nat, end: nat)
    requires fours % 4 == 0 && end == EndOf(EndOf(from, fours, 4), eights, 8)
    ensures from + fours + eights <= end <= from + fours + eights + 7
  {
    if fours > 0 && eights > 0 {
      SumOfFours(from + Padding(from, 4), fours);
      HalfUnit(EndOf(from, fours, 4));
    }
  }

  lemma HalfUnit(pos: nat)
    requires pos % 4 == 0
    ensures Padding(pos, 8) <= 4
  {
  }

  lemma SumOfFours(a: nat, b: nat)
    requires a % 4 == 0 && b % 4 == 0
    ensures (a + b) % 4 == 0
  {
  }

  // ---------- what unpacking accepts ----------

  lemma NullsInBools(t: RecordType, rec: Record, rec': Record, f: Field)
    requires Compacts(t, rec) && Compacts(t, rec') && rec[..t.boolBytes] == rec'[..t.boolBytes] && f in t.fields
    ensures IsNull(rec, f) == IsNull(rec', f)
  {
    assert t.FieldFits(f) && t.BehindBools(f);
    if f.nullAt.Some? {
      var o := f.nullAt.value.offset;
      assert rec[o] == rec[..t.boolBytes][o] && rec'[o] == rec'[..t.boolBytes][o];
    }
  }

  lemma {:induction false} BehindSame(t: RecordType, rec: Record, rec': Record, fs: seq<Field>, from: nat)
    requires Compacts(t, rec) && Compacts(t, rec') && rec[..t.boolBytes] == rec'[..t.boolBytes]
    requires forall f | f in fs :: f in t.fields
    ensures Behind(rec, fs, from) == Behind(rec', fs, from)
    decreases |fs|
  {
    if fs != [] {
      NullsInBools(t, rec, rec', fs[0]);
      BehindSame(t, rec, rec', fs[1..], BehindOne(rec, fs[0], from));
    }
  }

  lemma FieldTaken(t: RecordType, src: seq<u8>, f: Field, u: Unpacked)
    requires Compacts(t, u.rec) && f in t.fields && UncompactField(t, src, f, u).Some?
    ensures var v := UncompactField(t, src, f, u).value;
            v.from == BehindOne(u.rec, f, u.from) && v.rec[..t.boolBytes] == u.rec[..t.boolBytes]
  {
    assert t.FieldFits(f) && t.BehindBools(f);
  }

  /** Unpacking takes from its input what compacting the record would write. */
  lemma {:induction false} FieldsTaken(t: RecordType, src: seq<u8>, fs: seq<Field>, u: Unpacked)
    requires Compacts(t, u.rec) && (forall f | f in fs :: f in t.fields) && UncompactFields(t, src, fs, u).Some?
    ensures var v := UncompactFields(t, src, fs, u).value;
            v.from == Behind(u.rec, fs, u.from) && v.rec[..t.boolBytes] == u.rec[..t.boolBytes]
    decreases |fs|
  {
    if fs != [] {
      assert fs[0] in fs;
      FieldTaken(t, src, fs[0], u);
      var v := UncompactField(t, src, fs[0], u).value;
      FieldsTaken(t, src, fs[1..], v);
      BehindSame(t, u.rec, v.rec, fs[1..], v.from);
    }
  }

  lemma RecordTaken(t: RecordType, src: seq<u8>, from: nat, out: seq<u8>)
    requires t.Shaped() && t.nullCompact && UncompactRecord(t, src, from).Some? && |out| == from
    ensures var u := UncompactRecord(t, src, from).value;
            u.from == |CompactRecord(t, u.rec, out)|
  {
    var start := Unpacked(Blank(t, src[from..from + t.boolBytes]), from + t.boolBytes);
    FieldsTaken(t, src, t.fields, start);
    var u := UncompactRecord(t, src, from).value;
    BehindSame(t, start.rec, u.rec, t.fields, start.from);
    RecordBehind(t, u.rec, out);
  }

  /** Nothing is left over and nothing is missing: only input of the very length that its records compact to is accepted. */
  lemma {:induction false} AcceptedLength(t: RecordType, src: seq<u8>, n: nat, out: seq<u8>)
    requires t.Shaped() && t.nullCompact && Uncompact(t, src, |out|, n).Some?
    ensures |Compact(t, Uncompact(t, src, |out|, n).value, out)| == |src|
    decreases n
  {
    if n > 0 {
      var u := UncompactRecord(t, src, |out|).value;
      RecordTaken(t, src, |out|, out);
      AcceptedLength(t, src, n - 1, CompactRecord(t, u.rec, out));
    }
  }
}
