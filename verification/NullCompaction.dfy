/** Null compaction (src/base/Extent.cpp:316-569): each record is rewritten as its bool bytes followed by its non-null
    fields, every field padded to its own alignment in the output, and the inverse that spreads them out again. */
module NullCompaction {
  import opened Bytes
  import opened RecordFormat

  ghost predicate Compacts(t: RecordType, rec: Record) {
    Ready(t, rec) && t.nullCompact
  }

  ghost predicate AllCompact(t: RecordType, recs: seq<Record>) {
    AllReady(t, recs) && t.nullCompact
  }

  // ---------- compaction as a function ----------

  /** One field behind the output so far; a null field leaves no trace, not even padding. */
  function CompactField(t: RecordType, rec: Record, f: Field, out: seq<u8>): (r: seq<u8>)
    requires Compacts(t, rec) && f in t.fields
    ensures out <= r
  {
    if IsNull(rec, f) then out
    else out + Zeros(Padding(|out|, f.width)) + Get(rec, f.offset, f.width)
  }

  function CompactFields(t: RecordType, rec: Record, fs: seq<Field>, out: seq<u8>): (r: seq<u8>)
    requires Compacts(t, rec) && forall f | f in fs :: f in t.fields
    ensures out <= r
    decreases |fs|
  {
    if fs == [] then out else CompactFields(t, rec, fs[1..], CompactField(t, rec, fs[0], out))
  }

  function CompactRecord(t: RecordType, rec: Record, out: seq<u8>): (r: seq<u8>)
    requires Compacts(t, rec)
    ensures out <= r && |out| + t.boolBytes <= |r|
  {
    CompactFields(t, rec, t.fields, out + rec[..t.boolBytes])
  }

  function Compact(t: RecordType, recs: seq<Record>, out: seq<u8>): (r: seq<u8>)
    requires AllCompact(t, recs)
    ensures out <= r
    decreases |recs|
  {
    if recs == [] then out else Compact(t, recs[1..], CompactRecord(t, recs[0], out))
  }

  // ---------- the inverse as a function ----------

  datatype Unpacked = Unpacked(rec: Record, from: nat)

  /** Fetches one field; None when the input ends inside it. */
  function UncompactField(t: RecordType, src: seq<u8>, f: Field, u: Unpacked): (r: Option<Unpacked>)
    requires Compacts(t, u.rec) && f in t.fields
    ensures r.Some? ==> Compacts(t, r.value.rec) && u.from <= r.value.from
  {
    if IsNull(u.rec, f) then Some(u)
    else
      var at := u.from + Padding(u.from, f.width);
      if at + f.width > |src| then None
      else Some(Unpacked(Put(u.rec, f.offset, Get(src, at, f.width)), at + f.width))
  }

  function UncompactFields(t: RecordType, src: seq<u8>, fs: seq<Field>, u: Unpacked): (r: Option<Unpacked>)
    requires Compacts(t, u.rec) && forall f | f in fs :: f in t.fields
    ensures r.Some? ==> Compacts(t, r.value.rec) && u.from <= r.value.from
    decreases |fs|
  {
    if fs == [] then Some(u)
    else
      match UncompactField(t, src, fs[0], u)
      case None => None
      case Some(v) => UncompactFields(t, src, fs[1..], v)
  }

  /** A record that holds the given bool bytes and zeros. */
  function Blank(t: RecordType, bools: seq<u8>): (r: Record)
    requires t.Shaped() && t.nullCompact && |bools| == t.boolBytes
    ensures Compacts(t, r)
  {
    bools + Zeros(t.size - t.boolBytes)
  }

  function UncompactRecord(t: RecordType, src: seq<u8>, from: nat): (r: Option<Unpacked>)
    requires t.Shaped() && t.nullCompact
    ensures r.Some? ==> Compacts(t, r.value.rec) && from < r.value.from
  {
    if from + t.boolBytes > |src| then None
    else UncompactFields(t, src, t.fields, Unpacked(Blank(t, src[from..from + t.boolBytes]), from + t.boolBytes))
  }

  /** n records from position from on; both cursors have to end exactly at their ends. */
  function Uncompact(t: RecordType, src: seq<u8>, from: nat, n: nat): (r: Option<seq<Record>>)
    requires t.Shaped() && t.nullCompact
    ensures r.Some? ==> |r.value| == n && AllCompact(t, r.value)
    decreases n
  {
    if n == 0 then if from == |src| then Some([]) else None
    else
      match UncompactRecord(t, src, from)
      case None => None
      case Some(u) =>
        match Uncompact(t, src, u.from, n - 1)
        case None => None
        case Some(rest) => Some([u.rec] + rest)
  }

  // ---------- what survives ----------

  /** Zero behind the bools except in the fields that are not null. */
  ghost predicate IsClean(t: RecordType, rec: Record)
    requires Compacts(t, rec)
  {
    forall i :: t.boolBytes <= i < t.size && rec[i] != 0 ==> KeptBy(rec, t.fields, i)
  }

  ghost predicate KeptBy(rec: Record, fs: seq<Field>, i: nat) {
    exists f :: f in fs && Covers(f, i) && !IsNull(rec, f)
  }

  /** The record with padding and null fields cleared. */
  ghost function Clean(t: RecordType, rec: Record): (r: Record)
    requires Compacts(t, rec)
    ensures |r| == |rec|
  {
    seq(|rec|, i requires 0 <= i < |rec| => if i < t.boolBytes || KeptBy(rec, t.fields, i) then rec[i] else 0)
  }

  lemma CleanIsClean(t: RecordType, rec: Record)
    requires Compacts(t, rec)
    ensures Clean(t, rec) == rec <==> IsClean(t, rec)
  {
    var c := Clean(t, rec);
    assert forall i :: 0 <= i < |rec| ==> c[i] == if i < t.boolBytes || KeptBy(rec, t.fields, i) then rec[i] else 0;
    if c == rec {
      forall i | t.boolBytes <= i < t.size && rec[i] != 0
        ensures KeptBy(rec, t.fields, i)
      {
        assert c[i] == rec[i];
      }
    }
  }

  // ---------- one record back and forth ----------

  /** Partly rebuilt: the bools, zeros, and the fields of fs that are not null. */
  ghost predicate Rebuilt(t: RecordType, rec: Record, fs: seq<Field>, to: Record)
    requires Compacts(t, rec) && Compacts(t, to)
  {
    forall i :: 0 <= i < t.size ==> to[i] == if i < t.boolBytes || KeptBy(rec, fs, i) then rec[i] else 0
  }

  lemma RebuiltNulls(t: RecordType, rec: Record, fs: seq<Field>, to: Record, g: Field)
    requires Compacts(t, rec) && Compacts(t, to) && Rebuilt(t, rec, fs, to) && g in t.fields
    ensures IsNull(to, g) == IsNull(rec, g)
  {
  }

  lemma KeptByMore(rec: Record, fs: seq<Field>, f: Field, i: nat)
    ensures KeptBy(rec, fs + [f], i) <==> KeptBy(rec, fs, i) || (Covers(f, i) && !IsNull(rec, f))
  {
    if g :| g in fs && Covers(g, i) && !IsNull(rec, g) {
      assert g in fs + [f];
    }
    assert f in fs + [f];
  }

  lemma RebuiltStep(t: RecordType, rec: Record, fs: seq<Field>, to: Record, f: Field)
    requires Compacts(t, rec) && Compacts(t, to) && Rebuilt(t, rec, fs, to) && f in t.fields
    ensures Rebuilt(t, rec, fs + [f],
                    if IsNull(rec, f) then to else Put(to, f.offset, Get(rec, f.offset, f.width)))
  {
    forall i | 0 <= i < t.size
      ensures KeptBy(rec, fs + [f], i) <==> KeptBy(rec, fs, i) || (Covers(f, i) && !IsNull(rec, f))
    {
      KeptByMore(rec, fs, f, i);
    }
  }

  /** Reading behind a prefix finds what compaction put there. */
  lemma FetchStored(t: RecordType, rec: Record, f: Field, out: seq<u8>, src: seq<u8>, to: Record)
    requires Compacts(t, rec) && Compacts(t, to) && f in t.fields && IsNull(to, f) == IsNull(rec, f)
    requires CompactField(t, rec, f, out) <= src
    ensures UncompactField(t, src, f, Unpacked(to, |out|))
         == Some(Unpacked(if IsNull(rec, f) then to else Put(to, f.offset, Get(rec, f.offset, f.width)),
                          |CompactField(t, rec, f, out)|))
  {
    if !IsNull(rec, f) {
      var c := CompactField(t, rec, f, out);
      var at := |out| + Padding(|out|, f.width);
      assert src[at..at + f.width] == c[at..at + f.width] == Get(rec, f.offset, f.width);
    }
  }

  function Restore(t: RecordType, rec: Record, f: Field, to: Record): (r: Record)
    requires Compacts(t, rec) && Compacts(t, to) && f in t.fields
    ensures Compacts(t, r)
  {
    assert t.FieldFits(f);
    if IsNull(rec, f) then to else Put(to, f.offset, Get(rec, f.offset, f.width))
  }

  lemma FieldBack(
      t: RecordType, rec: Record, done: seq<Field>, f: Field, out: seq<u8>, src: seq<u8>, to: Record)
    requires Compacts(t, rec) && Compacts(t, to) && f in t.fields && Rebuilt(t, rec, done, to)
    requires CompactField(t, rec, f, out) <= src
    ensures UncompactField(t, src, f, Unpacked(to, |out|))
         == Some(Unpacked(Restore(t, rec, f, to), |CompactField(t, rec, f, out)|))
    ensures Rebuilt(t, rec, done + [f], Restore(t, rec, f, to))
  {
    RebuiltNulls(t, rec, done, to, f);
    FetchStored(t, rec, f, out, src, to);
    RebuiltStep(t, rec, done, to, f);
  }

  lemma {:induction false} FieldsBack(
      t: RecordType, rec: Record, done: seq<Field>, fs: seq<Field>, out: seq<u8>, src: seq<u8>, to: Record)
    requires Compacts(t, rec) && Compacts(t, to) && t.fields == done + fs
    requires Rebuilt(t, rec, done, to)
    requires forall f | f in fs :: f in t.fields
    requires CompactFields(t, rec, fs, out) <= src
    ensures var r := UncompactFields(t, src, fs, Unpacked(to, |out|));
            r.Some? && r.value.from == |CompactFields(t, rec, fs, out)| && Rebuilt(t, rec, t.fields, r.value.rec)
    decreases |fs|
  {
    if fs == [] {
      assert done + fs == done;
    } else {
      var f, out', to' := fs[0], CompactField(t, rec, fs[0], out), Restore(t, rec, fs[0], to);
      assert out' <= CompactFields(t, rec, fs[1..], out') <= src;
      FieldBack(t, rec, done, f, out, src, to);
      assert done + fs == (done + [f]) + fs[1..];
      FieldsBack(t, rec, done + [f], fs[1..], out', src, to');
      assert UncompactFields(t, src, fs, Unpacked(to, |out|))
          == UncompactFields(t, src, fs[1..], Unpacked(to', |out'|));
    }
  }

  lemma RebuiltIsClean(t: RecordType, rec: Record, to: Record)
    requires Compacts(t, rec) && Compacts(t, to) && Rebuilt(t, rec, t.fields, to)
    ensures to == Clean(t, rec)
  {
    var c := Clean(t, rec);
    assert forall i :: 0 <= i < t.size ==> to[i] == c[i];
  }

  lemma BlankRebuilt(t: RecordType, rec: Record)
    requires Compacts(t, rec)
    ensures Rebuilt(t, rec, [], Blank(t, rec[..t.boolBytes]))
  {
  }

  lemma RecordBack(t: RecordType, rec: Record, out: seq<u8>, src: seq<u8>)
    requires Compacts(t, rec) && CompactRecord(t, rec, out) <= src
    ensures UncompactRecord(t, src, |out|) == Some(Unpacked(Clean(t, rec), |CompactRecord(t, rec, out)|))
  {
    var bools := rec[..t.boolBytes];
    var start := Unpacked(Blank(t, bools), |out + bools|);
    assert src[|out|..|out| + t.boolBytes] == bools by {
      SliceBehind(out, bools, src);
    }
    assert UncompactFields(t, src, t.fields, start) == Some(Unpacked(Clean(t, rec), |CompactRecord(t, rec, out)|)) by {
      BlankRebuilt(t, rec);
      assert t.fields == [] + t.fields;
      FieldsBack(t, rec, [], t.fields, out + bools, src, start.rec);
      RebuiltIsClean(t, rec, UncompactFields(t, src, t.fields, start).value.rec);
    }
  }

  // ---------- all records ----------

  ghost function CleanAll(t: RecordType, recs: seq<Record>): (r: seq<Record>)
    requires AllCompact(t, recs)
    ensures |r| == |recs|
    decreases |recs|
  {
    if recs == [] then [] else [Clean(t, recs[0])] + CleanAll(t, recs[1..])
  }

  lemma UncompactCons(t: RecordType, src: seq<u8>, from: nat, u: Unpacked, rest: seq<Record>)
    requires t.Shaped() && t.nullCompact
    requires UncompactRecord(t, src, from) == Some(u)
    requires Uncompact(t, src, u.from, |rest|) == Some(rest)
    ensures Uncompact(t, src, from, |rest| + 1) == Some([u.rec] + rest)
  {
  }

  lemma {:induction false} RecordsBack(t: RecordType, recs: seq<Record>, out: seq<u8>)
    requires AllCompact(t, recs)
    ensures Uncompact(t, Compact(t, recs, out), |out|, |recs|) == Some(CleanAll(t, recs))
    decreases |recs|
  {
    if recs != [] {
      var rec, rest := recs[0], recs[1..];
      var out' := CompactRecord(t, rec, out);
      var src := Compact(t, rest, out');
      RecordBack(t, rec, out, src);
      RecordsBack(t, rest, out');
      UncompactCons(t, src, |out|, Unpacked(Clean(t, rec), |out'|), CleanAll(t, rest));
    }
  }

  lemma {:induction false} CleanAllIsClean(t: RecordType, recs: seq<Record>)
    requires AllCompact(t, recs)
    ensures CleanAll(t, recs) == recs <==> forall r | r in recs :: IsClean(t, r)
    decreases |recs|
  {
    if recs != [] {
      CleanIsClean(t, recs[0]);
      CleanAllIsClean(t, recs[1..]);
      var c := CleanAll(t, recs);
      assert c[0] == Clean(t, recs[0]) && c[1..] == CleanAll(t, recs[1..]);
      assert recs == [recs[0]] + recs[1..];
      assert forall r :: r in recs <==> r == recs[0] || r in recs[1..];
    }
  }

  /** The round trip gives back exactly the records whose padding and null fields are zero, and clears those of the
      others. */
  lemma CompactRoundTrip(t: RecordType, recs: seq<Record>)
    requires AllCompact(t, recs)
    ensures Uncompact(t, Compact(t, recs, []), 0, |recs|) == Some(CleanAll(t, recs))
    ensures Uncompact(t, Compact(t, recs, []), 0, |recs|) == Some(recs) <==> forall r | r in recs :: IsClean(t, r)
  {
    RecordsBack(t, recs, []);
    CleanAllIsClean(t, recs);
  }

  // ---------- the output never overtakes the input ----------

  lemma PadBelow(pos: nat, lim: nat, w: nat)
    requires w == 1 || w == 4 || w == 8
    requires pos <= lim && Aligned(lim, w)
    ensures pos + Padding(pos, w) <= lim
  {
  }

  lemma AlignedSum(a: nat, b: nat, w: nat)
    requires Aligned(a, w) && Aligned(b, w)
    ensures Aligned(a + b, w)
  {
  }

  /** The widest alignment that the fields of the type ask for. */
  function Widest(t: RecordType): (w: nat)
    ensures w == 1 || w == 4 || w == 8
  {
    if t.size8 != [] then 8 else if t.size4 != [] then 4 else 1
  }

  /** All fields stay aligned when the record starts at base. */
  predicate BaseAligned(t: RecordType, base: nat) {
    Aligned(base, Widest(t))
  }

  lemma FieldAligned(t: RecordType, base: nat, f: Field)
    requires t.Shaped() && t.Ordered() && BaseAligned(t, base) && f in t.fields
    ensures Aligned(base, f.width) && Aligned(f.offset, f.width)
  {
  }

  lemma NextAligned(t: RecordType, base: nat)
    requires t.Shaped() && t.Ordered() && BaseAligned(t, base)
    ensures BaseAligned(t, base + t.size)
  {
    if t.size8 != [] {
      assert t.size8[0] in t.fields;
    } else if t.size4 != [] {
      assert t.size4[0] in t.fields;
    }
    AlignedSum(base, t.size, Widest(t));
  }

  /** Each field starts at or behind limit, and the next one behind its end. */
  ghost predicate AscendingFrom(t: RecordType, fs: seq<Field>, limit: nat)
    decreases |fs|
  {
    if fs == [] then limit <= t.size
    else limit <= fs[0].offset && AscendingFrom(t, fs[1..], fs[0].offset + fs[0].width)
  }

  lemma {:induction false} Ascending(t: RecordType, fs: seq<Field>, limit: nat)
    requires limit <= t.size
    requires forall f | f in fs :: limit <= f.offset && f.offset + f.width <= t.size
    requires forall i, j | 0 <= i < j < |fs| :: fs[i].offset + fs[i].width <= fs[j].offset
    ensures AscendingFrom(t, fs, limit)
    decreases |fs|
  {
    if fs != [] {
      forall f | f in fs[1..]
        ensures fs[0].offset + fs[0].width <= f.offset
      {
        var i :| 0 <= i < |fs[1..]| && fs[1..][i] == f;
        assert fs[i + 1] == f;
      }
      Ascending(t, fs[1..], fs[0].offset + fs[0].width);
    }
  }

  lemma AscendingFields(t: RecordType)
    requires t.Shaped() && t.nullCompact && t.Ordered()
    ensures AscendingFrom(t, t.fields, t.boolBytes)
  {
    forall f | f in t.fields
      ensures t.boolBytes <= f.offset && f.offset + f.width <= t.size
    {
      assert t.FieldFits(f) && t.BehindBools(f);
    }
    forall i, j | 0 <= i < j < |t.fields|
      ensures t.fields[i].offset + t.fields[i].width <= t.fields[j].offset
    {
      assert t.InOrder(i, j);
    }
    Ascending(t, t.fields, t.boolBytes);
  }

  lemma FieldNoLonger(t: RecordType, rec: Record, f: Field, limit: nat, base: nat, out: seq<u8>)
    requires Compacts(t, rec) && t.Ordered() && BaseAligned(t, base) && f in t.fields
    requires limit <= f.offset && |out| <= base + limit
    ensures |CompactField(t, rec, f, out)| <= base + f.offset + f.width
  {
    assert t.FieldFits(f);
    FieldAligned(t, base, f);
    AlignedSum(base, f.offset, f.width);
    PadBelow(|out|, base + f.offset, f.width);
  }

  lemma {:induction false} FieldsNoLonger(
      t: RecordType, rec: Record, fs: seq<Field>, limit: nat, base: nat, out: seq<u8>)
    requires Compacts(t, rec) && t.Ordered() && BaseAligned(t, base)
    requires (forall f | f in fs :: f in t.fields) && AscendingFrom(t, fs, limit)
    requires |out| <= base + limit
    ensures |CompactFields(t, rec, fs, out)| <= base + t.size
    decreases |fs|
  {
    if fs != [] {
      var f := fs[0];
      FieldNoLonger(t, rec, f, limit, base, out);
      FieldsNoLonger(t, rec, fs[1..], f.offset + f.width, base, CompactField(t, rec, f, out));
    }
  }

  /** If the output is no longer than the input at the start of a record, neither is it at its end, so there is
      always room for a whole record: the check at the top of the loop. */
  lemma RecordNoLonger(t: RecordType, rec: Record, base: nat, out: seq<u8>)
    requires Compacts(t, rec) && t.Ordered() && BaseAligned(t, base) && |out| <= base
    ensures |CompactRecord(t, rec, out)| <= base + t.size
    ensures BaseAligned(t, base + t.size)
  {
    assert |CompactRecord(t, rec, out)| <= base + t.size by {
      AscendingFields(t);
      FieldsNoLonger(t, rec, t.fields, t.boolBytes, base, out + rec[..t.boolBytes]);
    }
    NextAligned(t, base);
  }

  /** The whole output is no longer than the records. */
  lemma {:induction false} NoLonger(t: RecordType, recs: seq<Record>, base: nat, out: seq<u8>)
    requires AllCompact(t, recs) && t.Ordered() && BaseAligned(t, base) && |out| <= base
    ensures |Compact(t, recs, out)| <= base + |Flatten(recs)|
    decreases |recs|
  {
    if recs != [] {
      RecordNoLonger(t, recs[0], base, out);
      NoLonger(t, recs[1..], base + t.size, CompactRecord(t, recs[0], out));
    }
  }
}
