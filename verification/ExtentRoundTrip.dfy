/** The main laws of the extent codec: unpackData undoes packData up to cleared nulls and renumbered strings, and
    packing what was unpacked gives the same bytes before compression. */
module ExtentRoundTrip {
  import opened Bytes
  import opened RecordFormat
  import opened StringPool
  import opened StringPacking
  import opened StringPackingLaws
  import opened ExtentCodec
  import RelativePacking
  import RelativeFrame
  import StringColumns
  import NullCompaction
  import Compression
  import ExtentFrame

  // ---------- padding bytes ----------

  /** The bytes behind the bools that belong to no field are zero, as a freshly created record leaves them. */
  ghost predicate ZeroPadding(t: RecordType, rec: Record)
    requires Ready(t, rec)
  {
    forall i :: t.boolBytes <= i < t.size && rec[i] != 0 ==> exists f :: f in t.fields && Covers(f, i)
  }

  ghost predicate AllZeroPadding(t: RecordType, recs: seq<Record>)
    requires AllReady(t, recs)
  {
    forall k :: 0 <= k < |recs| ==> ZeroPadding(t, recs[k])
  }

  /** The accessors keep it: they write into fields and null bits only. */
  lemma WritingKeepsPadding(t: RecordType, rec: Record, rec': Record, f: Field)
    requires Ready(t, rec) && t.nullCompact && f in t.fields && ZeroPadding(t, rec)
    requires StringColumns.OnlyField(rec, rec', f)
    ensures Ready(t, rec') && ZeroPadding(t, rec')
  {
    assert t.BehindBools(f);
    forall i | t.boolBytes <= i < t.size && rec'[i] != 0
      ensures exists g :: g in t.fields && Covers(g, i)
    {
      if !Covers(f, i) {
        assert rec'[i] == rec[i];
      }
    }
  }

  lemma NormalizedIsClean(t: RecordType, src: seq<u8>, rec: Record, pool: seq<u8>, rec': Record)
    requires Separated(t, rec) && t.nullCompact && ZeroPadding(t, rec) && Normalized(t, src, rec, pool, rec')
    ensures NullCompaction.IsClean(t, rec')
  {
    ClearFieldsCleared(t, rec, t.fields);
    forall i | t.boolBytes <= i < t.size && rec'[i] != 0
      ensures NullCompaction.KeptBy(rec', t.fields, i)
    {
      assert exists f :: f in t.fields && Covers(f, i) by {
        if c :| c in t.vars && Covers(c.field, i) {
          assert c.field in t.fields;
        } else {
          assert rec'[i] == ClearNulls(t, rec)[i] == rec[i];
        }
      }
      var f :| f in t.fields && Covers(f, i);
      NullsStayClear(t, src, rec, pool, rec', f, i);
    }
  }

  lemma PackedIsClean(t: RecordType, rec: Record, psr: seq<RelativePacking.Running>)
    requires Separated(t, rec) && t.nullCompact && NullCompaction.IsClean(t, rec)
    requires RelativePacking.AllOk(t, psr) && forall p | p in psr :: p.field in t.selfs
    ensures NullCompaction.IsClean(t, RelativePacking.PackRecord(t, rec, psr).rec)
  {
    var rec' := RelativePacking.PackRecord(t, rec, psr).rec;
    RelativeFrame.PackRecordUntouched(t, rec, psr);
    forall i | t.boolBytes <= i < t.size && rec'[i] != 0
      ensures NullCompaction.KeptBy(rec', t.fields, i)
    {
      assert exists f :: f in t.fields && Covers(f, i) && !IsNull(rec, f) by {
        if rec'[i] == rec[i] {
          assert NullCompaction.KeptBy(rec, t.fields, i);
        } else {
          assert RelativeFrame.Touchable(t, rec, i);
        }
      }
      var f :| f in t.fields && Covers(f, i) && !IsNull(rec, f);
      RelativeFrame.UntouchedNulls(t, rec, rec', f);
    }
  }

  ghost predicate AllClean(t: RecordType, recs: seq<Record>)
    requires AllReady(t, recs) && t.nullCompact
  {
    forall k :: 0 <= k < |recs| ==> NullCompaction.IsClean(t, recs[k])
  }

  lemma AllCleanCons(t: RecordType, rec: Record, recs: seq<Record>)
    requires Ready(t, rec) && AllReady(t, recs) && AllReady(t, [rec] + recs) && t.nullCompact
    requires NullCompaction.IsClean(t, rec) && AllClean(t, recs)
    ensures AllClean(t, [rec] + recs)
  {
    forall k | 0 <= k < |recs| + 1
      ensures NullCompaction.IsClean(t, ([rec] + recs)[k])
    {
      if k > 0 {
        assert NullCompaction.IsClean(t, recs[k - 1]);
      }
    }
  }

  lemma AllCleanTail(t: RecordType, recs: seq<Record>)
    requires AllReady(t, recs) && t.nullCompact && recs != [] && AllClean(t, recs)
    ensures NullCompaction.IsClean(t, recs[0]) && AllReady(t, recs[1..]) && AllClean(t, recs[1..])
  {
    assert forall k :: 0 <= k < |recs[1..]| ==> recs[1..][k] == recs[k + 1];
  }

  lemma {:induction false} PackedAllClean(t: RecordType, recs: seq<Record>, psr: seq<RelativePacking.Running>)
    requires AllReady(t, recs) && t.Separate() && t.Options() && t.nullCompact
    requires AllClean(t, recs)
    requires RelativePacking.AllOk(t, psr) && forall p | p in psr :: p.field in t.selfs
    ensures AllClean(t, RelativePacking.PackRecords(t, recs, psr))
    decreases |recs|
  {
    if recs != [] {
      var r := RelativePacking.PackRecord(t, recs[0], psr);
      AllCleanTail(t, recs);
      PackedIsClean(t, recs[0], psr);
      FieldsKept(t, psr, r.psr);
      PackedAllClean(t, recs[1..], r.psr);
      AllCleanCons(t, r.rec, RelativePacking.PackRecords(t, recs[1..], r.psr));
    }
  }

  lemma FieldsKept(t: RecordType, psr: seq<RelativePacking.Running>, psr': seq<RelativePacking.Running>)
    requires |psr'| == |psr| && forall i :: 0 <= i < |psr| ==> psr'[i].field == psr[i].field
    requires forall p | p in psr :: p.field in t.selfs
    ensures forall p | p in psr' :: p.field in t.selfs
  {
    forall p | p in psr'
      ensures p.field in t.selfs
    {
      var i :| 0 <= i < |psr'| && psr'[i] == p;
      assert psr[i] in psr;
    }
  }

  // ---------- strings keep their offsets through relative packing ----------

  lemma ColumnUntouched(t: RecordType, rec: Record, rec': Record, c: VarColumn)
    requires Separated(t, rec) && Ready(t, rec') && RelativeFrame.Untouched(t, rec, rec') && c in t.vars
    ensures t.FieldFits(c.field)
    ensures RelativePacking.Word(rec', c.field) == RelativePacking.Word(rec, c.field)
  {
    var f := c.field;
    assert t.FieldFits(f);
    var x, y := Get(rec', f.offset, f.width), Get(rec, f.offset, f.width);
    forall i | 0 <= i < f.width
      ensures x[i] == y[i]
    {
      forall g | g in t.fields && RelativeFrame.IsRelative(t, g)
        ensures !Covers(g, f.offset + i)
      {
        assert g != f && t.DisjointPair(g, f);
      }
      assert !RelativeFrame.Touchable(t, rec, f.offset + i);
    }
    assert x == y;
  }

  ghost predicate AllColumnsKept(t: RecordType, recs: seq<Record>, packed: seq<Record>)
    requires AllReady(t, recs) && AllReady(t, packed) && |packed| == |recs|
  {
    forall k, c :: 0 <= k < |recs| && c in t.vars ==> ColumnKept(t, recs[k], packed[k], c)
  }

  ghost predicate ColumnKept(t: RecordType, rec: Record, rec': Record, c: VarColumn)
    requires Ready(t, rec) && Ready(t, rec') && c in t.vars
  {
    assert t.FieldFits(c.field);
    RelativePacking.Word(rec', c.field) == RelativePacking.Word(rec, c.field)
  }

  lemma {:induction false} PackedColumns(t: RecordType, recs: seq<Record>, psr: seq<RelativePacking.Running>)
    requires AllReady(t, recs) && t.Separate() && t.Options()
    requires RelativePacking.AllOk(t, psr) && forall p | p in psr :: p.field in t.selfs
    ensures AllColumnsKept(t, recs, RelativePacking.PackRecords(t, recs, psr))
    decreases |recs|
  {
    if recs != [] {
      var r := RelativePacking.PackRecord(t, recs[0], psr);
      var tail := RelativePacking.PackRecords(t, recs[1..], r.psr);
      RelativeFrame.PackRecordUntouched(t, recs[0], psr);
      FieldsKept(t, psr, r.psr);
      PackedColumns(t, recs[1..], r.psr);
      forall k, c | 0 <= k < |recs| && c in t.vars
        ensures ColumnKept(t, recs[k], ([r.rec] + tail)[k], c)
      {
        if k == 0 {
          ColumnUntouched(t, recs[0], r.rec, c);
        } else {
          assert ColumnKept(t, recs[1..][k - 1], tail[k - 1], c);
        }
      }
    }
  }

  // ---------- the stages ----------

  lemma StartOk(t: RecordType)
    requires t.Valid()
    ensures var psr := RelativePacking.Start(t.selfs);
            && RelativePacking.AllOk(t, psr) && RelativePacking.DistinctFields(psr)
            && forall p | p in psr :: p.field in t.selfs
  {
  }

  /** The normalized records and pool behind the coded ones. */
  lemma NormalizedPart(t: RecordType, e: Extent)
    requires t.Valid() && AllReady(t, e.recs) && |e.pool| < MAX_INT32 && Code(t, e).Some?
    ensures Normalize(t, e.pool, e.recs, EMPTY).Some?
    ensures var n := Normalize(t, e.pool, e.recs, EMPTY).value;
            && Code(t, e).value.pool == n.pool.bytes && n.pool.Valid()
            && AllNormalized(t, e.pool, e.recs, n.pool.bytes, n.recs)
  {
    EmptyValid();
    NormalizeEffect(t, e.pool, e.recs, EMPTY);
  }

  lemma CodedStringsChecked(
      t: RecordType, src: seq<u8>, recs: seq<Record>, pool: seq<u8>, recs': seq<Record>, coded: seq<Record>)
    requires AllReady(t, recs) && AllReady(t, recs') && AllReady(t, coded)
    requires AllNormalized(t, src, recs, pool, recs')
    requires |coded| == |recs'| && AllColumnsKept(t, recs', coded)
    ensures StringsChecked(t, coded, pool)
  {
    forall k, c | 0 <= k < |coded| && c in t.vars
      ensures StringChecked(t, coded[k], pool, c)
    {
      assert ColumnKept(t, recs'[k], coded[k], c);
      assert Normalized(t, src, recs[k], pool, recs'[k]);
    }
  }

  /** Decoding the coded form gives the normalized records. */
  lemma DecodeCode(t: RecordType, e: Extent)
    requires t.Valid() && AllReady(t, e.recs) && |e.pool| < MAX_INT32 && Code(t, e).Some?
    ensures Normalize(t, e.pool, e.recs, EMPTY).Some?
    ensures Decode(t, Code(t, e).value)
         == Some(Extent(Normalize(t, e.pool, e.recs, EMPTY).value.recs, Code(t, e).value.pool))
  {
    var n := Normalize(t, e.pool, e.recs, EMPTY).value;
    var c := Code(t, e).value;
    var psr := RelativePacking.Start(t.selfs);
    StartOk(t);
    assert StringsChecked(t, c.recs, c.pool) by {
      NormalizedPart(t, e);
      PackedColumns(t, n.recs, psr);
      CodedStringsChecked(t, e.pool, e.recs, c.pool, n.recs, c.recs);
    }
    RelativePacking.UnpackPackRecords(t, n.recs, psr);
  }

  lemma NormalizedAllClean(t: RecordType, src: seq<u8>, recs: seq<Record>, pool: seq<u8>, recs': seq<Record>)
    requires AllReady(t, recs) && AllReady(t, recs') && t.Separate() && t.Options() && t.nullCompact
    requires AllNormalized(t, src, recs, pool, recs') && AllZeroPadding(t, recs)
    ensures AllClean(t, recs')
  {
    forall k | 0 <= k < |recs'|
      ensures NullCompaction.IsClean(t, recs'[k])
    {
      NormalizedIsClean(t, src, recs[k], pool, recs'[k]);
    }
  }

  lemma CodedClean(t: RecordType, e: Extent)
    requires t.Valid() && AllReady(t, e.recs) && |e.pool| < MAX_INT32 && Code(t, e).Some?
    requires t.nullCompact && AllZeroPadding(t, e.recs)
    ensures AllClean(t, Code(t, e).value.recs)
  {
    StartOk(t);
    NormalizedPart(t, e);
    var n := Normalize(t, e.pool, e.recs, EMPTY).value;
    NormalizedAllClean(t, e.pool, e.recs, n.pool.bytes, n.recs);
    PackedAllClean(t, n.recs, RelativePacking.Start(t.selfs));
  }

  lemma CompactEmpty(t: RecordType, recs: seq<Record>)
    requires NullCompaction.AllCompact(t, recs)
    ensures NullCompaction.Compact(t, recs, []) == [] <==> recs == []
  {
    if recs != [] {
      assert NullCompaction.CompactRecord(t, recs[0], []) <= NullCompaction.Compact(t, recs, []);
    }
  }

  lemma CompactPartBack(t: RecordType, recs: seq<Record>)
    requires t.Valid() && AllReady(t, recs) && t.nullCompact && AllClean(t, recs)
    ensures var b := NullCompaction.Compact(t, recs, []);
            && |b| <= |Flatten(recs)| && (b == [] <==> recs == [])
            && NullCompaction.Uncompact(t, b, 0, |recs|) == Some(recs)
  {
    NullCompaction.NoLonger(t, recs, 0, []);
    NullCompaction.CompactRoundTrip(t, recs);
    CompactEmpty(t, recs);
  }

  /** The fixed part: it fits its buffer, is empty only without records, and is read back. */
  lemma FixedPartBack(t: RecordType, recs: seq<Record>)
    requires t.Valid() && AllReady(t, recs) && t.size > 0
    requires t.nullCompact ==> AllClean(t, recs)
    ensures |FixedCoded(t, recs)| <= |recs| * t.size
    ensures FixedCoded(t, recs) == [] <==> recs == []
    ensures FixedDecoded(t, |recs|, FixedCoded(t, recs)) == Some(recs)
  {
    ChunkFlatten(recs, t.size);
    if t.nullCompact {
      CompactPartBack(t, recs);
    } else {
      FlattenEmpty(recs, t.size);
    }
  }

  lemma PoolFront(pool: seq<u8>)
    requires 4 <= |pool| && SizeAt(pool, 0) == 0
    ensures pool == Zeros(4) + pool[4..]
  {
    DecZero(Get(pool, 0, 4));
    assert forall i :: 0 <= i < 4 ==> pool[i] == Get(pool, 0, 4)[i];
  }

  /** Compressed and padded into a frame, the coded extent comes back from it. */
  lemma DisassembleAssemble(lib: Library, t: RecordType, name: seq<u8>, c: Coded, tries: Attempted, digest: nat)
    requires t.Valid() && AllReady(t, c.recs) && t.size > 0 && tries.Valid()
    requires 4 <= |c.pool| && SizeAt(c.pool, 0) == 0
    requires t.nullCompact ==> AllClean(t, c.recs)
    requires Compression.Honest(lib.decoders, tries.fixed, FixedCoded(t, c.recs))
    requires Compression.Honest(lib.decoders, tries.variable, c.pool[4..])
    requires Assemble(lib, t, name, c, tries).Some?
    ensures Disassemble(lib, t, Assemble(lib, t, name, c, tries).value.(digest := digest)) == Done(c)
  {
    var input := FixedCoded(t, c.recs);
    var p := Assemble(lib, t, name, c, tries).value;
    FixedPartBack(t, c.recs);
    Compression.CompressedDecodes(lib.decoders, input, tries.fixed, tries.unsetFixed);
    assert Compression.Uncompress(lib.decoders, p.fixedMode, p.fixed, p.nrecords * t.size) == Some(input);
    Compression.CompressedDecodes(lib.decoders, c.pool[4..], tries.variable, tries.unsetVariable);
    PoolFront(c.pool);
  }

  lemma UnsealSeal(lib: Library, p: ExtentFrame.Parts)
    requires lib.Valid() && p.Valid()
    ensures var b := Seal(lib, p);
            && 20 <= |b|
            && ExtentFrame.Parse(b) == Some(p.(digest := lib.adler(ExtentFrame.Digested(b))))
  {
    var d := lib.adler(ExtentFrame.Digested(ExtentFrame.Frame(p)));
    ExtentFrame.DigestedSame(p, d);
    ExtentFrame.ParseFrame(p.(digest := d));
  }

  /** The attempts on the two coded parts keep the codec contract. */
  ghost predicate HonestTries(lib: Library, t: RecordType, c: Coded, tries: Attempted)
    requires t.Valid() && AllReady(t, c.recs)
  {
    && Compression.Honest(lib.decoders, tries.fixed, FixedCoded(t, c.recs))
    && (4 <= |c.pool| ==> Compression.Honest(lib.decoders, tries.variable, c.pool[4..]))
  }

  /** What packData assembled is disassembled into the same coded records and pool. */
  lemma CodedComesBack(lib: Library, t: RecordType, name: seq<u8>, e: Extent, tries: Attempted, digest: nat)
    requires t.Valid() && t.size > 0 && AllReady(t, e.recs) && tries.Valid()
    requires 4 <= |e.pool| < MAX_INT32 && (t.nullCompact ==> AllZeroPadding(t, e.recs))
    requires Code(t, e).Some? && 4 <= |Code(t, e).value.pool| && HonestTries(lib, t, Code(t, e).value, tries)
    requires Assemble(lib, t, name, Code(t, e).value, tries).Some?
    ensures var c := Code(t, e).value;
            Disassemble(lib, t, Assemble(lib, t, name, c, tries).value.(digest := digest)) == Done(c)
  {
    NormalizedPart(t, e);
    if t.nullCompact {
      CodedClean(t, e);
    }
    DisassembleAssemble(lib, t, name, Code(t, e).value, tries, digest);
  }

  /** The end-to-end law.  Whenever packData succeeds, unpackData accepts its bytes: no length, hash or offset check
      fails.  It returns the same number of records; each has every byte that belongs to no variable32 column and to
      no cleared null field, and every column names the same string. */
  lemma EndToEnd(lib: Library, t: RecordType, name: seq<u8>, e: Extent, tries: Attempted)
    requires lib.Valid() && t.Valid() && t.size > 0 && AllReady(t, e.recs) && tries.Valid()
    requires 4 <= |e.pool| < MAX_INT32
    requires t.nullCompact ==> AllZeroPadding(t, e.recs)
    requires Code(t, e).Some? ==> HonestTries(lib, t, Code(t, e).value, tries)
    requires PackData(lib, t, name, e, tries).Some?
    ensures Decode(t, Code(t, e).value).Some?
    ensures var r := UnpackData(lib, t, name, PackData(lib, t, name, e, tries).value);
            && r == Done(Decode(t, Code(t, e).value).value)
            && AllNormalized(t, e.pool, e.recs, r.value.pool, r.value.recs)
  {
    var c := Code(t, e).value;
    var p := Assemble(lib, t, name, c, tries).value;
    var b := Seal(lib, p);
    UnsealSeal(lib, p);
    CodedComesBack(lib, t, name, e, tries, lib.adler(ExtentFrame.Digested(b)));
    DecodeCode(t, e);
    assert UnpackData(lib, t, name, b) == Done(Decode(t, c).value);
    NormalizedPart(t, e);
  }

  /** A byte that no column and no null field covers is as it was. */
  lemma ByteSurvives(t: RecordType, src: seq<u8>, rec: Record, pool: seq<u8>, rec': Record, i: nat)
    requires Separated(t, rec) && Normalized(t, src, rec, pool, rec') && i < t.size
    requires forall c | c in t.vars :: !Covers(c.field, i)
    requires t.nullCompact ==> !NullAt(rec, t.fields, i)
    ensures rec'[i] == rec[i]
  {
    if t.nullCompact {
      ClearFieldsCleared(t, rec, t.fields);
    }
  }

  lemma NullFlagSurvives(t: RecordType, src: seq<u8>, rec: Record, pool: seq<u8>, rec': Record, f: Field)
    requires Separated(t, rec) && Normalized(t, src, rec, pool, rec') && f in t.fields
    ensures IsNull(rec', f) == IsNull(rec, f)
  {
    if f.nullAt.Some? {
      assert t.FieldFits(f);
      var o := f.nullAt.value.offset;
      forall g | g in t.fields
        ensures !Covers(g, o)
      {
        assert t.OffNullBit(g, f);
      }
      ByteSurvives(t, src, rec, pool, rec', o);
    }
  }

  /** What a reader sees of a record that went through packing: every null flag is the same; without null compaction or
      when the field is not null, a field that is no string has the same value. */
  lemma ValueSurvives(t: RecordType, src: seq<u8>, rec: Record, pool: seq<u8>, rec': Record, f: Field)
    requires Separated(t, rec) && Normalized(t, src, rec, pool, rec') && f in t.fields
    requires forall c | c in t.vars :: c.field != f
    ensures IsNull(rec', f) == IsNull(rec, f)
    ensures !(t.nullCompact && IsNull(rec, f)) ==>
      f.offset + f.width <= t.size && RelativePacking.Word(rec', f) == RelativePacking.Word(rec, f)
  {
    NullFlagSurvives(t, src, rec, pool, rec', f);
    assert t.FieldFits(f);
    if !(t.nullCompact && IsNull(rec, f)) {
      var x, y := Get(rec', f.offset, f.width), Get(rec, f.offset, f.width);
      forall i | 0 <= i < f.width
        ensures x[i] == y[i]
      {
        forall c | c in t.vars
          ensures !Covers(c.field, f.offset + i)
        {
          assert t.DisjointPair(c.field, f);
        }
        if t.nullCompact {
          NotNullThere(t, rec, f, f.offset + i);
        }
        ByteSurvives(t, src, rec, pool, rec', f.offset + i);
      }
      assert x == y;
    }
  }

  /** The same for a string: unless null compaction dropped it, the new offset names the same text in the new pool. */
  lemma StringSurvives(t: RecordType, src: seq<u8>, rec: Record, pool: seq<u8>, rec': Record, c: VarColumn)
    requires Separated(t, rec) && Normalized(t, src, rec, pool, rec') && c in t.vars
    ensures IsNull(rec', c.field) == IsNull(rec, c.field)
    ensures !(t.nullCompact && IsNull(rec, c.field)) ==> SameString(src, rec, pool, rec', c.field)
  {
    NullFlagSurvives(t, src, rec, pool, rec', c.field);
    assert t.FieldFits(c.field);
    if t.nullCompact && !IsNull(rec, c.field) {
      var clear, f := ClearNulls(t, rec), c.field;
      ClearFieldsCleared(t, rec, t.fields);
      var x, y := Get(clear, f.offset, f.width), Get(rec, f.offset, f.width);
      forall i | 0 <= i < f.width
        ensures x[i] == y[i]
      {
        NotNullThere(t, rec, f, f.offset + i);
      }
      assert x == y;
    }
  }

  /** Canonical form: the extent that unpacking returns codes to the very same fixed bytes and the very same pool. */
  lemma CanonicalForm(t: RecordType, e: Extent)
    requires t.Valid() && AllReady(t, e.recs) && 4 <= |e.pool| < MAX_INT32 && Code(t, e).Some?
    ensures var c := Code(t, e).value;
            Decode(t, c).Some? && AllReady(t, Decode(t, c).value.recs) && Code(t, Decode(t, c).value) == Some(c)
  {
    var n := Normalize(t, e.pool, e.recs, EMPTY).value;
    EmptyValid();
    DecodeCode(t, e);
    NormalizeBounded(t, e.pool, e.recs, EMPTY);
    NormalizeAgain(t, e.pool, e.recs, EMPTY, n.pool.bytes);
  }

  /** The same from the outside: what unpackData makes of the bytes of packData is coded to the same records and the
      same pool, so that with the same compression attempts packData gives the same bytes again. */
  lemma PackAgain(lib: Library, t: RecordType, name: seq<u8>, e: Extent, tries: Attempted)
    requires lib.Valid() && t.Valid() && t.size > 0 && AllReady(t, e.recs) && tries.Valid()
    requires 4 <= |e.pool| < MAX_INT32
    requires t.nullCompact ==> AllZeroPadding(t, e.recs)
    requires Code(t, e).Some? ==> HonestTries(lib, t, Code(t, e).value, tries)
    requires PackData(lib, t, name, e, tries).Some?
    ensures var r := UnpackData(lib, t, name, PackData(lib, t, name, e, tries).value);
            && r.Done? && AllReady(t, r.value.recs) && 4 <= |r.value.pool|
            && Code(t, r.value) == Code(t, e)
            && PackData(lib, t, name, r.value, tries) == PackData(lib, t, name, e, tries)
  {
    EndToEnd(lib, t, name, e, tries);
    CanonicalForm(t, e);
  }

  lemma {:induction false} PackVarsBounded(t: RecordType, src: seq<u8>, rec: Record, cs: seq<VarColumn>, st: Packed)
    requires Ready(t, rec) && (forall c | c in cs :: c in t.vars) && PackVars(t, src, rec, cs, st).Some?
    ensures |PackVars(t, src, rec, cs, st).value.pool.bytes| <= |src|
         || PackVars(t, src, rec, cs, st).value.pool == st
    decreases |cs|
  {
    if cs != [] {
      var v := PackVar(src, rec, cs[0], st).value;
      PackVarsBounded(t, src, v.rec, cs[1..], v.pool);
    }
  }

  /** The packed pool never outgrows the source pool, except for the four bytes it starts with. */
  lemma {:induction false} NormalizeBounded(t: RecordType, src: seq<u8>, recs: seq<Record>, st: Packed)
    requires AllReady(t, recs) && Normalize(t, src, recs, st).Some?
    ensures |Normalize(t, src, recs, st).value.pool.bytes| <= |src| || Normalize(t, src, recs, st).value.pool == st
    decreases |recs|
  {
    if recs != [] {
      var clear := ClearNulls(t, recs[0]);
      PackVarsBounded(t, src, clear, t.vars, st);
      NormalizeBounded(t, src, recs[1..], PackVars(t, src, clear, t.vars, st).value.pool);
    }
  }

  /** In packData the walk over the string lengths always ends: the packed pool is a run of entries. */
  lemma PackedPoolWalks(lib: Library, t: RecordType, e: Extent)
    requires lib.Valid() && t.Valid() && AllReady(t, e.recs) && 4 <= |e.pool| < MAX_INT32 && Code(t, e).Some?
    ensures var c := Code(t, e).value;
            && 4 <= |c.pool| <= |e.pool|
            && CheckHash(lib, Flatten(c.recs), c.pool).Hashed?
            && CheckHash(lib, Flatten(c.recs), c.pool).hash < 0x1_0000_0000
  {
    NormalizedPart(t, e);
    NormalizeBounded(t, e.pool, e.recs, EMPTY);
    CheckHashDefined(lib, Flatten(Code(t, e).value.recs), Code(t, e).value.pool);
  }

  /** For an extent built with the field accessors, packData succeeds exactly when both compressed parts stay below
      the 512 MiB that it accepts. */
  lemma WellBuiltExtentPacks(lib: Library, t: RecordType, name: seq<u8>, e: Extent, tries: Attempted)
    requires lib.Valid() && t.Valid() && AllReady(t, e.recs) && tries.Valid()
    requires WellBuilt(e.pool) && SoundRefs(e.pool, AllRefs(t, e.recs)) && Unshared(AllRefs(t, e.recs))
    requires 1 <= |name| <= 255 && |e.recs| < MAX_INT32
    ensures Code(t, e).Some? && 4 <= |Code(t, e).value.pool| <= |e.pool|
    ensures var c := Code(t, e).value;
            PackData(lib, t, name, e, tries).Some? <==>
              && |Compression.Compressed(FixedCoded(t, c.recs), tries.fixed, tries.unsetFixed).bytes|
                   < ExtentFrame.MAX_PACKED
              && |Compression.Compressed(c.pool[4..], tries.variable, tries.unsetVariable).bytes|
                   < ExtentFrame.MAX_PACKED
  {
    WellBuiltPacks(t, e.pool, e.recs);
    PackedPoolWalks(lib, t, e);
  }

  /** What the field accessors leave is such an extent. */
  lemma WrittenExtentPacks(lib: Library, t: RecordType, name: seq<u8>, e: Extent, tries: Attempted)
    requires lib.Valid() && tries.Valid() && StringColumns.Written(t, e.recs, e.pool)
    requires 1 <= |name| <= 255 && |e.recs| < MAX_INT32
    ensures Code(t, e).Some? && 4 <= |Code(t, e).value.pool| <= |e.pool|
    ensures var c := Code(t, e).value;
            PackData(lib, t, name, e, tries).Some? <==>
              && |Compression.Compressed(FixedCoded(t, c.recs), tries.fixed, tries.unsetFixed).bytes|
                   < ExtentFrame.MAX_PACKED
              && |Compression.Compressed(c.pool[4..], tries.variable, tries.unsetVariable).bytes|
                   < ExtentFrame.MAX_PACKED
  {
    StringColumns.WrittenPacks(t, e.recs, e.pool);
    WellBuiltExtentPacks(lib, t, name, e, tries);
  }

  /** The walk over the string lengths ends on a pool that is a run of entries. */
  lemma CheckHashDefined(lib: Library, fixed: seq<u8>, pool: seq<u8>)
    requires lib.Valid() && 4 <= |pool| < MAX_INT32 && Chain(pool, 4)
    ensures CheckHash(lib, fixed, pool).Hashed? && CheckHash(lib, fixed, pool).hash < 0x1_0000_0000
  {
    var seed := lib.hash(lib.hash(1972, fixed), pool);
    HashSizesIsBlocks(lib, pool, 4, |pool|, seed, []);
    HashBlocksFit(lib, [] + SizeWords(pool, 4), seed);
  }

  lemma {:induction false} HashBlocksFit(lib: Library, words: seq<u8>, seed: nat)
    requires lib.Valid()
    ensures HashBlocks(lib, words, seed) < 0x1_0000_0000
    decreases |words|
  {
    if |words| >= 4 * BATCH {
      HashBlocksFit(lib, words[4 * BATCH..], lib.hash(seed, words[..4 * BATCH]));
    }
  }
}
