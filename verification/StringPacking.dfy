/** The first half of packing a record (src/base/Extent.cpp:616-686): null fields are cleared, and every variable32
    field gets an offset into a freshly built pool. */
module StringPacking {
  import opened Bytes
  import opened RecordFormat
  import opened StringPool
  import opened RelativePacking

  // ---------- clearing null fields ----------

  function ClearField(rec: Record, f: Field): (r: Record)
    requires f.offset + f.width <= |rec|
    ensures |r| == |rec|
  {
    if IsNull(rec, f) then Put(rec, f.offset, Zeros(f.width)) else rec
  }

  function ClearFields(t: RecordType, rec: Record, fs: seq<Field>): (r: Record)
    requires Ready(t, rec) && forall f | f in fs :: f in t.fields
    ensures Ready(t, r)
    decreases |fs|
  {
    if fs == [] then rec
    else
      assert t.FieldFits(fs[0]);
      ClearFields(t, ClearField(rec, fs[0]), fs[1..])
  }

  /** Only done when the type asks for null compaction. */
  function ClearNulls(t: RecordType, rec: Record): (r: Record)
    requires Ready(t, rec)
    ensures Ready(t, r)
  {
    if t.nullCompact then ClearFields(t, rec, t.fields) else rec
  }

  /** The byte belongs to a null field of fs. */
  ghost predicate NullAt(rec: Record, fs: seq<Field>, i: nat) {
    exists f :: f in fs && Covers(f, i) && IsNull(rec, f)
  }

  ghost predicate ClearedBy(rec: Record, rec': Record, fs: seq<Field>) {
    |rec'| == |rec| && forall i :: 0 <= i < |rec| ==> rec'[i] == if NullAt(rec, fs, i) then 0 else rec[i]
  }

  lemma ClearOne(t: RecordType, rec: Record, f: Field)
    requires Separated(t, rec) && f in t.fields
    ensures forall g | g in t.fields :: IsNull(ClearField(rec, f), g) == IsNull(rec, g)
    ensures forall i :: 0 <= i < |rec| ==>
      ClearField(rec, f)[i] == if Covers(f, i) && IsNull(rec, f) then 0 else rec[i]
  {
    forall g | g in t.fields
      ensures IsNull(ClearField(rec, f), g) == IsNull(rec, g)
    {
      assert t.OffNullBit(f, g);
    }
  }

  lemma {:induction false} ClearFieldsCleared(t: RecordType, rec: Record, fs: seq<Field>)
    requires Separated(t, rec) && forall f | f in fs :: f in t.fields
    ensures ClearedBy(rec, ClearFields(t, rec, fs), fs)
    decreases |fs|
  {
    if fs != [] {
      assert t.FieldFits(fs[0]);
      var f, rec1 := fs[0], ClearField(rec, fs[0]);
      var rec' := ClearFields(t, rec1, fs[1..]);
      ClearOne(t, rec, f);
      ClearFieldsCleared(t, rec1, fs[1..]);
      assert fs == [f] + fs[1..];
      forall i | 0 <= i < |rec|
        ensures rec'[i] == if NullAt(rec, fs, i) then 0 else rec[i]
      {
        NullAtCons(rec, f, fs[1..], i);
        NullAtSame(t, rec, rec1, fs[1..], i);
      }
    }
  }

  lemma NullAtCons(rec: Record, f: Field, fs: seq<Field>, i: nat)
    ensures NullAt(rec, [f] + fs, i) <==> (Covers(f, i) && IsNull(rec, f)) || NullAt(rec, fs, i)
  {
    assert f in [f] + fs;
    if g :| g in fs && Covers(g, i) && IsNull(rec, g) {
      assert g in [f] + fs;
    }
  }

  lemma NullAtSame(t: RecordType, rec: Record, rec1: Record, fs: seq<Field>, i: nat)
    requires forall f | f in fs :: f in t.fields
    requires forall g | g in t.fields :: IsNull(rec1, g) == IsNull(rec, g)
    ensures NullAt(rec1, fs, i) == NullAt(rec, fs, i)
  {
  }

  /** A byte of a field that is not null belongs to no null field. */
  lemma NotNullThere(t: RecordType, rec: Record, f: Field, i: nat)
    requires Separated(t, rec) && f in t.fields && Covers(f, i) && !IsNull(rec, f)
    ensures !NullAt(rec, t.fields, i)
  {
    forall g | g in t.fields && Covers(g, i)
      ensures !IsNull(rec, g)
    {
      assert t.DisjointPair(f, g);
    }
  }

  // ---------- one variable32 field ----------

  datatype VarResult = VarResult(rec: Record, pool: Packed)

  /** None stands for a failed check: an offset that selfcheck refuses, an empty string that is not at offset 0, or
      a packed pool that would outgrow the source pool. */
  function PackVar(src: seq<u8>, rec: Record, c: VarColumn, st: Packed): (r: Option<VarResult>)
    requires c.field.offset + c.field.width <= |rec|
    ensures r.Some? ==> |r.value.rec| == |rec|
  {
    var off := Word(rec, c.field);
    if !SelfCheck(src, off) then None
    else if SizeAt(src, off) == 0 then if off == 0 then Some(VarResult(rec, st)) else None
    else
      var (st', packed) := Place(st, StringAt(src, off), c.unique);
      if |st'.bytes| > |src| then None else Some(VarResult(SetWord(rec, c.field, packed), st'))
  }

  function PackVars(t: RecordType, src: seq<u8>, rec: Record, cs: seq<VarColumn>, st: Packed): (r: Option<VarResult>)
    requires Ready(t, rec) && forall c | c in cs :: c in t.vars
    ensures r.Some? ==> Ready(t, r.value.rec)
    decreases |cs|
  {
    if cs == [] then Some(VarResult(rec, st))
    else
      match PackVar(src, rec, cs[0], st)
      case None => None
      case Some(v) => PackVars(t, src, v.rec, cs[1..], v.pool)
  }

  // ---------- what packing the strings of a record does ----------

  /** The field names the same string in the new record and pool as in the old. */
  ghost predicate SameString(src: seq<u8>, rec: Record, pool: seq<u8>, rec': Record, f: Field) {
    && f.offset + f.width <= |rec| && f.offset + f.width <= |rec'|
    && SelfCheck(src, Word(rec, f)) && SelfCheck(pool, Word(rec', f))
    && StringAt(src, Word(rec, f)) == StringAt(pool, Word(rec', f))
    && (Word(rec', f) == 0 <==> Word(rec, f) == 0)
    && (Word(rec', f) != 0 ==> (Word(rec', f) + 4) % 8 == 0)
  }

  ghost predicate ChangedOnly(rec: Record, rec': Record, cs: seq<VarColumn>) {
    |rec'| == |rec|
    && forall i :: 0 <= i < |rec| && rec'[i] != rec[i] ==> exists c :: c in cs && Covers(c.field, i)
  }

  ghost predicate PoolReady(src: seq<u8>, st: Packed) {
    st.Valid() && |src| < MAX_INT32
  }

  lemma OffsetFits(c: VarColumn, off: nat)
    requires c.field.width == 4 && off < MAX_INT32
    ensures off < Pow256(c.field.width)
  {
    Pow256Values();
  }

  lemma ZeroString(src: seq<u8>, st: Packed)
    requires st.Valid() && SelfCheck(src, 0)
    ensures SelfCheck(st.bytes, 0) && StringAt(st.bytes, 0) == StringAt(src, 0) == []
  {
  }

  lemma PackVarEffect(t: RecordType, src: seq<u8>, rec: Record, c: VarColumn, st: Packed)
    requires Ready(t, rec) && c in t.vars && PoolReady(src, st) && PackVar(src, rec, c, st).Some?
    ensures var v := PackVar(src, rec, c, st).value;
            && PoolReady(src, v.pool) && st.bytes <= v.pool.bytes && |v.pool.bytes| <= |src| + |st.bytes|
            && ChangedOnly(rec, v.rec, [c])
            && SameString(src, rec, v.pool.bytes, v.rec, c.field)
  {
    var off := Word(rec, c.field);
    assert t.FieldFits(c.field);
    if SizeAt(src, off) == 0 {
      ZeroString(src, st);
    } else {
      var (st', packed) := Place(st, StringAt(src, off), c.unique);
      assert PackVar(src, rec, c, st) == Some(VarResult(SetWord(rec, c.field, packed), st'));
      PlaceHolds(st, StringAt(src, off), c.unique);
      PlacedSame(src, rec, c, st'.bytes, packed);
      SetChangesOnly(rec, c, packed);
    }
  }

  lemma PlacedSame(src: seq<u8>, rec: Record, c: VarColumn, pool: seq<u8>, packed: nat)
    requires c.field.width == 4 && c.field.offset + 4 <= |rec| && SelfCheck(src, Word(rec, c.field))
    requires Holds(pool, packed, StringAt(src, Word(rec, c.field))) && (packed + 4) % 8 == 0
    requires Word(rec, c.field) != 0
    ensures SameString(src, rec, pool, SetWord(rec, c.field, packed), c.field)
  {
    OffsetFits(c, packed);
    SetWordSame(rec, c.field, packed);
  }

  lemma SetChangesOnly(rec: Record, c: VarColumn, v: nat)
    requires c.field.offset + c.field.width <= |rec|
    ensures ChangedOnly(rec, SetWord(rec, c.field, v), [c])
  {
    assert c in [c];
  }

  /** A string keeps its place when later steps leave its field alone and only extend the pool. */
  lemma SameStringLater(t: RecordType, src: seq<u8>, rec: Record, p: seq<u8>, r1: Record, q: seq<u8>, r2: Record, f: Field)
    requires f in t.fields && |r1| == |r2| == t.size && t.FieldFits(f)
    requires SameString(src, rec, p, r1, f) && p <= q
    requires Get(r2, f.offset, f.width) == Get(r1, f.offset, f.width)
    ensures SameString(src, rec, q, r2, f)
  {
    SelfCheckGrows(p, q[|p|..], Word(r1, f));
    assert q == p + q[|p|..];
  }

  lemma ElsewhereKept(t: RecordType, rec: Record, rec': Record, cs: seq<VarColumn>, f: Field)
    requires Separated(t, rec) && f in t.fields && ChangedOnly(rec, rec', cs)
    requires forall c | c in cs :: c in t.vars && c.field != f
    ensures Get(rec', f.offset, f.width) == Get(rec, f.offset, f.width)
  {
    assert t.FieldFits(f);
    var x, y := Get(rec', f.offset, f.width), Get(rec, f.offset, f.width);
    forall i | 0 <= i < f.width
      ensures x[i] == y[i]
    {
      forall c | c in cs
        ensures !Covers(c.field, f.offset + i)
      {
        assert t.DisjointPair(c.field, f);
      }
    }
  }

  lemma ChangedOnlyTrans(r0: Record, r1: Record, r2: Record, c: VarColumn, cs: seq<VarColumn>)
    requires ChangedOnly(r0, r1, [c]) && ChangedOnly(r1, r2, cs)
    ensures ChangedOnly(r0, r2, [c] + cs)
  {
    assert c in [c] + cs;
    forall i | 0 <= i < |r0| && r2[i] != r0[i]
      ensures exists d :: d in [c] + cs && Covers(d.field, i)
    {
      if r1[i] != r2[i] {
        var d :| d in cs && Covers(d.field, i);
        assert d in [c] + cs;
      }
    }
  }

  ghost predicate DistinctColumns(cs: seq<VarColumn>) {
    forall i, j | 0 <= i < j < |cs| :: cs[i].field != cs[j].field
  }

  lemma DistinctColumnsTail(cs: seq<VarColumn>)
    requires DistinctColumns(cs) && cs != []
    ensures DistinctColumns(cs[1..]) && forall c | c in cs[1..] :: c.field != cs[0].field
  {
    var tail := cs[1..];
    forall i, j | 0 <= i < j < |tail|
      ensures tail[i].field != tail[j].field
    {
      assert cs[i + 1].field != cs[j + 1].field;
    }
  }

  /** After all columns of a record: the pool is sound and only grew, nothing outside the columns changed, and every
      column names the same string as before. */
  lemma {:induction false} PackVarsEffect(t: RecordType, src: seq<u8>, rec: Record, cs: seq<VarColumn>, st: Packed)
    requires Separated(t, rec) && (forall c | c in cs :: c in t.vars) && DistinctColumns(cs)
    requires PoolReady(src, st) && PackVars(t, src, rec, cs, st).Some?
    ensures var v := PackVars(t, src, rec, cs, st).value;
            && PoolReady(src, v.pool) && st.bytes <= v.pool.bytes
            && ChangedOnly(rec, v.rec, cs)
            && forall c | c in cs :: SameString(src, rec, v.pool.bytes, v.rec, c.field)
    decreases |cs|
  {
    if cs != [] {
      var c := cs[0];
      var v1 := PackVar(src, rec, c, st).value;
      var v := PackVars(t, src, rec, cs, st).value;
      PackVarEffect(t, src, rec, c, st);
      DistinctColumnsTail(cs);
      PackVarsEffect(t, src, v1.rec, cs[1..], v1.pool);
      assert cs == [c] + cs[1..];
      ChangedOnlyTrans(rec, v1.rec, v.rec, c, cs[1..]);
      assert SameString(src, rec, v.pool.bytes, v.rec, c.field) by {
        ElsewhereKept(t, v1.rec, v.rec, cs[1..], c.field);
        SameStringLater(t, src, rec, v1.pool.bytes, v1.rec, v.pool.bytes, v.rec, c.field);
      }
      forall d | d in cs[1..]
        ensures SameString(src, rec, v.pool.bytes, v.rec, d.field)
      {
        ElsewhereKept(t, rec, v1.rec, [c], d.field);
      }
    }
  }

  // ---------- all records ----------

  datatype VarResults = VarResults(recs: seq<Record>, pool: Packed)

  function Normalize(t: RecordType, src: seq<u8>, recs: seq<Record>, st: Packed): (r: Option<VarResults>)
    requires AllReady(t, recs)
    ensures r.Some? ==> |r.value.recs| == |recs| && AllReady(t, r.value.recs)
    decreases |recs|
  {
    if recs == [] then Some(VarResults([], st))
    else
      match PackVars(t, src, ClearNulls(t, recs[0]), t.vars, st)
      case None => None
      case Some(v) =>
        match Normalize(t, src, recs[1..], v.pool)
        case None => None
        case Some(rest) => Some(VarResults([v.rec] + rest.recs, rest.pool))
  }

  /** What normalizing keeps of a record: all bytes that belong to no column and no null field, and the string of
      every column; null fields read as zero. */
  ghost predicate Normalized(t: RecordType, src: seq<u8>, rec: Record, pool: seq<u8>, rec': Record)
    requires Ready(t, rec)
  {
    && Ready(t, rec')
    && (forall i :: 0 <= i < t.size && (forall c | c in t.vars :: !Covers(c.field, i)) ==>
          rec'[i] == ClearNulls(t, rec)[i])
    && (forall c | c in t.vars :: SameString(src, ClearNulls(t, rec), pool, rec', c.field))
  }

  lemma NormalizedLater(t: RecordType, src: seq<u8>, rec: Record, p: seq<u8>, q: seq<u8>, rec': Record)
    requires Ready(t, rec) && Normalized(t, src, rec, p, rec') && p <= q
    ensures Normalized(t, src, rec, q, rec')
  {
    forall c | c in t.vars
      ensures SameString(src, ClearNulls(t, rec), q, rec', c.field)
    {
      assert t.FieldFits(c.field);
      SameStringLater(t, src, ClearNulls(t, rec), p, rec', q, rec', c.field);
    }
  }

  lemma OneNormalized(t: RecordType, src: seq<u8>, rec: Record, st: Packed)
    requires Separated(t, rec) && PoolReady(src, st) && PackVars(t, src, ClearNulls(t, rec), t.vars, st).Some?
    ensures var v := PackVars(t, src, ClearNulls(t, rec), t.vars, st).value;
            PoolReady(src, v.pool) && st.bytes <= v.pool.bytes && Normalized(t, src, rec, v.pool.bytes, v.rec)
  {
    PackVarsEffect(t, src, ClearNulls(t, rec), t.vars, st);
  }

  ghost predicate AllNormalized(t: RecordType, src: seq<u8>, recs: seq<Record>, pool: seq<u8>, recs': seq<Record>)
    requires AllReady(t, recs)
  {
    |recs'| == |recs| && forall k :: 0 <= k < |recs| ==> Normalized(t, src, recs[k], pool, recs'[k])
  }

  lemma AllNormalizedCons(
      t: RecordType, src: seq<u8>, recs: seq<Record>, pool: seq<u8>, rec': Record, recs': seq<Record>)
    requires AllReady(t, recs) && recs != []
    requires Normalized(t, src, recs[0], pool, rec') && AllNormalized(t, src, recs[1..], pool, recs')
    ensures AllNormalized(t, src, recs, pool, [rec'] + recs')
  {
    forall k | 0 <= k < |recs|
      ensures Normalized(t, src, recs[k], pool, ([rec'] + recs')[k])
    {
      if k > 0 {
        var a, b := recs[1..][k - 1], recs'[k - 1];
        assert Normalized(t, src, a, pool, b);
        assert recs[k] == a && ([rec'] + recs')[k] == b;
      }
    }
  }

  /** Over all records: the pool is sound and extends the one before, and every record is normalized. */
  lemma {:induction false} NormalizeEffect(t: RecordType, src: seq<u8>, recs: seq<Record>, st: Packed)
    requires AllReady(t, recs) && t.Separate() && t.Options()
    requires PoolReady(src, st) && Normalize(t, src, recs, st).Some?
    ensures var n := Normalize(t, src, recs, st).value;
            && PoolReady(src, n.pool) && st.bytes <= n.pool.bytes
            && AllNormalized(t, src, recs, n.pool.bytes, n.recs)
    decreases |recs|
  {
    if recs != [] {
      var v := PackVars(t, src, ClearNulls(t, recs[0]), t.vars, st).value;
      var rest := Normalize(t, src, recs[1..], v.pool).value;
      OneNormalized(t, src, recs[0], st);
      NormalizeEffect(t, src, recs[1..], v.pool);
      NormalizedLater(t, src, recs[0], v.pool.bytes, rest.pool.bytes, v.rec);
      AllNormalizedCons(t, src, recs, rest.pool.bytes, v.rec, rest.recs);
    }
  }
}
