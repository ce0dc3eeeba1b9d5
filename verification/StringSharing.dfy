/** When two strings share an entry of the packed pool (src/base/Extent.cpp:642-684): only in unique columns.  A string of a
    column that is not unique has an entry of its own, whatever other strings are equal to it. */
module StringSharing {
  import opened Bytes
  import opened RecordFormat
  import opened StringPool
  import opened RelativePacking
  import opened StringPacking

  /** The offset is in use, and no string will be looked up there. */
  ghost predicate Taken(st: Packed, o: nat) {
    0 < o < |st.bytes| && forall s | s in st.table :: st.table[s] != o
  }

  lemma PlaceAvoids(st: Packed, s: seq<u8>, unique: bool, o: nat)
    requires Taken(st, o)
    ensures Place(st, s, unique).1 != o && Taken(Place(st, s, unique).0, o)
  {
  }

  lemma PlaceTakes(st: Packed, s: seq<u8>)
    requires st.Valid()
    ensures var (st', off) := Place(st, s, false);
            off == |st.bytes| && Taken(st', off)
  {
    forall k | k in st.table
      ensures st.table[k] != |st.bytes|
    {
      assert Holds(st.bytes, st.table[k], k);
    }
  }

  /** The column does not name that offset. */
  ghost predicate Elsewhere(t: RecordType, rec: Record, c: VarColumn, o: nat)
    requires Ready(t, rec) && c in t.vars
  {
    assert t.FieldFits(c.field);
    Word(rec, c.field) != o
  }

  lemma PackVarAvoids(t: RecordType, src: seq<u8>, rec: Record, c: VarColumn, st: Packed, o: nat)
    requires Ready(t, rec) && c in t.vars && PoolReady(src, st) && PackVar(src, rec, c, st).Some? && Taken(st, o)
    ensures var v := PackVar(src, rec, c, st).value;
            Taken(v.pool, o) && Elsewhere(t, v.rec, c, o)
  {
    var off := Word(rec, c.field);
    assert t.FieldFits(c.field);
    if SizeAt(src, off) != 0 {
      var s := StringAt(src, off);
      PlaceAvoids(st, s, c.unique, o);
      PackVarWord(t, src, rec, c, st);
    }
  }

  /** A non-empty string is where Place puts it. */
  lemma PackVarWord(t: RecordType, src: seq<u8>, rec: Record, c: VarColumn, st: Packed)
    requires Ready(t, rec) && c in t.vars && PoolReady(src, st) && PackVar(src, rec, c, st).Some?
    ensures t.FieldFits(c.field)
    ensures var v := PackVar(src, rec, c, st).value;
            if SizeAt(src, Word(rec, c.field)) == 0 then v == VarResult(rec, st) && Word(v.rec, c.field) == 0
            else (v.pool, Word(v.rec, c.field)) == Place(st, StringAt(src, Word(rec, c.field)), c.unique)
  {
    assert t.FieldFits(c.field);
    var off := Word(rec, c.field);
    if SizeAt(src, off) != 0 {
      var (st', packed) := Place(st, StringAt(src, off), c.unique);
      PlaceHolds(st, StringAt(src, off), c.unique);
      OffsetFits(c, packed);
      SetWordSame(rec, c.field, packed);
    }
  }

  lemma WordKept(t: RecordType, rec: Record, rec': Record, cs: seq<VarColumn>, c: VarColumn)
    requires Separated(t, rec) && c in t.vars && ChangedOnly(rec, rec', cs)
    requires forall d | d in cs :: d in t.vars && d.field != c.field
    ensures t.FieldFits(c.field) && Word(rec', c.field) == Word(rec, c.field)
  {
    assert t.FieldFits(c.field);
    ElsewhereKept(t, rec, rec', cs, c.field);
  }

  // ---------- one record ----------

  lemma {:induction false} PackVarsAvoid(
      t: RecordType, src: seq<u8>, rec: Record, cs: seq<VarColumn>, st: Packed, o: nat)
    requires Separated(t, rec) && (forall c | c in cs :: c in t.vars) && DistinctColumns(cs)
    requires PoolReady(src, st) && PackVars(t, src, rec, cs, st).Some? && Taken(st, o)
    ensures var v := PackVars(t, src, rec, cs, st).value;
            Taken(v.pool, o) && forall c | c in cs :: Elsewhere(t, v.rec, c, o)
    decreases |cs|
  {
    if cs != [] {
      var c, v1 := cs[0], PackVar(src, rec, cs[0], st).value;
      var v := PackVars(t, src, v1.rec, cs[1..], v1.pool).value;
      PackVarEffect(t, src, rec, c, st);
      PackVarAvoids(t, src, rec, c, st, o);
      DistinctColumnsTail(cs);
      PackVarsEffect(t, src, v1.rec, cs[1..], v1.pool);
      PackVarsAvoid(t, src, v1.rec, cs[1..], v1.pool, o);
      WordKept(t, v1.rec, v.rec, cs[1..], c);
      assert cs == [c] + cs[1..];
    }
  }

  /** What a column names lies in the pool. */
  lemma WordInPool(t: RecordType, src: seq<u8>, rec: Record, cs: seq<VarColumn>, st: Packed, c: VarColumn)
    requires Separated(t, rec) && (forall d | d in cs :: d in t.vars) && DistinctColumns(cs) && c in cs
    requires PoolReady(src, st) && PackVars(t, src, rec, cs, st).Some?
    ensures t.FieldFits(c.field)
    ensures var v := PackVars(t, src, rec, cs, st).value;
            Word(v.rec, c.field) < |v.pool.bytes|
  {
    assert t.FieldFits(c.field);
    PackVarsEffect(t, src, rec, cs, st);
    assert SameString(src, rec, PackVars(t, src, rec, cs, st).value.pool.bytes,
                      PackVars(t, src, rec, cs, st).value.rec, c.field);
  }

  /** A non-empty string of a column that is not unique: behind everything that was in the pool, and named by no other
      column of the record. */
  lemma {:induction false} PackVarsOwn(
      t: RecordType, src: seq<u8>, rec: Record, cs: seq<VarColumn>, st: Packed, c: VarColumn)
    requires Separated(t, rec) && (forall d | d in cs :: d in t.vars) && DistinctColumns(cs) && c in cs && !c.unique
    requires PoolReady(src, st) && PackVars(t, src, rec, cs, st).Some?
    ensures t.FieldFits(c.field)
    ensures var v := PackVars(t, src, rec, cs, st).value;
            var o := Word(v.rec, c.field);
            o != 0 ==> |st.bytes| <= o && Taken(v.pool, o) && forall d | d in cs && d != c :: Elsewhere(t, v.rec, d, o)
    decreases |cs|
  {
    var first, v1 := cs[0], PackVar(src, rec, cs[0], st).value;
    var v := PackVars(t, src, v1.rec, cs[1..], v1.pool).value;
    assert t.FieldFits(c.field) && cs == [first] + cs[1..];
    PackVarEffect(t, src, rec, first, st);
    DistinctColumnsTail(cs);
    PackVarsEffect(t, src, v1.rec, cs[1..], v1.pool);
    WordKept(t, v1.rec, v.rec, cs[1..], first);
    if c == first {
      PackVarWord(t, src, rec, c, st);
      if Word(v1.rec, c.field) != 0 {
        PlaceTakes(st, StringAt(src, Word(rec, c.field)));
        PackVarsAvoid(t, src, v1.rec, cs[1..], v1.pool, Word(v1.rec, c.field));
      }
    } else {
      PackVarsOwn(t, src, v1.rec, cs[1..], v1.pool, c);
      assert SameString(src, rec, v1.pool.bytes, v1.rec, first.field);
    }
  }

  // ---------- all records ----------

  ghost predicate AllElsewhere(t: RecordType, recs: seq<Record>, o: nat)
    requires AllReady(t, recs)
  {
    forall k, c :: 0 <= k < |recs| && c in t.vars ==> Elsewhere(t, recs[k], c, o)
  }

  lemma {:induction false} NormalizeAvoids(t: RecordType, src: seq<u8>, recs: seq<Record>, st: Packed, o: nat)
    requires AllReady(t, recs) && t.Separate() && t.Options() && PoolReady(src, st) && Taken(st, o)
    requires Normalize(t, src, recs, st).Some?
    ensures AllElsewhere(t, Normalize(t, src, recs, st).value.recs, o)
    decreases |recs|
  {
    if recs != [] {
      var clear := ClearNulls(t, recs[0]);
      var v := PackVars(t, src, clear, t.vars, st).value;
      PackVarsEffect(t, src, clear, t.vars, st);
      PackVarsAvoid(t, src, clear, t.vars, st, o);
      NormalizeAvoids(t, src, recs[1..], v.pool, o);
      ElsewhereCons(t, v.rec, Normalize(t, src, recs[1..], v.pool).value.recs, o);
    }
  }

  lemma ElsewhereCons(t: RecordType, rec: Record, recs: seq<Record>, o: nat)
    requires Ready(t, rec) && AllReady(t, recs) && AllReady(t, [rec] + recs)
    requires AllElsewhere(t, recs, o) && forall c | c in t.vars :: Elsewhere(t, rec, c, o)
    ensures AllElsewhere(t, [rec] + recs, o)
  {
    forall k, c | 0 <= k < |[rec] + recs| && c in t.vars
      ensures Elsewhere(t, ([rec] + recs)[k], c, o)
    {
      if k > 0 {
        assert Elsewhere(t, recs[k - 1], c, o);
      }
    }
  }

  /** No other field of any record names that offset. */
  ghost predicate Alone(t: RecordType, recs: seq<Record>, j: nat, c: VarColumn, o: nat)
    requires AllReady(t, recs)
  {
    forall k, d :: 0 <= k < |recs| && d in t.vars && (k != j || d != c) ==> Elsewhere(t, recs[k], d, o)
  }

  lemma {:induction false} OwnEntry(t: RecordType, src: seq<u8>, recs: seq<Record>, st: Packed, j: nat, c: VarColumn)
    requires AllReady(t, recs) && t.Separate() && t.Options() && PoolReady(src, st)
    requires Normalize(t, src, recs, st).Some? && j < |recs| && c in t.vars && !c.unique
    ensures t.FieldFits(c.field)
    ensures var n := Normalize(t, src, recs, st).value;
            var o := Word(n.recs[j], c.field);
            o != 0 ==> |st.bytes| <= o && Alone(t, n.recs, j, c, o)
    decreases j
  {
    assert t.FieldFits(c.field);
    var clear := ClearNulls(t, recs[0]);
    var v, n := PackVars(t, src, clear, t.vars, st).value, Normalize(t, src, recs, st).value;
    var rest := Normalize(t, src, recs[1..], v.pool).value;
    assert n.recs == [v.rec] + rest.recs;
    PackVarsEffect(t, src, clear, t.vars, st);
    if j == 0 {
      PackVarsOwn(t, src, clear, t.vars, st, c);
      if Word(v.rec, c.field) != 0 {
        NormalizeAvoids(t, src, recs[1..], v.pool, Word(v.rec, c.field));
        AloneFirst(t, v.rec, rest.recs, c, Word(v.rec, c.field));
      }
    } else {
      OwnEntry(t, src, recs[1..], v.pool, j - 1, c);
      assert rest.recs[j - 1] == n.recs[j];
      if Word(n.recs[j], c.field) != 0 {
        forall d | d in t.vars
          ensures Elsewhere(t, v.rec, d, Word(n.recs[j], c.field))
        {
          WordInPool(t, src, clear, t.vars, st, d);
        }
        AloneLater(t, v.rec, rest.recs, j - 1, c, Word(n.recs[j], c.field));
      }
    }
  }

  lemma AloneFirst(t: RecordType, rec: Record, recs: seq<Record>, c: VarColumn, o: nat)
    requires Ready(t, rec) && AllReady(t, recs) && AllReady(t, [rec] + recs) && AllElsewhere(t, recs, o)
    requires forall d | d in t.vars && d != c :: Elsewhere(t, rec, d, o)
    ensures Alone(t, [rec] + recs, 0, c, o)
  {
    forall k, d | 0 <= k < |[rec] + recs| && d in t.vars && (k != 0 || d != c)
      ensures Elsewhere(t, ([rec] + recs)[k], d, o)
    {
      if k > 0 {
        assert Elsewhere(t, recs[k - 1], d, o);
      }
    }
  }

  lemma AloneLater(t: RecordType, rec: Record, recs: seq<Record>, j: nat, c: VarColumn, o: nat)
    requires Ready(t, rec) && AllReady(t, recs) && AllReady(t, [rec] + recs) && Alone(t, recs, j, c, o)
    requires forall d | d in t.vars :: Elsewhere(t, rec, d, o)
    ensures Alone(t, [rec] + recs, j + 1, c, o)
  {
    forall k, d | 0 <= k < |[rec] + recs| && d in t.vars && (k != j + 1 || d != c)
      ensures Elsewhere(t, ([rec] + recs)[k], d, o)
    {
      if k > 0 {
        assert Elsewhere(t, recs[k - 1], d, o);
      }
    }
  }

  /** In the packed extent: a non-empty string of a column that is not unique shares its entry with no other field, equal or
      not. */
  lemma NotUniqueAlone(t: RecordType, src: seq<u8>, recs: seq<Record>, j: nat, c: VarColumn, k: nat, d: VarColumn)
    requires AllReady(t, recs) && t.Separate() && t.Options() && |src| < MAX_INT32
    requires Normalize(t, src, recs, EMPTY).Some?
    requires j < |recs| && k < |recs| && c in t.vars && d in t.vars && !c.unique && (k != j || d != c)
    ensures t.FieldFits(c.field) && t.FieldFits(d.field)
    ensures var n := Normalize(t, src, recs, EMPTY).value;
            Word(n.recs[j], c.field) != 0 ==> Word(n.recs[k], d.field) != Word(n.recs[j], c.field)
  {
    EmptyValid();
    assert t.FieldFits(c.field) && t.FieldFits(d.field);
    OwnEntry(t, src, recs, EMPTY, j, c);
    var n := Normalize(t, src, recs, EMPTY).value;
    if Word(n.recs[j], c.field) != 0 {
      assert Elsewhere(t, n.recs[k], d, Word(n.recs[j], c.field));
    }
  }
}
