/** Three laws of string packing: packing a packed extent again changes nothing, equal strings of unique columns share
    one offset, and an extent built with the field accessors always packs into the space of its own pool. */
module StringPackingLaws {
  import opened Bytes
  import opened RecordFormat
  import opened StringPool
  import opened RelativePacking
  import opened StringPacking

  // ---------- packing twice ----------

  lemma SetAgain(rec: Record, f: Field, v: nat)
    requires f.offset + f.width <= |rec| && Get(rec, f.offset, f.width) == Enc(v, f.width)
    ensures SetWord(rec, f, v) == rec
  {
    PutGet(rec, f.offset, f.width);
  }

  /** A column that was packed against st packs to itself against st, whatever larger pool it is read from and
      whatever happened to the rest of the record. */
  lemma RepackVar(t: RecordType, src: seq<u8>, rec: Record, c: VarColumn, st: Packed, big: seq<u8>, later: Record)
    requires Ready(t, rec) && c in t.vars && PoolReady(src, st) && PackVar(src, rec, c, st).Some?
    requires PackVar(src, rec, c, st).value.pool.bytes <= big && |big| < MAX_INT32
    requires Ready(t, later) && t.FieldFits(c.field)
    requires Get(later, c.field.offset, c.field.width)
          == Get(PackVar(src, rec, c, st).value.rec, c.field.offset, c.field.width)
    ensures PackVar(big, later, c, st) == Some(VarResult(later, PackVar(src, rec, c, st).value.pool))
  {
    var v := PackVar(src, rec, c, st).value;
    PackVarEffect(t, src, rec, c, st);
    SelfCheckGrows(v.pool.bytes, big[|v.pool.bytes|..], Word(v.rec, c.field));
    assert big == v.pool.bytes + big[|v.pool.bytes|..];
    var off := Word(rec, c.field);
    if SizeAt(src, off) != 0 {
      var packed := Place(st, StringAt(src, off), c.unique).1;
      GetPutSame(rec, c.field.offset, Enc(packed, c.field.width));
      assert Word(later, c.field) == packed by {
        PlaceHolds(st, StringAt(src, off), c.unique);
        OffsetFits(c, packed);
        SetWordSame(rec, c.field, packed);
      }
      SetAgain(later, c.field, packed);
    }
  }

  lemma {:induction false} RepackVars(
      t: RecordType, src: seq<u8>, rec: Record, cs: seq<VarColumn>, st: Packed, big: seq<u8>)
    requires Separated(t, rec) && (forall c | c in cs :: c in t.vars) && DistinctColumns(cs)
    requires PoolReady(src, st) && PackVars(t, src, rec, cs, st).Some?
    requires PackVars(t, src, rec, cs, st).value.pool.bytes <= big && |big| < MAX_INT32
    ensures PackVars(t, big, PackVars(t, src, rec, cs, st).value.rec, cs, st) == PackVars(t, src, rec, cs, st)
    decreases |cs|
  {
    if cs != [] {
      var c := cs[0];
      var v1 := PackVar(src, rec, c, st).value;
      var v := PackVars(t, src, v1.rec, cs[1..], v1.pool).value;
      assert t.FieldFits(c.field);
      DistinctColumnsTail(cs);
      PackVarEffect(t, src, rec, c, st);
      PackVarsEffect(t, src, v1.rec, cs[1..], v1.pool);
      ElsewhereKept(t, v1.rec, v.rec, cs[1..], c.field);
      RepackVar(t, src, rec, c, st, big, v.rec);
      RepackVars(t, src, v1.rec, cs[1..], v1.pool, big);
    }
  }

  lemma WordZero(rec: Record, f: Field)
    requires f.offset + f.width <= |rec|
    ensures Word(rec, f) == 0 <==> AllZero(rec, f.offset, f.offset + f.width)
  {
    DecZero(Get(rec, f.offset, f.width));
    assert forall i :: 0 <= i < f.width ==> Get(rec, f.offset, f.width)[i] == rec[f.offset + i];
    if forall i :: 0 <= i < f.width ==> Get(rec, f.offset, f.width)[i] == 0 {
      forall i | f.offset <= i < f.offset + f.width
        ensures rec[i] == 0
      {
        assert rec[i] == Get(rec, f.offset, f.width)[i - f.offset];
      }
    }
  }

  lemma {:induction false} DecZero(b: seq<u8>)
    ensures Dec(b) == 0 <==> forall i :: 0 <= i < |b| ==> b[i] == 0
  {
    if b != [] {
      DecZero(b[1..]);
      assert forall i :: 0 < i < |b| ==> b[i] == b[1..][i - 1];
    }
  }

  /** Packing strings does not change which fields are null, and leaves null fields at zero. */
  lemma NullsStayClear(t: RecordType, src: seq<u8>, rec: Record, pool: seq<u8>, rec': Record, g: Field, i: nat)
    requires Separated(t, rec) && t.nullCompact && Normalized(t, src, rec, pool, rec')
    requires g in t.fields && Covers(g, i)
    ensures IsNull(rec', g) == IsNull(rec, g)
    ensures IsNull(rec, g) ==> rec'[i] == 0
  {
    var clear := ClearNulls(t, rec);
    ClearFieldsCleared(t, rec, t.fields);
    assert t.FieldFits(g);
    if g.nullAt.Some? {
      var o := g.nullAt.value.offset;
      forall f | f in t.fields
        ensures !Covers(f, o)
      {
        assert t.OffNullBit(f, g);
      }
      assert !NullAt(rec, t.fields, o);
      assert rec'[o] == clear[o] == rec[o];
    }
    if IsNull(rec, g) {
      assert forall k :: g.offset <= k < g.offset + g.width ==> NullAt(rec, t.fields, k) by {
        forall k | g.offset <= k < g.offset + g.width
          ensures NullAt(rec, t.fields, k)
        {
          assert Covers(g, k);
        }
      }
      NullFieldZero(t, src, rec, pool, rec', g, i);
    }
  }

  lemma NullFieldZero(t: RecordType, src: seq<u8>, rec: Record, pool: seq<u8>, rec': Record, g: Field, i: nat)
    requires Separated(t, rec) && Normalized(t, src, rec, pool, rec')
    requires g in t.fields && Covers(g, i) && t.FieldFits(g)
    requires AllZero(ClearNulls(t, rec), g.offset, g.offset + g.width)
    ensures rec'[i] == 0
  {
    var clear := ClearNulls(t, rec);
    if c :| c in t.vars && c.field == g {
      WordZero(clear, g);
      WordZero(rec', g);
      assert SameString(src, clear, pool, rec', g);
    } else {
      forall c | c in t.vars
        ensures !Covers(c.field, i)
      {
        assert t.DisjointPair(c.field, g);
      }
      assert rec'[i] == clear[i];
    }
  }

  lemma ClearAgain(t: RecordType, src: seq<u8>, rec: Record, pool: seq<u8>, rec': Record)
    requires Separated(t, rec) && Normalized(t, src, rec, pool, rec')
    ensures ClearNulls(t, rec') == rec'
  {
    if t.nullCompact {
      ClearFieldsCleared(t, rec', t.fields);
      forall i | 0 <= i < t.size && NullAt(rec', t.fields, i)
        ensures rec'[i] == 0
      {
        var g :| g in t.fields && Covers(g, i) && IsNull(rec', g);
        NullsStayClear(t, src, rec, pool, rec', g, i);
      }
    }
  }

  /** Packing the packed records against the packed pool gives the same records and the same pool again: renumbering
      and de-duplication are idempotent. */
  lemma {:induction false} NormalizeAgain(t: RecordType, src: seq<u8>, recs: seq<Record>, st: Packed, big: seq<u8>)
    requires AllReady(t, recs) && t.Separate() && t.Options()
    requires PoolReady(src, st) && Normalize(t, src, recs, st).Some?
    requires Normalize(t, src, recs, st).value.pool.bytes <= big && |big| < MAX_INT32
    ensures Normalize(t, big, Normalize(t, src, recs, st).value.recs, st) == Normalize(t, src, recs, st)
    decreases |recs|
  {
    if recs != [] {
      var v := PackVars(t, src, ClearNulls(t, recs[0]), t.vars, st).value;
      var rest := Normalize(t, src, recs[1..], v.pool).value;
      OneNormalized(t, src, recs[0], st);
      ClearAgain(t, src, recs[0], v.pool.bytes, v.rec);
      NormalizeEffect(t, src, recs[1..], v.pool);
      RepackVars(t, src, ClearNulls(t, recs[0]), t.vars, st, big);
      NormalizeAgain(t, src, recs[1..], v.pool, big);
      NormalizeCons(t, big, v.rec, rest.recs, st, v.pool, rest.pool);
    }
  }

  lemma NormalizeCons(
      t: RecordType, src: seq<u8>, rec: Record, recs: seq<Record>, st: Packed, st1: Packed, st2: Packed)
    requires AllReady(t, recs) && Ready(t, rec) && AllReady(t, [rec] + recs)
    requires ClearNulls(t, rec) == rec
    requires PackVars(t, src, rec, t.vars, st) == Some(VarResult(rec, st1))
    requires Normalize(t, src, recs, st1) == Some(VarResults(recs, st2))
    ensures Normalize(t, src, [rec] + recs, st) == Some(VarResults([rec] + recs, st2))
  {
    assert ([rec] + recs)[1..] == recs;
  }

  // ---------- equal strings of unique columns share one offset ----------

  ghost predicate Extends(st: Packed, st': Packed) {
    forall s | s in st.table :: s in st'.table && st'.table[s] == st.table[s]
  }

  /** A unique column that holds a string holds it at the offset the table has for it. */
  ghost predicate Recorded(pool: Packed, rec: Record, c: VarColumn) {
    c.unique && c.field.offset + c.field.width <= |rec| && Word(rec, c.field) != 0 ==>
      StandsFor(pool.table, Word(rec, c.field))
  }

  ghost predicate StandsFor(table: map<seq<u8>, nat>, off: nat) {
    exists s :: s in table && table[s] == off
  }

  lemma RecordedGrows(pool: Packed, pool': Packed, rec: Record, c: VarColumn)
    requires Recorded(pool, rec, c) && Extends(pool, pool')
    ensures Recorded(pool', rec, c)
  {
    if c.unique && c.field.offset + c.field.width <= |rec| && Word(rec, c.field) != 0 {
      var s :| s in pool.table && pool.table[s] == Word(rec, c.field);
      assert s in pool'.table && pool'.table[s] == Word(rec, c.field);
    }
  }

  lemma {:induction false} PackVarsRecorded(t: RecordType, src: seq<u8>, rec: Record, cs: seq<VarColumn>, st: Packed)
    requires Separated(t, rec) && (forall c | c in cs :: c in t.vars) && DistinctColumns(cs)
    requires PoolReady(src, st) && PackVars(t, src, rec, cs, st).Some?
    ensures var v := PackVars(t, src, rec, cs, st).value;
            Extends(st, v.pool) && forall c | c in cs :: Recorded(v.pool, v.rec, c)
    decreases |cs|
  {
    if cs != [] {
      var c := cs[0];
      var v1 := PackVar(src, rec, c, st).value;
      var v := PackVars(t, src, v1.rec, cs[1..], v1.pool).value;
      PackVarEffect(t, src, rec, c, st);
      DistinctColumnsTail(cs);
      PackVarsEffect(t, src, v1.rec, cs[1..], v1.pool);
      PackVarsRecorded(t, src, v1.rec, cs[1..], v1.pool);
      PackVarRecorded(t, src, rec, c, st);
      RecordedGrows(v1.pool, v.pool, v1.rec, c);
      ElsewhereKept(t, v1.rec, v.rec, cs[1..], c.field);
      assert Recorded(v.pool, v.rec, c);
      assert cs == [c] + cs[1..];
    }
  }

  lemma PackVarRecorded(t: RecordType, src: seq<u8>, rec: Record, c: VarColumn, st: Packed)
    requires Ready(t, rec) && c in t.vars && PoolReady(src, st) && PackVar(src, rec, c, st).Some?
    ensures var v := PackVar(src, rec, c, st).value; Extends(st, v.pool) && Recorded(v.pool, v.rec, c)
  {
    var off := Word(rec, c.field);
    if SizeAt(src, off) != 0 {
      var s := StringAt(src, off);
      PlaceHolds(st, s, c.unique);
      OffsetFits(c, Place(st, s, c.unique).1);
      SetWordSame(rec, c.field, Place(st, s, c.unique).1);
      assert c.unique ==> s in Place(st, s, c.unique).0.table;
    }
  }

  ghost predicate AllRecorded(t: RecordType, pool: Packed, recs: seq<Record>) {
    forall k, c :: 0 <= k < |recs| && c in t.vars ==> Recorded(pool, recs[k], c)
  }

  lemma {:induction false} NormalizeRecorded(t: RecordType, src: seq<u8>, recs: seq<Record>, st: Packed)
    requires AllReady(t, recs) && t.Separate() && t.Options()
    requires PoolReady(src, st) && Normalize(t, src, recs, st).Some?
    ensures var n := Normalize(t, src, recs, st).value; Extends(st, n.pool) && AllRecorded(t, n.pool, n.recs)
    decreases |recs|
  {
    if recs != [] {
      var v := PackVars(t, src, ClearNulls(t, recs[0]), t.vars, st).value;
      var rest := Normalize(t, src, recs[1..], v.pool).value;
      OneNormalized(t, src, recs[0], st);
      PackVarsRecorded(t, src, ClearNulls(t, recs[0]), t.vars, st);
      NormalizeRecorded(t, src, recs[1..], v.pool);
      FirstRecorded(t, v.pool, rest.pool, v.rec, rest.recs);
    }
  }

  lemma FirstRecorded(t: RecordType, pool: Packed, pool': Packed, rec: Record, recs: seq<Record>)
    requires Extends(pool, pool') && AllRecorded(t, pool', recs)
    requires forall c | c in t.vars :: Recorded(pool, rec, c)
    ensures AllRecorded(t, pool', [rec] + recs)
  {
    forall k, c | 0 <= k < |recs| + 1 && c in t.vars
      ensures Recorded(pool', ([rec] + recs)[k], c)
    {
      if k == 0 {
        RecordedGrows(pool, pool', rec, c);
      } else {
        assert Recorded(pool', recs[k - 1], c);
      }
    }
  }

  /** Two fields of unique columns with the same string end up at the same offset. */
  lemma UniqueShared(t: RecordType, src: seq<u8>, recs: seq<Record>, j: nat, c: VarColumn, k: nat, d: VarColumn)
    requires AllReady(t, recs) && t.Separate() && t.Options() && |src| < MAX_INT32
    requires Normalize(t, src, recs, EMPTY).Some?
    requires j < |recs| && k < |recs| && c in t.vars && d in t.vars && c.unique && d.unique
    ensures t.FieldFits(c.field) && t.FieldFits(d.field)
    ensures var n := Normalize(t, src, recs, EMPTY).value;
            var (o, p) := (Word(n.recs[j], c.field), Word(n.recs[k], d.field));
            && SelfCheck(n.pool.bytes, o) && SelfCheck(n.pool.bytes, p)
            && (StringAt(n.pool.bytes, o) == StringAt(n.pool.bytes, p) <==> o == p)
  {
    EmptyValid();
    var n := Normalize(t, src, recs, EMPTY).value;
    NormalizeEffect(t, src, recs, EMPTY);
    NormalizeRecorded(t, src, recs, EMPTY);
    assert t.FieldFits(c.field) && t.FieldFits(d.field);
    assert Normalized(t, src, recs[j], n.pool.bytes, n.recs[j]);
    assert Normalized(t, src, recs[k], n.pool.bytes, n.recs[k]);
    assert Recorded(n.pool, n.recs[j], c) && Recorded(n.pool, n.recs[k], d);
    OffsetOfString(n.pool, Word(n.recs[j], c.field));
    OffsetOfString(n.pool, Word(n.recs[k], d.field));
  }

  lemma OffsetOfString(pool: Packed, off: nat)
    requires pool.Valid() && SelfCheck(pool.bytes, off)
    requires off != 0 ==> StandsFor(pool.table, off)
    ensures off == 0 ==> StringAt(pool.bytes, off) == []
    ensures off != 0 ==> StringAt(pool.bytes, off) != []
    ensures off != 0 ==> StringAt(pool.bytes, off) in pool.table && pool.table[StringAt(pool.bytes, off)] == off
  {
    if off != 0 {
      var s :| s in pool.table && pool.table[s] == off;
      assert Holds(pool.bytes, off, s);
    }
  }

  // ---------- when packing cannot fail ----------

  /** The references of a record, in column order. */
  ghost function RefsOf(t: RecordType, rec: Record, cs: seq<VarColumn>): (r: seq<Ref>)
    requires Ready(t, rec) && forall c | c in cs :: c in t.vars
    decreases |cs|
  {
    if cs == [] then []
    else
      assert cs[0] in t.vars && t.FieldFits(cs[0].field);
      var off := Word(rec, cs[0].field);
      (if off == 0 then [] else [Ref(off, cs[0].unique)]) + RefsOf(t, rec, cs[1..])
  }

  /** The references of all records after null fields are cleared, in the order packing meets them. */
  ghost function AllRefs(t: RecordType, recs: seq<Record>): (r: seq<Ref>)
    requires AllReady(t, recs)
    decreases |recs|
  {
    if recs == [] then [] else RefsOf(t, ClearNulls(t, recs[0]), t.vars) + AllRefs(t, recs[1..])
  }

  ghost predicate SoundRefs(src: seq<u8>, refs: seq<Ref>) {
    WellBuilt(src) && forall r | r in refs :: r.off != 0 && Sound(src, r.off)
  }

  lemma RefsOfCons(t: RecordType, rec: Record, cs: seq<VarColumn>)
    requires Ready(t, rec) && cs != [] && forall c | c in cs :: c in t.vars
    ensures RefsOf(t, rec, cs) == RefsOf(t, rec, [cs[0]]) + RefsOf(t, rec, cs[1..])
  {
    var one := [cs[0]];
    assert one[1..] == [] && RefsOf(t, rec, one[1..]) == [];
    assert cs[0] in t.vars && t.FieldFits(cs[0].field);
  }

  lemma {:induction false} RefsOfKept(t: RecordType, rec: Record, rec': Record, c: VarColumn, cs: seq<VarColumn>)
    requires Separated(t, rec) && Ready(t, rec') && c in t.vars && ChangedOnly(rec, rec', [c])
    requires forall d | d in cs :: d in t.vars && d.field != c.field
    ensures RefsOf(t, rec', cs) == RefsOf(t, rec, cs)
    decreases |cs|
  {
    if cs != [] {
      assert cs[0] in t.vars;
      ElsewhereKept(t, rec, rec', [c], cs[0].field);
      RefsOfKept(t, rec, rec', c, cs[1..]);
    }
  }

  lemma {:induction false} PackRefsGrows(src: seq<u8>, refs: seq<Ref>, st: Packed)
    requires SoundRefs(src, refs)
    ensures |st.bytes| <= |PackRefs(src, refs, st).bytes|
    decreases |refs|
  {
    if refs != [] {
      SoundChecked(src, refs[0].off);
      PackRefsGrows(src, refs[1..], Place(st, StringAt(src, refs[0].off), refs[0].unique).0);
    }
  }

  /** One column packs exactly when its reference does. */
  lemma PackVarSucceeds(t: RecordType, src: seq<u8>, rec: Record, c: VarColumn, st: Packed)
    requires Ready(t, rec) && c in t.vars
    requires SoundRefs(src, RefsOf(t, rec, [c]))
    requires |PackRefs(src, RefsOf(t, rec, [c]), st).bytes| <= |src|
    ensures PackVar(src, rec, c, st).Some?
    ensures PackVar(src, rec, c, st).value.pool == PackRefs(src, RefsOf(t, rec, [c]), st)
  {
    var off := Word(rec, c.field);
    assert [c][1..] == [];
    if off == 0 {
      SoundChecked(src, 0);
    } else {
      assert RefsOf(t, rec, [c]) == [Ref(off, c.unique)];
      assert Ref(off, c.unique) in RefsOf(t, rec, [c]);
      SoundChecked(src, off);
      var st' := Place(st, StringAt(src, off), c.unique).0;
      assert PackRefs(src, [Ref(off, c.unique)], st) == PackRefs(src, [], st') by {
        assert [Ref(off, c.unique)][1..] == [];
      }
    }
  }

  lemma {:induction false} PackVarsSucceeds(t: RecordType, src: seq<u8>, rec: Record, cs: seq<VarColumn>, st: Packed)
    requires Separated(t, rec) && (forall c | c in cs :: c in t.vars) && DistinctColumns(cs)
    requires PoolReady(src, st) && SoundRefs(src, RefsOf(t, rec, cs))
    requires |PackRefs(src, RefsOf(t, rec, cs), st).bytes| <= |src|
    ensures PackVars(t, src, rec, cs, st).Some?
    ensures PackVars(t, src, rec, cs, st).value.pool == PackRefs(src, RefsOf(t, rec, cs), st)
    decreases |cs|
  {
    if cs != [] {
      var c := cs[0];
      var a, b := RefsOf(t, rec, [c]), RefsOf(t, rec, cs[1..]);
      RefsOfCons(t, rec, cs);
      assert SoundRefs(src, a) && SoundRefs(src, b);
      PackRefsAppend(src, a, b, st);
      PackRefsGrows(src, b, PackRefs(src, a, st));
      PackVarSucceeds(t, src, rec, c, st);
      var v1 := PackVar(src, rec, c, st).value;
      PackVarEffect(t, src, rec, c, st);
      DistinctColumnsTail(cs);
      RefsOfKept(t, rec, v1.rec, c, cs[1..]);
      PackVarsSucceeds(t, src, v1.rec, cs[1..], v1.pool);
    }
  }

  lemma {:induction false} NormalizeSucceeds(t: RecordType, src: seq<u8>, recs: seq<Record>, st: Packed)
    requires AllReady(t, recs) && t.Separate() && t.Options()
    requires PoolReady(src, st) && SoundRefs(src, AllRefs(t, recs))
    requires |PackRefs(src, AllRefs(t, recs), st).bytes| <= |src|
    ensures Normalize(t, src, recs, st).Some?
    ensures Normalize(t, src, recs, st).value.pool == PackRefs(src, AllRefs(t, recs), st)
    decreases |recs|
  {
    if recs != [] {
      var clear := ClearNulls(t, recs[0]);
      var a, b := RefsOf(t, clear, t.vars), AllRefs(t, recs[1..]);
      assert SoundRefs(src, a) && SoundRefs(src, b);
      PackRefsAppend(src, a, b, st);
      PackRefsGrows(src, b, PackRefs(src, a, st));
      PackVarsSucceeds(t, src, clear, t.vars, st);
      PackVarsEffect(t, src, clear, t.vars, st);
      NormalizeSucceeds(t, src, recs[1..], PackVars(t, src, clear, t.vars, st).value.pool);
    }
  }

  /** An extent whose offsets are entry starts of a well-built pool, and that shares storage only between unique
      columns, packs without a failed check, and its packed pool is no larger than its source pool. */
  lemma WellBuiltPacks(t: RecordType, src: seq<u8>, recs: seq<Record>)
    requires AllReady(t, recs) && t.Separate() && t.Options()
    requires SoundRefs(src, AllRefs(t, recs)) && Unshared(AllRefs(t, recs))
    ensures Normalize(t, src, recs, EMPTY).Some?
    ensures |Normalize(t, src, recs, EMPTY).value.pool.bytes| <= |src|
  {
    EmptyValid();
    PackedFits(src, AllRefs(t, recs));
    NormalizeSucceeds(t, src, recs, EMPTY);
  }
}
