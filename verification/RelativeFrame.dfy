/** What relative packing leaves alone (src/base/Extent.cpp:687-772): every byte outside the relative fields that are not
    skipped, and with them every null bit. */
module RelativeFrame {
  import opened Bytes
  import opened RecordFormat
  import opened RelativePacking

  ghost predicate IsRelative(t: RecordType, f: Field) {
    f in t.selfs || exists r :: r in t.others && r.field == f
  }

  /** The byte belongs to a relative field that is not skipped. */
  ghost predicate Touchable(t: RecordType, rec: Record, i: nat)
    requires Ready(t, rec)
  {
    exists f :: f in t.fields && IsRelative(t, f) && Covers(f, i) && !Skipped(t, rec, f)
  }

  ghost predicate Untouched(t: RecordType, rec: Record, rec': Record)
    requires Ready(t, rec)
  {
    |rec'| == |rec| && forall i :: 0 <= i < t.size && rec'[i] != rec[i] ==> Touchable(t, rec, i)
  }

  lemma UntouchedNulls(t: RecordType, rec: Record, rec': Record, g: Field)
    requires Separated(t, rec) && Untouched(t, rec, rec') && g in t.fields
    ensures IsNull(rec', g) == IsNull(rec, g)
  {
    if g.nullAt.Some? {
      var o := g.nullAt.value.offset;
      forall f | f in t.fields
        ensures !Covers(f, o)
      {
        assert t.OffNullBit(f, g);
      }
      assert !Touchable(t, rec, o);
    }
  }

  lemma UntouchedTrans(t: RecordType, r0: Record, r1: Record, r2: Record)
    requires Separated(t, r0) && Ready(t, r1) && Untouched(t, r0, r1) && Untouched(t, r1, r2)
    ensures Untouched(t, r0, r2)
  {
    forall i | 0 <= i < t.size && r2[i] != r0[i]
      ensures Touchable(t, r0, i)
    {
      if r1[i] == r0[i] {
        var f :| f in t.fields && IsRelative(t, f) && Covers(f, i) && !Skipped(t, r1, f);
        UntouchedNulls(t, r0, r1, f);
      }
    }
  }

  lemma SetUntouched(t: RecordType, rec: Record, f: Field, v: nat)
    requires Separated(t, rec) && f in t.fields && IsRelative(t, f) && !Skipped(t, rec, f)
    ensures Untouched(t, rec, SetWord(rec, f, v))
  {
    var rec' := SetWord(rec, f, v);
    forall i | 0 <= i < t.size && rec'[i] != rec[i]
      ensures Touchable(t, rec, i)
    {
      assert Covers(f, i);
    }
  }

  lemma {:induction false} PackOthersUntouched(t: RecordType, rec: Record, rs: seq<Relative>)
    requires Separated(t, rec) && forall r | r in rs :: r in t.others
    ensures Untouched(t, rec, PackOthers(t, rec, rs))
    decreases |rs|
  {
    if rs != [] {
      var r := rs[|rs| - 1];
      var next := PackOther(t, rec, r);
      if !Skipped(t, rec, r.field) {
        SetUntouched(t, rec, r.field, WrapSub(Word(rec, r.field), Word(rec, r.base), r.field.width));
      }
      PackOthersUntouched(t, next, rs[..|rs| - 1]);
      UntouchedTrans(t, rec, next, PackOthers(t, rec, rs));
    }
  }

  lemma {:induction false} PackSelfsUntouched(t: RecordType, rec: Record, psr: seq<Running>)
    requires Separated(t, rec) && AllOk(t, psr) && forall p | p in psr :: p.field in t.selfs
    ensures Untouched(t, rec, PackSelfs(t, rec, psr).rec)
    decreases |psr|
  {
    if psr != [] {
      var f := psr[0].field;
      var next := PackSelf(t, rec, psr[0]).rec;
      if !Skipped(t, rec, f) {
        SetUntouched(t, rec, f, WrapSub(Word(rec, f), psr[0].prev, f.width));
      }
      PackSelfsUntouched(t, next, psr[1..]);
      UntouchedTrans(t, rec, next, PackSelfs(t, rec, psr).rec);
    }
  }

  lemma PackRecordUntouched(t: RecordType, rec: Record, psr: seq<Running>)
    requires Separated(t, rec) && AllOk(t, psr) && forall p | p in psr :: p.field in t.selfs
    ensures Untouched(t, rec, PackRecord(t, rec, psr).rec)
  {
    PackOthersUntouched(t, rec, t.others);
    PackSelfsUntouched(t, PackOthers(t, rec, t.others), psr);
    UntouchedTrans(t, rec, PackOthers(t, rec, t.others), PackRecord(t, rec, psr).rec);
  }
}
