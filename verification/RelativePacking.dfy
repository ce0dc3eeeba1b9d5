/** Relative packing of int32 and int64 fields: a field is stored as its difference to another field of the same
    record, or to its own value in the latest record where it was not null (src/base/Extent.cpp:687-772), and the
    inverse (src/base/Extent.cpp:1451-1533).  Differences wrap around at the width of the field. */
module RelativePacking {
  import opened Bytes
  import opened RecordFormat

  function Word(rec: Record, f: Field): (v: nat)
    requires f.offset + f.width <= |rec|
    ensures v < Pow256(f.width)
  {
    Dec(Get(rec, f.offset, f.width))
  }

  function SetWord(rec: Record, f: Field, v: nat): (r: Record)
    requires f.offset + f.width <= |rec|
    ensures |r| == |rec|
  {
    Put(rec, f.offset, Enc(v, f.width))
  }

  /** A field that null compaction will drop is left at zero. */
  predicate Skipped(t: RecordType, rec: Record, f: Field) {
    t.nullCompact && IsNull(rec, f)
  }

  // ---------- one field ----------

  lemma SetWordSame(rec: Record, f: Field, v: nat)
    requires f.offset + f.width <= |rec| && v < Pow256(f.width)
    ensures Word(SetWord(rec, f, v), f) == v
  {
    GetPutSame(rec, f.offset, Enc(v, f.width));
    DecEnc(v, f.width);
  }

  lemma SetWordApart(rec: Record, f: Field, v: nat, g: Field)
    requires f.offset + f.width <= |rec| && g.offset + g.width <= |rec|
    requires Apart(f.offset, f.width, g.offset, g.width)
    ensures Word(SetWord(rec, f, v), g) == Word(rec, g)
  {
    GetPutApart(rec, f.offset, Enc(v, f.width), g.offset, g.width);
  }

  lemma SetWordBack(rec: Record, f: Field, v: nat)
    requires f.offset + f.width <= |rec|
    ensures SetWord(SetWord(rec, f, v), f, Word(rec, f)) == rec
  {
    EncDec(Get(rec, f.offset, f.width));
    PutPutSame(rec, f.offset, Enc(v, f.width), Get(rec, f.offset, f.width));
    PutGet(rec, f.offset, f.width);
  }

  lemma SetWordNulls(t: RecordType, rec: Record, f: Field, v: nat, g: Field)
    requires Separated(t, rec) && f in t.fields && g in t.fields
    ensures Skipped(t, SetWord(rec, f, v), g) == Skipped(t, rec, g)
  {
    if g.nullAt.Some? {
      assert t.OffNullBit(f, g);
    }
  }

  // ---------- relative to another field ----------

  function PackOther(t: RecordType, rec: Record, r: Relative): (p: Record)
    requires Ready(t, rec) && r in t.others
    ensures Ready(t, p)
  {
    if Skipped(t, rec, r.field) then rec
    else SetWord(rec, r.field, WrapSub(Word(rec, r.field), Word(rec, r.base), r.field.width))
  }

  function UnpackOther(t: RecordType, rec: Record, r: Relative): (u: Record)
    requires Ready(t, rec) && r in t.others
    ensures Ready(t, u)
  {
    if Skipped(t, rec, r.field) then rec
    else SetWord(rec, r.field, WrapAdd(Word(rec, r.field), Word(rec, r.base), r.field.width))
  }

  lemma UnpackPackOther(t: RecordType, rec: Record, r: Relative)
    requires Separated(t, rec) && r in t.others
    ensures UnpackOther(t, PackOther(t, rec, r), r) == rec
  {
    if !Skipped(t, rec, r.field) {
      var v, b := Word(rec, r.field), Word(rec, r.base);
      var d := WrapSub(v, b, r.field.width);
      SetWordNulls(t, rec, r.field, d, r.field);
      SetWordSame(rec, r.field, d);
      assert t.DisjointPair(r.field, r.base);
      SetWordApart(rec, r.field, d, r.base);
      SetWordBack(rec, r.field, d);
    }
  }

  /** Packing goes from the last declared field to the first, so that every base is still in plain form. */
  function PackOthers(t: RecordType, rec: Record, rs: seq<Relative>): (p: Record)
    requires Ready(t, rec) && forall r | r in rs :: r in t.others
    ensures Ready(t, p)
    decreases |rs|
  {
    if rs == [] then rec
    else PackOthers(t, PackOther(t, rec, rs[|rs| - 1]), rs[..|rs| - 1])
  }

  /** Unpacking goes from the first to the last, so that every base is already back in plain form. */
  function UnpackOthers(t: RecordType, rec: Record, rs: seq<Relative>): (u: Record)
    requires Ready(t, rec) && forall r | r in rs :: r in t.others
    ensures Ready(t, u)
    decreases |rs|
  {
    if rs == [] then rec
    else UnpackOther(t, UnpackOthers(t, rec, rs[..|rs| - 1]), rs[|rs| - 1])
  }

  lemma {:induction false} UnpackPackOthers(t: RecordType, rec: Record, rs: seq<Relative>)
    requires Separated(t, rec) && forall r | r in rs :: r in t.others
    ensures UnpackOthers(t, PackOthers(t, rec, rs), rs) == rec
    decreases |rs|
  {
    if rs != [] {
      var r := rs[|rs| - 1];
      UnpackPackOthers(t, PackOther(t, rec, r), rs[..|rs| - 1]);
      UnpackPackOther(t, rec, r);
    }
  }

  // ---------- relative to the field's own previous value ----------

  /** A self-relative field with its value in the latest record where it was not null. */
  datatype Running = Running(field: Field, prev: nat)
  {
    ghost predicate Ok(t: RecordType) {
      field in t.fields && prev < Pow256(field.width)
    }
  }

  ghost predicate AllOk(t: RecordType, psr: seq<Running>) {
    forall p | p in psr :: p.Ok(t)
  }

  function Start(fs: seq<Field>): (psr: seq<Running>)
    ensures |psr| == |fs|
    ensures forall i :: 0 <= i < |fs| ==> psr[i] == Running(fs[i], 0)
  {
    seq(|fs|, i requires 0 <= i < |fs| => Running(fs[i], 0))
  }

  ghost predicate DistinctFields(psr: seq<Running>) {
    forall i, j | 0 <= i < j < |psr| :: psr[i].field != psr[j].field
  }

  lemma DistinctTail(psr: seq<Running>)
    requires DistinctFields(psr) && psr != []
    ensures DistinctFields(psr[1..])
    ensures forall q | q in psr[1..] :: q.field != psr[0].field
  {
    forall i, j | 0 <= i < j < |psr[1..]|
      ensures psr[1..][i].field != psr[1..][j].field
    {
      assert psr[i + 1].field != psr[j + 1].field;
    }
  }

  lemma DistinctKept(psr: seq<Running>, psr': seq<Running>)
    requires DistinctFields(psr) && |psr'| == |psr|
    requires forall i :: 0 <= i < |psr| ==> psr'[i].field == psr[i].field
    ensures DistinctFields(psr')
  {
  }

  datatype Step = Step(rec: Record, now: Running)
  datatype SelfResult = SelfResult(rec: Record, psr: seq<Running>)

  function PackSelf(t: RecordType, rec: Record, p: Running): (r: Step)
    requires Ready(t, rec) && p.Ok(t)
    ensures Ready(t, r.rec) && r.now.Ok(t) && r.now.field == p.field
  {
    if Skipped(t, rec, p.field) then Step(rec, p)
    else
      Step(SetWord(rec, p.field, WrapSub(Word(rec, p.field), p.prev, p.field.width)),
           p.(prev := Word(rec, p.field)))
  }

  function UnpackSelf(t: RecordType, rec: Record, p: Running): (r: Step)
    requires Ready(t, rec) && p.Ok(t)
    ensures Ready(t, r.rec) && r.now.Ok(t) && r.now.field == p.field
  {
    if Skipped(t, rec, p.field) then Step(rec, p)
    else
      var v := WrapAdd(Word(rec, p.field), p.prev, p.field.width);
      Step(SetWord(rec, p.field, v), p.(prev := v))
  }

  function PackSelfs(t: RecordType, rec: Record, psr: seq<Running>): (r: SelfResult)
    requires Ready(t, rec) && AllOk(t, psr)
    ensures Ready(t, r.rec) && AllOk(t, r.psr)
    ensures |r.psr| == |psr| && forall i :: 0 <= i < |psr| ==> r.psr[i].field == psr[i].field
    decreases |psr|
  {
    if psr == [] then SelfResult(rec, [])
    else
      var first := PackSelf(t, rec, psr[0]);
      var rest := PackSelfs(t, first.rec, psr[1..]);
      SelfResult(rest.rec, [first.now] + rest.psr)
  }

  function UnpackSelfs(t: RecordType, rec: Record, psr: seq<Running>): (r: SelfResult)
    requires Ready(t, rec) && AllOk(t, psr)
    ensures Ready(t, r.rec) && AllOk(t, r.psr)
    ensures |r.psr| == |psr| && forall i :: 0 <= i < |psr| ==> r.psr[i].field == psr[i].field
    decreases |psr|
  {
    if psr == [] then SelfResult(rec, [])
    else
      var first := UnpackSelf(t, rec, psr[0]);
      var rest := UnpackSelfs(t, first.rec, psr[1..]);
      SelfResult(rest.rec, [first.now] + rest.psr)
  }

  lemma UnpackPackSelf(t: RecordType, rec: Record, p: Running)
    requires Separated(t, rec) && p.Ok(t)
    ensures UnpackSelf(t, PackSelf(t, rec, p).rec, p) == Step(rec, PackSelf(t, rec, p).now)
  {
    var f := p.field;
    if !Skipped(t, rec, f) {
      var d := WrapSub(Word(rec, f), p.prev, f.width);
      SetWordNulls(t, rec, f, d, f);
      SetWordSame(rec, f, d);
      SetWordBack(rec, f, d);
    }
  }

  /** Unpacking one field and packing a different one do not see each other. */
  lemma SelfStepsCommute(t: RecordType, rec: Record, p: Running, q: Running)
    requires Separated(t, rec) && p.Ok(t) && q.Ok(t) && p.field != q.field
    ensures PackSelf(t, UnpackSelf(t, rec, p).rec, q)
         == Step(UnpackSelf(t, PackSelf(t, rec, q).rec, p).rec, PackSelf(t, rec, q).now)
    ensures UnpackSelf(t, PackSelf(t, rec, q).rec, p).now == UnpackSelf(t, rec, p).now
  {
    var f, g := p.field, q.field;
    assert t.DisjointPair(f, g);
    var u, d := WrapAdd(Word(rec, f), p.prev, f.width), WrapSub(Word(rec, g), q.prev, g.width);
    SetWordNulls(t, rec, f, u, g);
    SetWordNulls(t, rec, g, d, f);
    SetWordApart(rec, f, u, g);
    SetWordApart(rec, g, d, f);
    PutPutApart(rec, f.offset, Enc(u, f.width), g.offset, Enc(d, g.width));
  }

  lemma {:induction false} UnpackSelfThroughPack(t: RecordType, rec: Record, p: Running, psr: seq<Running>)
    requires Separated(t, rec) && p.Ok(t) && AllOk(t, psr)
    requires forall q | q in psr :: q.field != p.field
    ensures var packed := PackSelfs(t, rec, psr);
            var lifted := PackSelfs(t, UnpackSelf(t, rec, p).rec, psr);
            && UnpackSelf(t, packed.rec, p) == Step(lifted.rec, UnpackSelf(t, rec, p).now)
            && lifted.psr == packed.psr
    decreases |psr|
  {
    if psr != [] {
      SelfStepsCommute(t, rec, p, psr[0]);
      UnpackSelfThroughPack(t, PackSelf(t, rec, psr[0]).rec, p, psr[1..]);
    }
  }

  /** All self-relative fields of a record: unpacking restores the record and moves the running values on exactly
      as packing did. */
  lemma {:induction false} UnpackPackSelfs(t: RecordType, rec: Record, psr: seq<Running>)
    requires Separated(t, rec) && AllOk(t, psr) && DistinctFields(psr)
    ensures UnpackSelfs(t, PackSelfs(t, rec, psr).rec, psr) == SelfResult(rec, PackSelfs(t, rec, psr).psr)
    decreases |psr|
  {
    if psr != [] {
      var p := psr[0];
      var first := PackSelf(t, rec, p);
      var rest := PackSelfs(t, first.rec, psr[1..]);
      DistinctTail(psr);
      UnpackSelfThroughPack(t, first.rec, p, psr[1..]);
      UnpackPackSelf(t, rec, p);
      var back := UnpackSelf(t, rest.rec, p);
      assert back == Step(PackSelfs(t, rec, psr[1..]).rec, first.now);
      UnpackPackSelfs(t, rec, psr[1..]);
      assert UnpackSelfs(t, back.rec, psr[1..]) == SelfResult(rec, rest.psr);
    }
  }

  // ---------- all records ----------

  /** One record: other-relative fields in reverse, then self-relative fields. */
  function PackRecord(t: RecordType, rec: Record, psr: seq<Running>): (r: SelfResult)
    requires Ready(t, rec) && AllOk(t, psr)
    ensures Ready(t, r.rec) && AllOk(t, r.psr)
    ensures |r.psr| == |psr| && forall i :: 0 <= i < |psr| ==> r.psr[i].field == psr[i].field
  {
    PackSelfs(t, PackOthers(t, rec, t.others), psr)
  }

  /** One record: self-relative fields, then other-relative fields forward. */
  function UnpackRecord(t: RecordType, rec: Record, psr: seq<Running>): (r: SelfResult)
    requires Ready(t, rec) && AllOk(t, psr)
    ensures Ready(t, r.rec) && AllOk(t, r.psr)
    ensures |r.psr| == |psr| && forall i :: 0 <= i < |psr| ==> r.psr[i].field == psr[i].field
  {
    var s := UnpackSelfs(t, rec, psr);
    SelfResult(UnpackOthers(t, s.rec, t.others), s.psr)
  }

  function PackRecords(t: RecordType, recs: seq<Record>, psr: seq<Running>): (packed: seq<Record>)
    requires AllReady(t, recs) && AllOk(t, psr)
    ensures |packed| == |recs| && AllReady(t, packed)
  {
    if recs == [] then []
    else
      var r := PackRecord(t, recs[0], psr);
      [r.rec] + PackRecords(t, recs[1..], r.psr)
  }

  function UnpackRecords(t: RecordType, recs: seq<Record>, psr: seq<Running>): (unpacked: seq<Record>)
    requires AllReady(t, recs) && AllOk(t, psr)
    ensures |unpacked| == |recs| && AllReady(t, unpacked)
  {
    if recs == [] then []
    else
      var r := UnpackRecord(t, recs[0], psr);
      [r.rec] + UnpackRecords(t, recs[1..], r.psr)
  }

  lemma UnpackPackRecord(t: RecordType, rec: Record, psr: seq<Running>)
    requires Separated(t, rec) && AllOk(t, psr) && DistinctFields(psr)
    ensures UnpackRecord(t, PackRecord(t, rec, psr).rec, psr) == SelfResult(rec, PackRecord(t, rec, psr).psr)
  {
    UnpackPackSelfs(t, PackOthers(t, rec, t.others), psr);
    UnpackPackOthers(t, rec, t.others);
  }

  lemma UnpackCons(t: RecordType, head: Record, tail: seq<Record>, psr: seq<Running>)
    requires Ready(t, head) && AllReady(t, tail) && AllReady(t, [head] + tail) && AllOk(t, psr)
    ensures UnpackRecords(t, [head] + tail, psr)
         == [UnpackRecord(t, head, psr).rec] + UnpackRecords(t, tail, UnpackRecord(t, head, psr).psr)
  {
    assert ([head] + tail)[1..] == tail;
  }

  /** Over any number of records and from any running values, unpacking undoes packing. */
  lemma {:induction false} UnpackPackRecords(t: RecordType, recs: seq<Record>, psr: seq<Running>)
    requires AllReady(t, recs) && t.Separate() && t.Options() && AllOk(t, psr) && DistinctFields(psr)
    ensures UnpackRecords(t, PackRecords(t, recs, psr), psr) == recs
  {
    if recs != [] {
      var r := PackRecord(t, recs[0], psr);
      var tail := PackRecords(t, recs[1..], r.psr);
      assert recs == [recs[0]] + recs[1..];
      calc {
        UnpackRecords(t, PackRecords(t, recs, psr), psr);
        UnpackRecords(t, [r.rec] + tail, psr);
      == { UnpackCons(t, r.rec, tail, psr); UnpackPackRecord(t, recs[0], psr); }
        [recs[0]] + UnpackRecords(t, tail, r.psr);
      == { DistinctKept(psr, r.psr); UnpackPackRecords(t, recs[1..], r.psr); }
        [recs[0]] + recs[1..];
      }
    }
  }
}
