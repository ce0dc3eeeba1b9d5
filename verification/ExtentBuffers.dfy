/** The loops of packData and unpackData on the byte buffers themselves: fixed_coded is rewritten in place, record by
    record, while variable_coded fills up from the front (src/base/Extent.cpp:610-793, 1401-1534). */
module ExtentBuffers {
  import opened Bytes
  import opened RecordFormat
  import opened StringPool
  import opened StringPacking
  import opened RelativePacking
  import opened ExtentCodec
  import opened LengthWalk

  // ---------- one record inside the buffer ----------

  /** The buffer holds rec between pre and post. */
  ghost predicate Window(buf: seq<u8>, pre: seq<u8>, rec: Record, post: seq<u8>) {
    buf == pre + rec + post
  }

  lemma WindowRead(buf: seq<u8>, pre: seq<u8>, rec: Record, post: seq<u8>, off: nat, n: nat)
    requires Window(buf, pre, rec, post) && off + n <= |rec|
    ensures |pre| + off + n <= |buf|
    ensures buf[|pre| + off..|pre| + off + n] == Get(rec, off, n)
  {
    var x, y := buf[|pre| + off..|pre| + off + n], Get(rec, off, n);
    assert forall i :: 0 <= i < n ==> x[i] == buf[|pre| + off + i] == rec[off + i] == y[i];
  }

  method ReadBytes(a: array<u8>, base: nat, off: nat, n: nat,
                   ghost pre: seq<u8>, ghost rec: Record, ghost post: seq<u8>)
    returns (b: seq<u8>)
    requires Window(a[..], pre, rec, post) && |pre| == base && off + n <= |rec|
    ensures b == Get(rec, off, n)
  {
    WindowRead(a[..], pre, rec, post, off, n);
    b := a[base + off..base + off + n];
    assert b == a[..][base + off..base + off + n];
  }

  method ReadWord(a: array<u8>, base: nat, f: Field, ghost pre: seq<u8>, ghost rec: Record, ghost post: seq<u8>)
    returns (v: nat)
    requires Window(a[..], pre, rec, post) && |pre| == base && f.offset + f.width <= |rec|
    ensures v == Word(rec, f)
  {
    var b := ReadBytes(a, base, f.offset, f.width, pre, rec, post);
    v := Dec(b);
  }

  method WriteBytes(a: array<u8>, base: nat, off: nat, b: seq<u8>,
                    ghost pre: seq<u8>, ghost rec: Record, ghost post: seq<u8>)
    requires Window(a[..], pre, rec, post) && |pre| == base && off + |b| <= |rec|
    modifies a
    ensures Window(a[..], pre, Put(rec, off, b), post)
  {
    Overwrite(a, base + off, b);
    PutInside(pre, rec, post, off, b);
  }

  method ReadNull(a: array<u8>, base: nat, f: Field, ghost pre: seq<u8>, ghost rec: Record, ghost post: seq<u8>)
    returns (isNull: bool)
    requires Window(a[..], pre, rec, post) && |pre| == base
    requires f.nullAt.Some? ==> f.nullAt.value.offset < |rec| && f.nullAt.value.bit < 8
    ensures isNull == IsNull(rec, f)
  {
    if f.nullAt.None? {
      return false;
    }
    var b := a[base + f.nullAt.value.offset];
    assert b == rec[f.nullAt.value.offset];
    isNull := BitSet(b, f.nullAt.value.bit);
  }

  /** Clears the null fields of the record at base. */
  method ClearNullsAt(t: RecordType, a: array<u8>, base: nat,
                      ghost pre: seq<u8>, ghost rec: Record, ghost post: seq<u8>)
    requires Ready(t, rec) && Window(a[..], pre, rec, post) && |pre| == base
    modifies a
    ensures Window(a[..], pre, ClearNulls(t, rec), post)
  {
    if !t.nullCompact {
      return;
    }
    ghost var now := rec;
    var fields := t.fields;
    assert fields[0..] == fields;
    for j := 0 to |fields|
      invariant Ready(t, now) && Window(a[..], pre, now, post)
      invariant (forall f | f in fields[j..] :: f in t.fields) && ClearFields(t, now, fields[j..]) == ClearNulls(t, rec)
    {
      var f := fields[j];
      assert t.FieldFits(f) && fields[j..][1..] == fields[j + 1..];
      var isNull := ReadNull(a, base, f, pre, now, post);
      if isNull {
        WriteBytes(a, base, f.offset, Zeros(f.width), pre, now, post);
      }
      now := ClearField(now, f);
    }
  }

  method PackOtherAt(t: RecordType, a: array<u8>, base: nat, r: Relative,
                     ghost pre: seq<u8>, ghost rec: Record, ghost post: seq<u8>)
    requires Ready(t, rec) && r in t.others && Window(a[..], pre, rec, post) && |pre| == base
    modifies a
    ensures Window(a[..], pre, PackOther(t, rec, r), post)
  {
    assert t.FieldFits(r.field) && t.FieldFits(r.base);
    var isNull := ReadNull(a, base, r.field, pre, rec, post);
    if t.nullCompact && isNull {
      return;
    }
    var v := ReadWord(a, base, r.field, pre, rec, post);
    var b := ReadWord(a, base, r.base, pre, rec, post);
    WriteBytes(a, base, r.field.offset, Enc(WrapSub(v, b, r.field.width), r.field.width), pre, rec, post);
  }

  method UnpackOtherAt(t: RecordType, a: array<u8>, base: nat, r: Relative,
                       ghost pre: seq<u8>, ghost rec: Record, ghost post: seq<u8>)
    requires Ready(t, rec) && r in t.others && Window(a[..], pre, rec, post) && |pre| == base
    modifies a
    ensures Window(a[..], pre, UnpackOther(t, rec, r), post)
  {
    assert t.FieldFits(r.field) && t.FieldFits(r.base);
    var isNull := ReadNull(a, base, r.field, pre, rec, post);
    if t.nullCompact && isNull {
      return;
    }
    var v := ReadWord(a, base, r.field, pre, rec, post);
    var b := ReadWord(a, base, r.base, pre, rec, post);
    WriteBytes(a, base, r.field.offset, Enc(WrapAdd(v, b, r.field.width), r.field.width), pre, rec, post);
  }

  lemma PackOthersStep(t: RecordType, rec: Record, j: nat)
    requires Ready(t, rec) && j < |t.others|
    ensures PackOthers(t, rec, t.others[..j + 1]) == PackOthers(t, PackOther(t, rec, t.others[j]), t.others[..j])
  {
    var rs := t.others[..j + 1];
    assert rs[|rs| - 1] == t.others[j] && rs[..|rs| - 1] == t.others[..j];
    assert forall r | r in rs :: r in t.others;
    assert PackOthers(t, rec, rs) == PackOthers(t, PackOther(t, rec, rs[|rs| - 1]), rs[..|rs| - 1]);
  }

  /** Packs the other-relative fields of the record at base, from the last to the first. */
  method PackOthersAt(t: RecordType, a: array<u8>, base: nat,
                      ghost pre: seq<u8>, ghost rec: Record, ghost post: seq<u8>)
    requires Ready(t, rec) && Window(a[..], pre, rec, post) && |pre| == base
    modifies a
    ensures Window(a[..], pre, PackOthers(t, rec, t.others), post)
  {
    ghost var now, whole := rec, PackOthers(t, rec, t.others);
    var j := |t.others|;
    assert t.others[..j] == t.others;
    while j > 0
      invariant 0 <= j <= |t.others| && Ready(t, now) && Window(a[..], pre, now, post)
      invariant PackOthers(t, now, t.others[..j]) == whole
    {
      j := j - 1;
      PackOthersStep(t, now, j);
      PackOtherAt(t, a, base, t.others[j], pre, now, post);
      now := PackOther(t, now, t.others[j]);
    }
  }

  /** Unpacks the other-relative fields of the record at base, from the first to the last. */
  method UnpackOthersAt(t: RecordType, a: array<u8>, base: nat,
                        ghost pre: seq<u8>, ghost rec: Record, ghost post: seq<u8>)
    requires Ready(t, rec) && Window(a[..], pre, rec, post) && |pre| == base
    modifies a
    ensures Window(a[..], pre, UnpackOthers(t, rec, t.others), post)
  {
    for j := 0 to |t.others|
      invariant Window(a[..], pre, UnpackOthers(t, rec, t.others[..j]), post)
    {
      assert t.others[..j + 1][..j] == t.others[..j];
      UnpackOtherAt(t, a, base, t.others[j], pre, UnpackOthers(t, rec, t.others[..j]), post);
    }
    assert t.others[..|t.others|] == t.others;
  }

  method PackSelfAt(t: RecordType, a: array<u8>, base: nat, p: Running,
                    ghost pre: seq<u8>, ghost rec: Record, ghost post: seq<u8>) returns (p': Running)
    requires Ready(t, rec) && p.Ok(t) && Window(a[..], pre, rec, post) && |pre| == base
    modifies a
    ensures Window(a[..], pre, PackSelf(t, rec, p).rec, post) && p' == PackSelf(t, rec, p).now
  {
    assert t.FieldFits(p.field);
    var isNull := ReadNull(a, base, p.field, pre, rec, post);
    if t.nullCompact && isNull {
      return p;
    }
    var v := ReadWord(a, base, p.field, pre, rec, post);
    WriteBytes(a, base, p.field.offset, Enc(WrapSub(v, p.prev, p.field.width), p.field.width), pre, rec, post);
    p' := p.(prev := v);
  }

  method UnpackSelfAt(t: RecordType, a: array<u8>, base: nat, p: Running,
                      ghost pre: seq<u8>, ghost rec: Record, ghost post: seq<u8>) returns (p': Running)
    requires Ready(t, rec) && p.Ok(t) && Window(a[..], pre, rec, post) && |pre| == base
    modifies a
    ensures Window(a[..], pre, UnpackSelf(t, rec, p).rec, post) && p' == UnpackSelf(t, rec, p).now
  {
    assert t.FieldFits(p.field);
    var isNull := ReadNull(a, base, p.field, pre, rec, post);
    if t.nullCompact && isNull {
      return p;
    }
    var d := ReadWord(a, base, p.field, pre, rec, post);
    var v := WrapAdd(d, p.prev, p.field.width);
    WriteBytes(a, base, p.field.offset, Enc(v, p.field.width), pre, rec, post);
    p' := p.(prev := v);
  }

  /** The fields before j are done: the rest of the list turns now and their new values into the whole result. */
  ghost predicate SelfsSoFar(whole: SelfResult, done: seq<Running>, rest: SelfResult) {
    whole.rec == rest.rec && whole.psr == done + rest.psr
  }

  lemma SelfsSoFarStep(whole: SelfResult, done: seq<Running>, p: Running, rest: SelfResult)
    requires SelfsSoFar(whole, done, SelfResult(rest.rec, [p] + rest.psr))
    ensures SelfsSoFar(whole, done + [p], rest)
  {
    assert done + ([p] + rest.psr) == done + [p] + rest.psr;
  }

  /** Packs the self-relative fields of the record at base and moves the running values on. */
  method PackSelfsAt(t: RecordType, a: array<u8>, base: nat, psr: seq<Running>,
                     ghost pre: seq<u8>, ghost rec: Record, ghost post: seq<u8>) returns (psr': seq<Running>)
    requires Ready(t, rec) && AllOk(t, psr) && Window(a[..], pre, rec, post) && |pre| == base
    modifies a
    ensures Window(a[..], pre, PackSelfs(t, rec, psr).rec, post) && psr' == PackSelfs(t, rec, psr).psr
  {
    ghost var now, whole := rec, PackSelfs(t, rec, psr);
    psr' := [];
    assert psr[0..] == psr;
    for j := 0 to |psr|
      invariant Ready(t, now) && Window(a[..], pre, now, post) && AllOk(t, psr[j..])
      invariant SelfsSoFar(whole, psr', PackSelfs(t, now, psr[j..]))
    {
      assert psr[j] in psr && psr[j..][1..] == psr[j + 1..];
      var p := PackSelfAt(t, a, base, psr[j], pre, now, post);
      ghost var next := PackSelf(t, now, psr[j]).rec;
      SelfsSoFarStep(whole, psr', p, PackSelfs(t, next, psr[j + 1..]));
      psr' := psr' + [p];
      now := next;
    }
  }

  /** Unpacks the self-relative fields of the record at base and moves the running values on. */
  method UnpackSelfsAt(t: RecordType, a: array<u8>, base: nat, psr: seq<Running>,
                       ghost pre: seq<u8>, ghost rec: Record, ghost post: seq<u8>) returns (psr': seq<Running>)
    requires Ready(t, rec) && AllOk(t, psr) && Window(a[..], pre, rec, post) && |pre| == base
    modifies a
    ensures Window(a[..], pre, UnpackSelfs(t, rec, psr).rec, post) && psr' == UnpackSelfs(t, rec, psr).psr
  {
    ghost var now, whole := rec, UnpackSelfs(t, rec, psr);
    psr' := [];
    assert psr[0..] == psr;
    for j := 0 to |psr|
      invariant Ready(t, now) && Window(a[..], pre, now, post) && AllOk(t, psr[j..])
      invariant SelfsSoFar(whole, psr', UnpackSelfs(t, now, psr[j..]))
    {
      assert psr[j] in psr && psr[j..][1..] == psr[j + 1..];
      var p := UnpackSelfAt(t, a, base, psr[j], pre, now, post);
      ghost var next := UnpackSelf(t, now, psr[j]).rec;
      SelfsSoFarStep(whole, psr', p, UnpackSelfs(t, next, psr[j + 1..]));
      psr' := psr' + [p];
      now := next;
    }
  }

  /** Packs the variable32 fields of the record at base; the packed pool is the front of coded. */
  method PackVarsAt(t: RecordType, src: seq<u8>, a: array<u8>, base: nat, coded: array<u8>, pos: nat,
                    table: map<seq<u8>, nat>, ghost pre: seq<u8>, ghost rec: Record, ghost post: seq<u8>)
    returns (ok: bool, pos': nat, table': map<seq<u8>, nat>)
    requires Ready(t, rec) && Window(a[..], pre, rec, post) && |pre| == base
    requires a != coded && pos <= coded.Length == |src|
    modifies a, coded
    ensures ok <==> PackVars(t, src, rec, t.vars, Packed(old(coded[..pos]), table)).Some?
    ensures ok ==> pos' <= coded.Length
    ensures ok ==> var v := PackVars(t, src, rec, t.vars, Packed(old(coded[..pos]), table)).value;
                   Window(a[..], pre, v.rec, post) && v.pool == Packed(coded[..pos'], table')
  {
    ghost var now := rec;
    ghost var start := Packed(coded[..pos], table);
    ok, pos', table' := true, pos, table;
    assert t.vars[0..] == t.vars;
    for j := 0 to |t.vars|
      invariant pos' <= coded.Length && Ready(t, now) && Window(a[..], pre, now, post)
      invariant PackVars(t, src, now, t.vars[j..], Packed(coded[..pos'], table'))
             == PackVars(t, src, rec, t.vars, start)
    {
      var c := t.vars[j];
      assert t.FieldFits(c.field) && t.vars[j..][0] == c && t.vars[j..][1..] == t.vars[j + 1..];
      var off := ReadWord(a, base, c.field, pre, now, post);
      ghost var st := Packed(coded[..pos'], table');
      var packed;
      ok, packed, pos', table' := PackString(src, off, c.unique, coded, pos', table');
      if !ok {
        assert PackVar(src, now, c, st) == None;
        return;
      }
      if off != 0 {
        WriteBytes(a, base, c.field.offset, Enc(packed, c.field.width), pre, now, post);
      }
      now := PackVar(src, now, c, st).value.rec;
    }
  }

  /** One string: looked up, or copied behind the packed pool. */
  method PackString(src: seq<u8>, off: nat, unique: bool, coded: array<u8>, pos: nat, table: map<seq<u8>, nat>)
    returns (ok: bool, packed: nat, pos': nat, table': map<seq<u8>, nat>)
    requires pos <= coded.Length == |src|
    modifies coded
    ensures ok <==>
      && SelfCheck(src, off)
      && (SizeAt(src, off) == 0 <==> off == 0)
      && (off != 0 ==> |Place(Packed(old(coded[..pos]), table), StringAt(src, off), unique).0.bytes| <= |src|)
    ensures ok ==> pos' <= coded.Length
    ensures ok && off == 0 ==> Packed(coded[..pos'], table') == Packed(old(coded[..pos]), table)
    ensures ok && off != 0 ==>
      Place(Packed(old(coded[..pos]), table), StringAt(src, off), unique) == (Packed(coded[..pos'], table'), packed)
  {
    packed, pos', table' := 0, pos, table;
    if !SelfCheck(src, off) {
      return false, packed, pos', table';
    }
    var size := SizeAt(src, off);
    if size == 0 || off == 0 {
      return off == 0 && size == 0, packed, pos', table';
    }
    var s := StringAt(src, off);
    if unique && s in table {
      return true, table[s], pos', table';
    }
    var n := 4 + RoundUp(size);
    if pos + n > coded.Length {
      return false, packed, pos', table';
    }
    EntryAt(src, off);
    ghost var front := coded[..pos];
    Overwrite(coded, pos, src[off..off + n]);
    assert coded[..pos + n] == front + Entry(s);
    packed, pos' := pos, pos + n;
    table' := if unique then table[s := pos] else table;
    ok := true;
  }

  // ---------- the record loop of packData ----------

  /** Everything packData does to the records, one record after the other. */
  function CodePass(t: RecordType, src: seq<u8>, recs: seq<Record>, st: Packed, psr: seq<Running>)
    : (r: Option<VarResults>)
    requires AllReady(t, recs) && AllOk(t, psr)
    decreases |recs|
  {
    if recs == [] then Some(VarResults([], st))
    else
      match PackVars(t, src, ClearNulls(t, recs[0]), t.vars, st)
      case None => None
      case Some(v) =>
        var r := PackRecord(t, v.rec, psr);
        match CodePass(t, src, recs[1..], v.pool, r.psr)
        case None => None
        case Some(rest) => Some(VarResults([r.rec] + rest.recs, rest.pool))
  }

  lemma PackRecordsCons(t: RecordType, rec: Record, recs: seq<Record>, psr: seq<Running>)
    requires Ready(t, rec) && AllReady(t, recs) && AllReady(t, [rec] + recs) && AllOk(t, psr)
    ensures var r := PackRecord(t, rec, psr);
            PackRecords(t, [rec] + recs, psr) == [r.rec] + PackRecords(t, recs, r.psr)
  {
    assert ([rec] + recs)[1..] == recs;
  }

  /** The one pass c gives what packing strings first, with the outcome n, and relative fields second gives. */
  ghost predicate SameOutcome(t: RecordType, psr: seq<Running>, c: Option<VarResults>, n: Option<VarResults>)
    requires AllOk(t, psr) && (n.Some? ==> AllReady(t, n.value.recs))
  {
    && (c.Some? <==> n.Some?)
    && (c.Some? ==> c.value == VarResults(PackRecords(t, n.value.recs, psr), n.value.pool))
  }

  lemma SameOutcomeCons(
      t: RecordType, rec: Record, psr: seq<Running>, c: Option<VarResults>, n: Option<VarResults>)
    requires Ready(t, rec) && AllOk(t, psr) && (n.Some? ==> AllReady(t, n.value.recs))
    requires SameOutcome(t, PackRecord(t, rec, psr).psr, c, n)
    ensures n.Some? ==> AllReady(t, [rec] + n.value.recs)
    ensures n.Some? ==>
      SameOutcome(t, psr, Some(VarResults([PackRecord(t, rec, psr).rec] + c.value.recs, c.value.pool)),
                  Some(VarResults([rec] + n.value.recs, n.value.pool)))
  {
    if n.Some? {
      PackRecordsCons(t, rec, n.value.recs, psr);
    }
  }

  /** One pass over the records does the same as packing all strings first and all relative fields second. */
  lemma {:induction false} CodePassIsTwoPasses(
      t: RecordType, src: seq<u8>, recs: seq<Record>, st: Packed, psr: seq<Running>)
    requires AllReady(t, recs) && AllOk(t, psr)
    ensures SameOutcome(t, psr, CodePass(t, src, recs, st, psr), Normalize(t, src, recs, st))
    decreases |recs|
  {
    if recs != [] {
      var v := PackVars(t, src, ClearNulls(t, recs[0]), t.vars, st);
      if v.Some? {
        var r, rest := PackRecord(t, v.value.rec, psr), recs[1..];
        CodePassIsTwoPasses(t, src, rest, v.value.pool, r.psr);
        SameOutcomeCons(t, v.value.rec, psr, CodePass(t, src, rest, v.value.pool, r.psr),
                        Normalize(t, src, rest, v.value.pool));
      }
    }
  }

  /** The records before the cursor are done, and whole is what the pass over all records gives. */
  ghost predicate PassSoFar(whole: Option<VarResults>, done: seq<Record>, rest: Option<VarResults>) {
    match rest
    case None => whole == None
    case Some(r) => whole == Some(VarResults(done + r.recs, r.pool))
  }

  lemma NothingPassed(whole: Option<VarResults>)
    ensures PassSoFar(whole, [], whole)
  {
    assert whole.Some? ==> [] + whole.value.recs == whole.value.recs;
  }

  lemma PassStep(
      t: RecordType, src: seq<u8>, whole: Option<VarResults>, done: seq<Record>, recs: seq<Record>, st: Packed,
      psr: seq<Running>)
    requires AllReady(t, recs) && AllOk(t, psr) && recs != []
    requires PassSoFar(whole, done, CodePass(t, src, recs, st, psr))
    ensures var v := PackVars(t, src, ClearNulls(t, recs[0]), t.vars, st);
            && (v.None? ==> whole == None)
            && (v.Some? ==>
                  var r := PackRecord(t, v.value.rec, psr);
                  PassSoFar(whole, done + [r.rec], CodePass(t, src, recs[1..], v.value.pool, r.psr)))
  {
    var v := PackVars(t, src, ClearNulls(t, recs[0]), t.vars, st);
    if v.Some? {
      var r := PackRecord(t, v.value.rec, psr);
      var rest := CodePass(t, src, recs[1..], v.value.pool, r.psr);
      if rest.Some? {
        assert done + ([r.rec] + rest.value.recs) == done + [r.rec] + rest.value.recs;
      }
    }
  }

  /** All steps for the record at base. */
  method PackRecordAt(t: RecordType, src: seq<u8>, a: array<u8>, base: nat, coded: array<u8>, pos: nat,
                      table: map<seq<u8>, nat>, psr: seq<Running>,
                      ghost pre: seq<u8>, ghost rec: Record, ghost post: seq<u8>)
    returns (ok: bool, pos': nat, table': map<seq<u8>, nat>, psr': seq<Running>)
    requires Ready(t, rec) && AllOk(t, psr) && Window(a[..], pre, rec, post) && |pre| == base
    requires a != coded && pos <= coded.Length == |src|
    modifies a, coded
    ensures ok <==> PackVars(t, src, ClearNulls(t, rec), t.vars, Packed(old(coded[..pos]), table)).Some?
    ensures ok ==> pos' <= coded.Length
    ensures ok ==> var v := PackVars(t, src, ClearNulls(t, rec), t.vars, Packed(old(coded[..pos]), table)).value;
                   && v.pool == Packed(coded[..pos'], table')
                   && Window(a[..], pre, PackRecord(t, v.rec, psr).rec, post)
                   && psr' == PackRecord(t, v.rec, psr).psr
  {
    psr' := psr;
    ghost var st := Packed(coded[..pos], table);
    ClearNullsAt(t, a, base, pre, rec, post);
    assert coded[..pos] == st.bytes;
    ok, pos', table' := PackVarsAt(t, src, a, base, coded, pos, table, pre, ClearNulls(t, rec), post);
    if !ok {
      return;
    }
    ghost var v := PackVars(t, src, ClearNulls(t, rec), t.vars, st).value;
    PackOthersAt(t, a, base, pre, v.rec, post);
    psr' := PackSelfsAt(t, a, base, psr, pre, PackOthers(t, v.rec, t.others), post);
  }

  lemma WindowHere(done: seq<Record>, recs: seq<Record>)
    requires recs != []
    ensures Window(Flatten(done) + Flatten(recs), Flatten(done), recs[0], Flatten(recs[1..]))
  {
  }

  /** The pass over all records codes the extent. */
  lemma PassIsCode(t: RecordType, src: seq<u8>, recs: seq<Record>)
    requires t.Valid() && AllReady(t, recs)
    ensures AllOk(t, Start(t.selfs))
    ensures var whole, c := CodePass(t, src, recs, EMPTY, Start(t.selfs)), Code(t, Extent(recs, src));
            && (whole.Some? <==> c.Some?)
            && (whole.Some? ==> c.value == Coded(whole.value.recs, whole.value.pool.bytes))
  {
    CodePassIsTwoPasses(t, src, recs, EMPTY, Start(t.selfs));
  }

  /** The loop over fixed_coded, from any packed pool and running values on. */
  method PackRecordsAt(t: RecordType, src: seq<u8>, a: array<u8>, coded: array<u8>, psr0: seq<Running>,
                       ghost recs: seq<Record>)
    returns (ok: bool, nrecords: nat, pos: nat, ghost done: seq<Record>, ghost st: Packed)
    requires t.size > 0 && AllReady(t, recs) && AllOk(t, psr0) && a[..] == Flatten(recs)
    requires a != coded && 4 <= coded.Length == |src| && coded[..4] == EMPTY.bytes
    modifies a, coded
    ensures ok <==> CodePass(t, src, recs, EMPTY, psr0).Some?
    ensures ok ==> nrecords == |recs| && pos <= coded.Length && st.bytes == coded[..pos]
    ensures ok ==> a[..] == Flatten(done) && CodePass(t, src, recs, EMPTY, psr0) == Some(VarResults(done, st))
  {
    var psr, table: map<seq<u8>, nat> := psr0, map[];
    pos, nrecords, ok, done, st := 4, 0, true, [], EMPTY;
    var base := 0;
    ghost var whole := CodePass(t, src, recs, EMPTY, psr0);
    ghost var todo := recs;
    NothingPassed(whole);
    while base != a.Length
      invariant AllReady(t, todo) && AllOk(t, psr) && nrecords + |todo| == |recs|
      invariant a[..] == Flatten(done) + Flatten(todo) && base == |Flatten(done)|
      invariant pos <= coded.Length && st == Packed(coded[..pos], table)
      invariant PassSoFar(whole, done, CodePass(t, src, todo, st, psr))
      decreases |todo|
    {
      assert todo != [];
      WindowHere(done, todo);
      PassStep(t, src, whole, done, todo, st, psr);
      ghost var before := psr;
      ok, pos, table, psr :=
        PackRecordAt(t, src, a, base, coded, pos, table, psr, Flatten(done), todo[0], Flatten(todo[1..]));
      if !ok {
        return;
      }
      ghost var v := PackVars(t, src, ClearNulls(t, todo[0]), t.vars, st).value;
      ghost var r := PackRecord(t, v.rec, before).rec;
      st := v.pool;
      FlattenAppend(done, r);
      done, todo := done + [r], todo[1..];
      base, nrecords := base + t.size, nrecords + 1;
    }
    FlattenEmpty(todo, t.size);
    assert Flatten(todo) == [] && done + [] == done;
    assert whole == Some(VarResults(done, st));
  }

  /** It fails exactly when Code does, and otherwise leaves the coded records in place and the packed pool at the front
      of variable_coded. */
  method PackFixed(t: RecordType, src: seq<u8>, a: array<u8>, coded: array<u8>, ghost recs: seq<Record>)
    returns (ok: bool, nrecords: nat, pos: nat)
    requires t.Valid() && t.size > 0 && AllReady(t, recs) && a[..] == Flatten(recs)
    requires a != coded && 4 <= coded.Length == |src|
    modifies a, coded
    ensures ok <==> Code(t, Extent(recs, src)).Some?
    ensures ok ==> nrecords == |recs| && pos <= coded.Length
    ensures ok ==> Code(t, Extent(recs, src)).value.pool == coded[..pos]
    ensures ok ==> a[..] == Flatten(Code(t, Extent(recs, src)).value.recs)
  {
    PassIsCode(t, src, recs);
    Overwrite(coded, 0, Zeros(4));
    assert coded[..4] == EMPTY.bytes;
    ghost var done, st;
    ok, nrecords, pos, done, st := PackRecordsAt(t, src, a, coded, Start(t.selfs), recs);
  }

  // ---------- the record loop of unpackData ----------

  /** What unpackData does with the rest of the records behind those already done. */
  ghost predicate UnpackedSoFar(whole: seq<Record>, done: seq<Record>, rest: seq<Record>) {
    whole == done + rest
  }

  lemma UnpackStep(t: RecordType, whole: seq<Record>, done: seq<Record>, recs: seq<Record>, psr: seq<Running>)
    requires AllReady(t, recs) && AllOk(t, psr) && recs != []
    requires UnpackedSoFar(whole, done, UnpackRecords(t, recs, psr))
    ensures var r := UnpackRecord(t, recs[0], psr);
            UnpackedSoFar(whole, done + [r.rec], UnpackRecords(t, recs[1..], r.psr))
  {
    var r := UnpackRecord(t, recs[0], psr);
    var rest := UnpackRecords(t, recs[1..], r.psr);
    assert done + ([r.rec] + rest) == done + [r.rec] + rest;
  }

  /** Checks every string offset of the record at base. */
  method CheckStringsAt(t: RecordType, a: array<u8>, base: nat, pool: seq<u8>,
                        ghost pre: seq<u8>, ghost rec: Record, ghost post: seq<u8>) returns (ok: bool)
    requires Ready(t, rec) && Window(a[..], pre, rec, post) && |pre| == base
    ensures ok <==> forall c | c in t.vars :: StringChecked(t, rec, pool, c)
  {
    for j := 0 to |t.vars|
      invariant forall c | c in t.vars[..j] :: StringChecked(t, rec, pool, c)
    {
      var c := t.vars[j];
      assert t.FieldFits(c.field);
      var off := ReadWord(a, base, c.field, pre, rec, post);
      assert t.vars[..j + 1] == t.vars[..j] + [c];
      if !SelfCheck(pool, off) {
        assert !StringChecked(t, rec, pool, c);
        return false;
      }
    }
    assert t.vars[..|t.vars|] == t.vars;
    ok := true;
  }

  /** All steps for the record at base. */
  method UnpackRecordAt(t: RecordType, a: array<u8>, base: nat, psr: seq<Running>,
                        ghost pre: seq<u8>, ghost rec: Record, ghost post: seq<u8>) returns (psr': seq<Running>)
    requires Ready(t, rec) && AllOk(t, psr) && Window(a[..], pre, rec, post) && |pre| == base
    modifies a
    ensures Window(a[..], pre, UnpackRecord(t, rec, psr).rec, post) && psr' == UnpackRecord(t, rec, psr).psr
  {
    psr' := UnpackSelfsAt(t, a, base, psr, pre, rec, post);
    UnpackOthersAt(t, a, base, pre, UnpackSelfs(t, rec, psr).rec, post);
  }

  lemma CheckedSoFar(t: RecordType, recs: seq<Record>, k: nat, pool: seq<u8>)
    requires AllReady(t, recs) && k < |recs|
    requires StringsChecked(t, recs[..k], pool)
    ensures StringsChecked(t, recs[..k + 1], pool) <==> forall c | c in t.vars :: StringChecked(t, recs[k], pool, c)
  {
    var more := recs[..k + 1];
    assert forall i :: 0 <= i < k ==> more[i] == recs[..k][i];
    assert more[k] == recs[k];
    if forall c | c in t.vars :: StringChecked(t, recs[k], pool, c) {
      forall i, c | 0 <= i < k + 1 && c in t.vars
        ensures StringChecked(t, more[i], pool, c)
      {
        if i < k {
          assert StringChecked(t, recs[..k][i], pool, c);
        }
      }
    } else {
      var c :| c in t.vars && !StringChecked(t, recs[k], pool, c);
      assert !StringChecked(t, more[k], pool, c);
    }
  }

  lemma CheckFails(t: RecordType, recs: seq<Record>, k: nat, pool: seq<u8>)
    requires AllReady(t, recs) && k < |recs|
    requires exists c :: c in t.vars && !StringChecked(t, recs[k], pool, c)
    ensures !StringsChecked(t, recs, pool)
  {
  }

  /** The loop over fixeddata: it fails exactly when Decode does, and otherwise leaves the records in plain form. */
  method UnpackFixed(t: RecordType, a: array<u8>, pool: seq<u8>, ghost recs: seq<Record>)
    returns (ok: bool, nrecords: nat)
    requires t.Valid() && t.size > 0 && AllReady(t, recs) && a[..] == Flatten(recs)
    modifies a
    ensures ok <==> Decode(t, Coded(recs, pool)).Some?
    ensures ok ==> nrecords == |recs| && a[..] == Flatten(Decode(t, Coded(recs, pool)).value.recs)
  {
    var psr := Start(t.selfs);
    var base := 0;
    ghost var whole := UnpackRecords(t, recs, psr);
    ghost var done: seq<Record> := [];
    ok, nrecords := true, 0;
    assert recs[0..] == recs && [] + whole == whole;
    while base != a.Length
      invariant nrecords <= |recs| && AllOk(t, psr)
      invariant a[..] == Flatten(done) + Flatten(recs[nrecords..]) && base == |Flatten(done)|
      invariant UnpackedSoFar(whole, done, UnpackRecords(t, recs[nrecords..], psr))
      invariant StringsChecked(t, recs[..nrecords], pool)
      decreases |recs| - nrecords
    {
      ghost var todo := recs[nrecords..];
      FlattenEmpty(todo, t.size);
      assert todo != [] && todo[0] == recs[nrecords] && todo[1..] == recs[nrecords + 1..];
      WindowHere(done, todo);
      ok := CheckStringsAt(t, a, base, pool, Flatten(done), todo[0], Flatten(todo[1..]));
      if !ok {
        CheckFails(t, recs, nrecords, pool);
        return;
      }
      CheckedSoFar(t, recs, nrecords, pool);
      UnpackStep(t, whole, done, todo, psr);
      ghost var r := UnpackRecord(t, todo[0], psr).rec;
      psr := UnpackRecordAt(t, a, base, psr, Flatten(done), todo[0], Flatten(todo[1..]));
      FlattenAppend(done, r);
      done := done + [r];
      base, nrecords := base + t.size, nrecords + 1;
    }
    FlattenEmpty(recs[nrecords..], t.size);
    assert recs[..nrecords] == recs && done + [] == done;
  }

  // ---------- hashing the string lengths ----------

  /** The walk over variable_coded that hashes the length words, BATCH of them at a time.  The loop of the source has no
      count of its turns: where this one ends because of it, that of the source goes on for ever. */
  method HashSizesLoop(lib: Library, pool: array<u8>, seed: nat) returns (r: Walk)
    requires 4 <= pool.Length
    ensures r == HashSizes(lib, pool[..], 4, pool.Length, seed, [])
  {
    var at: int, hash, turns: nat := 4, seed, pool.Length;
    var batch: seq<u8> := [];
    while at != pool.Length
      invariant at <= pool.Length
      invariant HashSizes(lib, pool[..], at, turns, hash, batch) == HashSizes(lib, pool[..], 4, pool.Length, seed, [])
      decreases turns
    {
      if at < 0 || at + 4 > pool.Length {
        return Outside;
      }
      if turns == 0 {
        return Endless;
      }
      var word := pool[at..at + 4];
      assert word == Get(pool[..], at, 4);
      batch := batch + word;
      if |batch| == 4 * BATCH {
        hash, batch := lib.hash(hash, batch), [];
      }
      AdvanceIs(Signed32(Dec(word)));
      at, turns := at + Advance(Signed32(Dec(word))), turns - 1;
      if at > pool.Length {
        return PastEnd;
      }
    }
    r := Hashed(lib.hash(hash, batch));
  }
}
