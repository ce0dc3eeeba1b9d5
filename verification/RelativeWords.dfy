/** What relative packing stores (src/base/Extent.cpp:687-772) and what unpacking reads from it (:1451-1533), word by word:
    differences and sums modulo the width of the field. */
module RelativeWords {
  import opened Bytes
  import opened RecordFormat
  import opened RelativePacking

  /** The word of the field in the latest of the first k records that does not skip it, or else start. */
  ghost function Before(t: RecordType, recs: seq<Record>, k: nat, f: Field, start: nat): (v: nat)
    requires AllReady(t, recs) && k <= |recs| && f in t.fields
    ensures start < Pow256(f.width) ==> v < Pow256(f.width)
  {
    if k == 0 then start
    else
      assert t.FieldFits(f);
      if t.nullCompact && IsNull(recs[k - 1], f) then Before(t, recs, k - 1, f, start) else Word(recs[k - 1], f)
  }

  /** The record keeps the word of the field and whether it is skipped. */
  ghost predicate Keeps(t: RecordType, rec: Record, rec': Record, g: Field)
    requires Ready(t, rec) && g in t.fields
  {
    assert t.FieldFits(g);
    Ready(t, rec') && Word(rec', g) == Word(rec, g) && Skipped(t, rec', g) == Skipped(t, rec, g)
  }

  /** The record stores the given word for the field, or the same as before where the field is skipped. */
  ghost predicate Stores(t: RecordType, rec: Record, rec': Record, g: Field, v: nat)
    requires Ready(t, rec) && g in t.fields
  {
    assert t.FieldFits(g);
    && Ready(t, rec') && Skipped(t, rec', g) == Skipped(t, rec, g)
    && Word(rec', g) == if Skipped(t, rec, g) then Word(rec, g) else v
  }

  /** An n-byte word holds the difference v - w, modulo 256 to the power n. */
  ghost predicate IsDifference(word: nat, v: int, w: int, n: nat) {
    word == (v - w) % Pow256(n)
  }

  ghost predicate IsSum(word: nat, v: int, w: int, n: nat) {
    word == (v + w) % Pow256(n)
  }

  lemma WrapIsMod(v: nat, w: nat, n: nat)
    requires v < Pow256(n) && w < Pow256(n)
    ensures IsDifference(WrapSub(v, w, n), v, w, n) && IsSum(WrapAdd(v, w, n), v, w, n)
  {
    var m := Pow256(n);
    ModIs(v - w, m, if v >= w then 0 else -1, WrapSub(v, w, n));
    ModIs(v + w, m, if v + w < m then 0 else 1, WrapAdd(v, w, n));
  }

  lemma ModIs(x: int, m: nat, q: int, r: nat)
    requires m > 0 && r < m && x == q * m + r
    ensures x % m == r
  {
    var d: int := x / m - q;
    assert x == x / m * m + x % m;
    assert d * m == r - x % m;
    AtLeastOnce(d, m);
  }

  lemma AtLeastOnce(d: int, m: nat)
    ensures d >= 1 ==> d * m >= m
    ensures d <= -1 ==> d * m + m <= 0
  {
  }

  lemma KeepsStores(t: RecordType, rec: Record, mid: Record, rec': Record, g: Field, v: nat)
    requires Ready(t, rec) && Ready(t, mid) && g in t.fields && Keeps(t, rec, mid, g) && Stores(t, mid, rec', g, v)
    ensures Stores(t, rec, rec', g, v)
  {
  }

  lemma StoresKeeps(t: RecordType, rec: Record, mid: Record, rec': Record, g: Field, v: nat)
    requires Ready(t, rec) && Ready(t, mid) && g in t.fields && Stores(t, rec, mid, g, v) && Keeps(t, mid, rec', g)
    ensures Stores(t, rec, rec', g, v)
  {
  }

  // ---------- one field ----------

  lemma SetKeeps(t: RecordType, rec: Record, f: Field, v: nat, g: Field)
    requires Separated(t, rec) && f in t.fields && g in t.fields && g != f
    ensures Keeps(t, rec, SetWord(rec, f, v), g)
  {
    assert t.DisjointPair(f, g) && t.FieldFits(f) && t.FieldFits(g);
    SetWordApart(rec, f, v, g);
    SetWordNulls(t, rec, f, v, g);
  }

  lemma PackOtherStores(t: RecordType, rec: Record, r: Relative)
    requires Separated(t, rec) && r in t.others
    ensures t.FieldFits(r.field) && t.FieldFits(r.base)
    ensures Stores(t, rec, PackOther(t, rec, r), r.field, WrapSub(Word(rec, r.field), Word(rec, r.base), r.field.width))
  {
    var v, b := Word(rec, r.field), Word(rec, r.base);
    SetWordSame(rec, r.field, WrapSub(v, b, r.field.width));
    SetWordNulls(t, rec, r.field, WrapSub(v, b, r.field.width), r.field);
  }

  lemma UnpackOtherStores(t: RecordType, rec: Record, r: Relative)
    requires Separated(t, rec) && r in t.others
    ensures t.FieldFits(r.field) && t.FieldFits(r.base)
    ensures Stores(t, rec, UnpackOther(t, rec, r), r.field, WrapAdd(Word(rec, r.field), Word(rec, r.base), r.field.width))
  {
    var v, b := Word(rec, r.field), Word(rec, r.base);
    SetWordSame(rec, r.field, WrapAdd(v, b, r.field.width));
    SetWordNulls(t, rec, r.field, WrapAdd(v, b, r.field.width), r.field);
  }

  lemma PackSelfStores(t: RecordType, rec: Record, p: Running)
    requires Separated(t, rec) && p.Ok(t)
    ensures t.FieldFits(p.field)
    ensures Stores(t, rec, PackSelf(t, rec, p).rec, p.field, WrapSub(Word(rec, p.field), p.prev, p.field.width))
    ensures PackSelf(t, rec, p).now.prev == if Skipped(t, rec, p.field) then p.prev else Word(rec, p.field)
  {
    assert t.FieldFits(p.field);
    var v := Word(rec, p.field);
    SetWordSame(rec, p.field, WrapSub(v, p.prev, p.field.width));
    SetWordNulls(t, rec, p.field, WrapSub(v, p.prev, p.field.width), p.field);
  }

  lemma UnpackSelfStores(t: RecordType, rec: Record, p: Running)
    requires Separated(t, rec) && p.Ok(t)
    ensures t.FieldFits(p.field)
    ensures var s := UnpackSelf(t, rec, p);
            && Stores(t, rec, s.rec, p.field, WrapAdd(Word(rec, p.field), p.prev, p.field.width))
            && s.now.prev == if Skipped(t, rec, p.field) then p.prev else Word(s.rec, p.field)
  {
    assert t.FieldFits(p.field);
    var v := Word(rec, p.field);
    SetWordSame(rec, p.field, WrapAdd(v, p.prev, p.field.width));
    SetWordNulls(t, rec, p.field, WrapAdd(v, p.prev, p.field.width), p.field);
  }

  // ---------- the fields of one record that are relative to others ----------

  ghost predicate NoneIs(rs: seq<Relative>, g: Field) {
    forall r | r in rs :: r.field != g
  }

  lemma {:induction false} PackOthersKeeps(t: RecordType, rec: Record, rs: seq<Relative>, g: Field)
    requires Separated(t, rec) && (forall r | r in rs :: r in t.others) && g in t.fields && NoneIs(rs, g)
    ensures Keeps(t, rec, PackOthers(t, rec, rs), g)
    decreases |rs|
  {
    if rs != [] {
      var r := rs[|rs| - 1];
      if !Skipped(t, rec, r.field) {
        SetKeeps(t, rec, r.field, WrapSub(Word(rec, r.field), Word(rec, r.base), r.field.width), g);
      }
      PackOthersKeeps(t, PackOther(t, rec, r), rs[..|rs| - 1], g);
    }
  }

  lemma {:induction false} UnpackOthersKeeps(t: RecordType, rec: Record, rs: seq<Relative>, g: Field)
    requires Separated(t, rec) && (forall r | r in rs :: r in t.others) && g in t.fields && NoneIs(rs, g)
    ensures Keeps(t, rec, UnpackOthers(t, rec, rs), g)
    decreases |rs|
  {
    if rs != [] {
      var r, mid := rs[|rs| - 1], UnpackOthers(t, rec, rs[..|rs| - 1]);
      UnpackOthersKeeps(t, rec, rs[..|rs| - 1], g);
      if !Skipped(t, mid, r.field) {
        SetKeeps(t, mid, r.field, WrapAdd(Word(mid, r.field), Word(mid, r.base), r.field.width), g);
      }
    }
  }

  ghost predicate ChainedAll(rs: seq<Relative>) {
    forall i, j {:trigger ChainedPair(rs, i, j)} :: 0 <= i < j < |rs| ==> ChainedPair(rs, i, j)
  }

  ghost predicate ChainedPair(rs: seq<Relative>, i: nat, j: nat)
    requires i < |rs| && j < |rs|
  {
    rs[i].field != rs[j].field && rs[i].base != rs[j].field
  }

  /** The last one is none of those before, nor a base of one of them. */
  lemma ChainedLast(rs: seq<Relative>)
    requires rs != [] && ChainedAll(rs)
    ensures var n := |rs| - 1;
            ChainedAll(rs[..n]) && NoneIs(rs[..n], rs[n].field) && forall r | r in rs[..n] :: r.base != rs[n].field
  {
    var n := |rs| - 1;
    forall i, j | 0 <= i < j < n
      ensures ChainedPair(rs[..n], i, j)
    {
      assert ChainedPair(rs, i, j);
    }
    forall r | r in rs[..n]
      ensures r.field != rs[n].field && r.base != rs[n].field
    {
      var i :| 0 <= i < n && rs[i] == r;
      assert ChainedPair(rs, i, n);
    }
  }

  /** Each field is stored as its difference to the plain word of its base. */
  lemma {:induction false} PackOthersStores(t: RecordType, rec: Record, rs: seq<Relative>, r: Relative)
    requires Separated(t, rec) && (forall q | q in rs :: q in t.others) && ChainedAll(rs) && r in rs
    ensures t.FieldFits(r.field) && t.FieldFits(r.base)
    ensures Stores(t, rec, PackOthers(t, rec, rs), r.field, WrapSub(Word(rec, r.field), Word(rec, r.base), r.field.width))
    decreases |rs|
  {
    var n := |rs| - 1;
    var last := rs[n];
    var next := PackOther(t, rec, last);
    ChainedLast(rs);
    assert rs == rs[..n] + [last];
    assert t.FieldFits(r.field) && t.FieldFits(r.base);
    var v, p := WrapSub(Word(rec, r.field), Word(rec, r.base), r.field.width), PackOthers(t, next, rs[..n]);
    assert PackOthers(t, rec, rs) == p;
    if r == last {
      PackOtherStores(t, rec, r);
      PackOthersKeeps(t, next, rs[..n], r.field);
      StoresKeeps(t, rec, next, p, r.field, v);
    } else {
      PackOtherKeeps(t, rec, last, r.field);
      PackOtherKeeps(t, rec, last, r.base);
      PackOthersStores(t, next, rs[..n], r);
      KeepsStores(t, rec, next, p, r.field, v);
    }
  }

  lemma PackOtherKeeps(t: RecordType, rec: Record, r: Relative, g: Field)
    requires Separated(t, rec) && r in t.others && g in t.fields && g != r.field
    ensures Keeps(t, rec, PackOther(t, rec, r), g)
  {
    if !Skipped(t, rec, r.field) {
      SetKeeps(t, rec, r.field, WrapSub(Word(rec, r.field), Word(rec, r.base), r.field.width), g);
    }
  }

  lemma UnpackOtherKeeps(t: RecordType, rec: Record, r: Relative, g: Field)
    requires Separated(t, rec) && r in t.others && g in t.fields && g != r.field
    ensures Keeps(t, rec, UnpackOther(t, rec, r), g)
  {
    if !Skipped(t, rec, r.field) {
      SetKeeps(t, rec, r.field, WrapAdd(Word(rec, r.field), Word(rec, r.base), r.field.width), g);
    }
  }

  /** Each field is read as the stored word and the word that its base is read as. */
  lemma {:induction false} UnpackOthersStores(t: RecordType, rec: Record, rs: seq<Relative>, r: Relative)
    requires Separated(t, rec) && (forall q | q in rs :: q in t.others) && ChainedAll(rs) && r in rs
    ensures t.FieldFits(r.field) && t.FieldFits(r.base)
    ensures var u := UnpackOthers(t, rec, rs);
            Stores(t, rec, u, r.field, WrapAdd(Word(rec, r.field), Word(u, r.base), r.field.width))
    decreases |rs|
  {
    var n := |rs| - 1;
    var last := rs[n];
    var mid := UnpackOthers(t, rec, rs[..n]);
    ChainedLast(rs);
    assert rs == rs[..n] + [last];
    assert t.FieldFits(r.field) && t.FieldFits(r.base);
    var u := UnpackOther(t, mid, last);
    assert UnpackOthers(t, rec, rs) == u;
    var v := WrapAdd(Word(rec, r.field), Word(u, r.base), r.field.width);
    if r == last {
      UnpackOthersKeeps(t, rec, rs[..n], r.field);
      UnpackOtherStores(t, mid, r);
      assert r.base != r.field;
      UnpackOtherKeeps(t, mid, r, r.base);
      KeepsStores(t, rec, mid, u, r.field, v);
    } else {
      UnpackOthersStores(t, rec, rs[..n], r);
      UnpackOtherKeeps(t, mid, last, r.field);
      UnpackOtherKeeps(t, mid, last, r.base);
      StoresKeeps(t, rec, mid, u, r.field, v);
    }
  }

  // ---------- the fields of one record that are relative to themselves ----------

  ghost predicate NoneRuns(psr: seq<Running>, g: Field) {
    forall p | p in psr :: p.field != g
  }

  lemma PackSelfKeeps(t: RecordType, rec: Record, p: Running, g: Field)
    requires Separated(t, rec) && p.Ok(t) && g in t.fields && g != p.field
    ensures Keeps(t, rec, PackSelf(t, rec, p).rec, g)
  {
    if !Skipped(t, rec, p.field) {
      SetKeeps(t, rec, p.field, WrapSub(Word(rec, p.field), p.prev, p.field.width), g);
    }
  }

  lemma UnpackSelfKeeps(t: RecordType, rec: Record, p: Running, g: Field)
    requires Separated(t, rec) && p.Ok(t) && g in t.fields && g != p.field
    ensures Keeps(t, rec, UnpackSelf(t, rec, p).rec, g)
  {
    if !Skipped(t, rec, p.field) {
      SetKeeps(t, rec, p.field, WrapAdd(Word(rec, p.field), p.prev, p.field.width), g);
    }
  }

  lemma {:induction false} PackSelfsKeeps(t: RecordType, rec: Record, psr: seq<Running>, g: Field)
    requires Separated(t, rec) && AllOk(t, psr) && g in t.fields && NoneRuns(psr, g)
    ensures Keeps(t, rec, PackSelfs(t, rec, psr).rec, g)
    decreases |psr|
  {
    if psr != [] {
      PackSelfKeeps(t, rec, psr[0], g);
      PackSelfsKeeps(t, PackSelf(t, rec, psr[0]).rec, psr[1..], g);
    }
  }

  lemma {:induction false} UnpackSelfsKeeps(t: RecordType, rec: Record, psr: seq<Running>, g: Field)
    requires Separated(t, rec) && AllOk(t, psr) && g in t.fields && NoneRuns(psr, g)
    ensures Keeps(t, rec, UnpackSelfs(t, rec, psr).rec, g)
    decreases |psr|
  {
    if psr != [] {
      UnpackSelfKeeps(t, rec, psr[0], g);
      UnpackSelfsKeeps(t, UnpackSelf(t, rec, psr[0]).rec, psr[1..], g);
    }
  }

  /** Each field is stored as its difference to the running value, which moves on to the plain word. */
  lemma {:induction false} PackSelfsStores(t: RecordType, rec: Record, psr: seq<Running>, i: nat)
    requires Separated(t, rec) && AllOk(t, psr) && DistinctFields(psr) && i < |psr|
    ensures psr[i] in psr && t.FieldFits(psr[i].field)
    ensures var r, f := PackSelfs(t, rec, psr), psr[i].field;
            && Stores(t, rec, r.rec, f, WrapSub(Word(rec, f), psr[i].prev, f.width))
            && r.psr[i].prev == if Skipped(t, rec, f) then psr[i].prev else Word(rec, f)
    decreases |psr|
  {
    assert psr[i] in psr && t.FieldFits(psr[i].field);
    var f, first := psr[i].field, PackSelf(t, rec, psr[0]);
    var rest, v := PackSelfs(t, first.rec, psr[1..]), WrapSub(Word(rec, f), psr[i].prev, f.width);
    assert PackSelfs(t, rec, psr) == SelfResult(rest.rec, [first.now] + rest.psr);
    DistinctTail(psr);
    if i == 0 {
      PackSelfStores(t, rec, psr[0]);
      PackSelfsKeeps(t, first.rec, psr[1..], f);
      StoresKeeps(t, rec, first.rec, rest.rec, f, v);
    } else {
      assert psr[1..][i - 1] == psr[i] && psr[i] in psr[1..];
      PackSelfKeeps(t, rec, psr[0], f);
      PackSelfsStores(t, first.rec, psr[1..], i - 1);
      KeepsStores(t, rec, first.rec, rest.rec, f, v);
    }
  }

  lemma {:induction false} UnpackSelfsStores(t: RecordType, rec: Record, psr: seq<Running>, i: nat)
    requires Separated(t, rec) && AllOk(t, psr) && DistinctFields(psr) && i < |psr|
    ensures psr[i] in psr && t.FieldFits(psr[i].field)
    ensures var r, f := UnpackSelfs(t, rec, psr), psr[i].field;
            && Stores(t, rec, r.rec, f, WrapAdd(Word(rec, f), psr[i].prev, f.width))
            && r.psr[i].prev == if Skipped(t, rec, f) then psr[i].prev else Word(r.rec, f)
    decreases |psr|
  {
    assert psr[i] in psr && t.FieldFits(psr[i].field);
    var f, first := psr[i].field, UnpackSelf(t, rec, psr[0]);
    var rest, v := UnpackSelfs(t, first.rec, psr[1..]), WrapAdd(Word(rec, f), psr[i].prev, f.width);
    assert UnpackSelfs(t, rec, psr) == SelfResult(rest.rec, [first.now] + rest.psr);
    DistinctTail(psr);
    if i == 0 {
      UnpackSelfStores(t, rec, psr[0]);
      UnpackSelfsKeeps(t, first.rec, psr[1..], f);
      StoresKeeps(t, rec, first.rec, rest.rec, f, v);
    } else {
      assert psr[1..][i - 1] == psr[i] && psr[i] in psr[1..];
      UnpackSelfKeeps(t, rec, psr[0], f);
      UnpackSelfsStores(t, first.rec, psr[1..], i - 1);
      KeepsStores(t, rec, first.rec, rest.rec, f, v);
    }
  }

  // ---------- one record ----------

  ghost predicate Packs(t: RecordType) {
    t.Shaped() && t.Separate() && t.Options() && t.OneWay()
  }

  ghost predicate Runs(t: RecordType, psr: seq<Running>) {
    AllOk(t, psr) && DistinctFields(psr) && forall p | p in psr :: p.field in t.selfs
  }

  lemma OthersChained(t: RecordType)
    requires Packs(t)
    ensures ChainedAll(t.others)
  {
    forall i, j | 0 <= i < j < |t.others|
      ensures ChainedPair(t.others, i, j)
    {
      assert t.Chained(i, j);
    }
  }

  lemma PackRecordSelf(t: RecordType, rec: Record, psr: seq<Running>, i: nat)
    requires Packs(t) && Ready(t, rec) && Runs(t, psr) && i < |psr|
    ensures psr[i] in psr && t.FieldFits(psr[i].field)
    ensures var r, f := PackRecord(t, rec, psr), psr[i].field;
            && Stores(t, rec, r.rec, f, WrapSub(Word(rec, f), psr[i].prev, f.width))
            && r.psr[i].prev == if Skipped(t, rec, f) then psr[i].prev else Word(rec, f)
  {
    assert psr[i] in psr && t.FieldFits(psr[i].field);
    var f, mid := psr[i].field, PackOthers(t, rec, t.others);
    PackOthersKeeps(t, rec, t.others, f);
    PackSelfsStores(t, mid, psr, i);
    KeepsStores(t, rec, mid, PackRecord(t, rec, psr).rec, f, WrapSub(Word(rec, f), psr[i].prev, f.width));
  }

  lemma PackRecordOther(t: RecordType, rec: Record, psr: seq<Running>, r: Relative)
    requires Packs(t) && Ready(t, rec) && Runs(t, psr) && r in t.others
    ensures t.FieldFits(r.field) && t.FieldFits(r.base)
    ensures Stores(t, rec, PackRecord(t, rec, psr).rec, r.field, WrapSub(Word(rec, r.field), Word(rec, r.base), r.field.width))
  {
    var mid := PackOthers(t, rec, t.others);
    OthersChained(t);
    PackOthersStores(t, rec, t.others, r);
    PackSelfsKeeps(t, mid, psr, r.field);
    StoresKeeps(t, rec, mid, PackRecord(t, rec, psr).rec, r.field,
                WrapSub(Word(rec, r.field), Word(rec, r.base), r.field.width));
  }

  lemma UnpackRecordSelf(t: RecordType, rec: Record, psr: seq<Running>, i: nat)
    requires Packs(t) && Ready(t, rec) && Runs(t, psr) && i < |psr|
    ensures psr[i] in psr && t.FieldFits(psr[i].field)
    ensures var r, f := UnpackRecord(t, rec, psr), psr[i].field;
            && Stores(t, rec, r.rec, f, WrapAdd(Word(rec, f), psr[i].prev, f.width))
            && r.psr[i].prev == if Skipped(t, r.rec, f) then psr[i].prev else Word(r.rec, f)
  {
    assert psr[i] in psr && t.FieldFits(psr[i].field);
    var f, mid := psr[i].field, UnpackSelfs(t, rec, psr).rec;
    UnpackSelfsStores(t, rec, psr, i);
    UnpackOthersKeeps(t, mid, t.others, f);
    StoresKeeps(t, rec, mid, UnpackRecord(t, rec, psr).rec, f, WrapAdd(Word(rec, f), psr[i].prev, f.width));
  }

  lemma UnpackRecordOther(t: RecordType, rec: Record, psr: seq<Running>, r: Relative)
    requires Packs(t) && Ready(t, rec) && Runs(t, psr) && r in t.others
    ensures t.FieldFits(r.field) && t.FieldFits(r.base)
    ensures var u := UnpackRecord(t, rec, psr).rec;
            Stores(t, rec, u, r.field, WrapAdd(Word(rec, r.field), Word(u, r.base), r.field.width))
  {
    var mid, u := UnpackSelfs(t, rec, psr).rec, UnpackRecord(t, rec, psr).rec;
    OthersChained(t);
    UnpackSelfsKeeps(t, rec, psr, r.field);
    UnpackOthersStores(t, mid, t.others, r);
    KeepsStores(t, rec, mid, u, r.field, WrapAdd(Word(rec, r.field), Word(u, r.base), r.field.width));
  }

  // ---------- any number of records ----------

  lemma {:induction false} BeforeShift(t: RecordType, recs: seq<Record>, k: nat, f: Field, start: nat)
    requires AllReady(t, recs) && 0 < k <= |recs| && f in t.fields
    ensures Before(t, recs[1..], k - 1, f, Before(t, recs, 1, f, start)) == Before(t, recs, k, f, start)
    decreases k
  {
    if k > 1 {
      BeforeShift(t, recs, k - 1, f, start);
      assert recs[1..][k - 2] == recs[k - 1];
    }
  }

  lemma RunsKept(t: RecordType, psr: seq<Running>, next: seq<Running>)
    requires Runs(t, psr) && AllOk(t, next) && |next| == |psr|
    requires forall i :: 0 <= i < |psr| ==> next[i].field == psr[i].field
    ensures Runs(t, next)
  {
    forall p | p in next
      ensures p.field in t.selfs
    {
      var i :| 0 <= i < |next| && next[i] == p;
      assert psr[i] in psr;
    }
    DistinctKept(psr, next);
  }

  lemma StartRuns(t: RecordType)
    requires Packs(t)
    ensures Runs(t, Start(t.selfs))
  {
  }

  lemma BeforeFirst(t: RecordType, recs: seq<Record>, f: Field, start: nat)
    requires AllReady(t, recs) && recs != [] && f in t.fields
    ensures t.FieldFits(f)
    ensures Before(t, recs, 1, f, start) == if Skipped(t, recs[0], f) then start else Word(recs[0], f)
  {
    assert Before(t, recs, 0, f, start) == start;
  }

  lemma PackedTail(t: RecordType, recs: seq<Record>, psr: seq<Running>, k: nat)
    requires AllReady(t, recs) && AllOk(t, psr) && 0 < k < |recs|
    ensures AllReady(t, recs[1..]) && recs[1..][k - 1] == recs[k]
    ensures PackRecords(t, recs[1..], PackRecord(t, recs[0], psr).psr)[k - 1] == PackRecords(t, recs, psr)[k]
  {
  }

  lemma UnpackedTail(t: RecordType, recs: seq<Record>, psr: seq<Running>, k: nat)
    requires AllReady(t, recs) && AllOk(t, psr) && 0 < k < |recs|
    ensures AllReady(t, recs[1..]) && recs[1..][k - 1] == recs[k]
    ensures var u := UnpackRecords(t, recs, psr);
            u[1..] == UnpackRecords(t, recs[1..], UnpackRecord(t, recs[0], psr).psr) && u[1..][k - 1] == u[k]
  {
  }

  lemma PackedBefore(t: RecordType, recs: seq<Record>, psr: seq<Running>, k: nat, i: nat)
    requires Packs(t) && AllReady(t, recs) && Runs(t, psr) && 0 < k < |recs| && i < |psr|
    ensures psr[i] in psr && AllReady(t, recs[1..])
    ensures Before(t, recs[1..], k - 1, psr[i].field, PackRecord(t, recs[0], psr).psr[i].prev)
         == Before(t, recs, k, psr[i].field, psr[i].prev)
  {
    PackRecordSelf(t, recs[0], psr, i);
    BeforeFirst(t, recs, psr[i].field, psr[i].prev);
    BeforeShift(t, recs, k, psr[i].field, psr[i].prev);
  }

  lemma UnpackedBefore(t: RecordType, recs: seq<Record>, psr: seq<Running>, k: nat, i: nat)
    requires Packs(t) && AllReady(t, recs) && Runs(t, psr) && 0 < k < |recs| && i < |psr|
    ensures psr[i] in psr && AllReady(t, UnpackRecords(t, recs, psr)[1..])
    ensures var u := UnpackRecords(t, recs, psr);
            Before(t, u[1..], k - 1, psr[i].field, UnpackRecord(t, recs[0], psr).psr[i].prev)
            == Before(t, u, k, psr[i].field, psr[i].prev)
  {
    var u := UnpackRecords(t, recs, psr);
    UnpackRecordSelf(t, recs[0], psr, i);
    assert u[0] == UnpackRecord(t, recs[0], psr).rec;
    BeforeFirst(t, u, psr[i].field, psr[i].prev);
    BeforeShift(t, u, k, psr[i].field, psr[i].prev);
  }

  /** Record k is packed from the running values that the plain records before it leave. */
  lemma {:induction false} PackedFrom(t: RecordType, recs: seq<Record>, psr: seq<Running>, k: nat, i: nat)
    returns (now: seq<Running>)
    requires Packs(t) && AllReady(t, recs) && Runs(t, psr) && k < |recs|
    ensures Runs(t, now) && |now| == |psr| && PackRecords(t, recs, psr)[k] == PackRecord(t, recs[k], now).rec
    ensures i < |psr| ==> psr[i] in psr && now[i].field == psr[i].field
                          && now[i].prev == Before(t, recs, k, psr[i].field, psr[i].prev)
    decreases k
  {
    now := psr;
    if k > 0 {
      var next := PackRecord(t, recs[0], psr).psr;
      RunsKept(t, psr, next);
      PackedTail(t, recs, psr, k);
      now := PackedFrom(t, recs[1..], next, k - 1, i);
      if i < |psr| {
        PackedBefore(t, recs, psr, k, i);
      }
    }
  }

  /** And it is unpacked from those that the unpacked records before it leave. */
  lemma {:induction false} UnpackedFrom(t: RecordType, recs: seq<Record>, psr: seq<Running>, k: nat, i: nat)
    returns (now: seq<Running>)
    requires Packs(t) && AllReady(t, recs) && Runs(t, psr) && k < |recs|
    ensures Runs(t, now) && |now| == |psr| && UnpackRecords(t, recs, psr)[k] == UnpackRecord(t, recs[k], now).rec
    ensures i < |psr| ==> psr[i] in psr && now[i].field == psr[i].field
                          && now[i].prev == Before(t, UnpackRecords(t, recs, psr), k, psr[i].field, psr[i].prev)
    decreases k
  {
    now := psr;
    if k > 0 {
      var next := UnpackRecord(t, recs[0], psr).psr;
      RunsKept(t, psr, next);
      UnpackedTail(t, recs, psr, k);
      now := UnpackedFrom(t, recs[1..], next, k - 1, i);
      if i < |psr| {
        UnpackedBefore(t, recs, psr, k, i);
      }
    }
  }

  // ---------- the stored words ----------

  lemma StoresDifference(t: RecordType, rec: Record, rec': Record, g: Field, a: nat, b: nat)
    requires Ready(t, rec) && g in t.fields && a < Pow256(g.width) && b < Pow256(g.width)
    requires Stores(t, rec, rec', g, WrapSub(a, b, g.width))
    ensures t.FieldFits(g)
    ensures if Skipped(t, rec, g) then Word(rec', g) == Word(rec, g) else IsDifference(Word(rec', g), a, b, g.width)
  {
    WrapIsMod(a, b, g.width);
  }

  lemma StoresSum(t: RecordType, rec: Record, rec': Record, g: Field, a: nat, b: nat)
    requires Ready(t, rec) && g in t.fields && a < Pow256(g.width) && b < Pow256(g.width)
    requires Stores(t, rec, rec', g, WrapAdd(a, b, g.width))
    ensures t.FieldFits(g)
    ensures if Skipped(t, rec, g) then Word(rec', g) == Word(rec, g) else IsSum(Word(rec', g), a, b, g.width)
  {
    WrapIsMod(a, b, g.width);
  }

  /** A field packed relative to itself is stored as its difference to the latest record before that does not skip it, 0
      without one, modulo its width. */
  lemma PackedSelfWord(t: RecordType, recs: seq<Record>, k: nat, f: Field)
    requires Packs(t) && AllReady(t, recs) && k < |recs| && f in t.selfs
    ensures AllOk(t, Start(t.selfs)) && t.FieldFits(f)
    ensures var packed := PackRecords(t, recs, Start(t.selfs));
            && (t.nullCompact ==> (IsNull(packed[k], f) <==> IsNull(recs[k], f)))
            && if t.nullCompact && IsNull(recs[k], f) then Word(packed[k], f) == Word(recs[k], f)
               else IsDifference(Word(packed[k], f), Word(recs[k], f), Before(t, recs, k, f, 0), f.width)
  {
    StartRuns(t);
    var i :| 0 <= i < |t.selfs| && t.selfs[i] == f;
    var now := PackedFrom(t, recs, Start(t.selfs), k, i);
    PackRecordSelf(t, recs[k], now, i);
    StoresDifference(t, recs[k], PackRecords(t, recs, Start(t.selfs))[k], f, Word(recs[k], f), Before(t, recs, k, f, 0));
  }

  /** A field packed relative to another is stored as its difference to the plain word of that field, modulo its width. */
  lemma PackedOtherWord(t: RecordType, recs: seq<Record>, k: nat, r: Relative)
    requires Packs(t) && AllReady(t, recs) && k < |recs| && r in t.others
    ensures AllOk(t, Start(t.selfs)) && t.FieldFits(r.field) && t.FieldFits(r.base)
    ensures var packed := PackRecords(t, recs, Start(t.selfs));
            && (t.nullCompact ==> (IsNull(packed[k], r.field) <==> IsNull(recs[k], r.field)))
            && if t.nullCompact && IsNull(recs[k], r.field) then Word(packed[k], r.field) == Word(recs[k], r.field)
               else IsDifference(Word(packed[k], r.field), Word(recs[k], r.field), Word(recs[k], r.base), r.field.width)
  {
    StartRuns(t);
    var now := PackedFrom(t, recs, Start(t.selfs), k, 0);
    PackRecordOther(t, recs[k], now, r);
    StoresDifference(t, recs[k], PackRecords(t, recs, Start(t.selfs))[k], r.field,
                     Word(recs[k], r.field), Word(recs[k], r.base));
  }

  /** Reading: the stored word is added to the word unpacked from the latest record before that does not skip the field. */
  lemma UnpackedSelfWord(t: RecordType, recs: seq<Record>, k: nat, f: Field)
    requires Packs(t) && AllReady(t, recs) && k < |recs| && f in t.selfs
    ensures AllOk(t, Start(t.selfs)) && t.FieldFits(f)
    ensures var u := UnpackRecords(t, recs, Start(t.selfs));
            && (t.nullCompact ==> (IsNull(u[k], f) <==> IsNull(recs[k], f)))
            && if t.nullCompact && IsNull(recs[k], f) then Word(u[k], f) == Word(recs[k], f)
               else IsSum(Word(u[k], f), Word(recs[k], f), Before(t, u, k, f, 0), f.width)
  {
    StartRuns(t);
    var i :| 0 <= i < |t.selfs| && t.selfs[i] == f;
    var now := UnpackedFrom(t, recs, Start(t.selfs), k, i);
    UnpackRecordSelf(t, recs[k], now, i);
    var u := UnpackRecords(t, recs, Start(t.selfs));
    StoresSum(t, recs[k], u[k], f, Word(recs[k], f), Before(t, u, k, f, 0));
  }

  /** And to the unpacked word of the base, which may be relative itself. */
  lemma UnpackedOtherWord(t: RecordType, recs: seq<Record>, k: nat, r: Relative)
    requires Packs(t) && AllReady(t, recs) && k < |recs| && r in t.others
    ensures AllOk(t, Start(t.selfs)) && t.FieldFits(r.field) && t.FieldFits(r.base)
    ensures var u := UnpackRecords(t, recs, Start(t.selfs));
            && (t.nullCompact ==> (IsNull(u[k], r.field) <==> IsNull(recs[k], r.field)))
            && if t.nullCompact && IsNull(recs[k], r.field) then Word(u[k], r.field) == Word(recs[k], r.field)
               else IsSum(Word(u[k], r.field), Word(recs[k], r.field), Word(u[k], r.base), r.field.width)
  {
    StartRuns(t);
    var now := UnpackedFrom(t, recs, Start(t.selfs), k, 0);
    UnpackRecordOther(t, recs[k], now, r);
    var u := UnpackRecords(t, recs, Start(t.selfs));
    StoresSum(t, recs[k], u[k], r.field, Word(recs[k], r.field), Word(u[k], r.base));
  }
}
