/** The string pool of variable32 fields: how an entry is stored, when an offset is sound, how a column is written,
    and how packing copies and de-duplicates the strings. */
module StringPool {
  import opened Bytes

  const MAX_INT32 := 0x8000_0000

  /** roundupSize: the stored length of a string, such that header and string together fill whole 8-byte units. */
  function RoundUp(size: nat): (r: nat)
    ensures size <= r < size + 8
    ensures (r + 4) % 8 == 0
  {
    if size % 8 <= 4 then size + 4 - size % 8 else size + 12 - size % 8
  }

  /** The source writes the same sum with a second remainder. */
  lemma RoundUpAsComputed(size: nat)
    ensures RoundUp(size) == size + (12 - size % 8) % 8
  {
    if size % 8 <= 4 {
      assert 12 - size % 8 == 8 + (4 - size % 8);
    }
  }

  /** The bytes of one entry: its length, its text, and zero padding. */
  function Entry(s: seq<u8>): (e: seq<u8>)
    ensures |e| == 4 + RoundUp(|s|)
    ensures |e| % 8 == 0
  {
    Enc(|s|, 4) + s + Zeros(RoundUp(|s|) - |s|)
  }

  function SizeAt(pool: seq<u8>, off: nat): nat
    requires off + 4 <= |pool|
  {
    Dec(Get(pool, off, 4))
  }

  /** Variable32Field::selfcheck, on the offset read as an unsigned word. */
  predicate SelfCheck(pool: seq<u8>, off: nat) {
    && off < MAX_INT32 && off + 4 <= |pool|
    && (if off == 0 then SizeAt(pool, 0) == 0
        else
          && (off + 4) % 8 == 0
          && SizeAt(pool, off) < MAX_INT32
          && off + 4 + RoundUp(SizeAt(pool, off)) <= |pool|
          && AllZero(pool, off + 4 + SizeAt(pool, off), off + 4 + RoundUp(SizeAt(pool, off))))
  }

  function StringAt(pool: seq<u8>, off: nat): (s: seq<u8>)
    requires SelfCheck(pool, off)
    ensures |s| == SizeAt(pool, off)
  {
    pool[off + 4..off + 4 + SizeAt(pool, off)]
  }

  /** A checked entry is exactly the encoding of its string. */
  lemma EntryAt(pool: seq<u8>, off: nat)
    requires SelfCheck(pool, off) && off != 0
    ensures Get(pool, off, 4 + RoundUp(SizeAt(pool, off))) == Entry(StringAt(pool, off))
  {
    var n := SizeAt(pool, off);
    EncDec(Get(pool, off, 4));
    ZeroSlice(pool, off + 4 + n, off + 4 + RoundUp(n));
    SliceJoin(pool, off, off + 4, off + 4 + n);
    SliceJoin(pool, off, off + 4 + n, off + 4 + RoundUp(n));
  }

  /** Conversely, an encoding that stands at an offset of the right alignment passes the check and reads back. */
  lemma AtEntry(pool: seq<u8>, off: nat, s: seq<u8>)
    requires off != 0 && (off + 4) % 8 == 0 && off < MAX_INT32 && |s| < MAX_INT32
    requires off + 4 + RoundUp(|s|) <= |pool|
    requires Get(pool, off, 4 + RoundUp(|s|)) == Entry(s)
    ensures SelfCheck(pool, off) && StringAt(pool, off) == s
  {
    Pow256Values();
    EntrySlices(pool, off, s);
    DecEnc(|s|, 4);
  }

  lemma {:induction false} EntrySlices(pool: seq<u8>, off: nat, s: seq<u8>)
    requires off + 4 + RoundUp(|s|) <= |pool|
    requires Get(pool, off, 4 + RoundUp(|s|)) == Entry(s)
    ensures Get(pool, off, 4) == Enc(|s|, 4) && pool[off + 4..off + 4 + |s|] == s
    ensures AllZero(pool, off + 4 + |s|, off + 4 + RoundUp(|s|))
  {
    var n, r, e := |s|, RoundUp(|s|), Entry(s);
    EntryParts(s);
    assert pool[off..off + 4 + r] == e;
    SliceSlice(pool, off, off + 4 + r, 0, 4);
    SliceSlice(pool, off, off + 4 + r, 4, 4 + n);
    SliceSlice(pool, off, off + 4 + r, 4 + n, 4 + r);
    assert pool[off + 4 + n..off + 4 + r] == Zeros(r - n);
    ZeroSlice(pool, off + 4 + n, off + 4 + r);
  }

  lemma {:induction false} EntryParts(s: seq<u8>)
    ensures Entry(s)[0..4] == Enc(|s|, 4)
    ensures Entry(s)[4..4 + |s|] == s
    ensures Entry(s)[4 + |s|..4 + RoundUp(|s|)] == Zeros(RoundUp(|s|) - |s|)
  {
    ThreeSlices(Enc(|s|, 4), s, Zeros(RoundUp(|s|) - |s|));
  }

  lemma ThreeSlices(a: seq<u8>, b: seq<u8>, c: seq<u8>)
    ensures (a + b + c)[0..|a|] == a
    ensures (a + b + c)[|a|..|a| + |b|] == b
    ensures (a + b + c)[|a| + |b|..|a| + |b| + |c|] == c
  {
  }

  /** An offset keeps its string when the pool grows at the end. */
  lemma SelfCheckGrows(pool: seq<u8>, more: seq<u8>, off: nat)
    requires SelfCheck(pool, off)
    ensures SelfCheck(pool + more, off) && StringAt(pool + more, off) == StringAt(pool, off)
  {
    var q := pool + more;
    assert Get(q, off, 4) == Get(pool, off, 4);
    if off != 0 {
      var n := SizeAt(pool, off);
      assert q[off + 4..off + 4 + n] == pool[off + 4..off + 4 + n];
      assert AllZero(q, off + 4 + n, off + 4 + RoundUp(n));
    }
  }

  // ---------- pools built by writing fields ----------

  /** Where the entry at an offset ends. */
  function Next(pool: seq<u8>, at: nat): (r: nat)
    requires at + 4 <= |pool|
    ensures r > at
  {
    at + 4 + RoundUp(SizeAt(pool, at))
  }

  /** The pool holds the non-empty string s at a sound offset. */
  ghost predicate Holds(pool: seq<u8>, off: nat, s: seq<u8>) {
    SelfCheck(pool, off) && off != 0 && s != [] && StringAt(pool, off) == s
  }

  lemma HoldsGrows(p: seq<u8>, q: seq<u8>, off: nat, s: seq<u8>)
    requires Holds(p, off, s) && p <= q
    ensures Holds(q, off, s)
  {
    SelfCheckGrows(p, q[|p|..], off);
    assert q == p + q[|p|..];
  }

  lemma AppendHolds(pool: seq<u8>, s: seq<u8>)
    requires pool != [] && (|pool| + 4) % 8 == 0
    requires s != [] && |pool + Entry(s)| < MAX_INT32
    ensures Holds(pool + Entry(s), |pool|, s)
    ensures Next(pool + Entry(s), |pool|) == |pool + Entry(s)|
  {
    assert Get(pool + Entry(s), |pool|, |Entry(s)|) == Entry(s);
    AtEntry(pool + Entry(s), |pool|, s);
  }

  ghost predicate EntryHere(pool: seq<u8>, at: nat) {
    SelfCheck(pool, at) && at != 0 && SizeAt(pool, at) > 0
  }

  lemma EntryGrows(pool: seq<u8>, more: seq<u8>, at: nat)
    requires EntryHere(pool, at)
    ensures EntryHere(pool + more, at) && Next(pool + more, at) == Next(pool, at) <= |pool|
  {
    SelfCheckGrows(pool, more, at);
    assert Get(pool + more, at, 4) == Get(pool, at, 4);
  }

  /** From at on, the pool is a run of entries of non-empty strings. */
  ghost predicate Chain(pool: seq<u8>, at: nat)
    decreases |pool| - at
  {
    at == |pool| || (EntryHere(pool, at) && Chain(pool, Next(pool, at)))
  }

  ghost predicate StartsAt(pool: seq<u8>, at: nat, off: nat)
    requires Chain(pool, at)
    decreases |pool| - at
  {
    at < |pool| && (off == at || StartsAt(pool, Next(pool, at), off))
  }

  /** A pool as the field accessors build it: four zero bytes, then a run of entries. */
  ghost predicate WellBuilt(pool: seq<u8>) {
    4 <= |pool| < MAX_INT32 && SizeAt(pool, 0) == 0 && Chain(pool, 4)
  }

  /** Offset 0, or the start of an entry. */
  ghost predicate Sound(pool: seq<u8>, off: nat)
    requires WellBuilt(pool)
  {
    off == 0 || StartsAt(pool, 4, off)
  }

  lemma {:induction false} ChainBounds(pool: seq<u8>, at: nat)
    requires Chain(pool, at)
    ensures at <= |pool|
    ensures (at + 4) % 8 == 0 ==> (|pool| + 4) % 8 == 0
    decreases |pool| - at
  {
    if at != |pool| {
      ChainBounds(pool, Next(pool, at));
    }
  }

  lemma {:induction false} StartsHere(pool: seq<u8>, at: nat, off: nat)
    requires Chain(pool, at) && StartsAt(pool, at, off)
    ensures at <= off && EntryHere(pool, off)
    decreases |pool| - at
  {
    if off != at {
      StartsHere(pool, Next(pool, at), off);
    }
  }

  lemma SoundChecked(pool: seq<u8>, off: nat)
    requires WellBuilt(pool) && Sound(pool, off)
    ensures SelfCheck(pool, off)
    ensures StringAt(pool, off) == [] <==> off == 0
  {
    if off != 0 {
      StartsHere(pool, 4, off);
    }
  }

  /** Appending an entry keeps the run and adds one start. */
  lemma {:induction false} ChainAppend(pool: seq<u8>, at: nat, s: seq<u8>)
    requires Chain(pool, at) && at != 0 && (at + 4) % 8 == 0
    requires s != [] && |pool + Entry(s)| < MAX_INT32
    ensures Chain(pool + Entry(s), at) && StartsAt(pool + Entry(s), at, |pool|)
    decreases |pool| - at
  {
    if at == |pool| {
      AppendHolds(pool, s);
    } else {
      EntryGrows(pool, Entry(s), at);
      ChainAppend(pool, Next(pool, at), s);
      ChainBounds(pool, Next(pool, at));
    }
  }

  lemma {:induction false} StartsAppend(pool: seq<u8>, at: nat, s: seq<u8>, off: nat)
    requires Chain(pool, at) && StartsAt(pool, at, off) && Chain(pool + Entry(s), at)
    ensures StartsAt(pool + Entry(s), at, off)
    decreases |pool| - at
  {
    EntryGrows(pool, Entry(s), at);
    if off != at {
      StartsAppend(pool, Next(pool, at), s, off);
    }
  }

  // ---------- packing: copying and de-duplicating ----------

  /** The packed pool so far, and where each string of the unique columns was put. */
  datatype Packed = Packed(bytes: seq<u8>, table: map<seq<u8>, nat>)
  {
    ghost predicate Valid() {
      && |bytes| >= 4 && (|bytes| + 4) % 8 == 0 && SizeAt(bytes, 0) == 0
      && Chain(bytes, 4)
      && TableHolds(bytes, table)
    }
  }

  /** Every string of the table stands in the pool where the table says. */
  ghost predicate TableHolds(pool: seq<u8>, table: map<seq<u8>, nat>) {
    forall s | s in table :: Holds(pool, table[s], s)
  }

  lemma TableGrows(p: seq<u8>, q: seq<u8>, table: map<seq<u8>, nat>)
    requires TableHolds(p, table) && p <= q
    ensures TableHolds(q, table)
  {
    forall s | s in table
      ensures Holds(q, table[s], s)
    {
      HoldsGrows(p, q, table[s], s);
    }
  }

  const EMPTY := Packed([0, 0, 0, 0], map[])

  lemma EmptyValid()
    ensures EMPTY.Valid()
  {
    assert Get(EMPTY.bytes, 0, 4) == [0, 0, 0, 0];
    assert Dec([0, 0, 0, 0]) == 0 by {
      assert [0, 0, 0, 0][1..] == [0, 0, 0];
      assert [0, 0, 0][1..] == [0, 0];
      assert [0, 0][1..] == [0];
    }
  }

  /** Where a non-empty string goes, and the pool after it: re-use in a unique column, otherwise append. */
  function Place(st: Packed, s: seq<u8>, unique: bool): (r: (Packed, nat)) {
    if unique && s in st.table then (st, st.table[s])
    else (Packed(st.bytes + Entry(s), if unique then st.table[s := |st.bytes|] else st.table), |st.bytes|)
  }

  lemma AppendKeepsChain(pool: seq<u8>, s: seq<u8>)
    requires |pool| >= 4 && (|pool| + 4) % 8 == 0 && SizeAt(pool, 0) == 0 && Chain(pool, 4)
    requires s != [] && |pool + Entry(s)| < MAX_INT32
    ensures (|pool + Entry(s)| + 4) % 8 == 0
    ensures SizeAt(pool + Entry(s), 0) == 0 && Chain(pool + Entry(s), 4)
  {
    ChainAppend(pool, 4, s);
    ChainBounds(pool + Entry(s), 4);
    assert Get(pool + Entry(s), 0, 4) == Get(pool, 0, 4);
  }

  lemma AppendKeepsValid(st: Packed, s: seq<u8>)
    requires st.Valid() && s != []
    requires |st.bytes + Entry(s)| < MAX_INT32
    ensures Packed(st.bytes + Entry(s), st.table).Valid()
    ensures Packed(st.bytes + Entry(s), st.table[s := |st.bytes|]).Valid()
    ensures Holds(st.bytes + Entry(s), |st.bytes|, s)
  {
    AppendKeepsChain(st.bytes, s);
    AppendHolds(st.bytes, s);
    TableGrows(st.bytes, st.bytes + Entry(s), st.table);
  }

  /** Placing keeps the pool sound and everything already in it, and the string is at the returned offset. */
  lemma PlaceHolds(st: Packed, s: seq<u8>, unique: bool)
    requires st.Valid() && s != []
    requires |Place(st, s, unique).0.bytes| < MAX_INT32
    ensures var (st', off) := Place(st, s, unique);
            && st'.Valid() && st.bytes <= st'.bytes
            && Holds(st'.bytes, off, s) && (off + 4) % 8 == 0
            && (unique ==> s in st'.table && st'.table[s] == off)
  {
    if !(unique && s in st.table) {
      AppendKeepsValid(st, s);
    }
  }

  // ---------- how large the packed pool gets ----------

  /** The space that the entries starting at the given offsets take. */
  ghost function Space(pool: seq<u8>, at: nat, starts: set<nat>): (n: nat)
    requires Chain(pool, at)
    decreases |pool| - at
  {
    if at == |pool| then 0
    else
      (if at in starts then Next(pool, at) - at else 0) + Space(pool, Next(pool, at), starts)
  }

  lemma {:induction false} SpaceBounded(pool: seq<u8>, at: nat, starts: set<nat>)
    requires Chain(pool, at)
    ensures at <= |pool| && Space(pool, at, starts) <= |pool| - at
    decreases |pool| - at
  {
    if at != |pool| {
      SpaceBounded(pool, Next(pool, at), starts);
    }
  }

  lemma {:induction false} SpaceBelow(pool: seq<u8>, at: nat, starts: set<nat>, off: nat)
    requires Chain(pool, at) && off < at
    ensures Space(pool, at, starts + {off}) == Space(pool, at, starts)
    decreases |pool| - at
  {
    if at != |pool| {
      SpaceBelow(pool, Next(pool, at), starts, off);
    }
  }

  lemma {:induction false} SpaceAdds(pool: seq<u8>, at: nat, starts: set<nat>, off: nat)
    requires Chain(pool, at) && StartsAt(pool, at, off)
    requires off !in starts && off + 4 <= |pool|
    ensures Space(pool, at, starts + {off}) == Space(pool, at, starts) + Next(pool, off) - off
    decreases |pool| - at
  {
    if off == at {
      SpaceBelow(pool, Next(pool, at), starts, off);
    } else {
      SpaceAdds(pool, Next(pool, at), starts, off);
    }
  }

  /** One reference from a record into the source pool, in the order packing meets them. */
  datatype Ref = Ref(off: nat, unique: bool)

  /** The packed pool after a run of references. */
  ghost function PackRefs(pool: seq<u8>, refs: seq<Ref>, st: Packed): Packed
    requires WellBuilt(pool)
    requires forall r | r in refs :: r.off != 0 && Sound(pool, r.off)
  {
    if refs == [] then st
    else
      SoundChecked(pool, refs[0].off);
      PackRefs(pool, refs[1..], Place(st, StringAt(pool, refs[0].off), refs[0].unique).0)
  }

  lemma {:induction false} PackRefsAppend(pool: seq<u8>, a: seq<Ref>, b: seq<Ref>, st: Packed)
    requires WellBuilt(pool)
    requires forall r | r in a + b :: r.off != 0 && Sound(pool, r.off)
    ensures (forall r | r in a :: r in a + b) && (forall r | r in b :: r in a + b)
    ensures PackRefs(pool, a + b, st) == PackRefs(pool, b, PackRefs(pool, a, st))
  {
    assert forall r | r in a :: r in a + b;
    assert forall r | r in b :: r in a + b;
    if a == [] {
      assert a + b == b;
    } else {
      SoundChecked(pool, a[0].off);
      assert (a + b)[1..] == a[1..] + b;
      assert forall r | r in a[1..] + b :: r in a + b;
      PackRefsAppend(pool, a[1..], b, Place(st, StringAt(pool, a[0].off), a[0].unique).0);
    }
  }

  /** Storage is shared only between references of unique columns. */
  ghost predicate Unshared(refs: seq<Ref>) {
    forall i, j :: 0 <= i < j < |refs| && refs[i].off == refs[j].off ==> refs[i].unique && refs[j].unique
  }

  /** The copied offsets account for the packed pool: distinct starts, and every copy made for a unique column is in
      the table. */
  ghost predicate Accounted(pool: seq<u8>, st: Packed, done: seq<Ref>, copied: set<nat>)
    requires WellBuilt(pool)
  {
    && |st.bytes| == 4 + Space(pool, 4, copied)
    && (forall o | o in copied :: exists r :: r in done && r.off == o)
    && (forall r | r in done && r.off in copied && r.unique && Sound(pool, r.off) && r.off != 0 ::
          SelfCheck(pool, r.off) && StringAt(pool, r.off) in st.table)
  }

  lemma SharedOnlyByUnique(done: seq<Ref>, refs: seq<Ref>, q: Ref)
    requires Unshared(done + refs) && refs != [] && q in done && q.off == refs[0].off
    ensures q.unique && refs[0].unique
  {
    var i :| 0 <= i < |done| && done[i] == q;
    assert (done + refs)[i] == q && (done + refs)[|done|] == refs[0];
  }

  /** A string that has to be copied comes from an offset that was not copied before. */
  lemma CopiesAreNew(pool: seq<u8>, st: Packed, done: seq<Ref>, refs: seq<Ref>, copied: set<nat>)
    requires WellBuilt(pool) && Accounted(pool, st, done, copied)
    requires refs != [] && forall r | r in done + refs :: r.off != 0 && Sound(pool, r.off)
    requires Unshared(done + refs)
    requires SelfCheck(pool, refs[0].off)
    requires !(refs[0].unique && StringAt(pool, refs[0].off) in st.table)
    ensures refs[0].off !in copied
  {
    if refs[0].off in copied {
      var d :| d in done && d.off == refs[0].off;
      assert d in done + refs;
      SharedOnlyByUnique(done, refs, d);
    }
  }

  lemma AccountedAfterCopy(pool: seq<u8>, st: Packed, done: seq<Ref>, refs: seq<Ref>, copied: set<nat>)
    requires WellBuilt(pool) && Accounted(pool, st, done, copied)
    requires refs != [] && forall r | r in done + refs :: r.off != 0 && Sound(pool, r.off)
    requires Unshared(done + refs)
    requires SelfCheck(pool, refs[0].off) && refs[0].off !in copied
    requires !(refs[0].unique && StringAt(pool, refs[0].off) in st.table)
    ensures Accounted(pool, Place(st, StringAt(pool, refs[0].off), refs[0].unique).0, done + [refs[0]],
                      copied + {refs[0].off})
  {
    var r := refs[0];
    var copied' := copied + {r.off};
    assert r in done + refs && r in done + [r];
    SpaceAdds(pool, 4, copied, r.off);
    forall o | o in copied'
      ensures exists q :: q in done + [r] && q.off == o
    {
      if o in copied {
        var q :| q in done && q.off == o;
        assert q in done + [r];
      }
    }
    var table' := Place(st, StringAt(pool, r.off), r.unique).0.table;
    forall q | q in done + [r] && q.off in copied' && q.unique && Sound(pool, q.off) && q.off != 0
      ensures SelfCheck(pool, q.off) && StringAt(pool, q.off) in table'
    {
      if q.off == r.off && q != r {
        SharedOnlyByUnique(done, refs, q);
      }
    }
  }

  lemma {:induction false} PackRefsAccounted(
      pool: seq<u8>, done: seq<Ref>, refs: seq<Ref>, st: Packed, copied: set<nat>)
    requires WellBuilt(pool)
    requires forall r | r in done + refs :: r.off != 0 && Sound(pool, r.off)
    requires Unshared(done + refs)
    requires Accounted(pool, st, done, copied)
    ensures forall r | r in refs :: r in done + refs
    ensures exists c :: |PackRefs(pool, refs, st).bytes| == 4 + Space(pool, 4, c)
    decreases |refs|
  {
    assert forall r | r in refs :: r in done + refs;
    if refs != [] {
      var r := refs[0];
      SoundChecked(pool, r.off);
      var s := StringAt(pool, r.off);
      assert done + [r] + refs[1..] == done + refs;
      if r.unique && s in st.table {
        assert Accounted(pool, st, done + [r], copied);
        PackRefsAccounted(pool, done + [r], refs[1..], st, copied);
      } else {
        CopiesAreNew(pool, st, done, refs, copied);
        AccountedAfterCopy(pool, st, done, refs, copied);
        PackRefsAccounted(pool, done + [r], refs[1..], Place(st, s, r.unique).0, copied + {r.off});
      }
    }
  }

  /** When only unique columns share storage, the packed pool fits in the space of the source pool. */
  lemma PackedFits(pool: seq<u8>, refs: seq<Ref>)
    requires WellBuilt(pool)
    requires forall r | r in refs :: r.off != 0 && Sound(pool, r.off)
    requires Unshared(refs)
    ensures |PackRefs(pool, refs, EMPTY).bytes| <= |pool|
  {
    assert [] + refs == refs;
    NoSpace(pool, 4);
    PackRefsAccounted(pool, [], refs, EMPTY, {});
    var c :| |PackRefs(pool, refs, EMPTY).bytes| == 4 + Space(pool, 4, c);
    SpaceBounded(pool, 4, c);
  }

  lemma {:induction false} NoSpace(pool: seq<u8>, at: nat)
    requires Chain(pool, at)
    ensures Space(pool, at, {}) == 0
    decreases |pool| - at
  {
    if at != |pool| {
      NoSpace(pool, Next(pool, at));
    }
  }
}
