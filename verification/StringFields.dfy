/** Entries of the string pool under writing (src/base/ExtentField.cpp:132-194): a new entry goes to the end, and a text
    can be overwritten, and no other string changes. */
module StringFields {
  import opened Bytes
  import opened StringPool

  // ---------- overwriting the text of one entry ----------

  /** The data goes into the text of the entry at off, from position at on. */
  ghost predicate TextWrite(pool: seq<u8>, off: nat, at: nat, data: seq<u8>) {
    off + 4 <= |pool| && at + |data| <= SizeAt(pool, off) && Next(pool, off) <= |pool|
  }

  /** An entry whose bytes the write does not reach is as before. */
  lemma OtherEntry(pool: seq<u8>, pos: nat, data: seq<u8>, at: nat)
    requires EntryHere(pool, at) && pos + |data| <= |pool|
    requires pos + |data| <= at || Next(pool, at) <= pos
    ensures var q := Put(pool, pos, data);
            EntryHere(q, at) && Next(q, at) == Next(pool, at) && StringAt(q, at) == StringAt(pool, at)
  {
    var q, n := Put(pool, pos, data), SizeAt(pool, at);
    GetPutApart(pool, pos, data, at, 4);
    assert q[at + 4..at + 4 + n] == pool[at + 4..at + 4 + n];
    assert AllZero(q, at + 4 + n, at + 4 + RoundUp(n));
  }

  /** The entry written to keeps its size and padding, and its text changes where the data is. */
  lemma OwnEntry(pool: seq<u8>, off: nat, at: nat, data: seq<u8>)
    requires EntryHere(pool, off) && TextWrite(pool, off, at, data)
    ensures var q := Put(pool, off + 4 + at, data);
            EntryHere(q, off) && Next(q, off) == Next(pool, off)
            && StringAt(q, off) == Put(StringAt(pool, off), at, data)
  {
    var q, n := Put(pool, off + 4 + at, data), SizeAt(pool, off);
    GetPutApart(pool, off + 4 + at, data, off, 4);
    assert AllZero(q, off + 4 + n, off + 4 + RoundUp(n));
    var x, y := q[off + 4..off + 4 + n], Put(pool[off + 4..off + 4 + n], at, data);
    assert forall i :: 0 <= i < n ==> x[i] == y[i];
  }

  lemma {:induction false} StartBounds(pool: seq<u8>, at: nat, off: nat)
    requires Chain(pool, at) && StartsAt(pool, at, off)
    ensures at <= off && EntryHere(pool, off) && Next(pool, off) <= |pool|
    ensures off != at ==> at < |pool| && Next(pool, at) <= off
    decreases |pool| - at
  {
    ChainBounds(pool, Next(pool, at));
    if off != at {
      StartBounds(pool, Next(pool, at), off);
    }
  }

  /** Behind the write, the run of entries is as before. */
  lemma {:induction false} ChainBehind(pool: seq<u8>, q: seq<u8>, pos: nat, data: seq<u8>, at: nat)
    requires Chain(pool, at) && pos + |data| <= at && pos + |data| <= |pool| && q == Put(pool, pos, data)
    ensures Chain(q, at)
    decreases |pool| - at
  {
    if at != |pool| {
      OtherEntry(pool, pos, data, at);
      ChainBehind(pool, q, pos, data, Next(pool, at));
    }
  }

  lemma ChainFromEntry(pool: seq<u8>, q: seq<u8>, off: nat, o: nat, data: seq<u8>)
    requires EntryHere(pool, off) && Chain(pool, Next(pool, off)) && TextWrite(pool, off, o, data)
    requires q == Put(pool, off + 4 + o, data)
    ensures Chain(q, off)
  {
    OwnEntry(pool, off, o, data);
    ChainBehind(pool, q, off + 4 + o, data, Next(pool, off));
    ChainHere(q, off);
  }

  /** The pool is still a run of entries. */
  lemma {:induction false} ChainWritten(pool: seq<u8>, q: seq<u8>, at: nat, off: nat, o: nat, data: seq<u8>)
    requires Chain(pool, at) && StartsAt(pool, at, off) && TextWrite(pool, off, o, data)
    requires q == Put(pool, off + 4 + o, data)
    ensures Chain(q, at)
    decreases |pool| - at
  {
    StartBounds(pool, at, off);
    if off == at {
      ChainFromEntry(pool, q, off, o, data);
    } else {
      OtherEntry(pool, off + 4 + o, data, at);
      ChainWritten(pool, q, Next(pool, at), off, o, data);
      ChainHere(q, at);
    }
  }

  lemma ChainHere(q: seq<u8>, at: nat)
    requires EntryHere(q, at) && Chain(q, Next(q, at))
    ensures Chain(q, at)
  {
  }

  /** Entry starts are where they were. */
  lemma {:induction false} StartsKept(pool: seq<u8>, q: seq<u8>, at: nat, x: nat)
    requires Chain(pool, at) && StartsAt(pool, at, x) && Chain(q, at) && |q| == |pool|
    requires forall y :: at <= y < |pool| && StartsHere(pool, at, y) ==> y + 4 <= |q| && Next(q, y) == Next(pool, y)
    ensures StartsAt(q, at, x)
    decreases |pool| - at
  {
    assert StartsHere(pool, at, at);
    if x != at {
      var n := Next(pool, at);
      forall y | n <= y < |pool| && StartsHere(pool, n, y)
        ensures y + 4 <= |q| && Next(q, y) == Next(pool, y)
      {
        assert StartsHere(pool, at, y);
      }
      StartsKept(pool, q, n, x);
    }
  }

  ghost predicate StartsHere(pool: seq<u8>, at: nat, y: nat) {
    Chain(pool, at) && StartsAt(pool, at, y)
  }

  /** Two different entries do not meet. */
  lemma {:induction false} EntriesApart(pool: seq<u8>, at: nat, x: nat, y: nat)
    requires Chain(pool, at) && StartsAt(pool, at, x) && StartsAt(pool, at, y) && x < y
    ensures x + 4 <= |pool| && Next(pool, x) <= y
    decreases |pool| - at
  {
    StartBounds(pool, at, x);
    StartBounds(pool, at, y);
    if x != at {
      EntriesApart(pool, Next(pool, at), x, y);
    }
  }

  /** After the write, every offset that was sound is sound; only the one written to holds another string. */
  lemma WriteText(pool: seq<u8>, off: nat, at: nat, data: seq<u8>, x: nat)
    requires WellBuilt(pool) && off != 0 && Sound(pool, off) && Sound(pool, x)
    requires TextWrite(pool, off, at, data)
    ensures var q := Put(pool, off + 4 + at, data);
            && WellBuilt(q) && Sound(q, x) && SelfCheck(q, x) && SelfCheck(pool, x)
            && StringAt(q, x) == if x == off then Put(StringAt(pool, x), at, data) else StringAt(pool, x)
  {
    var pos, q := off + 4 + at, Put(pool, off + 4 + at, data);
    StartBounds(pool, 4, off);
    ChainWritten(pool, q, 4, off, at, data);
    GetPutApart(pool, pos, data, 0, 4);
    SoundChecked(pool, x);
    if x != 0 {
      forall y | 4 <= y < |pool| && StartsHere(pool, 4, y)
        ensures y + 4 <= |q| && Next(q, y) == Next(pool, y)
      {
        WriteElsewhere(pool, off, at, data, y);
      }
      StartsKept(pool, q, 4, x);
      WriteElsewhere(pool, off, at, data, x);
    } else {
      assert StringAt(q, 0) == [] == StringAt(pool, 0);
    }
  }

  lemma WriteElsewhere(pool: seq<u8>, off: nat, at: nat, data: seq<u8>, y: nat)
    requires Chain(pool, 4) && StartsAt(pool, 4, off) && StartsAt(pool, 4, y) && TextWrite(pool, off, at, data)
    ensures var q := Put(pool, off + 4 + at, data);
            && SelfCheck(q, y) && SelfCheck(pool, y) && Next(q, y) == Next(pool, y)
            && StringAt(q, y) == if y == off then Put(StringAt(pool, y), at, data) else StringAt(pool, y)
  {
    StartBounds(pool, 4, off);
    StartBounds(pool, 4, y);
    if y == off {
      OwnEntry(pool, off, at, data);
    } else {
      if y < off {
        EntriesApart(pool, 4, y, off);
      } else {
        EntriesApart(pool, 4, off, y);
      }
      OtherEntry(pool, off + 4 + at, data, y);
    }
  }

  // ---------- a new entry ----------

  lemma WellBuiltAligned(pool: seq<u8>)
    requires WellBuilt(pool)
    ensures (|pool| + 4) % 8 == 0
  {
    ChainBounds(pool, 4);
  }

  /** A new entry keeps all others. */
  lemma NewEntry(pool: seq<u8>, s: seq<u8>, x: nat)
    requires WellBuilt(pool) && s != [] && |pool + Entry(s)| < MAX_INT32 && Sound(pool, x)
    ensures var q := pool + Entry(s);
            && WellBuilt(q) && Sound(q, x) && Sound(q, |pool|) && Holds(q, |pool|, s)
            && SelfCheck(pool, x) && SelfCheck(q, x) && StringAt(q, x) == StringAt(pool, x) && x != |pool|
  {
    WellBuiltAligned(pool);
    AppendKeepsChain(pool, s);
    AppendHolds(pool, s);
    ChainAppend(pool, 4, s);
    SoundChecked(pool, x);
    SelfCheckGrows(pool, Entry(s), x);
    if x != 0 {
      StartBounds(pool, 4, x);
      StartsAppend(pool, 4, s, x);
    }
  }

  // ---------- reading and checking ----------

  /** The string at an offset. */
  function TextAt(pool: seq<u8>, off: nat): (s: seq<u8>) {
    if SelfCheck(pool, off) then StringAt(pool, off) else []
  }

  /** Variable32Field::selfcheck, with its loop over the padding bytes. */
  method Selfcheck(varbytes: seq<u8>, varoffset: nat) returns (ok: bool)
    ensures ok == SelfCheck(varbytes, varoffset)
  {
    if varoffset >= MAX_INT32 || varoffset + 4 > |varbytes| {
      return false;
    }
    var size := SizeAt(varbytes, varoffset);
    if varoffset == 0 {
      return size == 0;
    }
    if (varoffset + 4) % 8 != 0 || size >= MAX_INT32 {
      return false;
    }
    var roundup := RoundUp(size);
    if varoffset + 4 + roundup > |varbytes| {
      return false;
    }
    for i := size to roundup
      invariant AllZero(varbytes, varoffset + 4 + size, varoffset + 4 + i)
    {
      if varbytes[varoffset + 4 + i] != 0 {
        return false;
      }
    }
    ok := true;
  }

  /** When a text may be written to. */
  lemma Writable(pool: seq<u8>, off: nat, at: nat, data: seq<u8>)
    requires WellBuilt(pool) && Sound(pool, off)
    ensures off + 4 <= |pool| && |TextAt(pool, off)| == SizeAt(pool, off)
    ensures data != [] && at + |data| <= SizeAt(pool, off) ==> off != 0 && TextWrite(pool, off, at, data)
  {
    SoundChecked(pool, off);
    if off != 0 {
      StartBounds(pool, 4, off);
    }
  }
}
