/** The LZF compressor (src/liblzf-1.6/lzf_c.c), in its default VERY_FAST configuration.

    Positions stand for the source's pointers.  The hash table only proposes candidates, so nothing is known about
    its entries: they may be stale, past the cursor, or never written at all.
 */
module LzfCompressor {
  import opened Bytes
  import opened LzfFormat
  import opened LzfHash

  const MAX_LITERAL := 32
  const MAX_OFFSET := 8192
  const MAX_REFERENCE := 264

  // ---------- what the compressor has written so far ----------

  /** The stream written so far means exactly the first n input bytes. */
  ghost predicate Means(stream: seq<u8>, input: seq<u8>, n: nat)
    requires n <= |input|
  {
    Decode(stream, [], |input|) == Some(input[..n])
  }

  lemma LiteralExtends(stream: seq<u8>, input: seq<u8>, n: nat, len: nat)
    requires 1 <= len <= MAX_LITERAL && n + len <= |input|
    requires Means(stream, input, n)
    ensures Means(stream + [len - 1] + input[n..n + len], input, n + len)
  {
    var text := input[n..n + len];
    assert input[..n] + text == input[..n + len];
    assert stream + ([len - 1] + text) == stream + [len - 1] + text;
    LiteralMeans(input[..n], text, |input|);
    TokenExtends(stream, [len - 1] + text, input, n, n + len);
  }

  lemma TokenExtends(stream: seq<u8>, t: seq<u8>, input: seq<u8>, n: nat, m: nat)
    requires n <= |input| && m <= |input| && Means(stream, input, n)
    requires Decode(t, input[..n], |input|) == Some(input[..m])
    ensures Means(stream + t, input, m)
  {
    DecodeAppend(stream, t, [], |input|);
  }

  /** The bytes of one back reference: two, or three when the length needs its own byte. */
  function Reference(off: nat, len: nat): (t: seq<u8>)
    requires off < MAX_OFFSET && 3 <= len <= MAX_REFERENCE
    ensures 2 <= |t| <= 3
  {
    if len - 2 < 7 then [off / 256 + (len - 2) * 32, off % 256]
    else [off / 256 + 7 * 32, len - 2 - 7, off % 256]
  }

  lemma ReferenceExtends(stream: seq<u8>, input: seq<u8>, n: nat, off: nat, len: nat)
    requires off < MAX_OFFSET && off < n && 3 <= len <= MAX_REFERENCE && n + len <= |input|
    requires Means(stream, input, n)
    requires forall k :: n <= k < n + len ==> input[k] == input[k - (off + 1)]
    ensures Means(stream + Reference(off, len), input, n + len)
  {
    ReferenceMeans(input[..n], off + 1, len, |input|, input[..n + len]);
    TokenExtends(stream, Reference(off, len), input, n, n + len);
  }

  // ---------- the pieces of the main loop ----------

  /** A table entry is a usable match for the text at ip: near enough, strictly inside the input, and agreeing on
      three bytes, with five bytes of input left. */
  ghost predicate Usable(input: seq<u8>, ip: nat, reference: int) {
    && 0 < reference < ip <= reference + MAX_OFFSET
    && ip + 5 <= |input|
    && input[reference..reference + 3] == input[ip..ip + 3]
  }

  /** A match that cannot be made longer: it ends at the limit, two bytes before the end, or where the texts differ. */
  ghost predicate Longest(input: seq<u8>, ip: nat, reference: nat, len: nat)
    requires reference < ip
  {
    && 3 <= len <= MAX_REFERENCE && ip + len <= |input| - 2
    && (forall k :: ip <= k < ip + len ==> input[k] == input[k - (ip - reference)])
    && (len == MAX_REFERENCE || ip + len == |input| - 2 || input[reference + len] != input[ip + len])
  }

  /** What a match costs: the header of the pending literals, if any, the literals, and two or three bytes. */
  function MatchCost(lit: nat, len: nat): nat {
    (if lit == 0 then 0 else lit + 1) + if len <= 8 then 2 else 3
  }

  lemma AgreesOnThree(input: seq<u8>, ip: nat, reference: int)
    requires 0 < reference < ip && ip + 5 <= |input|
    ensures input[reference..reference + 3] == input[ip..ip + 3]
        <==> input[reference] == input[ip] && input[reference + 1] == input[ip + 1] && input[reference + 2] == input[ip + 2]
  {
    var a, b := input[reference..reference + 3], input[ip..ip + 3];
    assert a[0] == input[reference] && a[1] == input[reference + 1] && a[2] == input[reference + 2];
    assert b[0] == input[ip] && b[1] == input[ip + 1] && b[2] == input[ip + 2];
  }

  /** Counts how far the text at the candidate goes on agreeing with the text at the cursor. */
  method MatchLength(input: seq<u8>, reference: nat, ip: nat) returns (len: nat)
    requires Usable(input, ip, reference)
    ensures Longest(input, ip, reference, len)
  {
    AgreesOnThree(input, ip, reference);
    len := 2;
    var maxlen := |input| - ip - len;
    maxlen := if maxlen > MAX_REFERENCE then MAX_REFERENCE else maxlen;
    len := len + 1;
    while len < maxlen && input[reference + len] == input[ip + len]
      invariant 3 <= len <= maxlen
      invariant forall k :: ip <= k < ip + len ==> input[k] == input[k - (ip - reference)]
    {
      len := len + 1;
    }
  }

  /** Writes the pending literal run input[ip - lit..ip] behind op. */
  method FlushLiterals(input: seq<u8>, ip: nat, lit: nat, out: array<u8>, op: nat) returns (op': nat)
    requires 1 <= lit <= MAX_LITERAL && lit <= ip <= |input|
    requires op + lit + 1 <= out.Length
    modifies out
    ensures op' == op + lit + 1
    ensures out[..op'] == old(out[..op]) + [lit - 1] + input[ip - lit..ip]
  {
    out[op] := lit - 1;
    op' := op + 1;
    var i := ip - lit;
    while i < ip
      invariant ip - lit <= i <= ip && op' == op + 1 + (i - (ip - lit))
      invariant out[..op'] == old(out[..op]) + [lit - 1] + input[ip - lit..i]
    {
      out[op'] := input[i];
      op' := op' + 1;
      i := i + 1;
    }
  }

  method WriteReference(off: nat, len: nat, out: array<u8>, op: nat) returns (op': nat)
    requires off < MAX_OFFSET && 3 <= len <= MAX_REFERENCE
    requires op + 3 <= out.Length
    modifies out
    ensures op' == op + |Reference(off, len)|
    ensures out[..op'] == old(out[..op]) + Reference(off, len)
  {
    var l := len - 2;
    op' := op;
    if l < 7 {
      out[op'] := off / 256 + l * 32;
      op' := op' + 1;
    } else {
      out[op'] := off / 256 + 7 * 32;
      out[op' + 1] := l - 7;
      op' := op' + 2;
    }
    out[op'] := off % 256;
    op' := op' + 1;
  }

  /** Writes the pending literal run and records what the stream now means. */
  method EmitLiterals(input: seq<u8>, ip: nat, lit: nat, out: array<u8>, op: nat) returns (op': nat)
    requires 1 <= lit <= MAX_LITERAL && lit <= ip <= |input|
    requires op + lit + 1 <= out.Length
    requires Means(out[..op], input, ip - lit)
    modifies out
    ensures op' == op + lit + 1
    ensures Means(out[..op'], input, ip)
  {
    LiteralExtends(out[..op], input, ip - lit, lit);
    op' := FlushLiterals(input, ip, lit, out, op);
  }

  /** A back reference takes the meaning of the stream on by the matched text. */
  method EmitReference(input: seq<u8>, ip: nat, off: nat, len: nat, out: array<u8>, op: nat) returns (op': nat)
    requires off < MAX_OFFSET && off < ip && 3 <= len <= MAX_REFERENCE && ip + len <= |input|
    requires forall k :: ip <= k < ip + len ==> input[k] == input[k - (off + 1)]
    requires op + 3 <= out.Length && Means(out[..op], input, ip)
    modifies out
    ensures op' == op + |Reference(off, len)| && Means(out[..op'], input, ip + len)
  {
    ReferenceExtends(out[..op], input, ip, off, len);
    op' := WriteReference(off, len, out, op);
  }

  /** Writes the pending literals, if any, and then the back reference for the match at ip. */
  method EmitMatch(input: seq<u8>, ip: nat, lit: nat, reference: nat, out: array<u8>, op: nat)
    returns (op': nat, len: nat)
    requires lit < MAX_LITERAL && lit <= ip && Usable(input, ip, reference)
    requires op + lit + 4 < out.Length
    requires Means(out[..op], input, ip - lit)
    modifies out
    ensures Longest(input, ip, reference, len) && op' == op + MatchCost(lit, len) < out.Length
    ensures Means(out[..op'], input, ip + len)
  {
    len := MatchLength(input, reference, ip);
    op' := op;
    if lit > 0 {
      op' := EmitLiterals(input, ip, lit, out, op);
    }
    op' := EmitReference(input, ip, ip - reference - 1, len, out, op');
  }

  /** Puts the position into the slot of its three bytes, and says what was there; the hash value moves on. */
  method Remember(input: seq<u8>, p: nat, hval: bv32, htab: array<int>) returns (hval': bv32, before: int)
    requires p + 2 < |input| && htab.Length == HASH_SIZE && Primed(hval, input, p)
    modifies htab
    ensures before == old(htab[Slot(input, p)]) && htab[..] == old(htab[..])[Slot(input, p) := p]
    ensures Primed(hval', input, p + 1)
  {
    var slot;
    hval', slot := NextSlot(hval, input, p);
    before := htab[slot];
    htab[slot] := p;
  }

  /** Looks up the candidate for the three bytes at ip and puts ip in its place. */
  method Probe(input: seq<u8>, ip: nat, hval: bv32, htab: array<int>)
    returns (hval': bv32, reference: int, found: bool)
    requires ip + 2 < |input| && htab.Length == HASH_SIZE && Primed(hval, input, ip)
    modifies htab
    ensures reference == old(htab[Slot(input, ip)]) && htab[..] == old(htab[..])[Slot(input, ip) := ip]
    ensures found <==> Usable(input, ip, reference)
    ensures Primed(hval', input, ip + 1)
  {
    hval', reference := Remember(input, ip, hval, htab);
    found := 0 <= ip - reference - 1 < MAX_OFFSET
      && ip + 4 < |input|
      && reference > 0
      && input[reference] == input[ip]
      && input[reference + 1] == input[ip + 1]
      && input[reference + 2] == input[ip + 2];
    if 0 < reference < ip && ip + 5 <= |input| {
      AgreesOnThree(input, ip, reference);
    }
  }

  /** After a match that ends at ip, puts the last two positions of the match into the table. */
  method Learn(input: seq<u8>, ip: nat, htab: array<int>) returns (hval: bv32)
    requires 2 <= ip <= |input| - 2 && htab.Length == HASH_SIZE
    modifies htab
    ensures Primed(hval, input, ip)
    ensures htab[..] == old(htab[..])[Slot(input, ip - 2) := ip - 2][Slot(input, ip - 1) := ip - 1]
  {
    var before;
    hval := First(input, ip - 2);
    hval, before := Remember(input, ip - 2, hval, htab);
    hval, before := Remember(input, ip - 1, hval, htab);
  }

  // ---------- lzf_compress ----------

  /** Between two rounds of the main loop: the stream means all input before the pending literals, and costs at most
      33 bytes for every 32 of them. */
  ghost predicate Progress(input: seq<u8>, stream: seq<u8>, ip: nat, lit: nat) {
    && lit <= ip <= |input| && lit < MAX_LITERAL
    && Means(stream, input, ip - lit)
    && 32 * |stream| <= 33 * (ip - lit)
    && (ip > 0 ==> |stream| + lit > 0)
  }

  /** Takes one more byte as a literal, and writes the run out once it is full. */
  method TakeLiteral(input: seq<u8>, ip: nat, lit: nat, out: array<u8>, op: nat)
    returns (full: bool, op': nat, lit': nat)
    requires ip < |input| && op <= out.Length && (op == 0 || op < out.Length)
    requires Progress(input, out[..op], ip, lit)
    modifies out
    ensures full <==> lit + 1 == MAX_LITERAL && op + 1 + MAX_LITERAL >= out.Length
    ensures full ==> out.Length <= |input| + |input| / 32 + 4
    ensures !full ==> op' <= out.Length && (op' == 0 || op' < out.Length)
    ensures !full ==> if lit + 1 < MAX_LITERAL then op' == op && lit' == lit + 1 else op' == op + 33 && lit' == 0
    ensures !full ==> Progress(input, out[..op'], ip + 1, lit')
  {
    full, op', lit' := false, op, lit + 1;
    if lit' == MAX_LITERAL {
      if op + 1 + MAX_LITERAL >= out.Length {
        return true, op, lit';
      }
      op' := EmitLiterals(input, ip + 1, lit', out, op);
      lit' := 0;
    }
  }

  /** A match keeps the bound on what is written. */
  lemma MatchProgress(input: seq<u8>, stream: seq<u8>, op: nat, ip: nat, lit: nat, len: nat)
    requires lit <= ip && 0 < len && ip + len <= |input| && 32 * op <= 33 * (ip - lit)
    requires op < |stream| <= op + lit + len && Means(stream, input, ip + len)
    ensures Progress(input, stream, ip + len, 0)
  {
  }

  /** What a round does to the cursor, the output and the pending literals: a usable candidate is taken as far as it
      goes, where there is room; without one, the byte joins the literals, and a full run is written. */
  ghost predicate Moves(input: seq<u8>, ip: nat, lit: nat, op: nat, candidate: int, ip': nat, lit': nat, op': nat) {
    if Usable(input, ip, candidate) then
      && ip' > ip && Longest(input, ip, candidate, ip' - ip)
      && lit' == 0 && op' == op + MatchCost(lit, ip' - ip)
    else
      && ip' == ip + 1
      && if lit + 1 < MAX_LITERAL then op' == op && lit' == lit + 1 else op' == op + 33 && lit' == 0
  }

  /** What it does to the table: the position is put into its slot, and so are the last two of a match. */
  ghost predicate Learned(input: seq<u8>, ip: nat, before: seq<int>, ip': nat, after: seq<int>)
    requires |before| == HASH_SIZE && ip < |input|
  {
    if ip + 2 >= |input| then after == before
    else if !Usable(input, ip, before[Slot(input, ip)]) then after == before[Slot(input, ip) := ip]
    else
      && 2 <= ip' <= |input| - 2
      && after == before[Slot(input, ip) := ip][Slot(input, ip' - 2) := ip' - 2][Slot(input, ip' - 1) := ip' - 1]
  }

  /** The candidate for the bytes at ip; none (-1) for the last two bytes. */
  ghost function Candidate(input: seq<u8>, ip: nat, table: seq<int>): int
    requires |table| == HASH_SIZE
  {
    if ip + 2 < |input| then table[Slot(input, ip)] else -1
  }

  /** The candidate for the bytes at ip, if there are three of them. */
  method LookUp(input: seq<u8>, ip: nat, hval: bv32, htab: array<int>)
    returns (hval': bv32, reference: int, found: bool)
    requires ip < |input| && htab.Length == HASH_SIZE && Primed(hval, input, ip)
    modifies htab
    ensures reference == old(Candidate(input, ip, htab[..])) && (found <==> Usable(input, ip, reference))
    ensures htab[..] == if ip + 2 < |input| then old(htab[..])[Slot(input, ip) := ip] else old(htab[..])
    ensures Primed(hval', input, ip + 1)
  {
    hval', reference, found := hval, -1, false;
    if ip < |input| - 2 {
      hval', reference, found := Probe(input, ip, hval, htab);
    }
  }

  /** Takes a usable candidate: writes it and learns its last two positions. */
  method TakeMatch(input: seq<u8>, ip: nat, lit: nat, reference: nat, out: array<u8>, op: nat, htab: array<int>)
    returns (ip': nat, op': nat, hval': bv32)
    requires Usable(input, ip, reference) && op + lit + 4 < out.Length && htab.Length == HASH_SIZE
    requires Progress(input, out[..op], ip, lit)
    modifies out, htab
    ensures ip < ip' && Longest(input, ip, reference, ip' - ip)
    ensures op' == op + MatchCost(lit, ip' - ip) < out.Length
    ensures Progress(input, out[..op'], ip', 0) && Primed(hval', input, ip')
    ensures htab[..] == old(htab[..])[Slot(input, ip' - 2) := ip' - 2][Slot(input, ip' - 1) := ip' - 1]
  {
    var len;
    op', len := EmitMatch(input, ip, lit, reference, out, op);
    ip' := ip + len;
    MatchProgress(input, out[..op'], op, ip, lit, len);
    hval' := Learn(input, ip', htab);
  }

  /** One round of the main loop: a match if the table offers one, otherwise one more literal. */
  method Round(input: seq<u8>, ip: nat, lit: nat, hval: bv32, out: array<u8>, op: nat, htab: array<int>)
    returns (full: bool, ip': nat, op': nat, lit': nat, hval': bv32)
    requires ip < |input| && op <= out.Length && (op == 0 || op < out.Length)
    requires htab.Length == HASH_SIZE
    requires Progress(input, out[..op], ip, lit) && Primed(hval, input, ip)
    modifies out, htab
    ensures full ==> out.Length <= |input| + |input| / 32 + 4
    ensures full <==> if Usable(input, ip, old(Candidate(input, ip, htab[..]))) then op + lit + 4 >= out.Length
                      else lit == 31 && op + 33 >= out.Length
    ensures !full ==> ip < ip' && op' <= out.Length && (op' == 0 || op' < out.Length)
    ensures !full ==> Progress(input, out[..op'], ip', lit') && Primed(hval', input, ip')
    ensures !full ==> Moves(input, ip, lit, op, old(Candidate(input, ip, htab[..])), ip', lit', op')
    ensures !full ==> Learned(input, ip, old(htab[..]), ip', htab[..])
  {
    full, ip', op', lit' := false, ip, op, lit;
    var found, reference;
    hval', reference, found := LookUp(input, ip, hval, htab);
    if found {
      if op + lit + 1 + 3 >= out.Length {
        return true, ip, op, lit, hval';
      }
      ip', op', hval' := TakeMatch(input, ip, lit, reference, out, op, htab);
      lit' := 0;
    } else {
      full, op', lit' := TakeLiteral(input, ip, lit, out, op);
      ip' := ip + 1;
    }
  }

  // ---------- what the compressor achieves on a repetition ----------

  /** One byte over and over. */
  ghost predicate Repetition(input: seq<u8>) {
    |input| >= 7 && forall i :: 0 <= i < |input| ==> input[i] == input[0]
  }

  /** Enough bytes for a repetition: 3 for each full match of 264 bytes, and a few for its two ends. */
  function RepetitionBound(n: nat): nat
    requires n >= 7
  {
    11 + 3 * ((n - 7) / 264)
  }

  /** Between two rounds on a repetition, after k matches: two literals first, then matches as long as five bytes are
      left, each of full length but for the last, then literals. */
  ghost predicate Repeats(input: seq<u8>, ip: nat, lit: nat, op: nat, table: seq<int>, k: nat)
    requires |table| == HASH_SIZE
  {
    && lit <= ip <= |input|
    && (0 < ip && ip + 2 < |input| ==> table[Slot(input, ip)] == ip - 1)
    && if k == 0 then ip <= 2 && op == 0 && lit == ip
       else
         && op <= 3 + 3 * k
         && 264 * k - 259 <= ip && 264 * k - 257 <= |input|
         && (264 * k + 2 <= ip - lit || |input| - 2 <= ip - lit)
         && (lit == 0 || |input| - 4 <= ip - lit)
  }

  lemma OneSlot(input: seq<u8>, p: nat, q: nat)
    requires Repetition(input) && p + 2 < |input| && q + 2 < |input|
    ensures Slot(input, p) == Slot(input, q)
  {
  }

  /** On a repetition the position before is a candidate, from the third byte on. */
  lemma CandidateBefore(input: seq<u8>, ip: nat, lit: nat, op: nat, table: seq<int>, k: nat)
    requires |table| == HASH_SIZE && Repetition(input) && Repeats(input, ip, lit, op, table, k)
    ensures Usable(input, ip, Candidate(input, ip, table)) <==> 2 <= ip && ip + 5 <= |input|
  {
    if 2 <= ip && ip + 5 <= |input| {
      AgreesOnThree(input, ip, ip - 1);
    }
  }

  lemma RoomToMove(input: seq<u8>, ip: nat, lit: nat, op: nat, table: seq<int>, k: nat, room: nat)
    requires |table| == HASH_SIZE && Repetition(input) && Repeats(input, ip, lit, op, table, k) && ip < |input|
    requires room > RepetitionBound(|input|)
    ensures lit < 31 && (Usable(input, ip, Candidate(input, ip, table)) ==> op + lit + 4 < room)
  {
    CandidateBefore(input, ip, lit, op, table, k);
  }

  lemma LearnedBefore(input: seq<u8>, ip: nat, before: seq<int>, ip': nat, after: seq<int>)
    requires Repetition(input) && |before| == HASH_SIZE && ip < |input| && Learned(input, ip, before, ip', after)
    requires !Usable(input, ip, Candidate(input, ip, before)) ==> ip' == ip + 1
    ensures |after| == HASH_SIZE && (0 < ip' && ip' + 2 < |input| ==> after[Slot(input, ip')] == ip' - 1)
  {
    if 0 < ip' && ip' + 2 < |input| {
      OneSlot(input, ip', ip' - 1);
    }
  }

  /** A match in a repetition is of full length, or comes to two bytes before the end. */
  lemma LongMatch(input: seq<u8>, ip: nat, len: nat)
    requires Repetition(input) && 0 < ip && Longest(input, ip, ip - 1, len)
    ensures len == MAX_REFERENCE || ip + len == |input| - 2
  {
  }

  lemma RepeatsOn(input: seq<u8>, ip: nat, lit: nat, op: nat, before: seq<int>, k: nat,
                  ip': nat, lit': nat, op': nat, after: seq<int>) returns (k': nat)
    requires |before| == HASH_SIZE && Repetition(input) && Repeats(input, ip, lit, op, before, k) && ip < |input|
    requires Moves(input, ip, lit, op, Candidate(input, ip, before), ip', lit', op')
    requires Learned(input, ip, before, ip', after)
    ensures |after| == HASH_SIZE && Repeats(input, ip', lit', op', after, k')
  {
    CandidateBefore(input, ip, lit, op, before, k);
    LearnedBefore(input, ip, before, ip', after);
    if Usable(input, ip, Candidate(input, ip, before)) {
      LongMatch(input, ip, ip' - ip);
      k' := k + 1;
    } else {
      k' := k;
    }
  }

  /** The literals that are left at the end. */
  method FlushLast(input: seq<u8>, lit: nat, out: array<u8>, op: nat) returns (n: nat)
    requires op <= out.Length && (op == 0 || op < out.Length) && Progress(input, out[..op], |input|, lit)
    modifies out
    ensures n == if lit == 0 then op else if op + lit + 1 >= out.Length then 0 else op + lit + 1
    ensures n > 0 ==> n < out.Length && Means(out[..n], input, |input|)
  {
    n := op;
    if lit > 0 {
      if op + lit + 1 >= out.Length {
        return 0;
      }
      n := EmitLiterals(input, |input|, lit, out, op);
    }
  }

  /** Compresses input into out and returns the number of bytes used, or 0 when they would not fit.
      Whatever the hash table holds at the start, a nonzero result is a stream that means the whole input; it grows
      the input by at most one byte in 32, and a buffer with that much room and a little to spare is never refused.
      A repetition shrinks to 3 bytes for every 264. */
  method Compress(input: seq<u8>, out: array<u8>, htab: array<int>) returns (n: nat)
    requires htab.Length == HASH_SIZE
    modifies out, htab
    ensures n > 0 ==> n < out.Length
    ensures n > 0 ==> Means(out[..n], input, |input|)
    ensures n <= |input| + |input| / 32 + 1
    ensures input == [] ==> n == 0
    ensures input != [] && out.Length > |input| + |input| / 32 + 4 ==> n > 0
    ensures Repetition(input) && out.Length > RepetitionBound(|input|) ==> 0 < n <= RepetitionBound(|input|)
  {
    var ip: nat, op: nat, lit: nat := 0, 0, 0;
    var hval, full := First(input, ip), false;
    ghost var k: nat := 0;
    while ip < |input|
      invariant op <= out.Length && (op == 0 || op < out.Length)
      invariant Progress(input, out[..op], ip, lit) && Primed(hval, input, ip)
      invariant Repetition(input) ==> Repeats(input, ip, lit, op, htab[..], k)
      decreases |input| - ip
    {
      ghost var ip0, lit0, op0, table := ip, lit, op, htab[..];
      if Repetition(input) && out.Length > RepetitionBound(|input|) {
        RoomToMove(input, ip, lit, op, htab[..], k, out.Length);
      }
      full, ip, op, lit, hval := Round(input, ip, lit, hval, out, op, htab);
      if full {
        return 0;
      }
      if Repetition(input) {
        k := RepeatsOn(input, ip0, lit0, op0, table, k, ip, lit, op, htab[..]);
      }
    }
    n := FlushLast(input, lit, out, op);
  }
}
