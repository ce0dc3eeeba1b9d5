/** Choosing among the compression algorithms and undoing the choice (src/base/Extent.cpp:1022-1043, 1160-1257).

    LZF is the concrete codec of this project.  The other algorithms are external libraries: what an attempt produced
    is an input here, and their decoders are a parameter. */
module Compression {
  import opened Bytes
  import opened LzfFormat
  import opened LzfHash
  import opened LzfCompressor
  import opened LzfDecompressor

  const NUM_ALGORITHMS := 8
  const MODE_NONE := 0
  const MODE_LZF := 4

  /** A decoder for each mode: what it makes of some bytes in a buffer of the given size. */
  type Decoders = (nat, seq<u8>, nat) -> Option<seq<u8>>

  /** What each algorithm 1, 2, ... returned; None where it was not asked for or gave up. */
  type Attempts = seq<Option<seq<u8>>>

  /** unpackLZF reports success even for a bad stream, with nothing in the output. */
  function UnpackLzf(s: seq<u8>, cap: nat): (r: Option<seq<u8>>)
    ensures r.Some?
  {
    if s == [] then Some([])
    else
      match Decode(s, [], cap)
      case None => Some([])
      case Some(text) => Some(text)
  }

  /** uncompressBytes: the decoded bytes, or None when a check fails. */
  function Uncompress(external: Decoders, mode: nat, s: seq<u8>, cap: nat): (r: Option<seq<u8>>)
    ensures r.Some? ==> |r.value| <= cap
  {
    if cap == 0 then Some([])
    else if mode == MODE_NONE then if |s| <= cap then Some(s) else None
    else if mode >= NUM_ALGORITHMS then None
    else
      match (if mode == MODE_LZF then UnpackLzf(s, cap) else external(mode, s, cap))
      case None => None
      case Some(text) => if |text| <= cap then Some(text) else None
  }

  /** The codec contract: what an attempt left behind decodes to its input in every buffer that is large enough. */
  ghost predicate Decodes(external: Decoders, mode: nat, s: seq<u8>, input: seq<u8>) {
    forall cap :: cap >= |input| ==> Uncompress(external, mode, s, cap) == Some(input)
  }

  ghost predicate Honest(external: Decoders, attempts: Attempts, input: seq<u8>) {
    |attempts| == NUM_ALGORITHMS - 1
    && forall i :: 0 <= i < |attempts| && attempts[i].Some? ==> Decodes(external, i + 1, attempts[i].value, input)
  }

  datatype Chosen = Chosen(bytes: seq<u8>, mode: u8)

  /** The best of the first n attempts: shorter than the input and than every attempt before it. */
  function Best(input: seq<u8>, attempts: Attempts, n: nat): (r: Option<Chosen>)
    requires n <= |attempts| < NUM_ALGORITHMS
    ensures r.Some? ==> |r.value.bytes| < |input| && 1 <= r.value.mode <= n
    ensures r.Some? ==> attempts[r.value.mode - 1] == Some(r.value.bytes)
  {
    if n == 0 then None
    else
      var best := Best(input, attempts, n - 1);
      match attempts[n - 1]
      case None => best
      case Some(s) =>
        if |s| < |input| && (best.None? || |s| < |best.value.bytes|) then Some(Chosen(s, n)) else best
  }

  /** compressBytes; for an empty input the source leaves the mode unset, so it is whatever was there. */
  function Compressed(input: seq<u8>, attempts: Attempts, unset: u8): (r: Chosen)
    requires |attempts| < NUM_ALGORITHMS
  {
    if input == [] then Chosen([], unset)
    else
      match Best(input, attempts, |attempts|)
      case None => Chosen(input, MODE_NONE)
      case Some(c) => c
  }

  /** Best is the first of the shortest attempts, if that is shorter than the input. */
  lemma {:induction false} BestIsShortest(input: seq<u8>, attempts: Attempts, n: nat)
    requires n <= |attempts| < NUM_ALGORITHMS
    ensures var b := Best(input, attempts, n);
            forall i :: 0 <= i < n && attempts[i].Some? && |attempts[i].value| < |input| ==>
              b.Some? && (if i + 1 < b.value.mode then |b.value.bytes| < |attempts[i].value|
                          else |b.value.bytes| <= |attempts[i].value|)
  {
    if n > 0 {
      BestIsShortest(input, attempts, n - 1);
    }
  }

  /** An attempt that is worth keeping: it gave fewer bytes than it was given. */
  predicate Shrinks(attempts: Attempts, i: nat, input: seq<u8>) {
    i < |attempts| && attempts[i].Some? && |attempts[i].value| < |input|
  }

  /** What compressBytes returns for a non-empty input: no attempt is shorter.  Where no attempt shrinks the input it
      is the input itself, under mode 0; otherwise it is what the algorithm of its mode gave, the first of the shortest. */
  lemma CompressedIsShortest(input: seq<u8>, attempts: Attempts, unset: u8)
    requires input != [] && |attempts| < NUM_ALGORITHMS
    ensures var c := Compressed(input, attempts, unset);
            && (forall i :: 0 <= i < |attempts| && attempts[i].Some? ==> |c.bytes| <= |attempts[i].value|)
            && (c.mode == 0 <==> forall i :: 0 <= i < |attempts| ==> !Shrinks(attempts, i, input))
            && (c.mode == 0 ==> c.bytes == input)
            && (c.mode > 0 ==>
                  && Shrinks(attempts, c.mode - 1, input) && attempts[c.mode - 1] == Some(c.bytes)
                  && forall i :: 0 <= i < c.mode - 1 && attempts[i].Some? ==> |c.bytes| < |attempts[i].value|)
  {
    BestIsShortest(input, attempts, |attempts|);
    var best := Best(input, attempts, |attempts|);
    if best.Some? {
      assert Shrinks(attempts, best.value.mode - 1, input);
    } else {
      forall i | 0 <= i < |attempts|
        ensures !Shrinks(attempts, i, input)
      {
        assert attempts[i].None? || |attempts[i].value| >= |input|;
      }
    }
  }

  /** Whatever was chosen decodes to the input, in every buffer that is large enough, and is never longer. */
  lemma CompressedDecodes(external: Decoders, input: seq<u8>, attempts: Attempts, unset: u8)
    requires Honest(external, attempts, input)
    ensures var c := Compressed(input, attempts, unset);
            |c.bytes| <= |input| && Uncompress(external, c.mode, c.bytes, |input|) == Some(input)
            && (input != [] ==> Decodes(external, c.mode, c.bytes, input))
  {
    var c := Compressed(input, attempts, unset);
    if input != [] && c.mode != MODE_NONE {
      assert attempts[c.mode - 1] == Some(c.bytes);
      assert Decodes(external, c.mode, c.bytes, input);
    }
  }

  /** The loop over the algorithms. */
  method CompressBytes(input: seq<u8>, attempts: Attempts, unset: u8) returns (r: Chosen)
    requires |attempts| == NUM_ALGORITHMS - 1
    ensures r == Compressed(input, attempts, unset)
    ensures input != [] ==>
              (forall i :: 0 <= i < |attempts| && attempts[i].Some? ==> |r.bytes| <= |attempts[i].value|)
    ensures input != [] ==> if r.mode == 0 then r.bytes == input else attempts[r.mode - 1] == Some(r.bytes)
    ensures input == [] ==> r == Chosen([], unset)
  {
    if input != [] {
      CompressedIsShortest(input, attempts, unset);
    }
    if input == [] {
      return Chosen([], unset);
    }
    var best: Option<Chosen> := None;
    for i := 1 to NUM_ALGORITHMS
      invariant best == Best(input, attempts, i - 1)
    {
      if attempts[i - 1].Some? {
        var next := attempts[i - 1].value;
        if |next| < |input| && (best.None? || |next| < |best.value.bytes|) {
          best := Some(Chosen(next, i));
        }
      }
    }
    r := if best.None? then Chosen(input, MODE_NONE) else best.value;
  }

  /** packLZF gives the compressor a buffer of the input's own size, so that only shrinking output is kept. */
  method PackLzf(input: seq<u8>, htab: array<int>, external: Decoders) returns (r: Option<seq<u8>>)
    requires htab.Length == HASH_SIZE
    modifies htab
    ensures r.Some? ==> 0 < |r.value| < |input| && Decodes(external, MODE_LZF, r.value, input)
    ensures |input| >= 12 && (forall i :: 0 <= i < |input| ==> input[i] == input[0]) ==>
              r.Some? && |r.value| <= 11 + 3 * ((|input| - 7) / 264)
  {
    var into := new u8[|input|];
    var n := Compress(input, into, htab);
    if n == 0 {
      return None;
    }
    var s := into[..n];
    LzfDecodes(external, s, input);
    r := Some(s);
  }

  lemma LzfDecodes(external: Decoders, s: seq<u8>, input: seq<u8>)
    requires s != [] && input != [] && Means(s, input, |input|)
    ensures Decodes(external, MODE_LZF, s, input)
  {
    forall cap | cap >= |input|
      ensures Uncompress(external, MODE_LZF, s, cap) == Some(input)
    {
      RoundTrip(s, input, cap);
    }
  }
}
