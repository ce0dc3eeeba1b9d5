/** The LZF stream format (src/liblzf-1.6/lzf_c.c:75-81): what a stream of bytes means.

    A stream is a run of tokens.  A literal carries its bytes; a back reference repeats bytes of the output that
    were produced dist bytes earlier, and may reach into the bytes it is itself producing.
 */
module LzfFormat {
  import opened Bytes

  datatype Token =
    | Literal(run: seq<u8>)
    | BackRef(dist: nat, len: nat)

  /** The first token of a stream together with the number of stream bytes it takes. */
  datatype Parsed = Parsed(token: Token, used: nat)

  /** The three token forms; None when the stream ends inside a token. */
  function ParseToken(s: seq<u8>): (r: Option<Parsed>)
    requires s != []
    ensures r.Some? ==> 0 < r.value.used <= |s|
  {
    var ctrl: int := s[0];
    if ctrl < 32 then
      if |s| < ctrl + 2 then None else Some(Parsed(Literal(s[1..ctrl + 2]), ctrl + 2))
    else if ctrl / 32 < 7 then
      if |s| < 2 then None
      else Some(Parsed(BackRef(ctrl % 32 * 256 + s[1] as int + 1, ctrl / 32 + 2), 2))
    else
      if |s| < 3 then None
      else Some(Parsed(BackRef(ctrl % 32 * 256 + s[2] as int + 1, 7 + s[1] as int + 2), 3))
  }

  /** Repeats the byte dist places from the end, n times over; the source slides along with the growing output. */
  function CopyBack(o: seq<u8>, dist: nat, n: nat): (r: seq<u8>)
    requires 1 <= dist <= |o|
    ensures |r| == |o| + n && o <= r
    ensures forall i :: |o| <= i < |r| ==> r[i] == r[i - dist]
    decreases n
  {
    if n == 0 then o else CopyBack(o + [o[|o| - dist]], dist, n - 1)
  }

  /** The output after one token, or None if it would not fit in cap bytes or points before the output. */
  function Expand(t: Token, o: seq<u8>, cap: nat): (r: Option<seq<u8>>)
    ensures r.Some? ==> |r.value| <= cap
  {
    match t
    case Literal(run) => if |o| + |run| > cap then None else Some(o + run)
    case BackRef(dist, len) =>
      if |o| + len > cap || dist < 1 || dist > |o| then None else Some(CopyBack(o, dist, len))
  }

  /** The meaning of a stream: everything its tokens produce after the output o, in a buffer of cap bytes. */
  function Decode(s: seq<u8>, o: seq<u8>, cap: nat): (r: Option<seq<u8>>)
    decreases |s|
  {
    if s == [] then Some(o)
    else
      match ParseToken(s)
      case None => None
      case Some(p) =>
        match Expand(p.token, o, cap)
        case None => None
        case Some(o') => Decode(s[p.used..], o', cap)
  }

  lemma ParseTokenAppend(s: seq<u8>, t: seq<u8>)
    requires s != [] && ParseToken(s).Some?
    ensures ParseToken(s + t) == ParseToken(s)
    ensures (s + t)[ParseToken(s).value.used..] == s[ParseToken(s).value.used..] + t
  {
    assert (s + t)[0] == s[0];
    if s[0] < 32 {
      assert (s + t)[1..s[0] + 2] == s[1..s[0] + 2];
    }
  }

  /** A stream that decodes keeps its meaning as the front of a longer stream. */
  lemma {:induction false} DecodeAppend(s: seq<u8>, t: seq<u8>, o: seq<u8>, cap: nat)
    requires Decode(s, o, cap).Some?
    ensures Decode(s + t, o, cap) == Decode(t, Decode(s, o, cap).value, cap)
    decreases |s|
  {
    if s == [] {
      assert s + t == t;
    } else {
      var p := ParseToken(s).value;
      var o' := Expand(p.token, o, cap).value;
      ParseTokenAppend(s, t);
      DecodeAppend(s[p.used..], t, o', cap);
      assert Decode(s + t, o, cap) == Decode((s + t)[p.used..], o', cap);
    }
  }

  /** Decoding only ever adds to the output. */
  lemma {:induction false} DecodeExtends(s: seq<u8>, o: seq<u8>, cap: nat)
    requires Decode(s, o, cap).Some?
    ensures o <= Decode(s, o, cap).value
    ensures s != [] ==> |o| < |Decode(s, o, cap).value| <= cap
    decreases |s|
  {
    if s != [] {
      var p := ParseToken(s).value;
      DecodeExtends(s[p.used..], Expand(p.token, o, cap).value, cap);
    }
  }

  /** The buffer size matters only through being large enough. */
  lemma {:induction false} DecodeAnyCapacity(s: seq<u8>, o: seq<u8>, cap: nat, cap': nat)
    requires Decode(s, o, cap).Some?
    requires |Decode(s, o, cap).value| <= cap'
    ensures Decode(s, o, cap') == Decode(s, o, cap)
    decreases |s|
  {
    if s != [] {
      var p := ParseToken(s).value;
      var o' := Expand(p.token, o, cap).value;
      DecodeExtends(s[p.used..], o', cap);
      assert Expand(p.token, o, cap') == Some(o');
      DecodeAnyCapacity(s[p.used..], o', cap, cap');
    }
  }

  /** The bytes of a back reference, 2 for up to 8 bytes and 3 for up to 264: three bits of length, thirteen bits of
      distance less one, and the rest of the length in between.  They repeat what was produced that far back. */
  lemma ReferenceMeans(o: seq<u8>, dist: nat, len: nat, cap: nat, r: seq<u8>)
    requires 1 <= dist <= |o| && dist <= 8192 && 3 <= len <= 264 && |o| + len <= cap
    requires |r| == |o| + len && o <= r && forall k :: |o| <= k < |r| ==> r[k] == r[k - dist]
    ensures len <= 8 ==> Decode([32 * (len - 2) + (dist - 1) / 256, (dist - 1) % 256], o, cap) == Some(r)
    ensures len > 8 ==> Decode([224 + (dist - 1) / 256, len - 9, (dist - 1) % 256], o, cap) == Some(r)
  {
    CopyBackUnique(o, dist, len, r);
    var high, low := (dist - 1) / 256, (dist - 1) % 256;
    if len <= 8 {
      var t: seq<u8> := [32 * (len - 2) + high, low];
      assert (t[0] as int) / 32 == len - 2 && (t[0] as int) % 32 == high;
      assert ParseToken(t) == Some(Parsed(BackRef(dist, len), 2)) && t[2..] == [];
    } else {
      var t: seq<u8> := [224 + high, len - 9, low];
      assert (t[0] as int) / 32 == 7 && (t[0] as int) % 32 == high;
      assert ParseToken(t) == Some(Parsed(BackRef(dist, len), 3)) && t[3..] == [];
    }
  }

  /** A literal run of 1 to 32 bytes stands behind its length less one. */
  lemma LiteralMeans(o: seq<u8>, run: seq<u8>, cap: nat)
    requires 1 <= |run| <= 32 && |o| + |run| <= cap
    ensures Decode([|run| - 1] + run, o, cap) == Some(o + run)
  {
    var t := [|run| - 1] + run;
    assert t[1..|run| + 1] == run && t[|run| + 1..] == [];
    assert ParseToken(t) == Some(Parsed(Literal(run), |run| + 1));
  }

  /** The copy is the only extension of the output that repeats it with period dist, overlapping or not. */
  lemma {:induction false} CopyBackUnique(o: seq<u8>, dist: nat, n: nat, r: seq<u8>)
    requires 1 <= dist <= |o|
    requires |r| == |o| + n && o <= r
    requires forall k :: |o| <= k < |r| ==> r[k] == r[k - dist]
    ensures CopyBack(o, dist, n) == r
    decreases n
  {
    if n > 0 {
      assert r[|o|] == r[|o| - dist] == o[|o| - dist];
      CopyBackUnique(o + [r[|o|]], dist, n - 1, r);
    }
  }
}
