/** The LZF decompressor (src/liblzf-1.6/lzf_d.c, with CHECK_INPUT) and the round trip through both directions. */
module LzfDecompressor {
  import opened Bytes
  import opened LzfFormat
  import opened LzfHash
  import opened LzfCompressor

  /** Copies a literal run of the stream to the output. */
  method CopyLiteral(input: seq<u8>, ip: nat, len: nat, out: array<u8>, op: nat)
    requires ip + len <= |input| && op + len <= out.Length
    modifies out
    ensures out[..op + len] == old(out[..op]) + input[ip..ip + len]
  {
    for i := 0 to len
      invariant out[..op + i] == old(out[..op]) + input[ip..ip + i]
    {
      out[op + i] := input[ip + i];
    }
  }

  /** Copies len bytes from dist places back, one at a time, so that it may read what it has just written. */
  method CopyReference(dist: nat, len: nat, out: array<u8>, op: nat)
    requires 1 <= dist <= op && op + len <= out.Length
    modifies out
    ensures out[..op + len] == CopyBack(old(out[..op]), dist, len)
  {
    for i := 0 to len
      invariant forall k :: 0 <= k < op ==> out[k] == old(out[k])
      invariant forall k :: op <= k < op + i ==> out[k] == out[k - dist]
    {
      out[op + i] := out[op + i - dist];
    }
    CopyBackUnique(old(out[..op]), dist, len, out[..op + len]);
  }

  /** One literal token at ip: false when it does not fit in the output or runs past the stream. */
  method RunLiteral(input: seq<u8>, ip: nat, out: array<u8>, op: nat) returns (ok: bool, ip': nat, op': nat)
    requires ip < |input| && input[ip] < 32 && op <= out.Length
    modifies out
    ensures ok <==> op + input[ip] + 1 <= out.Length && ip + input[ip] + 2 <= |input|
    ensures ok ==> ip' == ip + input[ip] + 2 && op' == op + input[ip] + 1
    ensures ok ==> out[..op'] == old(out[..op]) + input[ip + 1..ip']
  {
    var len: int := input[ip];
    len := len + 1;
    ip', op' := ip + 1, op;
    if op + len > out.Length {
      return false, ip', op';
    }
    if ip' + len > |input| {
      return false, ip', op';
    }
    CopyLiteral(input, ip', len, out, op);
    ok, ip', op' := true, ip' + len, op + len;
  }

  /** One back reference at ip: false when it is cut short, does not fit, or points before the output. */
  method RunReference(input: seq<u8>, ip: nat, out: array<u8>, op: nat) returns (ok: bool, ip': nat, op': nat)
    requires ip < |input| && input[ip] >= 32 && op <= out.Length
    modifies out
    ensures ok ==> ParseToken(input[ip..]).Some? && op <= op' <= out.Length
    ensures ok ==> Expand(ParseToken(input[ip..]).value.token, old(out[..op]), out.Length) == Some(out[..op'])
    ensures ok ==> ip' == ip + ParseToken(input[ip..]).value.used
    ensures !ok && ParseToken(input[ip..]).Some? ==>
      Expand(ParseToken(input[ip..]).value.token, old(out[..op]), out.Length) == None
  {
    var ctrl: int := input[ip];
    var len := ctrl / 32;
    var back := ctrl % 32 * 256 + 1;
    ip', op' := ip + 1, op;
    if ip' >= |input| {
      return false, ip', op';
    }
    if len == 7 {
      len := len + input[ip'] as int;
      ip' := ip' + 1;
      if ip' >= |input| {
        return false, ip', op';
      }
    }
    back := back + input[ip'] as int;
    ip' := ip' + 1;
    ghost var s := input[ip..];
    assert ParseToken(s) == Some(Parsed(BackRef(back, len + 2), ip' - ip));
    if op + len + 2 > out.Length {
      return false, ip', op';
    }
    if back > op {
      return false, ip', op';
    }
    CopyReference(back, len + 2, out, op);
    ok, op' := true, op + len + 2;
  }

  /** Decodes input into out and returns the number of bytes produced, or 0 for every kind of bad stream.
      The source reads the first control byte unconditionally, so it demands a non-empty stream. */
  method Decompress(input: seq<u8>, out: array<u8>) returns (n: nat)
    requires input != []
    modifies out
    ensures match Decode(input, [], out.Length)
            case None => n == 0
            case Some(text) => n == |text| > 0 && n <= out.Length && out[..n] == text
  {
    var ip: nat, op: nat := 0, 0;
    DecodeNonEmpty(input, out.Length);
    ghost var meaning := Decode(input, [], out.Length);
    assert input[0..] == input;
    var ok := true;
    while ip < |input|
      invariant ip <= |input| && op <= out.Length
      invariant Decode(input[ip..], out[..op], out.Length) == meaning
    {
      ghost var s, o := input[ip..], out[..op];
      if input[ip] < 32 {
        LiteralToken(input, ip);
        ok, ip, op := RunLiteral(input, ip, out, op);
      } else {
        ok, ip, op := RunReference(input, ip, out, op);
      }
      if !ok {
        assert Decode(s, o, out.Length) == None;
        return 0;
      }
      assert s[ParseToken(s).value.used..] == input[ip..];
      assert Expand(ParseToken(s).value.token, o, out.Length) == Some(out[..op]);
    }
    n := op;
  }

  lemma LiteralToken(input: seq<u8>, ip: nat)
    requires ip < |input| && input[ip] < 32
    ensures ParseToken(input[ip..]) == if ip + input[ip] + 2 > |input| then None
                                       else Some(Parsed(Literal(input[ip + 1..ip + input[ip] + 2]), input[ip] + 2))
  {
    if ip + input[ip] + 2 <= |input| {
      assert input[ip..][1..input[ip] + 2] == input[ip + 1..ip + input[ip] + 2];
    }
  }

  lemma DecodeNonEmpty(s: seq<u8>, cap: nat)
    requires s != []
    ensures Decode(s, [], cap).Some? ==> 0 < |Decode(s, [], cap).value| <= cap
  {
    if Decode(s, [], cap).Some? {
      DecodeExtends(s, [], cap);
    }
  }

  /** The round trip: what Compress leaves in its buffer, Decompress turns back into the input, for every buffer
      that is large enough. */
  lemma RoundTrip(stream: seq<u8>, input: seq<u8>, cap: nat)
    requires Means(stream, input, |input|)
    requires cap >= |input|
    ensures Decode(stream, [], cap) == Some(input)
  {
    assert input[..|input|] == input;
    DecodeAnyCapacity(stream, [], |input|, cap);
  }

  method CompressThenDecompress(input: seq<u8>, packed: array<u8>, htab: array<int>, unpacked: array<u8>)
    returns (n: nat, m: nat)
    requires htab.Length == HASH_SIZE && packed != unpacked
    requires unpacked.Length >= |input|
    modifies packed, htab, unpacked
    ensures n > 0 ==> n < packed.Length
    ensures n > 0 ==> m == |input| && unpacked[..m] == input
  {
    m := 0;
    n := Compress(input, packed, htab);
    if n > 0 {
      RoundTrip(packed[..n], input, unpacked.Length);
      m := Decompress(packed[..n], unpacked);
    }
  }
}
