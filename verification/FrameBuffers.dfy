/** The end of packData on its output buffer (src/base/Extent.cpp:846-888): everything is written behind a moving
    cursor, and the digest is filled in last. */
module FrameBuffers {
  import opened Bytes
  import opened ExtentFrame
  import ExtentCodec

  /** Writes behind the cursor. */
  method Append(into: array<u8>, l: nat, b: seq<u8>) returns (l': nat)
    requires l + |b| <= into.Length
    modifies into
    ensures l' == l + |b| && into[..l'] == old(into[..l]) + b
  {
    Overwrite(into, l, b);
    l' := l + |b|;
  }

  /** Writes the part behind the cursor, and zeros up to the next multiple of four. */
  method AppendPadded(into: array<u8>, l: nat, b: seq<u8>) returns (l': nat)
    requires l % 4 == 0 && l + Up4(|b|) <= into.Length
    modifies into
    ensures l' == l + Up4(|b|) && l' % 4 == 0 && into[..l'] == old(into[..l]) + Padded(b)
  {
    ghost var front := into[..l];
    l' := Append(into, l, b);
    l' := Append(into, l', Zeros(Padding(|b|, 4)));
    assert front + b + Zeros(Padding(|b|, 4)) == front + Padded(b);
  }

  lemma WordsStepByStep(p: Parts)
    ensures Words(p) == [] + Enc(|p.fixed|, 4) + Enc(|p.variable|, 4) + Enc(p.nrecords, 4) + Enc(p.variableSize, 4)
                        + Enc(p.digest, 4) + Enc(p.hash, 4)
  {
  }

  /** The header: six words, four bytes, and the name. */
  method WriteHeader(p: Parts, into: array<u8>) returns (l: nat)
    requires p.Valid() && HeaderLength(|p.name|) <= into.Length
    modifies into
    ensures l == HeaderLength(|p.name|) && into[..l] == Header(p)
  {
    assert into[..0] == [];
    l := Append(into, 0, Enc(|p.fixed|, 4));
    l := Append(into, l, Enc(|p.variable|, 4));
    l := Append(into, l, Enc(p.nrecords, 4));
    l := Append(into, l, Enc(p.variableSize, 4));
    l := Append(into, l, Enc(p.digest, 4));
    l := Append(into, l, Enc(p.hash, 4));
    WordsStepByStep(p);
    l := WriteName(p, into, l);
  }

  method WriteName(p: Parts, into: array<u8>, l: nat) returns (l': nat)
    requires p.Valid() && HeaderLength(|p.name|) <= into.Length && l == 24 && into[..l] == Words(p)
    modifies into
    ensures l' == HeaderLength(|p.name|) && into[..l'] == Header(p)
  {
    l' := Append(into, l, [p.fixedMode, p.variableMode, |p.name|, 0]);
    l' := Append(into, l', p.name);
    l' := Append(into, l', Zeros(Padding(l', 4)));
  }

  /** The whole extent, and then the digest over everything else. */
  method WriteExtent(lib: ExtentCodec.Library, p: Parts) returns (into: array<u8>)
    requires lib.Valid() && p.Valid() && p.digest == 0
    ensures fresh(into) && into[..] == ExtentCodec.Seal(lib, p)
  {
    into := new u8[FrameLength(|p.fixed|, |p.variable|, |p.name|)];
    var l := WriteHeader(p, into);
    l := AppendPadded(into, l, p.fixed);
    l := AppendPadded(into, l, p.variable);
    assert into[..] == into[..l] == Frame(p);
    var d := lib.adler(Digested(into[..]));
    PutDigest(p, d);
    Overwrite(into, 16, Enc(d, 4));
  }

  lemma PutMiddle(x: seq<u8>, y: seq<u8>, y': seq<u8>, z: seq<u8>)
    requires |y| == |y'|
    ensures Put(x + y + z, |x|, y') == x + y' + z
  {
  }

  /** The four words in front of the digest. */
  function FrontWords(p: Parts): (w: seq<u8>)
    ensures |w| == 16
  {
    Enc(|p.fixed|, 4) + Enc(|p.variable|, 4) + Enc(p.nrecords, 4) + Enc(p.variableSize, 4)
  }

  lemma AroundDigest(p: Parts)
    requires p.Valid()
    ensures Frame(p) == FrontWords(p) + Enc(p.digest, 4) + (Enc(p.hash, 4) + Tail(p))
  {
    HeaderTail(p);
    var a, b, c, d := FrontWords(p), Enc(p.digest, 4), Enc(p.hash, 4), Tail(p);
    assert a + b + c + d == a + b + (c + d);
  }

  /** Storing the digest in the frame is framing with that digest. */
  lemma PutDigest(p: Parts, d: nat)
    requires p.Valid() && d < 0x1_0000_0000
    ensures Put(Frame(p), 16, Enc(d, 4)) == Frame(p.(digest := d))
  {
    AroundDigest(p);
    AroundDigest(p.(digest := d));
    PutMiddle(FrontWords(p), Enc(p.digest, 4), Enc(d, 4), Enc(p.hash, 4) + Tail(p));
  }
}
