/** The bytes of one packed extent (src/base/Extent.cpp:846-888): six header words, four header bytes, the type name,
    and the two compressed parts, each padded to a multiple of four; and reading them back
    (src/base/Extent.cpp:1278-1321). */
module ExtentFrame {
  import opened Bytes

  const MAX_PACKED := 512 * 1024 * 1024
  const HEADER_FIXED := 28

  datatype Parts = Parts(
    fixed: seq<u8>,
    variable: seq<u8>,
    nrecords: nat,
    variableSize: nat,
    digest: nat,
    hash: nat,
    fixedMode: u8,
    variableMode: u8,
    name: seq<u8>)
  {
    predicate Valid() {
      && |fixed| < MAX_PACKED && |variable| < MAX_PACKED
      && nrecords < 0x8000_0000 && variableSize < 0x8000_0000
      && digest < 0x1_0000_0000 && hash < 0x1_0000_0000
      && 1 <= |name| <= 255
    }
  }

  /** The length of a part with its padding. */
  function Up4(n: nat): (r: nat)
    ensures n <= r < n + 4 && r % 4 == 0
  {
    n + Padding(n, 4)
  }

  function HeaderLength(nameLength: nat): nat {
    Up4(HEADER_FIXED + nameLength)
  }

  /** The total length of a packed extent with parts of these lengths. */
  function FrameLength(fixed: nat, variable: nat, nameLength: nat): nat {
    HeaderLength(nameLength) + Up4(fixed) + Up4(variable)
  }

  function Padded(b: seq<u8>): (r: seq<u8>)
    ensures |r| == Up4(|b|) && b <= r
    ensures forall i :: |b| <= i < |r| ==> r[i] == 0
  {
    b + Zeros(Padding(|b|, 4))
  }

  function Words(p: Parts): (w: seq<u8>)
    ensures |w| == 24
  {
    Enc(|p.fixed|, 4) + Enc(|p.variable|, 4) + Enc(p.nrecords, 4) + Enc(p.variableSize, 4)
      + Enc(p.digest, 4) + Enc(p.hash, 4)
  }

  function Header(p: Parts): (h: seq<u8>)
    requires p.Valid()
    ensures |h| == HeaderLength(|p.name|)
  {
    Padded(Words(p) + [p.fixedMode, p.variableMode, |p.name|, 0] + p.name)
  }

  function Frame(p: Parts): (b: seq<u8>)
    requires p.Valid()
    ensures |b| == FrameLength(|p.fixed|, |p.variable|, |p.name|)
  {
    Header(p) + Padded(p.fixed) + Padded(p.variable)
  }

  /** Everything the digest covers: all bytes but the digest itself. */
  function Digested(b: seq<u8>): seq<u8>
    requires |b| >= 20
  {
    b[..16] + b[20..]
  }

  /** getPackedExtentType: the type name in the header, or None when the bytes are too short. */
  function TypeName(b: seq<u8>): Option<seq<u8>> {
    if |b| <= 26 || |b| < HeaderLength(b[26]) then None
    else Some(b[HEADER_FIXED..HEADER_FIXED + b[26] as int])
  }

  /** Reading the frame back: None when the lengths do not add up. */
  function Parse(b: seq<u8>): (r: Option<Parts>) {
    if TypeName(b).None? then None
    else
      var fixed, variable := Dec(Get(b, 0, 4)), Dec(Get(b, 4, 4));
      var h := HeaderLength(b[26]);
      if fixed >= 0x8000_0000 || variable >= 0x8000_0000 || h + Up4(fixed) + Up4(variable) != |b| then None
      else
        Some(Parts(
               b[h..h + fixed],
               b[h + Up4(fixed)..h + Up4(fixed) + variable],
               Dec(Get(b, 8, 4)), Dec(Get(b, 12, 4)), Dec(Get(b, 16, 4)), Dec(Get(b, 20, 4)),
               b[24], b[25], TypeName(b).value))
  }

  lemma WordsRead(p: Parts)
    requires p.Valid()
    ensures var w := Words(p);
            && Dec(w[0..4]) == |p.fixed| && Dec(w[4..8]) == |p.variable|
            && Dec(w[8..12]) == p.nrecords && Dec(w[12..16]) == p.variableSize
            && Dec(w[16..20]) == p.digest && Dec(w[20..24]) == p.hash
  {
    Pow256Values();
    var w := Words(p);
    assert w[0..4] == Enc(|p.fixed|, 4);
    assert w[4..8] == Enc(|p.variable|, 4);
    assert w[8..12] == Enc(p.nrecords, 4);
    assert w[12..16] == Enc(p.variableSize, 4);
    assert w[16..20] == Enc(p.digest, 4);
    assert w[20..24] == Enc(p.hash, 4);
    DecEnc(|p.fixed|, 4);
    DecEnc(|p.variable|, 4);
    DecEnc(p.nrecords, 4);
    DecEnc(p.variableSize, 4);
    DecEnc(p.digest, 4);
    DecEnc(p.hash, 4);
  }

  /** The header words and bytes stand where Parse looks for them. */
  lemma HeaderRead(p: Parts)
    requires p.Valid()
    ensures var b := Frame(p);
            && Header(p) <= b
            && b[..24] == Words(p)
            && b[24] == p.fixedMode && b[25] == p.variableMode && b[26] == |p.name|
            && b[HEADER_FIXED..HEADER_FIXED + |p.name|] == p.name
  {
    var b, h := Frame(p), Header(p);
    assert h <= h + Padded(p.fixed) <= b;
    var start := Words(p) + [p.fixedMode, p.variableMode, |p.name|, 0];
    assert Words(p) <= start <= start + p.name <= h;
    SliceBehind(start, p.name, b);
    assert forall i :: 0 <= i < |start| ==> b[i] == start[i];
  }

  lemma PartsRead(p: Parts)
    requires p.Valid()
    ensures var b, h := Frame(p), HeaderLength(|p.name|);
            && b[h..h + |p.fixed|] == p.fixed
            && b[h + Up4(|p.fixed|)..h + Up4(|p.fixed|) + |p.variable|] == p.variable
  {
    var b, h := Frame(p), Header(p);
    assert h + p.fixed <= h + Padded(p.fixed) <= b;
    SliceBehind(h, p.fixed, b);
    assert h + Padded(p.fixed) + p.variable <= b;
    SliceBehind(h + Padded(p.fixed), p.variable, b);
  }

  lemma WordAt(b: seq<u8>, w: seq<u8>, off: nat)
    requires |w| == 24 <= |b| && b[..24] == w && off + 4 <= 24
    ensures Get(b, off, 4) == w[off..off + 4]
  {
    SliceSlice(b, 0, 24, off, off + 4);
    assert b[0..24] == b[..24];
  }

  lemma FrameWordsRead(p: Parts)
    requires p.Valid()
    ensures var b := Frame(p);
            && Dec(Get(b, 0, 4)) == |p.fixed| && Dec(Get(b, 4, 4)) == |p.variable|
            && Dec(Get(b, 8, 4)) == p.nrecords && Dec(Get(b, 12, 4)) == p.variableSize
            && Dec(Get(b, 16, 4)) == p.digest && Dec(Get(b, 20, 4)) == p.hash
  {
    var b, w := Frame(p), Words(p);
    HeaderRead(p);
    WordsRead(p);
    WordAt(b, w, 0);
    WordAt(b, w, 4);
    WordAt(b, w, 8);
    WordAt(b, w, 12);
    WordAt(b, w, 16);
    WordAt(b, w, 20);
  }

  lemma NameRead(p: Parts)
    requires p.Valid()
    ensures TypeName(Frame(p)) == Some(p.name)
  {
    HeaderRead(p);
  }

  /** Reading a frame gives back all of its parts. */
  lemma ParseFrame(p: Parts)
    requires p.Valid()
    ensures Parse(Frame(p)) == Some(p)
  {
    HeaderRead(p);
    NameRead(p);
    FrameWordsRead(p);
    PartsRead(p);
  }

  /** The digest covers the same bytes whatever digest is stored. */
  lemma DigestedSame(p: Parts, d: nat)
    requires p.Valid() && d < 0x1_0000_0000
    ensures Digested(Frame(p.(digest := d))) == Digested(Frame(p))
  {
    var q := p.(digest := d);
    HeaderTail(p);
    HeaderTail(q);
    WordsAround(p);
    WordsAround(q);
    DigestedParts(Words(p), Tail(p));
    DigestedParts(Words(q), Tail(q));
    assert Tail(q) == Tail(p);
  }

  /** The words in front of the digest and the one behind it. */
  lemma WordsAround(p: Parts)
    ensures Words(p)[..16] == Enc(|p.fixed|, 4) + Enc(|p.variable|, 4) + Enc(p.nrecords, 4) + Enc(p.variableSize, 4)
    ensures Words(p)[20..] == Enc(p.hash, 4)
  {
  }

  lemma DigestedParts(words: seq<u8>, tail: seq<u8>)
    requires |words| == 24
    ensures Digested(words + tail) == words[..16] + (words[20..] + tail)
  {
    assert (words + tail)[..16] == words[..16] && (words + tail)[20..] == words[20..] + tail;
  }

  lemma HeaderTail(p: Parts)
    requires p.Valid()
    ensures Frame(p) == Words(p) + Tail(p)
  {
    Regroup(Words(p), [p.fixedMode, p.variableMode, |p.name|, 0], p.name, Zeros(Padding(HEADER_FIXED + |p.name|, 4)),
            Padded(p.fixed), Padded(p.variable));
  }

  lemma Regroup(w: seq<u8>, m: seq<u8>, n: seq<u8>, z: seq<u8>, f: seq<u8>, v: seq<u8>)
    ensures w + m + n + z + f + v == w + (m + n + z + f + v)
  {
  }

  function Tail(p: Parts): seq<u8>
    requires p.Valid()
  {
    [p.fixedMode, p.variableMode, |p.name|, 0] + p.name + Zeros(Padding(HEADER_FIXED + |p.name|, 4))
      + Padded(p.fixed) + Padded(p.variable)
  }
}
