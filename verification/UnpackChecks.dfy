/** What unpackData accepts (src/base/Extent.cpp:1274-1542): for every sequence of bytes, which conditions on them decide
    how it ends, in terms of the bytes themselves. */
module UnpackChecks {
  import opened Bytes
  import opened RecordFormat
  import opened StringPool
  import opened LengthWalk
  import opened ExtentCodec
  import RelativePacking
  import NullCompaction
  import Compression
  import ExtentFrame

  // ---------- the hash of the length words, for any pool ----------

  /** The length words that the walk from at meets in n turns, in that order. */
  ghost function WalkWords(pool: seq<u8>, at: int, n: nat): seq<u8>
    decreases n
  {
    if n == 0 || !Inside(pool, at) then [] else Get(pool, at, 4) + WalkWords(pool, After(pool, at), n - 1)
  }

  /** A walk that comes to the end hashes the words it meets in blocks of BATCH, wherever it goes. */
  lemma {:induction false} HashedInBlocks(lib: Library, pool: seq<u8>, at: int, turns: nat, seed: nat, batch: seq<u8>)
    requires |batch| < 4 * BATCH && |batch| % 4 == 0
    requires HashSizes(lib, pool, at, turns, seed, batch).Hashed?
    ensures HashSizes(lib, pool, at, turns, seed, batch)
         == Hashed(HashBlocks(lib, batch + WalkWords(pool, at, turns), seed))
    decreases turns
  {
    if at == |pool| {
      assert batch + [] == batch;
    } else {
      var next, batch' := After(pool, at), batch + Get(pool, at, 4);
      var rest := WalkWords(pool, next, turns - 1);
      assert WalkWords(pool, at, turns) == Get(pool, at, 4) + rest;
      assert batch + WalkWords(pool, at, turns) == batch' + rest;
      if |batch'| == 4 * BATCH {
        assert HashSizes(lib, pool, at, turns, seed, batch)
            == HashSizes(lib, pool, next, turns - 1, lib.hash(seed, batch'), []);
        HashedInBlocks(lib, pool, next, turns - 1, lib.hash(seed, batch'), []);
        OneMoreBlock(lib, batch', rest, seed);
      } else {
        assert HashSizes(lib, pool, at, turns, seed, batch) == HashSizes(lib, pool, next, turns - 1, seed, batch');
        HashedInBlocks(lib, pool, next, turns - 1, seed, batch');
      }
    }
  }

  // ---------- bytes that hold coded records and a pool ----------

  /** The stored bytes of the fixed part give these records. */
  ghost predicate HoldsRecords(lib: Library, t: RecordType, mode: u8, stored: seq<u8>, recs: seq<Record>)
    requires t.Valid() && AllReady(t, recs)
  {
    match Compression.Uncompress(lib.decoders, mode, stored, |recs| * t.size)
    case None => false
    case Some(flat) =>
      if t.nullCompact then NullCompaction.Uncompact(t, flat, 0, |recs|) == Some(recs) else flat == Flatten(recs)
  }

  /** The stored bytes of the variable part give this pool, whose first word is not stored. */
  ghost predicate HoldsPool(lib: Library, mode: u8, stored: seq<u8>, pool: seq<u8>) {
    && 4 <= |pool| && pool[..4] == [0, 0, 0, 0]
    && Compression.Uncompress(lib.decoders, mode, stored, |pool| - 4) == Some(pool[4..])
  }

  /** The two parts have the lengths in the header, and the padded lengths add up. */
  ghost predicate LengthsAddUp(b: seq<u8>, nameLength: nat) {
    && 26 < |b|
    && Dec(Get(b, 0, 4)) < 0x8000_0000 && Dec(Get(b, 4, 4)) < 0x8000_0000
    && |b| == ExtentFrame.FrameLength(Dec(Get(b, 0, 4)), Dec(Get(b, 4, 4)), nameLength)
  }

  ghost function FixedStored(b: seq<u8>, nameLength: nat): seq<u8>
    requires LengthsAddUp(b, nameLength)
  {
    Get(b, ExtentFrame.HeaderLength(nameLength), Dec(Get(b, 0, 4)))
  }

  ghost function VariableStored(b: seq<u8>, nameLength: nat): seq<u8>
    requires LengthsAddUp(b, nameLength)
  {
    Get(b, ExtentFrame.HeaderLength(nameLength) + ExtentFrame.Up4(Dec(Get(b, 0, 4))), Dec(Get(b, 4, 4)))
  }

  /** The bytes pass every check in front of the string lengths, and hold these coded records and this pool: the name and
      the digest are right, the lengths add up, and both parts uncompress to what the header announces. */
  ghost predicate Intact(lib: Library, t: RecordType, name: seq<u8>, b: seq<u8>, c: Coded)
    requires t.Valid()
  {
    && LengthsAddUp(b, |name|)
    && b[26] as int == |name| && b[28..28 + |name|] == name
    && Dec(Get(b, 16, 4)) == lib.adler(b[..16] + b[20..])
    && |c.recs| == Dec(Get(b, 8, 4)) && |c.pool| == Dec(Get(b, 12, 4))
    && AllReady(t, c.recs)
    && HoldsRecords(lib, t, b[24], FixedStored(b, |name|), c.recs)
    && HoldsPool(lib, b[25], VariableStored(b, |name|), c.pool)
  }

  /** The stored hash covers the coded records, the pool, and the length words as the walk meets them. */
  ghost predicate HashRight(lib: Library, b: seq<u8>, c: Coded)
    requires 24 <= |b|
  {
    Dec(Get(b, 20, 4))
      == HashBlocks(lib, WalkWords(c.pool, 4, |c.pool|), lib.hash(lib.hash(1972, Flatten(c.recs)), c.pool))
  }

  ghost predicate OffsetsSound(t: RecordType, c: Coded)
    requires AllReady(t, c.recs)
  {
    forall k, v :: 0 <= k < |c.recs| && v in t.vars ==> StringChecked(t, c.recs[k], c.pool, v)
  }

  ghost predicate ComesToEnd(pool: seq<u8>) {
    exists n: nat :: Turns(pool, 4, n) == |pool|
  }

  /** It leaves the pool, or its last three bytes, with an offset below the end. */
  ghost predicate LeavesElsewhere(pool: seq<u8>) {
    !StaysInside(pool, 4) && forall n: nat :: Turns(pool, 4, n) < |pool|
  }

  /** The bytes pass all checks. */
  ghost predicate Accepted(lib: Library, t: RecordType, name: seq<u8>, b: seq<u8>, c: Coded)
    requires t.Valid()
  {
    Intact(lib, t, name, b, c) && ComesToEnd(c.pool) && HashRight(lib, b, c) && OffsetsSound(t, c)
  }

  // ---------- the outcome ----------

  lemma {:induction false} FlattenChunk(flat: seq<u8>, size: nat, n: nat)
    requires |flat| == n * size
    ensures Flatten(Chunk(flat, size, n)) == flat
    decreases n
  {
    if n > 0 {
      assert n * size == size + (n - 1) * size;
      FlattenChunk(flat[size..], size, n - 1);
      var c := Chunk(flat, size, n);
      assert c[0] == flat[..size] && c[1..] == Chunk(flat[size..], size, n - 1);
    } else {
      assert flat == [];
    }
  }

  lemma FixedDecodes(lib: Library, t: RecordType, mode: u8, stored: seq<u8>, n: nat, recs: seq<Record>)
    requires t.Valid() && AllReady(t, recs) && |recs| == n
    ensures HoldsRecords(lib, t, mode, stored, recs) <==>
              var u := Compression.Uncompress(lib.decoders, mode, stored, n * t.size);
              u.Some? && FixedDecoded(t, n, u.value) == Some(recs)
  {
    var u := Compression.Uncompress(lib.decoders, mode, stored, n * t.size);
    if u.Some? && !t.nullCompact {
      ChunkFlatten(recs, t.size);
      if |u.value| == n * t.size {
        FlattenChunk(u.value, t.size, n);
      }
    }
  }

  lemma ParsedParts(b: seq<u8>, name: seq<u8>)
    ensures ExtentFrame.Parse(b).Some? && ExtentFrame.Parse(b).value.name == name <==>
              LengthsAddUp(b, |name|) && b[26] as int == |name| && b[28..28 + |name|] == name
    ensures LengthsAddUp(b, |name|) && b[26] as int == |name| && b[28..28 + |name|] == name ==>
              ExtentFrame.Parse(b).value
              == ExtentFrame.Parts(FixedStored(b, |name|), VariableStored(b, |name|), Dec(Get(b, 8, 4)), Dec(Get(b, 12, 4)),
                                   Dec(Get(b, 16, 4)), Dec(Get(b, 20, 4)), b[24], b[25], name)
  {
  }

  /** Behind the name and the digest, all that is left is Disassemble and Decode. */
  lemma CheckedFront(lib: Library, t: RecordType, name: seq<u8>, b: seq<u8>)
    requires lib.Valid() && t.Valid()
    ensures
      if LengthsAddUp(b, |name|) && b[26] as int == |name| && b[28..28 + |name|] == name
         && Dec(Get(b, 16, 4)) == lib.adler(b[..16] + b[20..])
      then
        ExtentFrame.Parse(b).Some? && UnpackData(lib, t, name, b) == Unpacked(lib, t, ExtentFrame.Parse(b).value)
      else UnpackData(lib, t, name, b) == Refused
  {
    ParsedParts(b, name);
  }

  /** unpackData behind the name and the digest. */
  ghost function Unpacked(lib: Library, t: RecordType, p: ExtentFrame.Parts): Ending<Extent>
    requires t.Valid()
  {
    match Disassemble(lib, t, p)
    case Refused => Refused
    case ReadsOutside => ReadsOutside
    case NeverEnds => NeverEnds
    case Done(c) => if StringsChecked(t, c.recs, c.pool) then Done(Decode(t, c).value) else Refused
  }

  /** The parts hold these records and this pool. */
  ghost predicate Holds(lib: Library, t: RecordType, p: ExtentFrame.Parts, c: Coded)
    requires t.Valid()
  {
    && |c.recs| == p.nrecords && |c.pool| == p.variableSize && AllReady(t, c.recs)
    && HoldsRecords(lib, t, p.fixedMode, p.fixed, c.recs)
    && HoldsPool(lib, p.variableMode, p.variable, c.pool)
  }

  /** Without such records and pool, the parts are refused. */
  lemma PartsHold(lib: Library, t: RecordType, p: ExtentFrame.Parts) returns (c: Coded)
    requires t.Valid() && Disassemble(lib, t, p) != Refused
    ensures Holds(lib, t, p, c)
  {
    var recs := FixedDecoded(t, p.nrecords,
                             Compression.Uncompress(lib.decoders, p.fixedMode, p.fixed, p.nrecords * t.size).value).value;
    var v := Compression.Uncompress(lib.decoders, p.variableMode, p.variable, p.variableSize - 4).value;
    c := Coded(recs, Zeros(4) + v);
    FixedDecodes(lib, t, p.fixedMode, p.fixed, p.nrecords, recs);
    assert c.pool[4..] == v;
  }

  lemma HeldParts(lib: Library, t: RecordType, p: ExtentFrame.Parts, c: Coded)
    requires t.Valid() && Holds(lib, t, p, c)
    ensures Disassemble(lib, t, p)
         == match CheckHash(lib, Flatten(c.recs), c.pool)
            case PastEnd => Refused
            case Outside => ReadsOutside
            case Endless => NeverEnds
            case Hashed(hash) => if hash != p.hash then Refused else Done(c)
  {
    FixedDecodes(lib, t, p.fixedMode, p.fixed, p.nrecords, c.recs);
    assert c.pool == Zeros(4) + c.pool[4..];
  }

  lemma WalkHash(lib: Library, pool: seq<u8>, seed: nat)
    requires HashSizes(lib, pool, 4, |pool|, seed, []).Hashed?
    ensures HashSizes(lib, pool, 4, |pool|, seed, []).hash == HashBlocks(lib, WalkWords(pool, 4, |pool|), seed)
  {
    HashedInBlocks(lib, pool, 4, |pool|, seed, []);
    assert [] + WalkWords(pool, 4, |pool|) == WalkWords(pool, 4, |pool|);
  }

  lemma WalkOutcome(lib: Library, pool: seq<u8>, seed: nat)
    ensures var h := HashSizes(lib, pool, 4, |pool|, seed, []);
            && (h.Endless? <==> StaysInside(pool, 4))
            && (h.Hashed? <==> ComesToEnd(pool))
            && (h.Outside? <==> LeavesElsewhere(pool))
  {
    DecidedByPlace(lib, pool, 4, |pool|, seed, []);
    Decided(pool, 4);
    forall n: nat | !Inside(pool, Turns(pool, 4, n))
      ensures Turns(pool, 4, |pool|) == Turns(pool, 4, n)
    {
      StoppedAlike(pool, 4, n, |pool|);
    }
  }

  /** How the walk over the length words decides, with its hash as the blocks of the words it meets. */
  lemma WalkDecides(lib: Library, c: Coded, h: Walk)
    requires 4 <= |c.pool| && h == CheckHash(lib, Flatten(c.recs), c.pool)
    ensures h.Endless? <==> StaysInside(c.pool, 4)
    ensures h.Hashed? <==> ComesToEnd(c.pool)
    ensures h.Outside? <==> LeavesElsewhere(c.pool)
    ensures h.Hashed? ==>
      h.hash == HashBlocks(lib, WalkWords(c.pool, 4, |c.pool|), lib.hash(lib.hash(1972, Flatten(c.recs)), c.pool))
  {
    var seed := lib.hash(lib.hash(1972, Flatten(c.recs)), c.pool);
    WalkOutcome(lib, c.pool, seed);
    if h.Hashed? {
      WalkHash(lib, c.pool, seed);
    }
  }

  /** How unpackData ends on bytes that are intact, for each of the four ends: for ever if the walk over the length words
      stays in the pool for ever, reading outside if it leaves the pool anywhere but at or behind its end, and with a
      value if it comes exactly to the end, the hash is right and all offsets are sound.  The value is the coded records
      with relative packing undone, and the pool. */
  lemma UnpackIntact(lib: Library, t: RecordType, name: seq<u8>, b: seq<u8>, c: Coded)
    requires lib.Valid() && t.Valid() && Intact(lib, t, name, b, c)
    ensures var r := UnpackData(lib, t, name, b);
            && (r.NeverEnds? <==> StaysInside(c.pool, 4))
            && (r.ReadsOutside? <==> LeavesElsewhere(c.pool))
            && (r.Done? <==> Accepted(lib, t, name, b, c))
            && (r.Done? ==>
                  r.value == Extent(RelativePacking.UnpackRecords(t, c.recs, RelativePacking.Start(t.selfs)), c.pool))
  {
    ParsedParts(b, name);
    CheckedFront(lib, t, name, b);
    var p := ExtentFrame.Parse(b).value;
    HeldParts(lib, t, p, c);
    var h := CheckHash(lib, Flatten(c.recs), c.pool);
    WalkDecides(lib, c, h);
    assert StringsChecked(t, c.recs, c.pool) <==> OffsetsSound(t, c);
  }

  /** All other bytes are refused: whatever unpackData does not refuse is intact. */
  lemma RefusedUnlessIntact(lib: Library, t: RecordType, name: seq<u8>, b: seq<u8>) returns (c: Coded)
    requires lib.Valid() && t.Valid() && UnpackData(lib, t, name, b) != Refused
    ensures Intact(lib, t, name, b, c)
  {
    ParsedParts(b, name);
    CheckedFront(lib, t, name, b);
    c := PartsHold(lib, t, ExtentFrame.Parse(b).value);
  }

  /** For all bytes: unpackData returns exactly on those that pass every check, digest and hash among them. */
  lemma UnpackAccepts(lib: Library, t: RecordType, name: seq<u8>, b: seq<u8>)
    requires lib.Valid() && t.Valid()
    ensures UnpackData(lib, t, name, b).Done? <==> exists c: Coded :: Accepted(lib, t, name, b, c)
  {
    if UnpackData(lib, t, name, b).Done? {
      var c := RefusedUnlessIntact(lib, t, name, b);
      UnpackIntact(lib, t, name, b, c);
    }
    if c: Coded :| Accepted(lib, t, name, b, c) {
      UnpackIntact(lib, t, name, b, c);
    }
  }

  /** A wrong digest is refused, whatever else the bytes are. */
  lemma WrongDigest(lib: Library, t: RecordType, name: seq<u8>, b: seq<u8>)
    requires lib.Valid() && t.Valid() && 20 <= |b| && Dec(Get(b, 16, 4)) != lib.adler(b[..16] + b[20..])
    ensures UnpackData(lib, t, name, b) == Refused
  {
    CheckedFront(lib, t, name, b);
  }

  // ---------- the check words of accepted bytes ----------

  lemma SameOutside(b: seq<u8>, b': seq<u8>, o: nat, n: nat)
    requires |b'| == |b| >= 24 && b'[..16] == b[..16] && b'[24..] == b[24..]
    requires o + n <= |b| && (o + n <= 16 || 24 <= o)
    ensures Get(b', o, n) == Get(b, o, n)
  {
    if o + n <= 16 {
      SliceSlice(b, 0, 16, o, o + n);
      SliceSlice(b', 0, 16, o, o + n);
      assert b[0..16] == b[..16] && b'[0..16] == b'[..16];
    } else {
      SliceSlice(b, 24, |b|, o - 24, o - 24 + n);
      SliceSlice(b', 24, |b|, o - 24, o - 24 + n);
      assert b[24..|b|] == b[24..] && b'[24..|b|] == b'[24..];
    }
  }

  /** Bytes that agree but for the two check words are parsed alike. */
  lemma ParsedAlike(b: seq<u8>, b': seq<u8>, name: seq<u8>)
    requires |b'| == |b| >= 24 && b'[..16] == b[..16] && b'[24..] == b[24..]
    requires LengthsAddUp(b, |name|) && b[26] as int == |name| && b[28..28 + |name|] == name
    ensures LengthsAddUp(b', |name|) && b'[26] as int == |name| && b'[28..28 + |name|] == name
    ensures ExtentFrame.Parse(b').Some? && ExtentFrame.Parse(b).Some?
    ensures ExtentFrame.Parse(b').value
         == ExtentFrame.Parse(b).value.(digest := Dec(Get(b', 16, 4)), hash := Dec(Get(b', 20, 4)))
  {
    SameOutside(b, b', 0, 4);
    SameOutside(b, b', 4, 4);
    SameOutside(b, b', 8, 4);
    SameOutside(b, b', 12, 4);
    assert b'[24] == b'[24..][0] && b'[25] == b'[24..][1] && b'[26] == b'[24..][2];
    assert b[24] == b[24..][0] && b[25] == b[24..][1] && b[26] == b[24..][2];
    SameOutside(b, b', 28, |name|);
    var h, fixed := ExtentFrame.HeaderLength(|name|), Dec(Get(b, 0, 4));
    SameOutside(b, b', h, fixed);
    SameOutside(b, b', h + ExtentFrame.Up4(fixed), Dec(Get(b, 4, 4)));
    ParsedParts(b, name);
    ParsedParts(b', name);
  }

  /** With the same hash word, another digest word is a wrong one. */
  lemma OtherDigest(lib: Library, t: RecordType, name: seq<u8>, b: seq<u8>, b': seq<u8>)
    requires lib.Valid() && t.Valid() && |b'| == |b| >= 24 && b'[..16] == b[..16] && b'[20..] == b[20..] && b' != b
    requires Dec(Get(b, 16, 4)) == lib.adler(b[..16] + b[20..])
    ensures UnpackData(lib, t, name, b') == Refused
  {
    EncDec(Get(b, 16, 4));
    EncDec(Get(b', 16, 4));
    assert b == b[..16] + Get(b, 16, 4) + b[20..] && b' == b'[..16] + Get(b', 16, 4) + b'[20..];
    WrongDigest(lib, t, name, b');
  }

  /** With another hash word, the bytes are refused, under the digest that fits them too. */
  lemma OtherHash(lib: Library, t: RecordType, name: seq<u8>, b: seq<u8>, b': seq<u8>, c: Coded)
    requires lib.Valid() && t.Valid() && |b'| == |b| >= 24 && b'[..16] == b[..16] && b'[24..] == b[24..]
    requires Accepted(lib, t, name, b, c) && Dec(Get(b', 20, 4)) != Dec(Get(b, 20, 4))
    ensures UnpackData(lib, t, name, b') == Refused
  {
    ParsedAlike(b, b', name);
    ParsedParts(b, name);
    var p := ExtentFrame.Parse(b').value;
    CheckedFront(lib, t, name, b');
    HeldParts(lib, t, p, c);
    WalkDecides(lib, c, CheckHash(lib, Flatten(c.recs), c.pool));
  }

  lemma SameFrom20(b: seq<u8>, b': seq<u8>)
    requires |b'| == |b| >= 24 && b'[24..] == b[24..] && Dec(Get(b', 20, 4)) == Dec(Get(b, 20, 4))
    ensures b'[20..] == b[20..]
  {
    EncDec(Get(b, 20, 4));
    EncDec(Get(b', 20, 4));
    assert b'[20..] == Get(b', 20, 4) + b'[24..] && b[20..] == Get(b, 20, 4) + b[24..];
  }

  /** Changing nothing but the stored digest and hash of accepted bytes always has them refused. */
  lemma CheckWordsMatter(lib: Library, t: RecordType, name: seq<u8>, b: seq<u8>, b': seq<u8>)
    requires lib.Valid() && t.Valid() && UnpackData(lib, t, name, b).Done?
    requires |b'| == |b| && 24 <= |b| && b'[..16] == b[..16] && b'[24..] == b[24..] && b' != b
    ensures UnpackData(lib, t, name, b') == Refused
  {
    var c := RefusedUnlessIntact(lib, t, name, b);
    UnpackIntact(lib, t, name, b, c);
    if Dec(Get(b', 20, 4)) != Dec(Get(b, 20, 4)) {
      OtherHash(lib, t, name, b, b', c);
    } else {
      SameFrom20(b, b');
      OtherDigest(lib, t, name, b, b');
    }
  }
}
