/** packData and unpackData with their buffers (src/base/Extent.cpp:578-896, 1274-1542): the stages one after the other,
    each on what the one before left, proved to compute what ExtentCodec specifies. */
module ExtentPacker {
  import opened Bytes
  import opened RecordFormat
  import opened ExtentCodec
  import RelativePacking
  import Compression
  import ExtentFrame
  import ExtentBuffers
  import NullBuffers
  import NullCompaction
  import FrameBuffers

  method CopyOf(b: seq<u8>) returns (a: array<u8>)
    ensures fresh(a) && a[..] == b
  {
    a := new u8[|b|](i requires 0 <= i < |b| => b[i]);
  }

  /** The fixed part as compression gets it, from the coded records in fixedCoded. */
  method FixedPart(t: RecordType, fixedCoded: array<u8>, ghost recs: seq<Record>) returns (fixed: seq<u8>)
    requires t.Valid() && t.size > 0 && AllReady(t, recs) && fixedCoded[..] == Flatten(recs)
    ensures fixed == FixedCoded(t, recs)
  {
    if !t.nullCompact {
      return fixedCoded[..];
    }
    var into := new u8[fixedCoded.Length];
    var n := NullBuffers.CompactNulls(t, fixedCoded, into, recs);
    fixed := into[..n];
  }

  /** The check value over the coded records, the packed pool, and its string lengths. */
  method HashOf(lib: Library, fixed: seq<u8>, pool: seq<u8>) returns (r: Walk)
    requires 4 <= |pool|
    ensures r == CheckHash(lib, fixed, pool)
  {
    var a := CopyOf(pool);
    r := ExtentBuffers.HashSizesLoop(lib, a, lib.hash(lib.hash(1972, fixed), pool));
  }

  /** From the coded records and pool to the bytes of the extent. */
  method Finish(lib: Library, t: RecordType, name: seq<u8>, fixedCoded: array<u8>, pool: seq<u8>, nrecords: nat,
                tries: Attempted, ghost c: Coded)
    returns (r: Option<seq<u8>>)
    requires lib.Valid() && t.Valid() && t.size > 0 && AllReady(t, c.recs) && tries.Valid()
    requires fixedCoded[..] == Flatten(c.recs) && pool == c.pool && nrecords == |c.recs| && 4 <= |pool|
    ensures var p := Assemble(lib, t, name, c, tries);
            r == if p.None? || !p.value.Valid() then None else Some(Seal(lib, p.value))
  {
    var hash := HashOf(lib, fixedCoded[..], pool);
    if !hash.Hashed? {
      return None;
    }
    var part := FixedPart(t, fixedCoded, c.recs);
    var fixed := Compression.CompressBytes(part, tries.fixed, tries.unsetFixed);
    var variable := Compression.CompressBytes(pool[4..], tries.variable, tries.unsetVariable);
    var p := ExtentFrame.Parts(fixed.bytes, variable.bytes, nrecords, |pool|, 0, hash.hash, fixed.mode, variable.mode,
                               name);
    if !p.Valid() {
      return None;
    }
    var into := FrameBuffers.WriteExtent(lib, p);
    r := Some(into[..]);
  }

  /** packData. */
  method PackExtent(lib: Library, t: RecordType, name: seq<u8>, fixeddata: seq<u8>, variabledata: seq<u8>,
                    tries: Attempted, ghost recs: seq<Record>)
    returns (r: Option<seq<u8>>)
    requires lib.Valid() && t.Valid() && t.size > 0 && AllReady(t, recs) && fixeddata == Flatten(recs)
    requires 4 <= |variabledata| && tries.Valid()
    ensures r == PackData(lib, t, name, Extent(recs, variabledata), tries)
  {
    var fixedCoded := CopyOf(fixeddata);
    var variableCoded := new u8[|variabledata|];
    var ok, nrecords, pos := ExtentBuffers.PackFixed(t, variabledata, fixedCoded, variableCoded, recs);
    if !ok || pos < 4 {
      return None;
    }
    ghost var c := Code(t, Extent(recs, variabledata)).value;
    r := Finish(lib, t, name, fixedCoded, variableCoded[..pos], nrecords, tries, c);
  }

  // ---------- the way back ----------

  lemma UncompressFits(lib: Library, mode: nat, s: seq<u8>, cap: nat)
    ensures var b := Compression.Uncompress(lib.decoders, mode, s, cap);
            b.Some? ==> |b.value| <= cap
  {
  }

  /** Decompression and, where the type asks for it, the expansion of compacted records; None where a check fails. */
  method FixedBack(t: RecordType, n: nat, b: seq<u8>) returns (r: Option<array<u8>>)
    requires t.Valid() && |b| <= n * t.size
    ensures r.Some? <==> FixedDecoded(t, n, b).Some?
    ensures r.Some? ==> fresh(r.value) && r.value[..] == Flatten(FixedDecoded(t, n, b).value)
  {
    if t.nullCompact {
      var into := new u8[n * t.size];
      var ok := NullBuffers.UncompactNulls(t, b, into, n);
      r := if ok then Some(into) else None;
    } else if |b| == n * t.size {
      FlattenChunk(b, t.size, n);
      var a := CopyOf(b);
      r := Some(a);
    } else {
      r := None;
    }
  }

  lemma {:induction false} FlattenChunk(flat: seq<u8>, size: nat, n: nat)
    requires |flat| == n * size
    ensures Flatten(Chunk(flat, size, n)) == flat
    decreases n
  {
    if n > 0 {
      assert n * size == size + (n - 1) * size;
      FlattenChunk(flat[size..], size, n - 1);
      assert flat == flat[..size] + flat[size..];
      var tail := Chunk(flat[size..], size, n - 1);
      assert ([flat[..size]] + tail)[1..] == tail;
    }
  }

  /** The two parts of a parsed extent, decompressed and checked. */
  method PartsBack(lib: Library, t: RecordType, p: ExtentFrame.Parts)
    returns (r: Ending<(array<u8>, seq<u8>)>)
    requires lib.Valid() && t.Valid()
    ensures SameEnd(r, Disassemble(lib, t, p))
    ensures r.Done? ==> var c := Disassemble(lib, t, p).value;
                        fresh(r.value.0) && r.value.0[..] == Flatten(c.recs) && r.value.1 == c.pool
  {
    var b := Compression.Uncompress(lib.decoders, p.fixedMode, p.fixed, p.nrecords * t.size);
    if b.None? {
      return Refused;
    }
    UncompressFits(lib, p.fixedMode, p.fixed, p.nrecords * t.size);
    var fixed := FixedBack(t, p.nrecords, b.value);
    if fixed.None? || p.variableSize < 4 {
      return Refused;
    }
    var v := Compression.Uncompress(lib.decoders, p.variableMode, p.variable, p.variableSize - 4);
    if v.None? || |v.value| != p.variableSize - 4 {
      return Refused;
    }
    var pool := Zeros(4) + v.value;
    var walk := HashOf(lib, fixed.value[..], pool);
    if walk.Endless? {
      return NeverEnds;
    }
    if walk.Outside? {
      return ReadsOutside;
    }
    if walk != Hashed(p.hash) {
      return Refused;
    }
    r := Done((fixed.value, pool));
  }

  /** Both end in the same way, or both not at all. */
  predicate SameEnd<T, U>(r: Ending<T>, s: Ending<U>) {
    (r.Done? <==> s.Done?) && (r.Refused? <==> s.Refused?) && (r.NeverEnds? <==> s.NeverEnds?)
  }

  /** unpackData: it ends as the specification does, and with a value it leaves the records and the pool. */
  method UnpackExtent(lib: Library, t: RecordType, name: seq<u8>, from: seq<u8>)
    returns (r: Ending<(seq<u8>, seq<u8>)>)
    requires lib.Valid() && t.Valid() && t.size > 0
    ensures SameEnd(r, UnpackData(lib, t, name, from))
    ensures r.Done? ==> var e := UnpackData(lib, t, name, from).value;
                        r.value == (Flatten(e.recs), e.pool)
  {
    var parsed := ExtentFrame.Parse(from);
    if parsed.None? {
      return Refused;
    }
    var p := parsed.value;
    if p.name != name || |from| < 20 || p.digest != lib.adler(ExtentFrame.Digested(from)) {
      return Refused;
    }
    var parts := PartsBack(lib, t, p);
    match parts
    case Refused => return Refused;
    case ReadsOutside => return ReadsOutside;
    case NeverEnds => return NeverEnds;
    case Done(both) =>
      var (fixeddata, pool) := both;
      ghost var c := Disassemble(lib, t, p).value;
      var ok, nrecords := ExtentBuffers.UnpackFixed(t, fixeddata, pool, c.recs);
      r := if ok then Done((fixeddata[..], pool)) else Refused;
  }
}
