/** packData and unpackData as a whole (src/base/Extent.cpp:578-896 and 1274-1542).

    The hashes are parameters; every check that unpackData makes on the bytes it reads is a Refused here. */
module ExtentCodec {
  import opened Bytes
  import opened RecordFormat
  import opened StringPool
  import opened LengthWalk
  import opened StringPacking
  import RelativePacking
  import NullCompaction
  import Compression
  import ExtentFrame

  const BATCH := 1024

  /** An extent in memory: its records and its string pool. */
  datatype Extent = Extent(recs: seq<Record>, pool: seq<u8>)

  /** bobJenkinsHash with a seed, adler32, and the decoders of the external codecs. */
  datatype Library = Library(
    hash: (nat, seq<u8>) -> nat,
    adler: seq<u8> -> nat,
    decoders: Compression.Decoders)
  {
    ghost predicate Valid() {
      && (forall s, b :: hash(s, b) < 0x1_0000_0000)
      && (forall b :: adler(b) < 0x1_0000_0000)
    }
  }

  /** What the compression attempts on the two parts returned, and the mode bytes that were on the stack. */
  datatype Attempted = Attempted(
    fixed: Compression.Attempts,
    variable: Compression.Attempts,
    unsetFixed: u8,
    unsetVariable: u8)
  {
    predicate Valid() {
      |fixed| == |variable| == Compression.NUM_ALGORITHMS - 1
    }
  }

  // ---------- hashing the string lengths in batches ----------

  /** How the walk over the length words ends: at the end of the pool, with their hash; in the check behind an entry
      that runs past the end; with a length word that does not lie in the pool, where the source reads memory around
      it; or not at all. */
  datatype Walk = Hashed(hash: nat) | PastEnd | Outside | Endless

  /** The walk from at on, hashing the length words in batches, for at most the given number of turns.  With as many
      turns as the pool has bytes, Endless means that it never ends: see WalkEnds. */
  function HashSizes(lib: Library, pool: seq<u8>, at: int, turns: nat, seed: nat, batch: seq<u8>): (r: Walk)
    decreases turns
  {
    if at == |pool| then Hashed(lib.hash(seed, batch))
    else if at > |pool| then PastEnd
    else if !Inside(pool, at) then Outside
    else if turns == 0 then Endless
    else
      var batch' := batch + Get(pool, at, 4);
      if |batch'| == 4 * BATCH then HashSizes(lib, pool, After(pool, at), turns - 1, lib.hash(seed, batch'), [])
      else HashSizes(lib, pool, After(pool, at), turns - 1, seed, batch')
  }

  /** The outcome is decided by where the walk is after that many turns. */
  lemma {:induction false} DecidedByPlace(
      lib: Library, pool: seq<u8>, at: int, turns: nat, seed: nat, batch: seq<u8>)
    ensures var r, p := HashSizes(lib, pool, at, turns, seed, batch), Turns(pool, at, turns);
            && (r.Hashed? <==> p == |pool|) && (r.PastEnd? <==> p > |pool|) && (r.Endless? <==> Inside(pool, p))
    decreases turns
  {
    if turns > 0 && Inside(pool, at) {
      var batch' := batch + Get(pool, at, 4);
      if |batch'| == 4 * BATCH {
        DecidedByPlace(lib, pool, After(pool, at), turns - 1, lib.hash(seed, batch'), []);
      } else {
        DecidedByPlace(lib, pool, After(pool, at), turns - 1, seed, batch');
      }
    }
  }

  /** For every pool, lengths that go back included: the walk comes to the end, or past it, or out of the pool
      otherwise, exactly when the outcome says so, and it goes on for ever exactly when the outcome is Endless. */
  lemma WalkEnds(lib: Library, pool: seq<u8>, at: int, seed: nat, batch: seq<u8>)
    ensures var r := HashSizes(lib, pool, at, |pool|, seed, batch);
            && (r.Hashed? <==> exists n: nat :: Turns(pool, at, n) == |pool|)
            && (r.PastEnd? <==> exists n: nat :: Turns(pool, at, n) > |pool|)
            && (r.Endless? <==> StaysInside(pool, at))
  {
    DecidedByPlace(lib, pool, at, |pool|, seed, batch);
    Decided(pool, at);
    forall n: nat | Turns(pool, at, n) >= |pool|
      ensures Turns(pool, at, |pool|) == Turns(pool, at, n)
    {
      StoppedAlike(pool, at, n, |pool|);
    }
  }

  /** A pool that the walk goes back in, and whose lengths are hashed all the same, each time it meets them. */
  lemma BackwardHashed(lib: Library, seed: nat)
    ensures var pool := Seven(0xF4);
            && Back(LengthAt(pool, 20))
            && HashSizes(lib, pool, 4, |pool|, seed, [])
            == Hashed(lib.hash(seed, Get(pool, 4, 4) + Get(pool, 20, 4) + Get(pool, 12, 4)))
  {
    var pool := Seven(0xF4);
    BackAndToTheEnd();
    var a, b, c := Get(pool, 4, 4), Get(pool, 20, 4), Get(pool, 12, 4);
    NextTurn(pool, 4, 0);
    NextTurn(pool, 4, 1);
    NextTurn(pool, 4, 2);
    assert HashSizes(lib, pool, 28, 25, seed, a + b + c) == Hashed(lib.hash(seed, a + b + c));
    assert HashSizes(lib, pool, 12, 26, seed, a + b) == HashSizes(lib, pool, 28, 25, seed, a + b + c);
    assert HashSizes(lib, pool, 20, 27, seed, a) == HashSizes(lib, pool, 12, 26, seed, a + b);
    assert [] + a == a;
    assert HashSizes(lib, pool, 4, 28, seed, []) == HashSizes(lib, pool, 20, 27, seed, a);
  }

  /** There is one place at which a walk stops, and it is there after as many turns as the pool has bytes. */
  lemma StoppedAlike(pool: seq<u8>, at: int, n: nat, m: nat)
    requires !Inside(pool, Turns(pool, at, n)) && m == |pool|
    ensures Turns(pool, at, m) == Turns(pool, at, n)
  {
    Decided(pool, at);
    if n <= m {
      InsideBefore(pool, at, n, m);
    } else {
      InsideBefore(pool, at, m, n);
    }
  }

  /** All length words of the pool from at on. */
  ghost function SizeWords(pool: seq<u8>, at: nat): (w: seq<u8>)
    requires Chain(pool, at)
    ensures |w| % 4 == 0
    decreases |pool| - at
  {
    if at == |pool| then [] else Get(pool, at, 4) + SizeWords(pool, Next(pool, at))
  }

  /** Hashing words in blocks of BATCH, the last block shorter, possibly empty. */
  ghost function HashBlocks(lib: Library, words: seq<u8>, seed: nat): nat
    decreases |words|
  {
    if |words| < 4 * BATCH then lib.hash(seed, words)
    else HashBlocks(lib, words[4 * BATCH..], lib.hash(seed, words[..4 * BATCH]))
  }

  lemma OneMoreBlock(lib: Library, block: seq<u8>, rest: seq<u8>, seed: nat)
    requires |block| == 4 * BATCH
    ensures HashBlocks(lib, block + rest, seed) == HashBlocks(lib, [] + rest, lib.hash(seed, block))
  {
    assert (block + rest)[..4 * BATCH] == block && (block + rest)[4 * BATCH..] == rest == [] + rest;
  }

  lemma MoveOverEntry(pool: seq<u8>, at: nat)
    requires 4 <= at && |pool| < MAX_INT32 && EntryHere(pool, at)
    ensures Inside(pool, at) && After(pool, at) == Next(pool, at) <= |pool|
  {
    assert LengthAt(pool, at) == SizeAt(pool, at);
  }

  /** On a run of entries the walk comes to the end, and hashes the length words block by block. */
  lemma {:induction false} HashSizesIsBlocks(
      lib: Library, pool: seq<u8>, at: nat, turns: nat, seed: nat, batch: seq<u8>)
    requires 4 <= at <= |pool| < MAX_INT32 && Chain(pool, at) && |pool| - at <= turns
    requires |batch| < 4 * BATCH && |batch| % 4 == 0
    ensures HashSizes(lib, pool, at, turns, seed, batch) == Hashed(HashBlocks(lib, batch + SizeWords(pool, at), seed))
    decreases |pool| - at
  {
    if at == |pool| {
      assert batch + [] == batch;
    } else {
      var batch', next := batch + Get(pool, at, 4), Next(pool, at);
      var rest := SizeWords(pool, next);
      ChainBounds(pool, next);
      MoveOverEntry(pool, at);
      assert SizeWords(pool, at) == Get(pool, at, 4) + rest;
      assert batch + SizeWords(pool, at) == batch' + rest;
      if |batch'| == 4 * BATCH {
        HashSizesIsBlocks(lib, pool, next, turns - 1, lib.hash(seed, batch'), []);
        OneMoreBlock(lib, batch', rest, seed);
      } else {
        HashSizesIsBlocks(lib, pool, next, turns - 1, seed, batch');
      }
    }
  }

  /** The check value over the unpacked fixed data, the pool, and the string lengths. */
  function CheckHash(lib: Library, fixed: seq<u8>, pool: seq<u8>): Walk
    requires 4 <= |pool|
  {
    HashSizes(lib, pool, 4, |pool|, lib.hash(lib.hash(1972, fixed), pool), [])
  }

  // ---------- packData ----------

  /** The records after string packing and relative packing, and the packed pool. */
  datatype Coded = Coded(recs: seq<Record>, pool: seq<u8>)

  function Code(t: RecordType, e: Extent): (r: Option<Coded>)
    requires t.Valid() && AllReady(t, e.recs)
    ensures r.Some? ==> |r.value.recs| == |e.recs| && AllReady(t, r.value.recs)
  {
    match Normalize(t, e.pool, e.recs, EMPTY)
    case None => None
    case Some(n) => Some(Coded(RelativePacking.PackRecords(t, n.recs, RelativePacking.Start(t.selfs)), n.pool.bytes))
  }

  /** The fixed part as it is handed to compression. */
  function FixedCoded(t: RecordType, recs: seq<Record>): seq<u8>
    requires t.Valid() && AllReady(t, recs)
  {
    if t.nullCompact then NullCompaction.Compact(t, recs, []) else Flatten(recs)
  }

  /** The two coded parts, compressed, with the header values; digest 0. */
  function Assemble(lib: Library, t: RecordType, name: seq<u8>, c: Coded, tries: Attempted)
    : (r: Option<ExtentFrame.Parts>)
    requires t.Valid() && AllReady(t, c.recs) && 4 <= |c.pool| && tries.Valid()
  {
    var fixed := Compression.Compressed(FixedCoded(t, c.recs), tries.fixed, tries.unsetFixed);
    var variable := Compression.Compressed(c.pool[4..], tries.variable, tries.unsetVariable);
    match CheckHash(lib, Flatten(c.recs), c.pool)
    case PastEnd => None
    case Outside => None
    case Endless => None
    case Hashed(hash) =>
      Some(ExtentFrame.Parts(fixed.bytes, variable.bytes, |c.recs|, |c.pool|, 0, hash,
                             fixed.mode, variable.mode, name))
  }

  function Seal(lib: Library, p: ExtentFrame.Parts): (b: seq<u8>)
    requires p.Valid() && lib.Valid()
  {
    ExtentFrame.Frame(p.(digest := lib.adler(ExtentFrame.Digested(ExtentFrame.Frame(p)))))
  }

  function PackData(lib: Library, t: RecordType, name: seq<u8>, e: Extent, tries: Attempted): (r: Option<seq<u8>>)
    requires lib.Valid() && t.Valid() && AllReady(t, e.recs) && 4 <= |e.pool| && tries.Valid()
  {
    match Code(t, e)
    case None => None
    case Some(c) =>
      if |c.pool| < 4 then None
      else
        match Assemble(lib, t, name, c, tries)
        case None => None
        case Some(p) => if p.Valid() then Some(Seal(lib, p)) else None
  }

  // ---------- unpackData ----------

  /** The records of the fixed part, from the bytes that decompression left in a buffer of n records. */
  function FixedDecoded(t: RecordType, n: nat, b: seq<u8>): (r: Option<seq<Record>>)
    requires t.Valid()
    ensures r.Some? ==> AllReady(t, r.value) && |r.value| == n
  {
    if t.nullCompact then NullCompaction.Uncompact(t, b, 0, n)
    else if |b| == n * t.size then Some(Chunk(b, t.size, n))
    else None
  }

  predicate StringsChecked(t: RecordType, recs: seq<Record>, pool: seq<u8>)
    requires AllReady(t, recs)
  {
    forall k, c :: 0 <= k < |recs| && c in t.vars ==> StringChecked(t, recs[k], pool, c)
  }

  predicate StringChecked(t: RecordType, rec: Record, pool: seq<u8>, c: VarColumn)
    requires Ready(t, rec) && c in t.vars
  {
    assert t.FieldFits(c.field);
    SelfCheck(pool, RelativePacking.Word(rec, c.field))
  }

  /** How unpackData ends: with a value; in a failing check; with a length word that it reads outside the pool; or not
      at all, in the walk over the length words. */
  datatype Ending<+T> = Done(value: T) | Refused | ReadsOutside | NeverEnds

  /** The two parts after decompression, checked against the header. */
  function Disassemble(lib: Library, t: RecordType, p: ExtentFrame.Parts): (r: Ending<Coded>)
    requires t.Valid()
    ensures r.Done? ==> AllReady(t, r.value.recs) && |r.value.recs| == p.nrecords
  {
    match Compression.Uncompress(lib.decoders, p.fixedMode, p.fixed, p.nrecords * t.size)
    case None => Refused
    case Some(b) =>
      match FixedDecoded(t, p.nrecords, b)
      case None => Refused
      case Some(recs) =>
        if p.variableSize < 4 then Refused
        else
          match Compression.Uncompress(lib.decoders, p.variableMode, p.variable, p.variableSize - 4)
          case None => Refused
          case Some(v) =>
            if |v| != p.variableSize - 4 then Refused
            else
              var pool := Zeros(4) + v;
              match CheckHash(lib, Flatten(recs), pool)
              case PastEnd => Refused
              case Outside => ReadsOutside
              case Endless => NeverEnds
              case Hashed(hash) => if hash != p.hash then Refused else Done(Coded(recs, pool))
  }

  function Decode(t: RecordType, c: Coded): (r: Option<Extent>)
    requires t.Valid() && AllReady(t, c.recs)
  {
    if StringsChecked(t, c.recs, c.pool)
    then Some(Extent(RelativePacking.UnpackRecords(t, c.recs, RelativePacking.Start(t.selfs)), c.pool))
    else None
  }

  function UnpackData(lib: Library, t: RecordType, name: seq<u8>, b: seq<u8>): (r: Ending<Extent>)
    requires lib.Valid() && t.Valid()
  {
    match ExtentFrame.Parse(b)
    case None => Refused
    case Some(p) =>
      if p.name != name || |b| < 20 || p.digest != lib.adler(ExtentFrame.Digested(b)) then Refused
      else
        match Disassemble(lib, t, p)
        case Refused => Refused
        case ReadsOutside => ReadsOutside
        case NeverEnds => NeverEnds
        case Done(c) =>
          match Decode(t, c)
          case None => Refused
          case Some(e) => Done(e)
  }
}
