/** The hash of three consecutive bytes that the LZF compressor keeps as it goes (src/liblzf-1.6/lzf_c.c:48-52).

    The hash value is carried over from position to position in 32 bits, so older bytes are still in it; the slot that it
    selects depends on the last three bytes alone. */
module LzfHash {
  import opened Bytes

  const HASH_SIZE := 32768

  function Wide(b: u8): bv32 {
    b as bv8 as bv32
  }

  /** A hash value with one more byte behind it. */
  function Behind(h: bv32, c: bv32): bv32 {
    (h << 8) | c
  }

  function First(s: seq<u8>, p: nat): bv32 {
    if p + 1 < |s| then Behind(Wide(s[p]), Wide(s[p + 1])) else 0
  }

  function Next(h: bv32, s: seq<u8>, p: nat): bv32
    requires p + 2 < |s|
  {
    Behind(h, Wide(s[p + 2]))
  }

  function Low15(h: bv32): (r: nat)
    ensures r < HASH_SIZE
  {
    (h & 0x7FFF) as bv15 as nat
  }

  /** The low 15 bits of the difference, of which only the low 15 bits of both sides matter. */
  function Index(h: bv32): (i: nat)
    ensures i < HASH_SIZE
  {
    (Low15((h ^ (h << 5)) >> 9) - Low15(h * 5)) % HASH_SIZE
  }

  /** The slot of the three bytes at ip. */
  function Slot(input: seq<u8>, ip: nat): (i: nat)
    requires ip + 2 < |input|
    ensures i < HASH_SIZE
  {
    Index(Next(First(input, ip), input, ip))
  }

  predicate SameLow16(h: bv32, g: bv32) {
    h & 0xFFFF == g & 0xFFFF
  }

  predicate SameLow24(h: bv32, g: bv32) {
    h & 0xFF_FFFF == g & 0xFF_FFFF
  }

  /** The running hash value ends in the two bytes at ip. */
  ghost predicate Primed(hval: bv32, input: seq<u8>, ip: nat) {
    ip + 1 < |input| ==> SameLow16(hval, First(input, ip))
  }

  lemma ScrambledLow(h: bv32, g: bv32)
    requires SameLow24(h, g)
    ensures Low15((h ^ (h << 5)) >> 9) == Low15((g ^ (g << 5)) >> 9)
  {
    assert ((h ^ (h << 5)) >> 9) & 0x7FFF == ((g ^ (g << 5)) >> 9) & 0x7FFF;
  }

  lemma TimesFiveLow(h: bv32, g: bv32)
    requires SameLow24(h, g)
    ensures Low15(h * 5) == Low15(g * 5)
  {
  }

  /** The slot depends on the low three bytes of the hash value alone. */
  lemma IndexLow(h: bv32, g: bv32)
    requires SameLow24(h, g)
    ensures Index(h) == Index(g)
  {
    ScrambledLow(h, g);
    TimesFiveLow(h, g);
  }

  lemma BehindLow24(h: bv32, g: bv32, c: bv32)
    requires SameLow16(h, g)
    ensures SameLow24(Behind(h, c), Behind(g, c))
  {
  }

  lemma IndexBehind(h: bv32, g: bv32, c: bv32)
    requires SameLow16(h, g)
    ensures Index(Behind(h, c)) == Index(Behind(g, c))
  {
    BehindLow24(h, g, c);
    IndexLow(Behind(h, c), Behind(g, c));
  }

  lemma BehindLow16(h: bv32, a: bv32, b: bv32, c: bv32)
    requires SameLow16(h, Behind(a, b))
    ensures SameLow16(Behind(h, c), Behind(b, c))
  {
  }

  /** Whatever older bytes the running value holds, it finds the slot of the three bytes at ip. */
  lemma NextFindsSlot(hval: bv32, input: seq<u8>, ip: nat)
    requires ip + 2 < |input| && Primed(hval, input, ip)
    ensures Index(Next(hval, input, ip)) == Slot(input, ip)
  {
    IndexBehind(hval, First(input, ip), Wide(input[ip + 2]));
  }

  /** And it is carried over to the next position. */
  lemma NextPrimed(hval: bv32, input: seq<u8>, ip: nat)
    requires ip + 2 < |input| && Primed(hval, input, ip)
    ensures Primed(Next(hval, input, ip), input, ip + 1)
  {
    BehindLow16(hval, Wide(input[ip]), Wide(input[ip + 1]), Wide(input[ip + 2]));
  }

  /** The next hash value and the slot that it selects. */
  method NextSlot(hval: bv32, input: seq<u8>, ip: nat) returns (hval': bv32, slot: nat)
    requires ip + 2 < |input| && Primed(hval, input, ip)
    ensures slot == Slot(input, ip) && Primed(hval', input, ip + 1)
  {
    NextFindsSlot(hval, input, ip);
    NextPrimed(hval, input, ip);
    hval' := Next(hval, input, ip);
    slot := Index(hval');
  }
}
