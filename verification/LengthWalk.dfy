/** The walk of unpackData over the length words of a string pool (src/base/Extent.cpp:1350-1368): where it goes for any
    bytes, and when it ends.  The lengths are signed, so it can stand still or go back. */
module LengthWalk {
  import opened Bytes
  import opened StringPool

  // ---------- one turn ----------

  /** The 32-bit signed number with the same low bits. */
  function Signed32(v: int): (r: int)
    ensures -MAX_INT32 <= r < MAX_INT32
    ensures -MAX_INT32 <= v < MAX_INT32 ==> r == v
  {
    (v + MAX_INT32) % (2 * MAX_INT32) - MAX_INT32
  }

  /** The remainder by 8 as the source's language defines it: it has the sign of the dividend. */
  function Rem8(n: int): (r: int)
    ensures -8 < r < 8
  {
    if n >= 0 then n % 8 else -((-n) % 8)
  }

  /** How far the walk moves for one length word: 4 + roundupSize(size), in 32-bit arithmetic. */
  function Advance(size: int): int {
    Signed32(4 + Signed32(size + (12 - Rem8(size)) % 8))
  }

  /** The same without wrap-around and signed remainder: over an entry to the next one, back for a length that is too
      large or too far below 0. */
  function Move(size: int): int {
    if size >= MAX_INT32 - 11 then 4 + RoundUp(size) - 2 * MAX_INT32
    else if size >= 0 then 4 + RoundUp(size)
    else 4 + size + if (-size) % 8 < 4 then 4 + (-size) % 8 else (-size) % 8 - 4
  }

  /** A length at which the walk stands still. */
  predicate Still(size: int) {
    -11 <= size <= -4
  }

  /** A length at which the walk goes back. */
  predicate Back(size: int) {
    size < -11 || size >= MAX_INT32 - 11
  }

  /** What roundupSize adds. */
  lemma RoundingIs(size: int)
    ensures var n := (12 - Rem8(size)) % 8;
            && (size >= 0 ==> size + n == RoundUp(size))
            && (size < 0 ==> n == if (-size) % 8 < 4 then 4 + (-size) % 8 else (-size) % 8 - 4)
  {
    if size >= 0 {
      RoundUpAsComputed(size);
    }
  }

  lemma AdvanceIs(size: int)
    requires -MAX_INT32 <= size < MAX_INT32
    ensures Advance(size) == Move(size)
  {
    RoundingIs(size);
    var n := (12 - Rem8(size)) % 8;
    if size >= 0 {
      LargeRounds(size);
    } else {
      assert -MAX_INT32 <= 4 + size + n < MAX_INT32;
    }
  }

  lemma LargeRounds(size: nat)
    requires size < MAX_INT32
    ensures Signed32(4 + Signed32(RoundUp(size))) == Move(size)
  {
    var r := RoundUp(size);
    assert size >= MAX_INT32 - 11 ==> r == MAX_INT32 - 4 || r == MAX_INT32 + 4;
    assert size < MAX_INT32 - 11 ==> r + 4 < MAX_INT32;
  }

  /** Which lengths move the walk forward, leave it where it is, or take it back. */
  lemma MoveSigns(size: int)
    requires -MAX_INT32 <= size < MAX_INT32
    ensures Move(size) == 0 <==> Still(size)
    ensures Move(size) < 0 <==> Back(size)
    ensures Move(size) % 8 == 0
  {
  }

  /** The four bytes at a position lie in the pool. */
  predicate Inside(pool: seq<u8>, at: int) {
    0 <= at && at + 4 <= |pool|
  }

  /** The length word at a position, as the walk reads it. */
  function LengthAt(pool: seq<u8>, at: int): (n: int)
    requires Inside(pool, at)
    ensures -MAX_INT32 <= n < MAX_INT32
  {
    Signed32(SizeAt(pool, at))
  }

  function After(pool: seq<u8>, at: int): int
    requires Inside(pool, at)
  {
    at + Move(LengthAt(pool, at))
  }

  // ---------- any number of turns ----------

  /** Where the walk is after n turns; once it is not inside the pool any more, it takes none. */
  function Turns(pool: seq<u8>, at: int, n: nat): int
    decreases n
  {
    if n == 0 || !Inside(pool, at) then at else Turns(pool, After(pool, at), n - 1)
  }

  lemma {:induction false} TurnsAdd(pool: seq<u8>, at: int, a: nat, b: nat)
    ensures Turns(pool, at, a + b) == Turns(pool, Turns(pool, at, a), b)
    decreases a
  {
    if a > 0 && Inside(pool, at) {
      TurnsAdd(pool, After(pool, at), a - 1, b);
    }
  }

  /** Outside it stays where it is, so where it is inside it has been inside before. */
  lemma InsideBefore(pool: seq<u8>, at: int, a: nat, b: nat)
    requires a <= b
    ensures !Inside(pool, Turns(pool, at, a)) ==> Turns(pool, at, b) == Turns(pool, at, a)
    ensures Inside(pool, Turns(pool, at, b)) ==> Inside(pool, Turns(pool, at, a))
  {
    TurnsAdd(pool, at, a, b - a);
  }

  ghost predicate StaysInside(pool: seq<u8>, at: int) {
    forall n: nat :: Inside(pool, Turns(pool, at, n))
  }

  // ---------- for ever is coming back ----------

  /** The walk is at the same position, inside the pool, after i and after j turns. */
  ghost predicate Returns(pool: seq<u8>, at: int, i: nat, j: nat) {
    i < j && Turns(pool, at, i) == Turns(pool, at, j) && Inside(pool, Turns(pool, at, i))
  }

  /** A round that ends where it began can be taken any number of times. */
  lemma {:induction false} RoundsEndHere(pool: seq<u8>, at: int, d: nat, q: nat)
    requires Turns(pool, at, d) == at
    ensures Turns(pool, at, q * d) == at
    decreases q
  {
    if q > 0 {
      RoundsEndHere(pool, at, d, q - 1);
      assert q * d == (q - 1) * d + d;
      TurnsAdd(pool, at, (q - 1) * d, d);
    }
  }

  lemma AtLeast(n: nat, d: nat)
    requires d > 0
    ensures n * d >= n
  {
  }

  lemma ReturningStays(pool: seq<u8>, at: int, i: nat, j: nat)
    requires Returns(pool, at, i, j)
    ensures StaysInside(pool, at)
  {
    TurnsAdd(pool, at, i, j - i);
    forall n: nat
      ensures Inside(pool, Turns(pool, at, n))
    {
      LaterHere(pool, at, i, j - i, n);
    }
  }

  lemma LaterHere(pool: seq<u8>, at: int, i: nat, d: nat, n: nat)
    requires d > 0 && Turns(pool, Turns(pool, at, i), d) == Turns(pool, at, i) && Inside(pool, Turns(pool, at, i))
    ensures Inside(pool, Turns(pool, at, n))
  {
    var m := n * d;
    AtLeast(n, d);
    RoundsEndHere(pool, Turns(pool, at, i), d, n);
    TurnsAdd(pool, at, i, m);
    InsideBefore(pool, at, n, i + m);
  }

  ghost predicate Same(s: seq<int>, i: nat, j: nat) {
    i < j < |s| && s[i] == s[j]
  }

  /** More numbers than there are places below n: some number stands twice. */
  lemma {:induction false} Pigeonhole(s: seq<int>, n: nat)
    requires |s| > n && forall i :: 0 <= i < |s| ==> 0 <= s[i] < n
    ensures exists i: nat, j: nat :: Same(s, i, j)
    decreases n
  {
    var last := |s| - 1;
    if i: nat :| i < last && s[i] == s[last] {
      assert Same(s, i, last);
    } else {
      var t := seq(last, k requires 0 <= k < last => if s[k] < s[last] then s[k] else s[k] - 1);
      Pigeonhole(t, n - 1);
      var i: nat, j: nat :| Same(t, i, j);
      assert Same(s, i, j);
    }
  }

  /** After as many turns as the pool has bytes, the walk is outside or has been somewhere twice. */
  lemma TooManyTurns(pool: seq<u8>, at: int)
    requires Inside(pool, Turns(pool, at, |pool|))
    ensures exists i: nat, j: nat :: Returns(pool, at, i, j)
  {
    var s := seq(|pool| + 1, k requires 0 <= k <= |pool| => Turns(pool, at, k));
    forall k | 0 <= k < |s|
      ensures 0 <= s[k] < |pool|
    {
      InsideBefore(pool, at, k, |pool|);
    }
    Pigeonhole(s, |pool|);
    var i: nat, j: nat :| Same(s, i, j);
    InsideBefore(pool, at, i, |pool|);
    assert Returns(pool, at, i, j);
  }

  /** For every pool: the walk stays inside for ever if and only if it comes to some position twice. */
  lemma ForEverIsTwice(pool: seq<u8>, at: int)
    ensures StaysInside(pool, at) <==> exists i: nat, j: nat :: Returns(pool, at, i, j)
  {
    if StaysInside(pool, at) {
      TooManyTurns(pool, at);
    }
    if i: nat, j: nat :| Returns(pool, at, i, j) {
      ReturningStays(pool, at, i, j);
    }
  }

  /** That is decided after as many turns as the pool has bytes. */
  lemma Decided(pool: seq<u8>, at: int)
    ensures StaysInside(pool, at) <==> Inside(pool, Turns(pool, at, |pool|))
  {
    if Inside(pool, Turns(pool, at, |pool|)) {
      TooManyTurns(pool, at);
      ForEverIsTwice(pool, at);
    }
  }

  // ---------- pools without lengths that go back ----------

  /** No length that the walk meets takes it back. */
  ghost predicate NeverBack(pool: seq<u8>, at: int) {
    forall n: nat :: Inside(pool, Turns(pool, at, n)) ==> !Back(LengthAt(pool, Turns(pool, at, n)))
  }

  /** The walk meets a length at which it stands still. */
  ghost predicate MeetsStill(pool: seq<u8>, at: int) {
    exists n: nat :: StillAfter(pool, at, n)
  }

  ghost predicate StillAfter(pool: seq<u8>, at: int, n: nat) {
    Inside(pool, Turns(pool, at, n)) && Still(LengthAt(pool, Turns(pool, at, n)))
  }

  lemma NextTurn(pool: seq<u8>, at: int, n: nat)
    requires Inside(pool, Turns(pool, at, n))
    ensures Turns(pool, at, n + 1) == After(pool, Turns(pool, at, n))
  {
    TurnsAdd(pool, at, n, 1);
  }

  /** A length at which it stands still keeps the walk for ever, whatever came before. */
  lemma StillStays(pool: seq<u8>, at: int, n: nat)
    requires StillAfter(pool, at, n)
    ensures StaysInside(pool, at)
  {
    NextTurn(pool, at, n);
    MoveSigns(LengthAt(pool, Turns(pool, at, n)));
    ReturningStays(pool, at, n, n + 1);
  }

  lemma {:induction false} OnlyForward(pool: seq<u8>, at: int, n: nat)
    requires NeverBack(pool, at) && !MeetsStill(pool, at) && Inside(pool, Turns(pool, at, n))
    ensures Turns(pool, at, n) >= at + n
    decreases n
  {
    if n > 0 {
      InsideBefore(pool, at, n - 1, n);
      OnlyForward(pool, at, n - 1);
      NextTurn(pool, at, n - 1);
      assert !StillAfter(pool, at, n - 1);
      MoveSigns(LengthAt(pool, Turns(pool, at, n - 1)));
    }
  }

  /** For every pool in which no length met goes back: the walk comes to the last three bytes, to the end or past it, if
      and only if it meets no length at which it stands still. */
  lemma ForwardWalkEnds(pool: seq<u8>, at: nat)
    requires NeverBack(pool, at)
    ensures (exists n: nat :: Turns(pool, at, n) + 4 > |pool|) <==> !MeetsStill(pool, at)
  {
    if MeetsStill(pool, at) {
      var n: nat :| StillAfter(pool, at, n);
      StillStays(pool, at, n);
    } else {
      var end := Turns(pool, at, |pool|);
      if Inside(pool, end) {
        OnlyForward(pool, at, |pool|);
        assert false;
      }
      NotBefore(pool, at, |pool|);
    }
  }

  lemma {:induction false} NotBefore(pool: seq<u8>, at: nat, n: nat)
    requires NeverBack(pool, at)
    ensures Turns(pool, at, n) >= at
    decreases n
  {
    if n > 0 {
      NotBefore(pool, at, n - 1);
      if Inside(pool, Turns(pool, at, n - 1)) {
        NextTurn(pool, at, n - 1);
        MoveSigns(LengthAt(pool, Turns(pool, at, n - 1)));
      } else {
        InsideBefore(pool, at, n - 1, n);
      }
    }
  }

  lemma {:induction false} TurnsAligned(pool: seq<u8>, at: int, n: nat)
    ensures Turns(pool, at, n) % 8 == at % 8
    decreases n
  {
    if n > 0 && Inside(pool, at) {
      MoveSigns(LengthAt(pool, at));
      AddUnits(at, Move(LengthAt(pool, at)));
      TurnsAligned(pool, After(pool, at), n - 1);
    }
  }

  lemma AddUnits(a: int, b: int)
    requires b % 8 == 0
    ensures (a + b) % 8 == a % 8
  {
    var i, j, r := a / 8, b / 8, a % 8;
    assert a + b == 8 * (i + j) + r;
  }

  lemma BehindLastUnit(at: int, size: nat)
    requires at % 8 == size % 8 && at + 4 > size
    ensures at >= size
  {
    var i, j, r := at / 8, size / 8, at % 8;
    assert at == 8 * i + r && size == 8 * j + r;
    assert i >= j;
  }

  /** In a pool of whole 8-byte units behind its first word, that is the end or past it. */
  lemma ForwardWalkReachesEnd(pool: seq<u8>)
    requires NeverBack(pool, 4) && |pool| % 8 == 4
    ensures (exists n: nat :: Turns(pool, 4, n) >= |pool|) <==> !MeetsStill(pool, 4)
  {
    ForwardWalkEnds(pool, 4);
    if n: nat :| Turns(pool, 4, n) + 4 > |pool| {
      TurnsAligned(pool, 4, n);
      BehindLastUnit(Turns(pool, 4, n), |pool|);
    }
  }

  // ---------- instances ----------

  lemma WordIs(pool: seq<u8>, at: nat, a: u8, b: u8, c: u8, d: u8)
    requires Inside(pool, at) && pool[at] == a && pool[at + 1] == b && pool[at + 2] == c && pool[at + 3] == d
    ensures SizeAt(pool, at) == a + 256 * (b + 256 * (c + 256 * d))
  {
    assert pool[at..at + 4] == [a, b, c, d];
    assert [a, b, c, d][1..] == [b, c, d] && [b, c, d][1..] == [c, d] && [c, d][1..] == [d] && [d][1..] == [];
    assert Dec([]) == 0;
    assert Dec([d]) == d;
    assert Dec([c, d]) == c + 256 * d;
    assert Dec([b, c, d]) == b + 256 * (c + 256 * d);
  }

  /** A pool of seven words: two entries whose lengths say 12, and the given lowest byte of a negative length in the
      sixth word, behind the first entry. */
  function Seven(low: u8): (pool: seq<u8>)
    ensures |pool| == 28
  {
    [0, 0, 0, 0, 12, 0, 0, 0, 0, 0, 0, 0, 12, 0, 0, 0, 0, 0, 0, 0, low, 0xFF, 0xFF, 0xFF, 0, 0, 0, 0]
  }

  lemma SevenLengths(low: u8)
    ensures LengthAt(Seven(low), 4) == 12 && LengthAt(Seven(low), 12) == 12
    ensures LengthAt(Seven(low), 20) == low - 256
  {
    var pool := Seven(low);
    WordIs(pool, 4, 12, 0, 0, 0);
    WordIs(pool, 12, 12, 0, 0, 0);
    WordIs(pool, 20, low, 0xFF, 0xFF, 0xFF);
  }

  /** A length of -12 takes the walk back to the middle of the entry before, and from there it comes to the end. */
  lemma BackAndToTheEnd()
    ensures var pool := Seven(0xF4);
            && Back(LengthAt(pool, 20))
            && Turns(pool, 4, 1) == 20 && Turns(pool, 4, 2) == 12 && Turns(pool, 4, 3) == |pool|
  {
    var pool := Seven(0xF4);
    SevenLengths(0xF4);
    assert Turns(pool, 4, 0) == 4;
    NextTurn(pool, 4, 0);
    NextTurn(pool, 4, 1);
    NextTurn(pool, 4, 2);
  }

  /** A length of -20 in its place takes the walk back to where it began, and so for ever. */
  lemma BackForEver()
    ensures var pool := Seven(0xEC);
            && Back(LengthAt(pool, 20))
            && Turns(pool, 4, 1) == 20 && Turns(pool, 4, 2) == 4 && StaysInside(pool, 4)
  {
    var pool := Seven(0xEC);
    SevenLengths(0xEC);
    assert Turns(pool, 4, 0) == 4;
    NextTurn(pool, 4, 0);
    NextTurn(pool, 4, 1);
    ReturningStays(pool, 4, 0, 2);
  }

  /** At a length of -8 it stands still. */
  lemma MinusEightStays()
    ensures var pool := Seven(0xF8);
            Still(LengthAt(pool, 20)) && Turns(pool, 4, 1) == 20 && StaysInside(pool, 4)
  {
    var pool := Seven(0xF8);
    SevenLengths(0xF8);
    assert Turns(pool, 4, 0) == 4;
    NextTurn(pool, 4, 0);
    StillStays(pool, 4, 1);
  }
}
