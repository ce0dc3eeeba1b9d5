/** What the readers of a file accept (src/base/DataSeriesSource.cpp:82-164, src/base/DataSeriesSink.cpp:302-323,
    src/base/Extent.cpp:1568-1607): nothing but a header, a tail, and extents as the writer lays them out. */
module FileChecks {
  import opened Bytes
  import opened ExtentCodec
  import opened SinkFile

  lemma EncInjective(b: seq<u8>, v: nat, n: nat)
    requires |b| == n && v < Pow256(n)
    ensures Dec(b) == v <==> b == Enc(v, n)
  {
    EncDec(b);
    DecEnc(v, n);
  }

  /** The header check passes exactly on the 16 bytes that the writer puts in front of the three doubles. */
  lemma HeaderIs(file: seq<u8>)
    ensures HeaderAccepted(file) <==> |file| >= HEADER_LENGTH && file[..HEADER_LENGTH] == FileHeader(file[16..HEADER_LENGTH])
  {
    if |file| >= HEADER_LENGTH {
      CheckWords(Get(file, 4, 4), Get(file, 8, 8));
      HeaderParts(file);
      FourParts(file[..HEADER_LENGTH], file[..4], Get(file, 4, 4), Get(file, 8, 8), file[16..HEADER_LENGTH],
                [68, 83, 118, 49], Enc(0x1234_5678, 4), Enc(0x1234_5678_9ABC_DEF0, 8));
    }
  }

  lemma CheckWords(b: seq<u8>, c: seq<u8>)
    requires |b| == 4 && |c| == 8
    ensures Dec(b) == 0x1234_5678 <==> b == Enc(0x1234_5678, 4)
    ensures Dec(c) == 0x1234_5678_9ABC_DEF0 <==> c == Enc(0x1234_5678_9ABC_DEF0, 8)
  {
    Pow256Values();
    EncInjective(b, 0x1234_5678, 4);
    EncInjective(c, 0x1234_5678_9ABC_DEF0, 8);
  }

  lemma HeaderParts(file: seq<u8>)
    requires |file| >= HEADER_LENGTH
    ensures file[..HEADER_LENGTH] == file[..4] + Get(file, 4, 4) + Get(file, 8, 8) + file[16..HEADER_LENGTH]
  {
  }

  lemma FourParts(whole: seq<u8>, a: seq<u8>, b: seq<u8>, c: seq<u8>, d: seq<u8>, a': seq<u8>, b': seq<u8>, c': seq<u8>)
    requires whole == a + b + c + d && |a'| == |a| && |b'| == |b| && |c'| == |c|
    ensures whole == a' + b' + c' + d <==> a == a' && b == b' && c == c'
  {
    if whole == a' + b' + c' + d {
      assert a == whole[..|a|] == a';
      assert b == whole[|a|..|a| + |b|] == b';
      assert c == whole[|a| + |b|..|a| + |b| + |c|] == c';
    }
  }

  // ---------- the tail ----------

  lemma SixParts(t: seq<u8>)
    requires |t| == TAIL_LENGTH
    ensures t == t[..4] + Get(t, 4, 4) + Get(t, 8, 4) + Get(t, 12, 4) + Get(t, 16, 8) + Get(t, 24, 4)
    ensures t[..24] == t[..4] + Get(t, 4, 4) + Get(t, 8, 4) + Get(t, 12, 4) + Get(t, 16, 8)
    ensures t == t[..24] + Get(t, 24, 4)
  {
  }

  /** The words of the tail are those that the writer makes of the size, the checksum and the offset in it. */
  ghost predicate OwnWords(t: seq<u8>)
    requires |t| == TAIL_LENGTH
  {
    t[..24] == TailWords(Dec(Get(t, 4, 4)), Dec(Get(t, 12, 4)), Dec(Get(t, 16, 8)))
  }

  lemma WordsAre(t: seq<u8>)
    requires |t| == TAIL_LENGTH
    ensures OwnWords(t) <==> t[..4] == [255, 255, 255, 255] && Dec(Get(t, 4, 4)) == MARK - Dec(Get(t, 8, 4))
  {
    SixParts(t);
    WordsOfParts(t[..24], t[..4], Get(t, 4, 4), Get(t, 8, 4), Get(t, 12, 4), Get(t, 16, 8));
  }

  lemma WordsOfParts(w: seq<u8>, a: seq<u8>, b: seq<u8>, c: seq<u8>, d: seq<u8>, e: seq<u8>)
    requires w == a + b + c + d + e && |a| == |b| == |c| == |d| == 4 && |e| == 8
    ensures w == TailWords(Dec(b), Dec(d), Dec(e)) <==> a == [255, 255, 255, 255] && Dec(b) == MARK - Dec(c)
  {
    WordFits(b);
    WrittenWords(b, d, e);
    MarkBytes();
    var complement := Enc(MARK - Dec(b), 4);
    WordsApart(w, a, b, c, d, e, Enc(MARK, 4), complement);
    Complement(c, MARK - Dec(b));
  }

  lemma WrittenWords(b: seq<u8>, d: seq<u8>, e: seq<u8>)
    requires |b| == |d| == 4 && |e| == 8 && Dec(b) <= MARK
    ensures TailWords(Dec(b), Dec(d), Dec(e)) == Enc(MARK, 4) + b + Enc(MARK - Dec(b), 4) + d + e
  {
    EncDec(b);
    EncDec(d);
    EncDec(e);
  }

  lemma WordFits(b: seq<u8>)
    requires |b| == 4
    ensures Dec(b) <= MARK
  {
    Pow256Values();
  }

  lemma Complement(c: seq<u8>, v: nat)
    requires |c| == 4 && v <= MARK
    ensures Dec(c) == v <==> c == Enc(v, 4)
  {
    Pow256Values();
    EncInjective(c, v, 4);
  }

  lemma WordsApart(
      w: seq<u8>, a: seq<u8>, b: seq<u8>, c: seq<u8>, d: seq<u8>, e: seq<u8>, a': seq<u8>, c': seq<u8>)
    requires w == a + b + c + d + e && |a'| == |a| && |c'| == |c|
    ensures w == a' + b + c' + d + e <==> a == a' && c == c'
  {
    if w == a' + b + c' + d + e {
      assert a == w[..|a|] == a';
      assert c == w[|a| + |b|..|a| + |b| + |c|] == c';
    }
  }

  /** The tail that the writer makes of the size, the checksum and the offset in it. */
  ghost predicate OwnTail(lib: Library, t: seq<u8>)
    requires |t| == TAIL_LENGTH
  {
    t == TailOf(lib, Dec(Get(t, 4, 4)), Dec(Get(t, 12, 4)), Dec(Get(t, 16, 8)))
  }

  /** verifyTail accepts exactly what the writer would write for the size, the checksum and the offset in it. */
  lemma TailIs(lib: Library, t: seq<u8>)
    requires lib.Valid() && |t| == TAIL_LENGTH
    ensures VerifyTail(lib, t) <==> OwnTail(lib, t)
  {
    Pow256Values();
    WordsAre(t);
    SixParts(t);
    EncInjective(Get(t, 24, 4), lib.hash(1776, t[..24]), 4);
    TwoParts(t, t[..24], Get(t, 24, 4), TailWords(Dec(Get(t, 4, 4)), Dec(Get(t, 12, 4)), Dec(Get(t, 16, 8))));
  }

  lemma TwoParts(t: seq<u8>, w: seq<u8>, h: seq<u8>, w': seq<u8>)
    requires t == w + h && |w'| == |w|
    ensures forall h': seq<u8> :: t == w' + h' <==> w == w' && h == h'
  {
    forall h': seq<u8>
      ensures t == w' + h' <==> w == w' && h == h'
    {
      if t == w' + h' {
        assert w == t[..|w|] == w';
        assert h == t[|w|..] == h';
      }
    }
  }

  // ---------- the extents ----------

  function Joined(bs: seq<seq<u8>>): seq<u8> {
    if bs == [] then [] else bs[0] + Joined(bs[1..])
  }

  /** Reading loses nothing: the extents that it returns are the bytes from where it began to a valid tail. */
  lemma {:induction false} ReadAllTakesAll(lib: Library, file: seq<u8>, offset: nat) returns (end: nat)
    requires ReadAll(lib, file, offset).Some?
    ensures offset <= end && end + TAIL_LENGTH <= |file|
    ensures file[offset..end] == Joined(ReadAll(lib, file, offset).value)
    ensures VerifyTail(lib, Get(file, end, TAIL_LENGTH))
    decreases |file| - offset
  {
    var r := PreadExtent(lib, file, offset);
    if r.AtTail? {
      end := offset;
    } else {
      end := ReadAllTakesAll(lib, file, r.next);
      ReadAllStep(lib, file, offset, r.bytes, r.next);
      SliceJoin(file, offset, r.next, end);
    }
  }

  /** Reading at an offset: an extent exactly where both of its sizes are below 512 MiB and the length that they give lies in
      the file; the tail exactly where the writer's tail stands; the end of the file only behind its last byte. */
  lemma ReadIs(lib: Library, file: seq<u8>, offset: nat)
    requires lib.Valid()
    ensures var r := PreadExtent(lib, file, offset);
            && (r.EndOfFile? <==> |file| <= offset)
            && (r.AtTail? <==> offset + 28 <= |file| && OwnTail(lib, Get(file, offset, 28)))
            && (r.Got? <==>
                  && offset + 28 <= |file|
                  && Dec(Get(file, offset, 4)) < 0x2000_0000 && Dec(Get(file, offset + 4, 4)) < 0x2000_0000
                  && offset + ExtentLength(file, offset) <= |file|)
            && (r.Got? ==> r.bytes == file[offset..r.next] && r.next == offset + ExtentLength(file, offset))
  {
    if offset + 28 <= |file| {
      var t := Get(file, offset, 28);
      TailIs(lib, t);
      SliceSlice(file, offset, offset + 28, 0, 4);
      MarkFirst(t);
    }
  }

  lemma MarkFirst(t: seq<u8>)
    requires |t| == TAIL_LENGTH
    ensures t[..4] == [255, 255, 255, 255] <==> Dec(Get(t, 0, 4)) == MARK
  {
    Pow256Values();
    MarkBytes();
    assert t[..4] == Get(t, 0, 4);
    EncInjective(Get(t, 0, 4), MARK, 4);
  }
}
