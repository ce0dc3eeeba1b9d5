/** The bytes of a DataSeries file: header, packed extents one behind the other, the index extent, and the tail
    (src/base/DataSeriesSink.cpp:131-229, 374-410), and how they are read back (src/base/Extent.cpp:1568-1607,
    src/base/DataSeriesSource.cpp:82-164, src/base/DataSeriesSink.cpp:302-323). */
module SinkFile {
  import opened Bytes
  import opened ExtentCodec
  import opened ExtentFrame
  import RF = RecordFormat

  const PREFIX := 28
  const TAIL_LENGTH := 28
  const HEADER_LENGTH := 40
  const MARK := 0xFFFF_FFFF

  // ---------- the fixed header ----------

  /** The magic, the check words, and three doubles as the machine stores them. */
  function FileHeader(doubles: seq<u8>): (h: seq<u8>)
    requires |doubles| == 24
    ensures |h| == HEADER_LENGTH
  {
    [68, 83, 118, 49] + Enc(0x1234_5678, 4) + Enc(0x1234_5678_9ABC_DEF0, 8) + doubles
  }

  /** The reader's checks of the magic and the check words, without the byte-swapped case. */
  predicate HeaderAccepted(file: seq<u8>) {
    && |file| >= HEADER_LENGTH
    && file[..4] == [68, 83, 118, 49]
    && Dec(Get(file, 4, 4)) == 0x1234_5678 && Dec(Get(file, 8, 8)) == 0x1234_5678_9ABC_DEF0
  }

  // ---------- the tail ----------

  function TailWords(packedSize: nat, checksum: nat, indexOffset: nat): (t: seq<u8>)
    ensures |t| == 24
  {
    Enc(MARK, 4) + Enc(packedSize, 4) + Enc(if packedSize <= MARK then MARK - packedSize else 0, 4)
      + Enc(checksum, 4) + Enc(indexOffset, 8)
  }

  function TailOf(lib: Library, packedSize: nat, checksum: nat, indexOffset: nat): (t: seq<u8>)
    ensures |t| == TAIL_LENGTH
  {
    var w := TailWords(packedSize, checksum, indexOffset);
    w + Enc(lib.hash(1776, w), 4)
  }

  /** verifyTail: the mark, the size and its complement, and the hash. */
  predicate VerifyTail(lib: Library, t: seq<u8>)
    requires |t| == TAIL_LENGTH
  {
    && t[..4] == [255, 255, 255, 255]
    && Dec(Get(t, 4, 4)) == MARK - Dec(Get(t, 8, 4))
    && Dec(Get(t, 24, 4)) == lib.hash(1776, t[..24])
  }

  lemma MarkBytes()
    ensures Enc(MARK, 4) == [255, 255, 255, 255]
  {
    assert MARK / 256 == 0xFF_FFFF && 0xFF_FFFF / 256 == 0xFFFF && 0xFFFF / 256 == 0xFF;
    assert Enc(0xFF, 1) == [255];
    assert Enc(0xFFFF, 2) == [255, 255];
    assert Enc(0xFF_FFFF, 3) == [255, 255, 255];
  }

  lemma TailParts(lib: Library, packedSize: nat, checksum: nat, indexOffset: nat)
    ensures var t := TailOf(lib, packedSize, checksum, indexOffset);
            && t[..4] == Enc(MARK, 4) && Get(t, 4, 4) == Enc(packedSize, 4)
            && Get(t, 8, 4) == Enc(if packedSize <= MARK then MARK - packedSize else 0, 4)
            && Get(t, 16, 8) == Enc(indexOffset, 8)
            && t[..24] == TailWords(packedSize, checksum, indexOffset)
            && Get(t, 24, 4) == Enc(lib.hash(1776, TailWords(packedSize, checksum, indexOffset)), 4)
  {
    var t := TailOf(lib, packedSize, checksum, indexOffset);
    var a, b, c := Enc(MARK, 4), Enc(packedSize, 4), Enc(if packedSize <= MARK then MARK - packedSize else 0, 4);
    var d, e := Enc(checksum, 4), Enc(indexOffset, 8);
    assert a + b <= a + b + c <= a + b + c + d <= a + b + c + d + e <= t;
    SliceBehind(a, b, t);
    SliceBehind(a + b, c, t);
    SliceBehind(a + b + c + d, e, t);
  }

  /** A tail passes its own check, and its words read back. */
  lemma TailVerified(lib: Library, packedSize: nat, checksum: nat, indexOffset: nat)
    requires lib.Valid() && packedSize < 0x1_0000_0000 && indexOffset < 0x1_0000_0000_0000_0000
    ensures var t := TailOf(lib, packedSize, checksum, indexOffset);
            && VerifyTail(lib, t)
            && Dec(Get(t, 0, 4)) == MARK
            && Dec(Get(t, 4, 4)) == packedSize && Dec(Get(t, 16, 8)) == indexOffset
  {
    var w := TailWords(packedSize, checksum, indexOffset);
    TailParts(lib, packedSize, checksum, indexOffset);
    MarkBytes();
    Pow256Values();
    DecEnc(MARK, 4);
    DecEnc(packedSize, 4);
    DecEnc(MARK - packedSize, 4);
    DecEnc(indexOffset, 8);
    DecEnc(lib.hash(1776, w), 4);
  }

  // ---------- reading one extent ----------

  datatype ReadResult = EndOfFile | AtTail | Got(bytes: seq<u8>, next: nat) | Invalid

  /** The length of the extent whose prefix starts at offset. */
  function ExtentLength(file: seq<u8>, offset: nat): nat
    requires offset + PREFIX <= |file|
  {
    FrameLength(Dec(Get(file, offset, 4)), Dec(Get(file, offset + 4, 4)), file[offset + 26])
  }

  /** Extent::preadExtent: the header words give the length; a first word of all ones is the tail. */
  function PreadExtent(lib: Library, file: seq<u8>, offset: nat): (r: ReadResult)
    ensures r.Got? ==> offset < r.next <= |file|
  {
    if offset >= |file| then EndOfFile
    else if offset + PREFIX > |file| then Invalid
    else
      var fixed, variable := Dec(Get(file, offset, 4)), Dec(Get(file, offset + 4, 4));
      if fixed == MARK then (if VerifyTail(lib, Get(file, offset, PREFIX)) then AtTail else Invalid)
      else if fixed >= MAX_PACKED || variable >= MAX_PACKED then Invalid
      else
        var n := ExtentLength(file, offset);
        if offset + n > |file| then Invalid else Got(Get(file, offset, n), offset + n)
  }

  /** Reading on until the tail. */
  function ReadAll(lib: Library, file: seq<u8>, offset: nat): (r: Option<seq<seq<u8>>>)
    decreases |file| - offset
  {
    match PreadExtent(lib, file, offset)
    case EndOfFile => None
    case Invalid => None
    case AtTail => Some([])
    case Got(b, next) =>
      match ReadAll(lib, file, next)
      case None => None
      case Some(rest) => Some([b] + rest)
  }

  lemma ReadAllStep(lib: Library, file: seq<u8>, offset: nat, b: seq<u8>, next: nat)
    requires PreadExtent(lib, file, offset) == Got(b, next)
    ensures ReadAll(lib, file, next).Some? ==> ReadAll(lib, file, offset) == Some([b] + ReadAll(lib, file, next).value)
  {
  }

  lemma ReadAllEnd(lib: Library, file: seq<u8>, offset: nat)
    requires PreadExtent(lib, file, offset) == AtTail
    ensures ReadAll(lib, file, offset) == Some([])
  {
  }

  /** What stands in a file between two parts of it is read there. */
  lemma StandsThere(file: seq<u8>, pre: seq<u8>, b: seq<u8>, post: seq<u8>)
    requires file == pre + b + post && PREFIX <= |b|
    ensures Get(file, |pre|, |b|) == b
    ensures Get(file, |pre|, 4) == Get(b, 0, 4) && Get(file, |pre| + 4, 4) == Get(b, 4, 4)
    ensures file[|pre| + 26] == b[26]
  {
    var o := |pre|;
    assert pre + b <= file;
    SliceBehind(pre, b, file);
    SliceSlice(file, o, o + |b|, 0, 4);
    SliceSlice(file, o, o + |b|, 4, 8);
    assert file[o..o + |b|][26] == file[o + 26];
  }

  lemma ReadFrame(lib: Library, file: seq<u8>, pre: seq<u8>, p: Parts, post: seq<u8>)
    requires p.Valid() && file == pre + Frame(p) + post
    ensures PreadExtent(lib, file, |pre|) == Got(Frame(p), |pre| + |Frame(p)|)
  {
    FrameWordsRead(p);
    HeaderRead(p);
    StandsThere(file, pre, Frame(p), post);
    assert ExtentLength(file, |pre|) == |Frame(p)|;
  }

  /** No extent starts like a tail: its first word is a size below 512 MB. */
  lemma NeverATail(p: Parts)
    requires p.Valid()
    ensures Dec(Get(Frame(p), 0, 4)) < MAX_PACKED < MARK
  {
    FrameWordsRead(p);
  }

  lemma ReadTail(lib: Library, file: seq<u8>, pre: seq<u8>, tail: seq<u8>)
    requires |tail| == TAIL_LENGTH && VerifyTail(lib, tail) && Dec(Get(tail, 0, 4)) == MARK && file == pre + tail
    ensures PreadExtent(lib, file, |pre|) == AtTail
  {
    TailSlices(file, |pre|, tail);
  }

  // ---------- a whole file ----------

  /** The bytes of one packed extent, and its type. */
  datatype Packed = Packed(bytes: seq<u8>, name: seq<u8>)
  {
    ghost predicate Valid() {
      exists p: Parts :: p.Valid() && bytes == Frame(p) && name == p.name
    }
  }

  ghost predicate AllValid(es: seq<Packed>) {
    forall i :: 0 <= i < |es| ==> es[i].Valid()
  }

  /** An extent that stands in the file is read back whole, and the position moves just behind it. */
  lemma ReadPacked(lib: Library, file: seq<u8>, pre: seq<u8>, e: Packed, post: seq<u8>)
    requires e.Valid() && file == pre + e.bytes + post
    ensures PreadExtent(lib, file, |pre|) == Got(e.bytes, |pre| + |e.bytes|)
  {
    var p: Parts :| p.Valid() && e.bytes == Frame(p) && e.name == p.name;
    ReadFrame(lib, file, pre, p, post);
  }

  function Concat(es: seq<Packed>): (b: seq<u8>) {
    if es == [] then [] else es[0].bytes + Concat(es[1..])
  }

  function BytesOf(es: seq<Packed>): (r: seq<seq<u8>>)
    ensures |r| == |es|
  {
    seq(|es|, i requires 0 <= i < |es| => es[i].bytes)
  }

  lemma {:induction false} ConcatAppend(es: seq<Packed>, e: Packed)
    ensures Concat(es + [e]) == Concat(es) + e.bytes
  {
    if es == [] {
      assert [e][1..] == [];
    } else {
      ConcatAppend(es[1..], e);
      assert (es + [e])[1..] == es[1..] + [e];
    }
  }

  /** The first extent behind pre, seen from both sides. */
  lemma ConcatSplit(file: seq<u8>, pre: seq<u8>, es: seq<Packed>, tail: seq<u8>)
    requires es != [] && file == pre + Concat(es) + tail
    ensures file == pre + es[0].bytes + (Concat(es[1..]) + tail)
    ensures file == (pre + es[0].bytes) + Concat(es[1..]) + tail
  {
    var b, rest := es[0].bytes, Concat(es[1..]);
    assert pre + (b + rest) + tail == pre + b + (rest + tail);
    assert pre + (b + rest) + tail == (pre + b) + rest + tail;
  }

  lemma BytesCons(es: seq<Packed>)
    requires es != []
    ensures BytesOf(es) == [es[0].bytes] + BytesOf(es[1..])
  {
  }

  /** Repeated reading recovers exactly the extents, and stops at the tail. */
  lemma {:induction false} ReadAllBack(lib: Library, file: seq<u8>, pre: seq<u8>, es: seq<Packed>, tail: seq<u8>)
    requires AllValid(es) && file == pre + Concat(es) + tail
    requires PreadExtent(lib, file, |file| - |tail|) == AtTail
    ensures ReadAll(lib, file, |pre|) == Some(BytesOf(es))
    decreases |es|
  {
    if es == [] {
      ReadAllEnd(lib, file, |pre|);
    } else {
      var b := es[0].bytes;
      ConcatSplit(file, pre, es, tail);
      ReadPacked(lib, file, pre, es[0], Concat(es[1..]) + tail);
      ReadAllBack(lib, file, pre + b, es[1..], tail);
      ReadAllStep(lib, file, |pre|, b, |pre + b|);
      BytesCons(es);
    }
  }

  // ---------- the index ----------

  datatype IndexRow = IndexRow(offset: nat, name: seq<u8>)

  /** One row for each extent: where it starts, and its type. */
  function Rows(es: seq<Packed>, start: nat): (r: seq<IndexRow>)
    ensures |r| == |es|
  {
    if es == [] then [] else [IndexRow(start, es[0].name)] + Rows(es[1..], start + |es[0].bytes|)
  }

  lemma {:induction false} RowsAppend(es: seq<Packed>, e: Packed, start: nat)
    ensures Rows(es + [e], start) == Rows(es, start) + [IndexRow(start + |Concat(es)|, e.name)]
    decreases |es|
  {
    if es == [] {
      assert [e][1..] == [];
    } else {
      RowsAppend(es[1..], e, start + |es[0].bytes|);
      assert (es + [e])[1..] == es[1..] + [e];
    }
  }

  /** Reading at the row's offset gives the extent. */
  ghost predicate Finds(lib: Library, file: seq<u8>, row: IndexRow, e: Packed) {
    row.name == e.name && PreadExtent(lib, file, row.offset) == Got(e.bytes, row.offset + |e.bytes|)
  }

  /** The k-th row names the place where the k-th extent stands. */
  lemma {:induction false} RowStands(file: seq<u8>, pre: seq<u8>, es: seq<Packed>, tail: seq<u8>, k: nat)
    returns (before: seq<u8>, behind: seq<u8>)
    requires k < |es| && file == pre + Concat(es) + tail
    ensures file == before + es[k].bytes + behind
    ensures Rows(es, |pre|)[k] == IndexRow(|before|, es[k].name)
    decreases |es|
  {
    ConcatSplit(file, pre, es, tail);
    if k == 0 {
      before, behind := pre, Concat(es[1..]) + tail;
    } else {
      before, behind := RowStands(file, pre + es[0].bytes, es[1..], tail, k - 1);
    }
  }

  lemma FoundThere(lib: Library, file: seq<u8>, before: seq<u8>, e: Packed, behind: seq<u8>)
    requires e.Valid() && file == before + e.bytes + behind
    ensures Finds(lib, file, IndexRow(|before|, e.name), e)
  {
    ReadPacked(lib, file, before, e, behind);
  }

  lemma {:induction false} RowsFind(lib: Library, file: seq<u8>, pre: seq<u8>, es: seq<Packed>, tail: seq<u8>, k: nat)
    requires AllValid(es) && k < |es| && file == pre + Concat(es) + tail
    ensures Finds(lib, file, Rows(es, |pre|)[k], es[k])
  {
    var before, behind := RowStands(file, pre, es, tail, k);
    FoundThere(lib, file, before, es[k], behind);
  }

  // ---------- the writer ----------

  /** What packing an index of these rows gives. */
  type IndexPacker = seq<IndexRow> -> Packed

  /** The part of WriterInfo that belongs to the file; cur_offset is -1 on a closed file. */
  class WriterInfo {
    var file: seq<u8>
    var curOffset: int
    var rows: seq<IndexRow>
    var checksum: nat
    ghost var written: seq<Packed>
    const header: seq<u8>

    ghost predicate Valid()
      reads this
    {
      && |header| == HEADER_LENGTH
      && file == header + Concat(written)
      && curOffset == |file|
      && rows == Rows(written, HEADER_LENGTH)
    }

    constructor (doubles: seq<u8>)
      requires |doubles| == 24
      ensures Valid() && written == [] && header == FileHeader(doubles)
    {
      header := FileHeader(doubles);
      file := header;
      curOffset := HEADER_LENGTH;
      rows := [];
      checksum := 0;
      written := [];
    }

    /** The body of the loop in writeOutPending: the row is made before the bytes are written. */
    method Write(e: Packed, sum: nat, mix: (nat, nat) -> nat)
      requires Valid()
      modifies this
      ensures Valid() && written == old(written) + [e]
      ensures checksum == mix(sum, old(checksum))
    {
      ConcatAppend(written, e);
      RowsAppend(written, e, HEADER_LENGTH);
      assert header + (Concat(written) + e.bytes) == file + e.bytes;
      rows := rows + [IndexRow(curOffset, e.name)];
      file := file + e.bytes;
      curOffset := curOffset + |e.bytes|;
      checksum := mix(sum, checksum);
      written := written + [e];
    }

    /** The end of close: the index gets a row for itself before it is packed, and the tail follows it. */
    method Close(lib: Library, indexName: seq<u8>, pack: IndexPacker, sum: nat, mix: (nat, nat) -> nat)
      requires Valid() && forall rs :: pack(rs).name == indexName
      modifies this
      ensures curOffset == -1
      ensures var self := IndexRow(old(curOffset), indexName);
              && written == old(written) + [pack(old(rows) + [self])]
              && old(rows) + [self] == Rows(written, HEADER_LENGTH)
      ensures file == ClosedFile(lib, header, written, mix(sum, old(checksum)))
    {
      var indexOffset: nat := curOffset;
      var e := pack(rows + [IndexRow(indexOffset, indexName)]);
      RowsAppend(written, e, HEADER_LENGTH);
      ghost var before := written;
      Write(e, sum, mix);
      var tail := TailOf(lib, |e.bytes|, checksum, indexOffset);
      TailOfLast(lib, before, e, checksum);
      file := file + tail;
      curOffset := -1;
    }
  }

  /** A closed file: the last extent is the index. */
  ghost function ClosedFile(lib: Library, header: seq<u8>, es: seq<Packed>, checksum: nat): seq<u8>
    requires es != []
  {
    header + Concat(es) + IndexTail(lib, es, checksum)
  }

  ghost function IndexTail(lib: Library, es: seq<Packed>, checksum: nat): (t: seq<u8>)
    requires es != []
    ensures |t| == TAIL_LENGTH
  {
    var n := |es| - 1;
    TailOf(lib, |es[n].bytes|, checksum, HEADER_LENGTH + |Concat(es[..n])|)
  }

  lemma TailOfLast(lib: Library, es: seq<Packed>, e: Packed, checksum: nat)
    ensures IndexTail(lib, es + [e], checksum) == TailOf(lib, |e.bytes|, checksum, HEADER_LENGTH + |Concat(es)|)
  {
    assert (es + [e])[..|es|] == es;
  }

  /** A file that an off64_t can address. */
  ghost predicate Addressable(lib: Library, header: seq<u8>, es: seq<Packed>, checksum: nat) {
    && lib.Valid() && |header| == HEADER_LENGTH && AllValid(es) && es != []
    && |ClosedFile(lib, header, es, checksum)| < 0x8000_0000_0000_0000
  }

  lemma PackedSmall(e: Packed)
    requires e.Valid()
    ensures |e.bytes| < 0x8000_0000
  {
  }

  /** The reader accepts the header of every file. */
  lemma HeaderReads(doubles: seq<u8>, rest: seq<u8>)
    requires |doubles| == 24
    ensures HeaderAccepted(FileHeader(doubles) + rest)
  {
    var m, a, b := [68, 83, 118, 49], Enc(0x1234_5678, 4), Enc(0x1234_5678_9ABC_DEF0, 8);
    var file := FileHeader(doubles) + rest;
    assert m + a <= m + a + b <= m + a + b + doubles <= file;
    SliceBehind(m, a, file);
    SliceBehind(m + a, b, file);
    assert file[..4] == m;
    Pow256Values();
    DecEnc(0x1234_5678, 4);
    DecEnc(0x1234_5678_9ABC_DEF0, 8);
  }

  lemma LastRow(es: seq<Packed>)
    requires es != []
    ensures var n := |es| - 1;
            && Rows(es, HEADER_LENGTH)[n].offset == HEADER_LENGTH + |Concat(es[..n])|
            && |Concat(es)| == |Concat(es[..n])| + |es[n].bytes|
  {
    var n := |es| - 1;
    assert es == es[..n] + [es[n]];
    ConcatAppend(es[..n], es[n]);
    RowsAppend(es[..n], es[n], HEADER_LENGTH);
  }

  /** What the tail of a closed file holds. */
  lemma IndexTailReads(lib: Library, header: seq<u8>, es: seq<Packed>, checksum: nat)
    requires Addressable(lib, header, es, checksum)
    ensures var t, row := IndexTail(lib, es, checksum), Rows(es, HEADER_LENGTH)[|es| - 1];
            && VerifyTail(lib, t) && Dec(Get(t, 0, 4)) == MARK
            && Dec(Get(t, 4, 4)) == |es[|es| - 1].bytes| && Dec(Get(t, 16, 8)) == row.offset
            && row.offset + |es[|es| - 1].bytes| == HEADER_LENGTH + |Concat(es)|
  {
    LastRow(es);
    PackedSmall(es[|es| - 1]);
    TailVerified(lib, |es[|es| - 1].bytes|, checksum, HEADER_LENGTH + |Concat(es[..|es| - 1])|);
  }

  /** Reading a closed file from behind the header gives exactly the extents and stops at the tail. */
  lemma ClosedFileReads(lib: Library, header: seq<u8>, es: seq<Packed>, checksum: nat)
    requires Addressable(lib, header, es, checksum)
    ensures ReadAll(lib, ClosedFile(lib, header, es, checksum), HEADER_LENGTH) == Some(BytesOf(es))
  {
    var file, body, tail := ClosedFile(lib, header, es, checksum), header + Concat(es), IndexTail(lib, es, checksum);
    IndexTailReads(lib, header, es, checksum);
    ReadTail(lib, file, body, tail);
    ReadAllBack(lib, file, header, es, tail);
  }

  /** Each index row of a closed file, that of the index included, finds its extent. */
  lemma ClosedFileIndex(lib: Library, header: seq<u8>, es: seq<Packed>, checksum: nat, k: nat)
    requires |header| == HEADER_LENGTH && AllValid(es) && k < |es|
    ensures Finds(lib, ClosedFile(lib, header, es, checksum), Rows(es, HEADER_LENGTH)[k], es[k])
  {
    RowsFind(lib, ClosedFile(lib, header, es, checksum), header, es, IndexTail(lib, es, checksum), k);
  }

  /** The reader's checks on the last 28 bytes: a valid tail, whose packed size leads back to the offset it names. */
  ghost predicate TailAccepted(lib: Library, file: seq<u8>) {
    var at := |file| - TAIL_LENGTH;
    && at > 0 && VerifyTail(lib, Get(file, at, TAIL_LENGTH))
    && at - Dec(Get(file, at + 4, 4)) == Dec(Get(file, at + 16, 8))
  }

  /** The tail of a closed file is accepted, and names the offset of the last extent, which is the index. */
  lemma ClosedFileTail(lib: Library, header: seq<u8>, es: seq<Packed>, checksum: nat)
    requires Addressable(lib, header, es, checksum)
    ensures var file := ClosedFile(lib, header, es, checksum);
            && TailAccepted(lib, file)
            && Dec(Get(file, |file| - TAIL_LENGTH + 16, 8)) == Rows(es, HEADER_LENGTH)[|es| - 1].offset
  {
    var file, tail := ClosedFile(lib, header, es, checksum), IndexTail(lib, es, checksum);
    var at := |header + Concat(es)|;
    IndexTailReads(lib, header, es, checksum);
    assert file[at..] == tail;
    TailSlices(file, at, tail);
  }

  lemma TailSlices(file: seq<u8>, at: nat, tail: seq<u8>)
    requires at + TAIL_LENGTH == |file| && file[at..] == tail
    ensures Get(file, at, TAIL_LENGTH) == tail
    ensures Get(file, at, 4) == Get(tail, 0, 4)
    ensures Get(file, at + 4, 4) == Get(tail, 4, 4) && Get(file, at + 16, 8) == Get(tail, 16, 8)
  {
    assert file[at..at + TAIL_LENGTH] == tail;
    SliceSlice(file, at, at + TAIL_LENGTH, 0, 4);
    SliceSlice(file, at, at + TAIL_LENGTH, 4, 8);
    SliceSlice(file, at, at + TAIL_LENGTH, 16, 24);
  }

  /** What packData returns is such an extent. */
  lemma PackDataIsPacked(lib: Library, t: RF.RecordType, name: seq<u8>, e: Extent, tries: Attempted)
    requires lib.Valid() && t.Valid() && RF.AllReady(t, e.recs) && 4 <= |e.pool| && tries.Valid()
    requires PackData(lib, t, name, e, tries).Some?
    ensures Packed(PackData(lib, t, name, e, tries).value, name).Valid()
  {
    var p := Assemble(lib, t, name, Code(t, e).value, tries).value;
    var sealed := p.(digest := lib.adler(Digested(Frame(p))));
    assert sealed.Valid() && Seal(lib, p) == Frame(sealed) && sealed.name == name;
  }
}
