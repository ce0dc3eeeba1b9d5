/** compactNulls and uncompactNulls on the byte buffers (src/base/Extent.cpp:325-569): two buffers, one cursor in each,
    and the padding bytes written one position at a time. */
module NullBuffers {
  import opened Bytes
  import opened RecordFormat
  import opened ExtentCodec
  import opened NullCompaction
  import EB = ExtentBuffers

  // ---------- three lists, one after the other ----------

  lemma {:induction false} CompactFieldsJoin(t: RecordType, rec: Record, xs: seq<Field>, ys: seq<Field>, out: seq<u8>)
    requires Compacts(t, rec) && (forall f | f in xs :: f in t.fields) && (forall f | f in ys :: f in t.fields)
    ensures CompactFields(t, rec, xs + ys, out) == CompactFields(t, rec, ys, CompactFields(t, rec, xs, out))
    decreases |xs|
  {
    if xs == [] {
      assert xs + ys == ys;
    } else {
      assert (xs + ys)[1..] == xs[1..] + ys;
      CompactFieldsJoin(t, rec, xs[1..], ys, CompactField(t, rec, xs[0], out));
    }
  }

  lemma {:induction false} UncompactFieldsJoin(
      t: RecordType, src: seq<u8>, xs: seq<Field>, ys: seq<Field>, u: Unpacked)
    requires Compacts(t, u.rec) && (forall f | f in xs :: f in t.fields) && (forall f | f in ys :: f in t.fields)
    ensures var v := UncompactFields(t, src, xs, u);
            UncompactFields(t, src, xs + ys, u) == if v.None? then None else UncompactFields(t, src, ys, v.value)
    decreases |xs|
  {
    if xs == [] {
      assert xs + ys == ys;
    } else {
      assert (xs + ys)[1..] == xs[1..] + ys;
      var v := UncompactField(t, src, xs[0], u);
      if v.Some? {
        UncompactFieldsJoin(t, src, xs[1..], ys, v.value);
      }
    }
  }

  // ---------- compaction ----------

  lemma SameMultiple(x: nat, y: nat, width: nat)
    requires (width == 1 || width == 4 || width == 8) && x % width == 0 && y % width == 0
    requires x < y + width && y < x + width
    ensures x == y
  {
    if width == 4 {
      var i, j := x / 4, y / 4;
      assert x == 4 * i && y == 4 * j;
      assert i == j;
    } else if width == 8 {
      var i, j := x / 8, y / 8;
      assert x == 8 * i && y == 8 * j;
      assert i == j;
    }
  }

  /** Inside the padding, the rest of it is still to be written. */
  lemma PaddingLeft(cur: nat, at: nat, width: nat)
    requires (width == 1 || width == 4 || width == 8) && cur <= at <= cur + Padding(cur, width)
    ensures Padding(at, width) == cur + Padding(cur, width) - at
  {
    SameMultiple(at + Padding(at, width), cur + Padding(cur, width), width);
  }

  /** Zeroes the bytes up to the next multiple of width; the 8-byte loop writes four bytes at every step. */
  method PadTo(into: array<u8>, cur: nat, width: nat) returns (cur': nat)
    requires width == 1 || width == 4 || width == 8
    requires cur + Padding(cur, width) + width <= into.Length
    modifies into
    ensures cur' == cur + Padding(cur, width)
    ensures into[..cur'] == old(into[..cur]) + Zeros(Padding(cur, width))
  {
    ghost var end := cur + Padding(cur, width);
    cur' := cur;
    PaddingLeft(cur, cur, width);
    while Padding(cur', width) != 0
      invariant cur <= cur' <= end && Padding(cur', width) == end - cur'
      invariant forall k :: 0 <= k < cur ==> into[k] == old(into[k])
      invariant forall k :: cur <= k < cur' ==> into[k] == 0
      decreases end - cur'
    {
      Overwrite(into, cur', Zeros(if width == 8 then 4 else 1));
      cur' := cur' + 1;
      PaddingLeft(cur, cur', width);
    }
  }

  /** Pads, and copies one non-null field behind the output. */
  method CompactOne(a: array<u8>, base: nat, into: array<u8>, cur: nat, f: Field,
                    ghost pre: seq<u8>, ghost rec: Record, ghost post: seq<u8>) returns (cur': nat)
    requires EB.Window(a[..], pre, rec, post) && |pre| == base && f.offset + f.width <= |rec|
    requires f.width == 1 || f.width == 4 || f.width == 8
    requires a != into && cur + Padding(cur, f.width) + f.width <= into.Length
    modifies into
    ensures cur' == cur + Padding(cur, f.width) + f.width
    ensures into[..cur'] == old(into[..cur]) + Zeros(Padding(cur, f.width)) + Get(rec, f.offset, f.width)
  {
    var b := EB.ReadBytes(a, base, f.offset, f.width, pre, rec, post);
    cur' := PadTo(into, cur, f.width);
    ghost var padded := into[..cur'];
    Overwrite(into, cur', b);
    cur' := cur' + f.width;
    assert into[..cur'] == padded + b;
  }

  /** Copies the non-null fields of one list behind the output. */
  method CompactList(t: RecordType, a: array<u8>, base: nat, into: array<u8>, cur: nat, fs: seq<Field>,
                     ghost pre: seq<u8>, ghost rec: Record, ghost post: seq<u8>) returns (cur': nat)
    requires Compacts(t, rec) && EB.Window(a[..], pre, rec, post) && |pre| == base
    requires (forall f | f in fs :: f in t.fields) && a != into && cur <= into.Length
    requires |CompactFields(t, rec, fs, into[..cur])| <= into.Length
    modifies into
    ensures cur' <= into.Length && into[..cur'] == CompactFields(t, rec, fs, old(into[..cur]))
  {
    cur' := cur;
    assert fs[0..] == fs;
    for j := 0 to |fs|
      invariant cur' <= into.Length
      invariant CompactFields(t, rec, fs[j..], into[..cur']) == CompactFields(t, rec, fs, old(into[..cur]))
    {
      var f := fs[j];
      assert t.FieldFits(f) && fs[j..][1..] == fs[j + 1..];
      var isNull := EB.ReadNull(a, base, f, pre, rec, post);
      if !isNull {
        assert |CompactField(t, rec, f, into[..cur'])| <= into.Length;
        cur' := CompactOne(a, base, into, cur', f, pre, rec, post);
      }
    }
  }

  /** One record: its bools, then the lists of 1, 4 and 8 byte fields. */
  method CompactRecordAt(t: RecordType, a: array<u8>, base: nat, into: array<u8>, cur: nat,
                         ghost pre: seq<u8>, ghost rec: Record, ghost post: seq<u8>) returns (cur': nat)
    requires Compacts(t, rec) && EB.Window(a[..], pre, rec, post) && |pre| == base
    requires a != into && cur <= into.Length && |CompactRecord(t, rec, into[..cur])| <= into.Length
    modifies into
    ensures cur' <= into.Length && into[..cur'] == CompactRecord(t, rec, old(into[..cur]))
  {
    ghost var out := into[..cur];
    var bools := EB.ReadBytes(a, base, 0, t.boolBytes, pre, rec, post);
    Overwrite(into, cur, bools);
    cur' := cur + t.boolBytes;
    ghost var out0 := out + rec[..t.boolBytes];
    assert into[..cur'] == out0;
    ghost var out1 := CompactFields(t, rec, t.size1, out0);
    ghost var out4 := CompactFields(t, rec, t.size4, out1);
    assert CompactRecord(t, rec, out) == CompactFields(t, rec, t.size8, out4) by {
      CompactFieldsJoin(t, rec, t.size1 + t.size4, t.size8, out0);
      CompactFieldsJoin(t, rec, t.size1, t.size4, out0);
    }
    cur' := CompactList(t, a, base, into, cur', t.size1, pre, rec, post);
    cur' := CompactList(t, a, base, into, cur', t.size4, pre, rec, post);
    cur' := CompactList(t, a, base, into, cur', t.size8, pre, rec, post);
  }

  lemma AtLeastOne(n: nat, size: nat)
    requires n > 0
    ensures n * size >= size
  {
    var p := (n - 1) * size;
    assert p >= 0 && n * size == p + size;
  }

  /** What one record contributes, and that there is room for it. */
  lemma CompactStep(t: RecordType, recs: seq<Record>, base: nat, next: nat, out: seq<u8>)
    requires t.Ordered() && AllCompact(t, recs) && recs != [] && BaseAligned(t, base) && |out| <= base
    requires next == base + t.size
    ensures AllCompact(t, recs[1..]) && Compacts(t, recs[0])
    ensures Compact(t, recs, out) == Compact(t, recs[1..], CompactRecord(t, recs[0], out))
    ensures |CompactRecord(t, recs[0], out)| <= next && BaseAligned(t, next)
    ensures |Flatten(recs)| == t.size + |Flatten(recs[1..])|
  {
    RecordNoLonger(t, recs[0], base, out);
  }

  /** The output never overtakes the input, so the check for room at the top of the loop always passes. */
  method CompactNulls(t: RecordType, a: array<u8>, into: array<u8>, ghost recs: seq<Record>) returns (n: nat)
    requires t.Ordered() && AllCompact(t, recs) && a[..] == Flatten(recs)
    requires a != into && into.Length == a.Length
    modifies into
    ensures n <= into.Length && into[..n] == Compact(t, recs, [])
  {
    var base: nat := 0;
    n := 0;
    ghost var done: seq<Record> := [];
    ghost var todo := recs;
    ghost var whole := Compact(t, recs, []);
    while base != a.Length
      invariant AllCompact(t, todo) && BaseAligned(t, base)
      invariant n <= base == |Flatten(done)| <= a.Length && a[..] == Flatten(done) + Flatten(todo)
      invariant Compact(t, todo, into[..n]) == whole
      decreases |todo|
    {
      assert todo != [];
      EB.WindowHere(done, todo);
      var next: nat := base + t.size;
      CompactStep(t, todo, base, next, into[..n]);
      assert |a[..]| == |Flatten(done)| + |Flatten(todo)|;
      assert n + t.size <= into.Length && next <= a.Length;
      n := CompactRecordAt(t, a, base, into, n, Flatten(done), todo[0], Flatten(todo[1..]));
      FlattenAppend(done, todo[0]);
      done, todo := done + [todo[0]], todo[1..];
      base := next;
    }
    FlattenEmpty(todo, t.size);
  }

  // ---------- the inverse ----------

  lemma PaddedIsAligned(from: nat, width: nat)
    requires width == 1 || width == 4 || width == 8
    ensures Padding(from + Padding(from, width), width) == 0
  {
  }

  /** Moving the read position to the alignment in front of a non-null field changes nothing. */
  lemma SameBehindPadding(t: RecordType, src: seq<u8>, fs: seq<Field>, width: nat, rec: Record, from: nat, at: nat)
    requires Compacts(t, rec) && (forall f | f in fs :: f in t.fields && f.width == width)
    requires fs != [] && !IsNull(rec, fs[0]) && (width == 1 || width == 4 || width == 8)
    requires at == from + Padding(from, width)
    ensures Padding(at, width) == 0
    ensures UncompactFields(t, src, fs, Unpacked(rec, from)) == UncompactFields(t, src, fs, Unpacked(rec, at))
  {
    PaddedIsAligned(from, width);
    assert fs[0].width == width;
  }

  lemma StillAligned(from: nat, width: nat)
    requires (width == 1 || width == 4 || width == 8) && Padding(from, width) == 0
    ensures Padding(from + width, width) == 0
  {
  }

  /** Copies the next fields of one list, from a read position that is already aligned. */
  method UncompactAligned(t: RecordType, fs: seq<Field>, width: nat, to: array<u8>, base: nat, src: seq<u8>, from: nat,
                          ghost pre: seq<u8>, ghost rec: Record, ghost post: seq<u8>)
    returns (ok: bool, from': nat)
    requires Compacts(t, rec) && EB.Window(to[..], pre, rec, post) && |pre| == base
    requires forall f | f in fs :: f in t.fields && f.width == width
    requires (width == 1 || width == 4 || width == 8) && Padding(from, width) == 0
    modifies to
    ensures ok <==> UncompactFields(t, src, fs, Unpacked(rec, from)).Some?
    ensures ok ==> var u := UncompactFields(t, src, fs, Unpacked(rec, from)).value;
                   from' == u.from && EB.Window(to[..], pre, u.rec, post)
  {
    ghost var whole := UncompactFields(t, src, fs, Unpacked(rec, from));
    ghost var now := rec;
    from' := from;
    assert fs[0..] == fs;
    for i := 0 to |fs|
      invariant Compacts(t, now) && Padding(from', width) == 0 && EB.Window(to[..], pre, now, post)
      invariant whole == UncompactFields(t, src, fs[i..], Unpacked(now, from'))
    {
      var f := fs[i];
      assert t.FieldFits(f) && fs[i..][1..] == fs[i + 1..];
      var isNull := EB.ReadNull(to, base, f, pre, now, post);
      if !isNull {
        if from' + width > |src| {
          return false, from';
        }
        var b := Get(src, from', width);
        StillAligned(from', width);
        EB.WriteBytes(to, base, f.offset, b, pre, now, post);
        now, from' := Put(now, f.offset, b), from' + width;
      }
    }
    ok := true;
  }

  /** Copies the next fields of one list; the read position is aligned once, in front of the first non-null field. */
  method UncompactCopy(t: RecordType, fs: seq<Field>, width: nat, to: array<u8>, base: nat, src: seq<u8>, from: nat,
                       ghost pre: seq<u8>, ghost rec: Record, ghost post: seq<u8>)
    returns (ok: bool, from': nat)
    requires Compacts(t, rec) && EB.Window(to[..], pre, rec, post) && |pre| == base
    requires forall f | f in fs :: f in t.fields && f.width == width
    requires width == 1 || width == 4 || width == 8
    modifies to
    ensures ok <==> UncompactFields(t, src, fs, Unpacked(rec, from)).Some?
    ensures ok ==> var u := UncompactFields(t, src, fs, Unpacked(rec, from)).value;
                   from' == u.from && EB.Window(to[..], pre, u.rec, post)
  {
    ghost var whole := UncompactFields(t, src, fs, Unpacked(rec, from));
    assert fs[0..] == fs;
    for i := 0 to |fs|
      invariant whole == UncompactFields(t, src, fs[i..], Unpacked(rec, from))
      invariant EB.Window(to[..], pre, rec, post)
    {
      assert t.FieldFits(fs[i]) && fs[i..][1..] == fs[i + 1..];
      var isNull := EB.ReadNull(to, base, fs[i], pre, rec, post);
      if !isNull {
        var tail, at: nat := fs[i..], from + Padding(from, width);
        SameBehindPadding(t, src, tail, width, rec, from, at);
        ok, from' := UncompactAligned(t, tail, width, to, base, src, at, pre, rec, post);
        return;
      }
    }
    ok, from' := true, from;
  }

  /** The three lists of a record, one after the other. */
  method UncompactLists(t: RecordType, to: array<u8>, base: nat, src: seq<u8>, from: nat,
                        ghost pre: seq<u8>, ghost rec: Record, ghost post: seq<u8>)
    returns (ok: bool, from': nat)
    requires t.Ordered() && Compacts(t, rec) && EB.Window(to[..], pre, rec, post) && |pre| == base
    modifies to
    ensures ok <==> UncompactFields(t, src, t.fields, Unpacked(rec, from)).Some?
    ensures ok ==> var u := UncompactFields(t, src, t.fields, Unpacked(rec, from)).value;
                   from' == u.from && EB.Window(to[..], pre, u.rec, post)
  {
    ghost var u0 := Unpacked(rec, from);
    UncompactFieldsJoin(t, src, t.size1 + t.size4, t.size8, u0);
    UncompactFieldsJoin(t, src, t.size1, t.size4, u0);
    ok, from' := UncompactCopy(t, t.size1, 1, to, base, src, from, pre, rec, post);
    if ok {
      ghost var u1 := UncompactFields(t, src, t.size1, u0).value;
      ok, from' := UncompactCopy(t, t.size4, 4, to, base, src, from', pre, u1.rec, post);
      if ok {
        ghost var u4 := UncompactFields(t, src, t.size4, u1).value;
        ok, from' := UncompactCopy(t, t.size8, 8, to, base, src, from', pre, u4.rec, post);
      }
    }
  }

  lemma RecordFromBools(t: RecordType, src: seq<u8>, from: nat, blank: Record)
    requires t.Shaped() && t.nullCompact && from + t.boolBytes <= |src|
    requires blank == Blank(t, src[from..from + t.boolBytes])
    ensures UncompactRecord(t, src, from) == UncompactFields(t, src, t.fields, Unpacked(blank, from + t.boolBytes))
  {
  }

  lemma BlankPut(t: RecordType, bools: seq<u8>)
    requires t.Shaped() && t.nullCompact && |bools| == t.boolBytes
    ensures Put(Zeros(t.size), 0, bools) == Blank(t, bools)
  {
  }

  /** One record: its bools, then the three lists. */
  method UncompactRecordAt(t: RecordType, to: array<u8>, base: nat, src: seq<u8>, from: nat,
                           ghost pre: seq<u8>, ghost post: seq<u8>)
    returns (ok: bool, from': nat)
    requires t.Shaped() && t.Ordered() && t.nullCompact
    requires EB.Window(to[..], pre, Zeros(t.size), post) && |pre| == base
    modifies to
    ensures ok <==> UncompactRecord(t, src, from).Some?
    ensures ok ==> var u := UncompactRecord(t, src, from).value;
                   from' == u.from && EB.Window(to[..], pre, u.rec, post)
  {
    if from + t.boolBytes > |src| {
      return false, from;
    }
    var bools := src[from..from + t.boolBytes];
    EB.WriteBytes(to, base, 0, bools, pre, Zeros(t.size), post);
    ghost var blank := Blank(t, bools);
    BlankPut(t, bools);
    RecordFromBools(t, src, from, blank);
    ok, from' := UncompactLists(t, to, base, src, from + t.boolBytes, pre, blank, post);
  }

  /** The rest of the input completes what is already unpacked. */
  ghost predicate Completes(whole: Option<seq<Record>>, done: seq<Record>, rest: Option<seq<Record>>) {
    match rest
    case None => whole == None
    case Some(r) => whole == Some(done + r)
  }

  lemma CompletesStep(t: RecordType, src: seq<u8>, whole: Option<seq<Record>>, done: seq<Record>, from: nat, n: nat,
                      left: nat)
    requires t.Shaped() && t.nullCompact && n > 0 && left == n - 1
    requires Completes(whole, done, Uncompact(t, src, from, n))
    ensures UncompactRecord(t, src, from).None? ==> whole == None
    ensures UncompactRecord(t, src, from).Some? ==>
      var u := UncompactRecord(t, src, from).value;
      Completes(whole, done + [u.rec], Uncompact(t, src, u.from, left))
  {
    var u := UncompactRecord(t, src, from);
    if u.Some? {
      var rest := Uncompact(t, src, u.value.from, left);
      if rest.Some? {
        assert done + ([u.value.rec] + rest.value) == done + [u.value.rec] + rest.value;
      }
    }
  }

  predicate RoomFor(room: nat, n: nat, size: nat) {
    room == n * size
  }

  /** The zeroed rest of the output splits off one record. */
  lemma RoomForRecord(done: seq<Record>, room: nat, size: nat, left: nat)
    requires RoomFor(room, left, size) && room > 0
    ensures left > 0 && size <= room && RoomFor(room - size, left - 1, size)
    ensures EB.Window(Flatten(done) + Zeros(room), Flatten(done), Zeros(size), Zeros(room - size))
  {
    assert left > 0;
    AtLeastOne(left, size);
    assert Zeros(room) == Zeros(size) + Zeros(room - size);
  }

  lemma NoRoom(room: nat, n: nat, size: nat)
    requires RoomFor(room, n, size) && size > 0
    ensures room == 0 <==> n == 0
  {
    if n > 0 {
      AtLeastOne(n, size);
    }
  }

  /** At the end of the loop: everything is there exactly when both cursors are at their ends. */
  lemma CompletesEnd(t: RecordType, src: seq<u8>, whole: Option<seq<Record>>, done: seq<Record>, from: nat, n: nat,
                     room: nat)
    requires t.Shaped() && t.nullCompact && Completes(whole, done, Uncompact(t, src, from, n))
    requires RoomFor(room, n, t.size) && (room == 0 || |src| <= from)
    ensures whole.Some? <==> room == 0 && from == |src|
    ensures whole.Some? ==> whole.value == done
  {
    NoRoom(room, n, t.size);
    if n == 0 {
      assert done + [] == done;
    } else {
      assert UncompactRecord(t, src, from).None?;
    }
  }

  /** It succeeds exactly when both cursors end at their ends, and then into holds the n records. */
  method UncompactNulls(t: RecordType, src: seq<u8>, into: array<u8>, ghost n: nat) returns (ok: bool)
    requires t.Shaped() && t.Ordered() && t.nullCompact && RoomFor(into.Length, n, t.size) && |src| <= into.Length
    modifies into
    ensures ok <==> Uncompact(t, src, 0, n).Some?
    ensures ok ==> into[..] == Flatten(Uncompact(t, src, 0, n).value)
  {
    Overwrite(into, 0, Zeros(into.Length));
    var from: nat, to: nat := 0, 0;
    ghost var done: seq<Record> := [];
    ghost var left: nat, rest: nat := n, into.Length;
    ghost var whole := Uncompact(t, src, 0, n);
    assert whole.Some? ==> [] + whole.value == whole.value;
    while from < |src| && to < into.Length
      invariant to == |Flatten(done)| && to + rest == into.Length && RoomFor(rest, left, t.size)
      invariant into[..] == Flatten(done) + Zeros(rest)
      invariant Completes(whole, done, Uncompact(t, src, from, left))
      decreases left
    {
      RoomForRecord(done, rest, t.size, left);
      ghost var u := UncompactRecord(t, src, from);
      ghost var pre := Flatten(done);
      rest, left := rest - t.size, left - 1;
      CompletesStep(t, src, whole, done, from, left + 1, left);
      ok, from := UncompactRecordAt(t, into, to, src, from, pre, Zeros(rest));
      if !ok {
        return;
      }
      FlattenAppend(done, u.value.rec);
      done := done + [u.value.rec];
      to := to + t.size;
    }
    CompletesEnd(t, src, whole, done, from, left, rest);
    ok := from == |src| && to == into.Length;
  }
}
