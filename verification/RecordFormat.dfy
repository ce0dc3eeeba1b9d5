/** The layout facts the extent codec relies on: where the fields of a fixed-size record sit and which bit marks
    them null.  RecordLayout proves that the type parser only ever produces types of this kind. */
module RecordFormat {
  import opened Bytes

  predicate Aligned(pos: nat, width: nat) {
    && (width == 4 ==> pos % 4 == 0)
    && (width == 8 ==> pos % 8 == 0)
  }

  datatype NullBit = NullBit(offset: nat, bit: nat)

  /** A field other than a bool; nullAt is None for a field that cannot be null. */
  datatype Field = Field(offset: nat, width: nat, nullAt: Option<NullBit>)

  datatype VarColumn = VarColumn(field: Field, unique: bool)

  datatype Relative = Relative(field: Field, base: Field)

  /** A parsed type: the record size, the bytes that hold bools, the non-bool fields by width in ascending offset
      order, and the packing options. */
  datatype RecordType = RecordType(
    size: nat,
    boolBytes: nat,
    size1: seq<Field>,
    size4: seq<Field>,
    size8: seq<Field>,
    nullCompact: bool,
    vars: seq<VarColumn>,
    others: seq<Relative>,
    selfs: seq<Field>)
  {
    /** All non-bool fields in the order null compaction visits them. */
    const fields: seq<Field> := size1 + size4 + size8

    ghost predicate Valid() {
      Shaped() && Separate() && Options() && (nullCompact ==> Ordered())
    }

    /** Every field lies inside the record; with null compaction the bools come first and hold all null bits. */
    ghost predicate Shaped() {
      && (forall f | f in fields :: FieldFits(f))
      && (forall c | c in vars :: c.field in fields && c.field.width == 4)
      && (forall r | r in others :: r.field in fields && r.base in fields && r.field.width == r.base.width)
      && (forall f | f in selfs :: f in fields)
      && (nullCompact ==> 0 < boolBytes <= size)
      && (nullCompact ==> forall f | f in fields :: BehindBools(f))
    }

    ghost predicate FieldFits(f: Field) {
      && (f.width == 1 || f.width == 4 || f.width == 8)
      && f.offset + f.width <= size
      && (f.nullAt.Some? ==> f.nullAt.value.offset < size && f.nullAt.value.bit < 8)
    }

    ghost predicate BehindBools(f: Field) {
      f.offset >= boolBytes && (f.nullAt.Some? ==> f.nullAt.value.offset < boolBytes)
    }

    /** No two fields overlap, and no field covers a null bit. */
    ghost predicate Separate() {
      && (forall f, g {:trigger DisjointPair(f, g)} :: f in fields && g in fields ==> DisjointPair(f, g))
      && (forall f, g {:trigger OffNullBit(f, g)} :: f in fields && g in fields ==> OffNullBit(f, g))
    }

    ghost predicate DisjointPair(f: Field, g: Field) {
      f == g || Apart(f.offset, f.width, g.offset, g.width)
    }

    ghost predicate OffNullBit(f: Field, g: Field) {
      g.nullAt.Some? ==> Apart(f.offset, f.width, g.nullAt.value.offset, 1)
    }

    /** A column is packed in at most one way, and never relative to itself twice. */
    ghost predicate Options() {
      && (forall r | r in others :: r.field != r.base)
      && (forall i, j | 0 <= i < j < |selfs| :: selfs[i] != selfs[j])
      && (forall i, j | 0 <= i < j < |vars| :: vars[i].field != vars[j].field)
      && (forall c, r | c in vars && r in others :: c.field != r.field)
      && (forall c, f | c in vars && f in selfs :: c.field != f)
    }

    /** A column is packed relative in at most one way, and a base is no column that is packed after it. */
    ghost predicate OneWay() {
      && (forall r, f | r in others && f in selfs :: r.field != f)
      && (forall i, j {:trigger Chained(i, j)} :: 0 <= i < j < |others| ==> Chained(i, j))
    }

    ghost predicate Chained(i: nat, j: nat)
      requires i < |others| && j < |others|
    {
      others[i].field != others[j].field && others[i].base != others[j].field
    }

    /** Ascending aligned positions, by width, in a record whose size keeps every record of an array aligned. */
    ghost predicate Ordered() {
      && (forall f | f in size1 :: f.width == 1)
      && (forall f | f in size4 :: f.width == 4)
      && (forall f | f in size8 :: f.width == 8)
      && (forall f | f in fields :: Aligned(f.offset, f.width) && Aligned(size, f.width))
      && (forall i, j {:trigger InOrder(i, j)} :: 0 <= i < j < |fields| ==> InOrder(i, j))
    }

    ghost predicate InOrder(i: nat, j: nat)
      requires i < |fields| && j < |fields|
    {
      fields[i].offset + fields[i].width <= fields[j].offset
    }
  }

  type Record = seq<u8>

  ghost predicate Ready(t: RecordType, rec: Record) {
    t.Shaped() && |rec| == t.size
  }

  ghost predicate Separated(t: RecordType, rec: Record) {
    Ready(t, rec) && t.Separate() && t.Options()
  }

  ghost predicate AllReady(t: RecordType, recs: seq<Record>) {
    t.Shaped() && forall i :: 0 <= i < |recs| ==> |recs[i]| == t.size
  }

  /** Whether the record marks the field null: compactIsNull. */
  predicate IsNull(rec: Record, f: Field) {
    f.nullAt.Some? && f.nullAt.value.offset < |rec| && f.nullAt.value.bit < 8
    && BitSet(rec[f.nullAt.value.offset], f.nullAt.value.bit)
  }

  predicate Covers(f: Field, i: nat) {
    f.offset <= i < f.offset + f.width
  }

  // ---------- flat bytes and records ----------

  function Flatten(recs: seq<Record>): seq<u8> {
    if recs == [] then [] else recs[0] + Flatten(recs[1..])
  }

  function Chunk(flat: seq<u8>, size: nat, n: nat): (r: seq<Record>)
    requires |flat| == n * size
    ensures |r| == n && forall i :: 0 <= i < n ==> |r[i]| == size
    decreases n
  {
    if n == 0 then []
    else
      assert n * size == size + (n - 1) * size;
      [flat[..size]] + Chunk(flat[size..], size, n - 1)
  }

  lemma {:induction false} ChunkFlatten(recs: seq<Record>, size: nat)
    requires forall i :: 0 <= i < |recs| ==> |recs[i]| == size
    ensures |Flatten(recs)| == |recs| * size
    ensures Chunk(Flatten(recs), size, |recs|) == recs
    decreases |recs|
  {
    if recs != [] {
      ChunkFlatten(recs[1..], size);
      var flat := Flatten(recs);
      assert |recs| * size == size + (|recs| - 1) * size;
      assert flat[..size] == recs[0] && flat[size..] == Flatten(recs[1..]);
      assert recs == [recs[0]] + recs[1..];
    }
  }

  lemma {:induction false} FlattenEmpty(recs: seq<Record>, size: nat)
    requires size > 0 && forall i :: 0 <= i < |recs| ==> |recs[i]| == size
    ensures Flatten(recs) == [] <==> recs == []
  {
    if recs != [] {
      assert |Flatten(recs)| >= |recs[0]|;
    }
  }

  lemma {:induction false} FlattenAppend(recs: seq<Record>, rec: Record)
    ensures Flatten(recs + [rec]) == Flatten(recs) + rec
    decreases |recs|
  {
    if recs == [] {
      assert [rec][1..] == [];
    } else {
      FlattenAppend(recs[1..], rec);
      assert (recs + [rec])[1..] == recs[1..] + [rec];
    }
  }
}
