/** SortedIndexModule (include/DataSeries/SortedIndexModule.hpp:44-245): per-file lists of extents with the smallest and
    largest value of a field, searched with lower_bound and a scan, for any strict weak order of the values. */
module SortedIndex {
  import opened Bytes

  predicate Asymmetric<T>(less: (T, T) -> bool, a: T, b: T) {
    less(a, b) ==> !less(b, a)
  }

  predicate NotLessTransitive<T>(less: (T, T) -> bool, a: T, b: T, c: T) {
    !less(a, b) && !less(b, c) ==> !less(a, c)
  }

  /** What std::less and its replacements have to be. */
  ghost predicate StrictWeak<T(!new)>(less: (T, T) -> bool) {
    && (forall a, b :: Asymmetric(less, a, b))
    && (forall a, b, c :: NotLessTransitive(less, a, b, c))
  }

  /** One extent: the file it is in, the range of its values, and where it starts. */
  datatype Entry<T> = Entry(source: nat, minv: T, maxv: T, offset: nat)

  /** A row of the min-max index as it is read. */
  datatype Row<T> = Row(file: string, minv: T, maxv: T, offset: nat)

  predicate InRange<T>(less: (T, T) -> bool, e: Entry<T>, v: T) {
    !less(v, e.minv) && !less(e.maxv, v)
  }

  predicate Overlaps<T>(less: (T, T) -> bool, e: Entry<T>, min: T, max: T) {
    !less(e.maxv, min) && !less(max, e.minv)
  }

  // ---------- building the index ----------

  /** The per-file lists so far, and the file being read. */
  datatype Building<T> = Building(file: string, lists: seq<seq<Entry<T>>>)

  function Last<A>(s: seq<A>): A
    requires s != []
  {
    s[|s| - 1]
  }

  predicate NewFile<T>(b: Building<T>, r: Row<T>) {
    b.lists == [] || b.file != r.file
  }

  /** The entry made of a row. */
  function EntryOf<T>(b: Building<T>, r: Row<T>): Entry<T> {
    Entry(if NewFile(b, r) then |b.lists| else |b.lists| - 1, r.minv, r.maxv, r.offset)
  }

  /** A row starts a new list when the file name changes; otherwise its smallest value must not be below the largest of
      the row before. */
  function AddRow<T>(less: (T, T) -> bool, b: Building<T>, r: Row<T>): Option<Building<T>>
    requires b.lists != [] ==> Last(b.lists) != []
  {
    if NewFile(b, r) then Some(Building(r.file, b.lists + [[EntryOf(b, r)]]))
    else
      var cur := Last(b.lists);
      if less(r.minv, Last(cur).maxv) then None
      else Some(Building(b.file, b.lists[|b.lists| - 1 := cur + [EntryOf(b, r)]]))
  }

  function AddRows<T>(less: (T, T) -> bool, rows: seq<Row<T>>): (r: Option<Building<T>>)
    ensures r.Some? && r.value.lists != [] ==> Last(r.value.lists) != []
    decreases |rows|
  {
    if rows == [] then Some(Building("", []))
    else
      match AddRows(less, rows[..|rows| - 1])
      case None => None
      case Some(b) => AddRow(less, b, Last(rows))
  }

  /** The constructor's check. */
  ghost predicate Checked<T>(less: (T, T) -> bool, list: seq<Entry<T>>) {
    forall i {:trigger list[i]} :: 0 < i < |list| ==> !less(list[i].minv, list[i - 1].maxv)
  }

  /** Every list is checked, and holds the extents of one source; sources are numbered like the lists. */
  ghost predicate WellBuilt<T>(less: (T, T) -> bool, lists: seq<seq<Entry<T>>>) {
    forall k :: 0 <= k < |lists| ==>
      lists[k] != [] && Checked(less, lists[k]) && forall i :: 0 <= i < |lists[k]| ==> lists[k][i].source == k
  }

  function Flat<T>(lists: seq<seq<Entry<T>>>): (r: seq<Entry<T>>) {
    if lists == [] then [] else Flat(lists[..|lists| - 1]) + Last(lists)
  }

  /** Nothing but the file name is lost or changed. */
  ghost predicate SameExtents<T>(rows: seq<Row<T>>, es: seq<Entry<T>>) {
    && |rows| == |es|
    && forall i :: 0 <= i < |rows| ==>
         rows[i].minv == es[i].minv && rows[i].maxv == es[i].maxv && rows[i].offset == es[i].offset
  }

  lemma FlatGrows<T>(lists: seq<seq<Entry<T>>>, e: Entry<T>)
    requires lists != []
    ensures Flat(lists[|lists| - 1 := Last(lists) + [e]]) == Flat(lists) + [e]
    ensures Flat(lists + [[e]]) == Flat(lists) + [e]
  {
    var n := |lists| - 1;
    assert lists[n := Last(lists) + [e]][..n] == lists[..n];
    assert (lists + [[e]])[..n + 1] == lists;
    assert Flat(lists[..n]) + (Last(lists) + [e]) == Flat(lists[..n]) + Last(lists) + [e];
  }

  lemma AddKeepsWell<T>(less: (T, T) -> bool, b: Building<T>, r: Row<T>)
    requires WellBuilt(less, b.lists) && AddRow(less, b, r).Some?
    ensures WellBuilt(less, AddRow(less, b, r).value.lists)
  {
  }

  lemma AddKeepsRows<T>(less: (T, T) -> bool, b: Building<T>, r: Row<T>)
    requires b.lists != [] ==> Last(b.lists) != []
    requires AddRow(less, b, r).Some?
    ensures Flat(AddRow(less, b, r).value.lists) == Flat(b.lists) + [EntryOf(b, r)]
  {
    if b.lists == [] {
      assert Flat([[EntryOf(b, r)]]) == [] + [EntryOf(b, r)];
    } else {
      FlatGrows(b.lists, EntryOf(b, r));
    }
  }

  lemma SameAfter<T>(rows: seq<Row<T>>, es: seq<Entry<T>>, e: Entry<T>)
    requires rows != [] && SameExtents(rows[..|rows| - 1], es)
    requires e.minv == Last(rows).minv && e.maxv == Last(rows).maxv && e.offset == Last(rows).offset
    ensures SameExtents(rows, es + [e])
  {
    var es' := es + [e];
    forall i | 0 <= i < |rows|
      ensures rows[i].minv == es'[i].minv && rows[i].maxv == es'[i].maxv && rows[i].offset == es'[i].offset
    {
      if i < |rows| - 1 {
        assert rows[..|rows| - 1][i] == rows[i] && es'[i] == es[i];
      }
    }
  }

  /** The lists hold the rows in order, each list sorted as the search needs it. */
  lemma {:induction false} BuiltWell<T>(less: (T, T) -> bool, rows: seq<Row<T>>)
    requires AddRows(less, rows).Some?
    ensures var lists := AddRows(less, rows).value.lists;
            && WellBuilt(less, lists) && SameExtents(rows, Flat(lists))
    decreases |rows|
  {
    if rows != [] {
      var front := rows[..|rows| - 1];
      BuiltWell(less, front);
      var b := AddRows(less, front).value;
      AddKeepsWell(less, b, Last(rows));
      AddKeepsRows(less, b, Last(rows));
      SameAfter(rows, Flat(b.lists), EntryOf(b, Last(rows)));
    }
  }

  /** Row i belongs to the file of the row before it, and is out of order. */
  predicate OutOfOrder<T>(less: (T, T) -> bool, rows: seq<Row<T>>, i: int) {
    0 < i < |rows| && rows[i].file == rows[i - 1].file && less(rows[i].minv, rows[i - 1].maxv)
  }

  lemma {:induction false} EndsWithLastRow<T>(less: (T, T) -> bool, rows: seq<Row<T>>)
    requires AddRows(less, rows).Some? && rows != []
    ensures var b := AddRows(less, rows).value;
            b.lists != [] && b.file == Last(rows).file && Last(Last(b.lists)).maxv == Last(rows).maxv
    decreases |rows|
  {
  }

  /** It is an error exactly when two neighbouring rows of one file are out of order. */
  lemma {:induction false} BuildFails<T>(less: (T, T) -> bool, rows: seq<Row<T>>)
    ensures AddRows(less, rows).None? <==> exists i :: OutOfOrder(less, rows, i)
    decreases |rows|
  {
    if rows != [] {
      var n := |rows| - 1;
      var front := rows[..n];
      BuildFails(less, front);
      forall i | i < n
        ensures OutOfOrder(less, rows, i) == OutOfOrder(less, front, i)
      {
      }
      if AddRows(less, front).None? {
        var i :| OutOfOrder(less, front, i);
        assert OutOfOrder(less, rows, i);
      } else {
        LastRowFails(less, rows);
      }
    }
  }

  lemma LastRowFails<T>(less: (T, T) -> bool, rows: seq<Row<T>>)
    requires rows != [] && AddRows(less, rows[..|rows| - 1]).Some?
    ensures AddRows(less, rows).None? <==> OutOfOrder(less, rows, |rows| - 1)
  {
    var front := rows[..|rows| - 1];
    if front != [] {
      EndsWithLastRow(less, front);
    }
  }

  // ---------- searching one list ----------

  /** The reference: every entry that overlaps the range, in order. */
  function Matching<T>(less: (T, T) -> bool, list: seq<Entry<T>>, min: T, max: T): (r: seq<Entry<T>>) {
    if list == [] then []
    else
      var rest := Matching(less, list[..|list| - 1], min, max);
      if Overlaps(less, Last(list), min, max) then rest + [Last(list)] else rest
  }

  lemma {:induction false} MatchingJoin<T>(
      less: (T, T) -> bool, a: seq<Entry<T>>, b: seq<Entry<T>>, min: T, max: T)
    ensures Matching(less, a + b, min, max) == Matching(less, a, min, max) + Matching(less, b, min, max)
    decreases |b|
  {
    if b == [] {
      assert a + b == a;
    } else {
      var n := |b| - 1;
      assert (a + b)[..|a| + n] == a + b[..n];
      MatchingJoin(less, a, b[..n], min, max);
    }
  }

  lemma {:induction false} MatchingNone<T>(less: (T, T) -> bool, list: seq<Entry<T>>, min: T, max: T)
    requires forall i :: 0 <= i < |list| ==> !Overlaps(less, list[i], min, max)
    ensures Matching(less, list, min, max) == []
    decreases |list|
  {
    if list != [] {
      MatchingNone(less, list[..|list| - 1], min, max);
    }
  }

  lemma {:induction false} MatchingAll<T>(less: (T, T) -> bool, list: seq<Entry<T>>, min: T, max: T)
    requires forall i :: 0 <= i < |list| ==> Overlaps(less, list[i], min, max)
    ensures Matching(less, list, min, max) == list
    decreases |list|
  {
    if list != [] {
      MatchingAll(less, list[..|list| - 1], min, max);
      assert list == list[..|list| - 1] + [Last(list)];
    }
  }

  /** Exactly the overlapping entries are found. */
  lemma {:induction false} MatchingIff<T>(less: (T, T) -> bool, list: seq<Entry<T>>, min: T, max: T, e: Entry<T>)
    ensures e in Matching(less, list, min, max) <==> e in list && Overlaps(less, e, min, max)
    decreases |list|
  {
    if list != [] {
      MatchingIff(less, list[..|list| - 1], min, max, e);
      assert list == list[..|list| - 1] + [Last(list)];
    }
  }

  /** Ranges are not empty. */
  ghost predicate Proper<T>(less: (T, T) -> bool, list: seq<Entry<T>>) {
    forall i :: 0 <= i < |list| ==> !less(list[i].maxv, list[i].minv)
  }

  lemma Irreflexive<T(!new)>(less: (T, T) -> bool, a: T)
    requires StrictWeak(less)
    ensures !less(a, a)
  {
    assert Asymmetric(less, a, a);
  }

  /** Both ends of the ranges go up. */
  lemma {:induction false} Ascending<T(!new)>(less: (T, T) -> bool, list: seq<Entry<T>>, i: nat, j: nat)
    requires StrictWeak(less) && Proper(less, list) && Checked(less, list) && i <= j < |list|
    ensures !less(list[j].maxv, list[i].maxv) && !less(list[j].minv, list[i].minv)
    decreases j
  {
    if i < j {
      Ascending(less, list, i, j - 1);
      var a, b := list[j - 1], list[j];
      assert !less(b.minv, a.maxv);
      assert NotLessTransitive(less, b.maxv, b.minv, a.maxv) && NotLessTransitive(less, b.minv, a.maxv, a.minv);
      assert NotLessTransitive(less, b.maxv, a.maxv, list[i].maxv);
      assert NotLessTransitive(less, b.minv, a.minv, list[i].minv);
    } else {
      Irreflexive(less, list[i].maxv);
      Irreflexive(less, list[i].minv);
    }
  }

  /** std::lower_bound with the comparison on maxv: the first entry that does not end below the value. */
  method LowerBound<T(!new)>(less: (T, T) -> bool, list: seq<Entry<T>>, value: T) returns (k: nat)
    requires StrictWeak(less) && Proper(less, list) && Checked(less, list)
    ensures k <= |list|
    ensures forall i :: 0 <= i < k ==> less(list[i].maxv, value)
    ensures forall i :: k <= i < |list| ==> !less(list[i].maxv, value)
  {
    k := 0;
    var count: nat := |list|;
    while count > 0
      invariant k + count <= |list|
      invariant forall i :: 0 <= i < k ==> less(list[i].maxv, value)
      invariant forall i :: k + count <= i < |list| ==> !less(list[i].maxv, value)
    {
      var step := count / 2;
      var mid := k + step;
      if less(list[mid].maxv, value) {
        forall i | k <= i <= mid
          ensures less(list[i].maxv, value)
        {
          Ascending(less, list, i, mid);
          assert NotLessTransitive(less, list[mid].maxv, list[i].maxv, value);
        }
        k, count := mid + 1, count - step - 1;
      } else {
        forall i | mid <= i < |list|
          ensures !less(list[i].maxv, value)
        {
          Ascending(less, list, mid, i);
          assert NotLessTransitive(less, list[i].maxv, list[mid].maxv, value);
        }
        count := step;
      }
    }
  }

  lemma NoneBehind<T(!new)>(less: (T, T) -> bool, list: seq<Entry<T>>, k: nat, min: T, max: T)
    requires StrictWeak(less) && Proper(less, list) && Checked(less, list) && k <= |list|
    requires k < |list| ==> !Overlaps(less, list[k], min, max) && !less(list[k].maxv, min)
    ensures Matching(less, list[k..], min, max) == []
  {
    var rest := list[k..];
    forall i | 0 <= i < |rest|
      ensures !Overlaps(less, rest[i], min, max)
    {
      Ascending(less, list, k, k + i);
      assert NotLessTransitive(less, max, rest[i].minv, list[k].minv);
    }
    MatchingNone(less, rest, min, max);
  }

  /** The scan from the lower bound on, as long as extents overlap the range. */
  method ScanOn<T>(less: (T, T) -> bool, list: seq<Entry<T>>, start: nat, min: T, max: T)
    returns (found: seq<Entry<T>>, i: nat)
    requires start <= |list|
    ensures start <= i <= |list| && found == list[start..i]
    ensures forall j :: start <= j < i ==> Overlaps(less, list[j], min, max)
    ensures i < |list| ==> !Overlaps(less, list[i], min, max)
  {
    i := start;
    found := [];
    while i < |list| && Overlaps(less, list[i], min, max)
      invariant start <= i <= |list|
      invariant found == list[start..i]
      invariant forall j :: start <= j < i ==> Overlaps(less, list[j], min, max)
    {
      assert list[start..i + 1] == list[start..i] + [list[i]];
      found := found + [list[i]];
      i := i + 1;
    }
  }

  /** Lower bound and scan find what the filter finds. */
  method Search<T(!new)>(less: (T, T) -> bool, list: seq<Entry<T>>, min: T, max: T) returns (found: seq<Entry<T>>)
    requires StrictWeak(less) && Proper(less, list) && Checked(less, list)
    ensures found == Matching(less, list, min, max)
  {
    var start := LowerBound(less, list, min);
    var i;
    found, i := ScanOn(less, list, start, min, max);
    NoneBehind(less, list, i, min, max);
    SearchDone(less, list, start, i, min, max);
  }

  lemma SearchDone<T>(less: (T, T) -> bool, list: seq<Entry<T>>, start: nat, i: nat, min: T, max: T)
    requires start <= i <= |list|
    requires forall j :: 0 <= j < start ==> !Overlaps(less, list[j], min, max)
    requires forall j :: start <= j < i ==> Overlaps(less, list[j], min, max)
    requires Matching(less, list[i..], min, max) == []
    ensures list[start..i] == Matching(less, list, min, max)
  {
    var before, hit, rest := list[..start], list[start..i], list[i..];
    ThreeParts(list, start, i);
    MatchingNone(less, before, min, max);
    MatchingAll(less, hit, min, max);
    MatchingJoin(less, before, hit, min, max);
    assert Matching(less, before + hit, min, max) == hit;
    MatchingJoin(less, before + hit, rest, min, max);
  }

  lemma NothingBefore<A>(s: seq<A>)
    ensures [] + s == s
  {
  }

  lemma ThreeParts<A>(s: seq<A>, a: nat, b: nat)
    requires a <= b <= |s|
    ensures s == s[..a] + s[a..b] + s[b..]
  {
  }

  // ---------- the module ----------

  ghost predicate Searchable<T(!new)>(less: (T, T) -> bool, lists: seq<seq<Entry<T>>>) {
    && StrictWeak(less) && WellBuilt(less, lists)
    && forall k :: 0 <= k < |lists| ==> Proper(less, lists[k])
  }

  /** The file and the place of an extent. */
  datatype Key = Key(source: nat, offset: nat)

  function KeyOf<T>(e: Entry<T>): Key {
    Key(e.source, e.offset)
  }

  /** entrySorter: sources in the order of their addresses. */
  predicate Before(address: nat -> nat, a: Key, b: Key) {
    address(a.source) < address(b.source) || (a.source == b.source && a.offset < b.offset)
  }

  ghost predicate Sorted<T>(address: nat -> nat, es: seq<Entry<T>>) {
    forall i, j :: 0 <= i < j < |es| ==> !Before(address, KeyOf(es[j]), KeyOf(es[i]))
  }

  ghost predicate Injective(address: nat -> nat) {
    forall a, b :: address(a) == address(b) ==> a == b
  }

  /** What std::sort does to a list. */
  ghost predicate Sorts<T(!new)>(address: nat -> nat, sort: seq<Entry<T>> -> seq<Entry<T>>) {
    forall es :: multiset(sort(es)) == multiset(es) && Sorted(address, sort(es))
  }

  /** What the module hands out for a list: of equal neighbours, only the last. */
  function Emitted<T>(es: seq<Entry<T>>): (r: seq<Key>) {
    if es == [] then []
    else if |es| > 1 && KeyOf(es[0]) == KeyOf(es[1]) then Emitted(es[1..])
    else [KeyOf(es[0])] + Emitted(es[1..])
  }

  /** The body of the constructor's loop. */
  method AddRowTo<T>(less: (T, T) -> bool, file: string, lists: seq<seq<Entry<T>>>, r: Row<T>)
    returns (added: Option<Building<T>>)
    requires r.file != "" && (file == "" <==> lists == []) && (lists != [] ==> Last(lists) != [])
    ensures added == AddRow(less, Building(file, lists), r)
    ensures added.Some? ==> added.value.file != "" && added.value.lists != []
  {
    ghost var b := Building(file, lists);
    var file', lists' := file, lists;
    if file != r.file {
      file' := r.file;
      lists' := lists + [[]];
    }
    var n := |lists'| - 1;
    var cur := lists'[n];
    if cur != [] && less(r.minv, Last(cur).maxv) {
      return None;
    }
    var e := Entry(n, r.minv, r.maxv, r.offset);
    assert e == EntryOf(b, r) && (cur == [] ==> cur + [e] == [e] && lists'[n := [e]] == lists + [[e]]);
    added := Some(Building(file', lists'[n := cur + [e]]));
  }

  class Index<T(!new)> {
    const less: (T, T) -> bool
    var lists: seq<seq<Entry<T>>>
    var sorted: bool

    /** A file name is never empty.  sorted is false when the source would raise its error. */
    constructor (less: (T, T) -> bool, rows: seq<Row<T>>)
      requires forall i :: 0 <= i < |rows| ==> rows[i].file != ""
      ensures this.less == less
      ensures sorted <==> AddRows(less, rows).Some?
      ensures sorted ==> lists == AddRows(less, rows).value.lists
    {
      this.less := less;
      lists := [];
      sorted := true;
      new;
      var file, i := "", 0;
      while i < |rows| && sorted
        invariant i <= |rows|
        invariant sorted ==> AddRows(less, rows[..i]) == Some(Building(file, lists))
        invariant !sorted ==> AddRows(less, rows).None?
        invariant file == "" <==> lists == []
        decreases |rows| - i, sorted
      {
        NextRow(less, rows, i);
        var added := AddRowTo(less, file, lists, rows[i]);
        if added.None? {
          FailsEarly(less, rows, i + 1);
          sorted := false;
        } else {
          file, lists := added.value.file, added.value.lists;
          i := i + 1;
        }
      }
      assert rows[..|rows|] == rows;
    }
  }

  lemma NextRow<T>(less: (T, T) -> bool, rows: seq<Row<T>>, i: nat)
    requires i < |rows| && AddRows(less, rows[..i]).Some?
    ensures AddRows(less, rows[..i + 1]) == AddRow(less, AddRows(less, rows[..i]).value, rows[i])
  {
    assert rows[..i + 1][..i] == rows[..i];
  }

  lemma {:induction false} FailsEarly<T>(less: (T, T) -> bool, rows: seq<Row<T>>, n: nat)
    requires n <= |rows| && AddRows(less, rows[..n]).None?
    ensures AddRows(less, rows).None?
    decreases |rows| - n
  {
    if n < |rows| {
      assert rows[..n + 1][..n] == rows[..n];
      FailsEarly(less, rows, n + 1);
    } else {
      assert rows[..n] == rows;
    }
  }

  lemma FlatJoin<T>(less: (T, T) -> bool, lists: seq<seq<Entry<T>>>, k: nat, min: T, max: T)
    requires k < |lists|
    ensures Matching(less, Flat(lists[..k + 1]), min, max)
         == Matching(less, Flat(lists[..k]), min, max) + Matching(less, lists[k], min, max)
  {
    assert lists[..k + 1][..k] == lists[..k];
    MatchingJoin(less, Flat(lists[..k]), lists[k], min, max);
  }

  /** Everything that matches one of the values, value by value. */
  function MatchingEach<T>(less: (T, T) -> bool, all: seq<Entry<T>>, values: seq<T>): (r: seq<Entry<T>>) {
    if values == [] then []
    else MatchingEach(less, all, values[..|values| - 1]) + Matching(less, all, Last(values), Last(values))
  }

  class SortedIndexModule<T(!new)> {
    var curExtent: nat
    var extents: seq<Entry<T>>

    ghost predicate Valid()
      reads this
    {
      curExtent <= |extents|
    }

    /** The extents that may hold a value of the range; a single value is the range from it to itself. */
    constructor Range(index: Index<T>, start: T, end: T)
      requires Searchable(index.less, index.lists)
      ensures Valid() && curExtent == 0
      ensures extents == Matching(index.less, Flat(index.lists), start, end)
    {
      curExtent := 0;
      extents := [];
      new;
      NothingBefore(Matching(index.less, Flat(index.lists), start, end));
      SearchAll(index, start, end);
    }

    /** The extents that may hold one of the values, sorted by file and place. */
    constructor Values(index: Index<T>, values: seq<T>, sort: seq<Entry<T>> -> seq<Entry<T>>)
      requires Searchable(index.less, index.lists)
      ensures Valid() && curExtent == 0
      ensures extents == sort(MatchingEach(index.less, Flat(index.lists), values))
    {
      curExtent := 0;
      extents := [];
      new;
      for i := 0 to |values|
        invariant curExtent == 0 && index.lists == old(index.lists)
        invariant extents == MatchingEach(index.less, Flat(index.lists), values[..i])
      {
        assert values[..i + 1][..i] == values[..i];
        SearchAll(index, values[i], values[i]);
      }
      assert values[..|values|] == values;
      extents := sort(extents);
    }

    /** The loop over the files of the index. */
    method SearchAll(index: Index<T>, start: T, end: T)
      requires Searchable(index.less, index.lists)
      modifies `extents
      ensures extents == old(extents) + Matching(index.less, Flat(index.lists), start, end)
    {
      var less, lists := index.less, index.lists;
      ghost var was := extents;
      for k := 0 to |lists|
        invariant extents == was + Matching(less, Flat(lists[..k]), start, end)
      {
        var found := Search(less, lists[k], start, end);
        ghost var soFar := Matching(less, Flat(lists[..k]), start, end);
        FlatJoin(less, lists, k, start, end);
        assert was + (soFar + found) == was + soFar + found;
        extents := extents + found;
      }
      assert lists[..|lists|] == lists;
    }

    /** lockedGetCompressedExtent: the next extent, or None at the end. */
    method Next() returns (r: Option<Key>)
      requires Valid()
      modifies `curExtent
      ensures Valid()
      ensures r.None? <==> Emitted(old(extents[curExtent..])) == []
      ensures r.Some? ==> Emitted(old(extents[curExtent..])) == [r.value] + Emitted(extents[curExtent..])
      ensures r.None? ==> curExtent == |extents|
    {
      if curExtent == |extents| {
        return None;
      }
      ghost var whole := Emitted(extents[curExtent..]);
      while curExtent + 1 != |extents| && KeyOf(extents[curExtent]) == KeyOf(extents[curExtent + 1])
        invariant curExtent < |extents| && Emitted(extents[curExtent..]) == whole
        decreases |extents| - curExtent
      {
        assert extents[curExtent..][1..] == extents[curExtent + 1..];
        curExtent := curExtent + 1;
      }
      assert extents[curExtent..][1..] == extents[curExtent + 1..];
      r := Some(KeyOf(extents[curExtent]));
      curExtent := curExtent + 1;
    }
  }

  // ---------- what a reader of the module gets ----------

  /** An entry is in the value-by-value result exactly when some value is in its range. */
  lemma {:induction false} MatchingEachIff<T>(
      less: (T, T) -> bool, all: seq<Entry<T>>, values: seq<T>, e: Entry<T>)
    ensures e in MatchingEach(less, all, values) <==>
      e in all && exists i :: 0 <= i < |values| && InRange(less, e, values[i])
    decreases |values|
  {
    if values != [] {
      var n := |values| - 1;
      MatchingEachIff(less, all, values[..n], e);
      MatchingIff(less, all, values[n], values[n], e);
      assert forall i :: 0 <= i < n ==> values[..n][i] == values[i];
    }
  }

  ghost predicate HasKey<T>(es: seq<Entry<T>>, k: Key) {
    exists i :: 0 <= i < |es| && KeyOf(es[i]) == k
  }

  /** Skipping equal neighbours loses no extent and invents none. */
  lemma {:induction false} EmittedKeys<T>(es: seq<Entry<T>>, k: Key)
    ensures k in Emitted(es) <==> HasKey(es, k)
  {
    if es != [] {
      EmittedKeys(es[1..], k);
      if i :| 0 <= i < |es| && KeyOf(es[i]) == k {
        if i > 0 {
          assert KeyOf(es[1..][i - 1]) == k;
        } else if |es| > 1 {
          assert KeyOf(es[1..][0]) == KeyOf(es[1]);
        }
      }
      if HasKey(es[1..], k) {
        var i :| 0 <= i < |es[1..]| && KeyOf(es[1..][i]) == k;
        assert KeyOf(es[i + 1]) == k;
      }
    }
  }

  ghost predicate StrictlyBefore(address: nat -> nat, ks: seq<Key>) {
    forall i, j :: 0 <= i < j < |ks| ==> Before(address, ks[i], ks[j])
  }

  /** In a sorted list all equal extents are neighbours, so each one is handed out once, in the order of the files. */
  lemma {:induction false} EmittedOnce<T>(address: nat -> nat, es: seq<Entry<T>>)
    requires Injective(address) && Sorted(address, es)
    ensures StrictlyBefore(address, Emitted(es))
    ensures es != [] ==> forall k :: k in Emitted(es) ==> !Before(address, k, KeyOf(es[0]))
    decreases |es|
  {
    if es != [] {
      var rest := es[1..];
      assert Sorted(address, rest);
      EmittedOnce(address, rest);
      if !(|es| > 1 && KeyOf(es[0]) == KeyOf(es[1])) {
        var first := KeyOf(es[0]);
        forall k | k in Emitted(rest)
          ensures Before(address, first, k)
        {
          EmittedKeys(rest, k);
          var i :| 0 <= i < |rest| && KeyOf(rest[i]) == k;
          assert !Before(address, KeyOf(es[i + 1]), first) && !Before(address, KeyOf(es[1]), first);
          assert !Before(address, k, KeyOf(rest[0]));
        }
      } else {
        assert KeyOf(rest[0]) == KeyOf(es[0]);
      }
    }
  }

  /** For a set of values: every extent that may hold one of them, exactly once. */
  lemma ValuesOnce<T(!new)>(
      less: (T, T) -> bool, all: seq<Entry<T>>, values: seq<T>, address: nat -> nat,
      sort: seq<Entry<T>> -> seq<Entry<T>>, k: Key)
    requires Injective(address) && Sorts(address, sort)
    ensures var out := Emitted(sort(MatchingEach(less, all, values)));
            && StrictlyBefore(address, out)
            && (k in out <==>
                exists e, v :: e in all && v in values && KeyOf(e) == k && InRange(less, e, v))
  {
    var found := MatchingEach(less, all, values);
    var es := sort(found);
    EmittedOnce(address, es);
    EmittedKeys(es, k);
    if HasKey(es, k) {
      var i :| 0 <= i < |es| && KeyOf(es[i]) == k;
      assert es[i] in multiset(found);
      MatchingEachIff(less, all, values, es[i]);
    }
    if e, v :| e in all && v in values && KeyOf(e) == k && InRange(less, e, v) {
      MatchingEachIff(less, all, values, e);
      assert e in multiset(es);
      var i :| 0 <= i < |es| && es[i] == e;
    }
  }

  /** For a range: when no two index rows describe the same extent, every extent that overlaps it, in index order. */
  lemma {:induction false} EmittedAll<T>(es: seq<Entry<T>>)
    requires forall i, j :: 0 <= i < j < |es| ==> KeyOf(es[i]) != KeyOf(es[j])
    ensures |Emitted(es)| == |es| && forall i :: 0 <= i < |es| ==> Emitted(es)[i] == KeyOf(es[i])
    decreases |es|
  {
    if es != [] {
      EmittedAll(es[1..]);
    }
  }
}
