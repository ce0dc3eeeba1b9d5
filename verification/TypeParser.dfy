/** From field declarations to a parsed type (src/base/ExtentType.cpp:319-603): what the parser accepts, the null fields
    it adds, the lists null compaction uses, and that the result always has the layout the codec relies on. */
module TypeParser {
  import opened Bytes
  import opened RecordLayout
  import RF = RecordFormat

  /** A field element: pack_unique and size are None and pack_relative is empty when the attribute is missing. */
  datatype FieldSpec = FieldSpec(
    name: string,
    ftype: FieldType,
    nullable: bool,
    unique: Option<bool>,
    size: Option<int>,
    scaled: bool,
    relative: string)

  datatype OtherRelative = OtherRelative(field: nat, base: nat)

  datatype Parsed = Parsed(info: seq<FieldInfo>, vars: seq<nat>, selfs: seq<nat>, others: seq<OtherRelative>)

  const NO_FIELDS := Parsed([], [], [], [])

  // ---------- accepting one field ----------

  /** The first column of that name, or -1. */
  function ColumnNumber(info: seq<FieldInfo>, name: string): (c: int)
    ensures -1 <= c < |info|
    ensures c >= 0 ==> info[c].name == name
    ensures c == -1 <==> forall i :: 0 <= i < |info| ==> info[i].name != name
  {
    if info == [] then -1
    else
      var n := |info| - 1;
      var c := ColumnNumber(info[..n], name);
      if c >= 0 then c else if info[n].name == name then n else -1
  }

  /** getColumnNumber, as the loop that it is. */
  method GetColumnNumber(info: seq<FieldInfo>, name: string) returns (c: int)
    ensures c == ColumnNumber(info, name)
  {
    for i := 0 to |info|
      invariant ColumnNumber(info[..i], name) == -1
    {
      assert info[..i + 1][..i] == info[..i];
      if info[i].name == name {
        ColumnOfPrefix(info, name, i + 1);
        return i;
      }
    }
    assert info[..|info|] == info;
    c := -1;
  }

  lemma {:induction false} ColumnOfPrefix(info: seq<FieldInfo>, name: string, n: nat)
    requires n <= |info| && ColumnNumber(info[..n], name) >= 0
    ensures ColumnNumber(info, name) == ColumnNumber(info[..n], name)
    decreases |info| - n
  {
    if n < |info| {
      assert info[..n + 1][..n] == info[..n];
      ColumnOfPrefix(info, name, n + 1);
    } else {
      assert info[..n] == info;
    }
  }

  predicate Numeric(t: FieldType) {
    t.FtDouble? || t.FtInt64? || t.FtInt32?
  }

  predicate Acceptable(p: Parsed, f: FieldSpec) {
    && f.name != "" && f.name[0] != ' ' && |f.name| <= 255
    && ColumnNumber(p.info, f.name) == -1
    && (f.unique.Some? ==> f.ftype.FtVariable32?)
    && (f.size.Some? ==> f.ftype.FtFixedWidth? && f.size.value > 0)
    && (f.scaled ==> f.ftype.FtDouble?)
    && (f.relative != "" ==> RelativeOk(p, f))
  }

  predicate RelativeOk(p: Parsed, f: FieldSpec) {
    && Numeric(f.ftype)
    && (f.relative == f.name ==> f.ftype.FtDouble? ==> f.scaled)
    && (f.relative != f.name ==>
          var base := ColumnNumber(p.info, f.relative);
          base != -1 && p.info[base].ftype == f.ftype)
  }

  function InfoOf(f: FieldSpec, at: nat): FieldInfo {
    FieldInfo(f.name, f.ftype, if f.size.Some? then f.size.value else -1, -1, -1,
              if f.nullable then at + 1 else -1, f.unique == Some(true))
  }

  function NullInfo(name: string): FieldInfo {
    FieldInfo([' '] + name, FtBool, 1, -1, -1, -1, false)
  }

  function AddField(p: Parsed, f: FieldSpec): (r: Option<Parsed>) {
    if !Acceptable(p, f) then None
    else
      var at := |p.info|;
      Some(Parsed(
             p.info + [InfoOf(f, at)] + (if f.nullable then [NullInfo(f.name)] else []),
             if f.ftype.FtVariable32? then p.vars + [at] else p.vars,
             if f.relative != "" && f.relative == f.name then p.selfs + [at] else p.selfs,
             if f.relative != "" && f.relative != f.name
             then p.others + [OtherRelative(at, ColumnNumber(p.info, f.relative))]
             else p.others))
  }

  function AddFields(specs: seq<FieldSpec>): (r: Option<Parsed>)
    decreases |specs|
  {
    if specs == [] then Some(NO_FIELDS)
    else
      match AddFields(specs[..|specs| - 1])
      case None => None
      case Some(p) => AddField(p, specs[|specs| - 1])
  }

  // ---------- what every accepted list keeps ----------

  ghost predicate Ascending(s: seq<nat>, bound: nat) {
    && (forall i :: 0 <= i < |s| ==> s[i] < bound)
    && (forall i, j :: 0 <= i < j < |s| ==> s[i] < s[j])
  }

  /** A nullable field is followed by its own bool. */
  ghost predicate NullFollows(info: seq<FieldInfo>, i: nat)
    requires i < |info|
  {
    var nf := info[i].nullField;
    nf == -1 || (nf == i + 1 < |info| && info[nf].ftype.FtBool? && info[nf].nullField == -1)
  }

  /** A base field stands in front of its user and has the same type. */
  ghost predicate BaseBefore(info: seq<FieldInfo>, o: OtherRelative) {
    o.base < o.field < |info| && info[o.base].ftype == info[o.field].ftype && Numeric(info[o.field].ftype)
  }

  /** A name that starts with a space belongs to the null field right behind the field it is made from. */
  ghost predicate Named(info: seq<FieldInfo>, i: nat)
    requires i < |info|
  {
    && info[i].name != ""
    && (info[i].name[0] == ' ' ==> i > 0 && info[i].name == [' '] + info[i - 1].name)
    && (info[i].name[0] != ' ' ==> forall j :: 0 <= j < |info| && info[j].name == info[i].name ==> j == i)
  }

  ghost predicate WellParsed(p: Parsed) {
    && (forall i :: 0 <= i < |p.info| ==> NullFollows(p.info, i) && Named(p.info, i))
    && Ascending(p.vars, |p.info|)
    && Ascending(p.selfs, |p.info|)
    && (forall i :: 0 <= i < |p.info| ==> (i in p.vars <==> p.info[i].ftype.FtVariable32?))
    && (forall i | i in p.selfs :: Numeric(p.info[i].ftype))
    && (forall o | o in p.others :: BaseBefore(p.info, o))
  }

  lemma AddNamed(p: Parsed, f: FieldSpec, i: nat)
    requires WellParsed(p) && Acceptable(p, f)
    requires i < |AddField(p, f).value.info|
    ensures Named(AddField(p, f).value.info, i) && NullFollows(AddField(p, f).value.info, i)
  {
    var n, q := |p.info|, AddField(p, f).value.info;
    assert forall k :: 0 <= k < n ==> q[k] == p.info[k];
    assert q[n] == InfoOf(f, n);
    if i < n {
      assert Named(p.info, i) && NullFollows(p.info, i);
    }
  }

  lemma AscendingAppend(s: seq<nat>, bound: nat, more: nat)
    requires Ascending(s, bound) && bound < more
    ensures Ascending(s, more) && Ascending(s + [bound], more)
  {
  }

  lemma AddBases(p: Parsed, f: FieldSpec)
    requires WellParsed(p) && Acceptable(p, f)
    ensures var q := AddField(p, f).value;
            && (forall o | o in q.others :: BaseBefore(q.info, o))
            && (forall i | i in q.selfs :: i < |q.info| && Numeric(q.info[i].ftype))
  {
    var n, q := |p.info|, AddField(p, f).value;
    assert forall k :: 0 <= k < n ==> q.info[k] == p.info[k];
    assert q.info[n] == InfoOf(f, n);
    forall o | o in q.others
      ensures BaseBefore(q.info, o)
    {
      if o in p.others {
        assert BaseBefore(p.info, o);
      }
    }
    forall i | i in q.selfs
      ensures i < |q.info| && Numeric(q.info[i].ftype)
    {
      if i in p.selfs {
        assert i < n;
      }
    }
  }

  lemma AddVars(p: Parsed, f: FieldSpec)
    requires WellParsed(p) && Acceptable(p, f)
    ensures var q := AddField(p, f).value;
            forall i | 0 <= i < |q.info| :: i in q.vars <==> q.info[i].ftype.FtVariable32?
  {
    var n, q := |p.info|, AddField(p, f).value;
    forall i | 0 <= i < |q.info|
      ensures i in q.vars <==> q.info[i].ftype.FtVariable32?
    {
      if i < n {
        assert q.info[i] == p.info[i];
      } else {
        assert i !in p.vars;
      }
    }
  }

  lemma AddKeepsWell(p: Parsed, f: FieldSpec)
    requires WellParsed(p) && Acceptable(p, f)
    ensures WellParsed(AddField(p, f).value)
  {
    var n, q := |p.info|, AddField(p, f).value;
    forall i | 0 <= i < |q.info|
      ensures NullFollows(q.info, i) && Named(q.info, i)
    {
      AddNamed(p, f, i);
    }
    AscendingAppend(p.vars, n, |q.info|);
    AscendingAppend(p.selfs, n, |q.info|);
    AddBases(p, f);
    AddVars(p, f);
  }

  /** Whatever list of fields the parser accepts. */
  lemma {:induction false} ParsedWell(specs: seq<FieldSpec>)
    requires AddFields(specs).Some?
    ensures WellParsed(AddFields(specs).value)
    decreases |specs|
  {
    if specs != [] {
      ParsedWell(specs[..|specs| - 1]);
      AddKeepsWell(AddFields(specs[..|specs| - 1]).value, specs[|specs| - 1]);
    }
  }

  // ---------- the list of relative columns ----------

  /** Each column stands in the list once, in column order, and is not packed relative to itself as well. */
  ghost predicate OthersInOrder(p: Parsed) {
    InColumnOrder(p.others) && forall o | o in p.others :: o.field !in p.selfs
  }

  ghost predicate InColumnOrder(os: seq<OtherRelative>) {
    forall i, j :: 0 <= i < j < |os| ==> FieldBefore(os, i, j)
  }

  ghost predicate FieldBefore(os: seq<OtherRelative>, i: nat, j: nat)
    requires i < |os| && j < |os|
  {
    os[i].field < os[j].field
  }

  lemma ColumnOrderAppend(os: seq<OtherRelative>, o: OtherRelative)
    requires InColumnOrder(os) && forall e | e in os :: e.field < o.field
    ensures InColumnOrder(os + [o])
  {
    var s := os + [o];
    forall i, j | 0 <= i < j < |s|
      ensures FieldBefore(s, i, j)
    {
      assert os[i] in os;
      assert j < |os| ==> FieldBefore(os, i, j);
    }
  }

  lemma AddKeepsOrder(p: Parsed, f: FieldSpec)
    requires WellParsed(p) && Acceptable(p, f) && OthersInOrder(p)
    ensures OthersInOrder(AddField(p, f).value)
  {
    var n, q := |p.info|, AddField(p, f).value;
    forall o | o in p.others
      ensures o.field < n
    {
      assert BaseBefore(p.info, o);
    }
    if q.others != p.others {
      ColumnOrderAppend(p.others, q.others[|p.others|]);
    }
    assert n !in p.selfs;
  }

  lemma {:induction false} ParsedInOrder(specs: seq<FieldSpec>)
    requires AddFields(specs).Some?
    ensures OthersInOrder(AddFields(specs).value)
    decreases |specs|
  {
    if specs != [] {
      ParsedWell(specs[..|specs| - 1]);
      ParsedInOrder(specs[..|specs| - 1]);
      AddKeepsOrder(AddFields(specs[..|specs| - 1]).value, specs[|specs| - 1]);
    }
  }

  // ---------- every declaration is kept ----------

  /** The column of the k-th declaration: null fields take a column of their own. */
  function ColumnOf(specs: seq<FieldSpec>, k: nat): (c: nat)
    requires k <= |specs|
  {
    if k == 0 then 0 else ColumnOf(specs, k - 1) + if specs[k - 1].nullable then 2 else 1
  }

  lemma {:induction false} ColumnOfFront(specs: seq<FieldSpec>, n: nat, k: nat)
    requires k <= n <= |specs|
    ensures ColumnOf(specs[..n], k) == ColumnOf(specs, k)
  {
    if k > 0 {
      ColumnOfFront(specs, n, k - 1);
    }
  }

  lemma {:induction false} ColumnCount(specs: seq<FieldSpec>)
    requires AddFields(specs).Some?
    ensures |AddFields(specs).value.info| == ColumnOf(specs, |specs|)
    decreases |specs|
  {
    if specs != [] {
      ColumnCount(specs[..|specs| - 1]);
      ColumnOfFront(specs, |specs| - 1, |specs| - 1);
    }
  }

  /** Column c of the parse is what f declares. */
  ghost predicate Declared(p: Parsed, c: nat, f: FieldSpec) {
    && c < |p.info|
    && p.info[c].name == f.name && p.info[c].ftype == f.ftype && p.info[c].unique == (f.unique == Some(true))
    && (if f.nullable then c + 1 < |p.info| && p.info[c].nullField == c + 1 && p.info[c + 1] == NullInfo(f.name)
        else p.info[c].nullField == -1)
  }

  /** Column c is packed relative to itself, or to another column, exactly as f says. */
  ghost predicate DeclaredRelative(p: Parsed, c: nat, f: FieldSpec) {
    && (c in p.selfs <==> f.relative != "" && f.relative == f.name)
    && ((exists o :: o in p.others && o.field == c) <==> f.relative != "" && f.relative != f.name)
    && (forall o | o in p.others && o.field == c :: o.base < |p.info| && p.info[o.base].name == f.relative)
  }

  lemma AddDeclares(p: Parsed, f: FieldSpec)
    requires WellParsed(p) && Acceptable(p, f)
    ensures Declared(AddField(p, f).value, |p.info|, f) && DeclaredRelative(AddField(p, f).value, |p.info|, f)
  {
    var n, q := |p.info|, AddField(p, f).value;
    assert q.info[n] == InfoOf(f, n);
    assert forall k :: 0 <= k < n ==> q.info[k] == p.info[k];
    assert n !in p.selfs && forall o | o in p.others :: o.field < n by {
      forall o | o in p.others
        ensures o.field < n
      {
        assert BaseBefore(p.info, o);
      }
    }
    if f.relative != "" && f.relative != f.name {
      var o := OtherRelative(n, ColumnNumber(p.info, f.relative));
      assert o in q.others && o.field == n;
    }
  }

  lemma AddKeepsDeclared(p: Parsed, f: FieldSpec, c: nat, d: FieldSpec)
    requires Acceptable(p, f) && Declared(p, c, d)
    ensures Declared(AddField(p, f).value, c, d)
  {
    var n, q := |p.info|, AddField(p, f).value;
    assert forall k :: 0 <= k < n ==> q.info[k] == p.info[k];
  }

  lemma AddKeepsRelative(p: Parsed, f: FieldSpec, c: nat, d: FieldSpec)
    requires WellParsed(p) && Acceptable(p, f) && c < |p.info| && DeclaredRelative(p, c, d)
    ensures DeclaredRelative(AddField(p, f).value, c, d)
  {
    var n, q := |p.info|, AddField(p, f).value;
    assert forall k :: 0 <= k < n ==> q.info[k] == p.info[k];
    assert forall o | o in q.others && o.field == c :: o in p.others;
    if o :| o in p.others && o.field == c {
      assert o in q.others;
    }
  }

  /** Every declared field has its column, with its own name, type and options. */
  lemma {:induction false} EachDeclared(specs: seq<FieldSpec>, k: nat)
    requires AddFields(specs).Some? && k < |specs|
    ensures var p := AddFields(specs).value;
            Declared(p, ColumnOf(specs, k), specs[k]) && DeclaredRelative(p, ColumnOf(specs, k), specs[k])
    decreases |specs|
  {
    var n := |specs| - 1;
    var front, f, d, c := specs[..n], specs[n], specs[k], ColumnOf(specs, k);
    var p, q := AddFields(front).value, AddFields(specs).value;
    assert Acceptable(p, f) && q == AddField(p, f).value;
    ParsedWell(front);
    ColumnOfFront(specs, n, k);
    if k < n {
      EachDeclared(front, k);
      assert front[k] == d;
      AddKeepsDeclared(p, f, c, d);
      AddKeepsRelative(p, f, c, d);
    } else {
      ColumnCount(front);
      AddDeclares(p, f);
    }
  }

  // ---------- which declarations are accepted ----------

  /** Column c is declared by some field, or is the null column right behind it. */
  lemma {:induction false} ColumnDeclared(specs: seq<FieldSpec>, c: nat) returns (k: nat)
    requires AddFields(specs).Some? && c < |AddFields(specs).value.info|
    ensures k < |specs|
    ensures var i := AddFields(specs).value.info[c];
            (i.name == specs[k].name && i.ftype == specs[k].ftype) || i == NullInfo(specs[k].name)
    decreases |specs|
  {
    var n := |specs| - 1;
    var p := AddFields(specs[..n]).value;
    if c < |p.info| {
      k := ColumnDeclared(specs[..n], c);
    } else {
      k := n;
    }
  }

  /** The k-th declaration in its own terms and those of the declarations in front of it. */
  ghost predicate WellDeclared(specs: seq<FieldSpec>, k: nat)
    requires k < |specs|
  {
    var f := specs[k];
    && 1 <= |f.name| <= 255 && f.name[0] != ' '
    && (forall j :: 0 <= j < k ==> specs[j].name != f.name)
    && (f.unique.Some? ==> f.ftype.FtVariable32?)
    && (f.size.Some? ==> f.ftype.FtFixedWidth? && f.size.value > 0)
    && (f.scaled ==> f.ftype.FtDouble?)
    && (f.relative != "" ==> f.ftype.FtDouble? || f.ftype.FtInt64? || f.ftype.FtInt32?)
    && (f.relative == f.name && f.ftype.FtDouble? ==> f.scaled)
    && (f.relative != "" && f.relative != f.name ==> exists j :: 0 <= j < k && Matches(specs[j], f))
  }

  /** The field can be the base of the other. */
  ghost predicate Matches(base: FieldSpec, f: FieldSpec) {
    base.name == f.relative && base.ftype == f.ftype
  }

  ghost predicate NameFree(specs: seq<FieldSpec>, name: string) {
    forall j :: 0 <= j < |specs| ==> specs[j].name != name
  }

  lemma FreeColumn(specs: seq<FieldSpec>, name: string)
    requires AddFields(specs).Some? && name != "" && name[0] != ' '
    ensures ColumnNumber(AddFields(specs).value.info, name) == -1 <==> NameFree(specs, name)
  {
    var info := AddFields(specs).value.info;
    var c := ColumnNumber(info, name);
    if c >= 0 {
      var k := ColumnDeclared(specs, c);
      assert specs[k].name == name;
    } else {
      forall j | 0 <= j < |specs|
        ensures specs[j].name != name
      {
        EachDeclared(specs, j);
      }
    }
  }

  /** A base of the same numeric type is found exactly if it is declared. */
  lemma BaseFound(specs: seq<FieldSpec>, f: FieldSpec)
    requires AddFields(specs).Some? && Numeric(f.ftype)
    ensures var info := AddFields(specs).value.info;
            var c := ColumnNumber(info, f.relative);
            c != -1 && info[c].ftype == f.ftype <==> exists j :: 0 <= j < |specs| && Matches(specs[j], f)
  {
    var info := AddFields(specs).value.info;
    var c := ColumnNumber(info, f.relative);
    if c != -1 && info[c].ftype == f.ftype {
      var k := ColumnDeclared(specs, c);
      assert Matches(specs[k], f);
    }
    if j :| 0 <= j < |specs| && Matches(specs[j], f) {
      EachDeclared(specs, j);
      ParsedWell(specs);
      NotSpaced(specs, j);
      assert Named(info, ColumnOf(specs, j));
    }
  }

  lemma {:induction false} NotSpaced(specs: seq<FieldSpec>, j: nat)
    requires AddFields(specs).Some? && j < |specs|
    ensures specs[j].name != "" && specs[j].name[0] != ' '
    decreases |specs|
  {
    if j < |specs| - 1 {
      NotSpaced(specs[..|specs| - 1], j);
    }
  }

  lemma WellDeclaredFront(specs: seq<FieldSpec>, n: nat, k: nat)
    requires k < n <= |specs|
    ensures WellDeclared(specs[..n], k) <==> WellDeclared(specs, k)
  {
    var front := specs[..n];
    assert forall j :: 0 <= j <= k ==> front[j] == specs[j];
    if j :| 0 <= j < k && Matches(specs[j], specs[k]) {
      assert Matches(front[j], front[k]);
    }
  }

  /** One more declaration is accepted exactly if it is sound. */
  lemma AcceptableIs(specs: seq<FieldSpec>)
    requires specs != [] && AddFields(specs[..|specs| - 1]).Some?
    ensures var n := |specs| - 1;
            Acceptable(AddFields(specs[..n]).value, specs[n]) <==> WellDeclared(specs, n)
  {
    var n := |specs| - 1;
    var front, f := specs[..n], specs[n];
    if f.name != "" && f.name[0] != ' ' {
      FreeColumn(front, f.name);
    }
    assert NameFree(front, f.name) <==> forall j :: 0 <= j < n ==> specs[j].name != f.name by {
      assert forall j :: 0 <= j < n ==> front[j] == specs[j];
    }
    if Numeric(f.ftype) {
      BaseFound(front, f);
      if j :| 0 <= j < n && Matches(front[j], f) {
        assert Matches(specs[j], f);
      }
      if j :| 0 <= j < n && Matches(specs[j], f) {
        assert Matches(front[j], f);
      }
    }
  }

  ghost predicate AllWellDeclared(specs: seq<FieldSpec>, n: nat)
    requires n <= |specs|
  {
    forall k :: 0 <= k < n ==> WellDeclared(specs, k)
  }

  lemma AllFront(specs: seq<FieldSpec>, n: nat)
    requires n <= |specs|
    ensures AllWellDeclared(specs[..n], n) <==> AllWellDeclared(specs, n)
  {
    forall k | 0 <= k < n
      ensures WellDeclared(specs[..n], k) <==> WellDeclared(specs, k)
    {
      WellDeclaredFront(specs, n, k);
    }
  }

  lemma OneMoreDeclared(specs: seq<FieldSpec>, n: nat)
    requires n < |specs|
    ensures AllWellDeclared(specs, n + 1) <==> AllWellDeclared(specs, n) && WellDeclared(specs, n)
  {
  }

  /** The parser accepts exactly the lists in which every declaration is sound. */
  lemma {:induction false} AcceptedIs(specs: seq<FieldSpec>)
    ensures AddFields(specs).Some? <==> AllWellDeclared(specs, |specs|)
    decreases |specs|
  {
    if specs != [] {
      var n := |specs| - 1;
      AcceptedIs(specs[..n]);
      AllFront(specs, n);
      OneMoreDeclared(specs, n);
      if AddFields(specs[..n]).Some? {
        AcceptableIs(specs);
      }
    }
  }

  // ---------- the loop over the field elements ----------

  lemma {:induction false} BeforePrefix(fs: seq<FieldInfo>, more: seq<FieldInfo>, g: Group, n: nat)
    requires n <= |fs|
    ensures Before(fs + more, g, n) == Before(fs, g, n)
  {
    if n > 0 {
      BeforePrefix(fs, more, g, n - 1);
    }
  }

  lemma TotalAppend(fs: seq<FieldInfo>, f: FieldInfo, g: Group)
    ensures Total(fs + [f], g) == Total(fs, g) + if GroupOf(f) == g then Weight(f) else 0
  {
    BeforePrefix(fs, [f], g, |fs|);
  }

  /** Accepts exactly the lists that AddFields does, and counts the 4 and 8 byte fields. */
  method ParseFields(specs: seq<FieldSpec>) returns (ok: bool, p: Parsed, anyFour: bool, anyEight: bool)
    ensures ok <==> AddFields(specs).Some?
    ensures ok ==> p == AddFields(specs).value
    ensures ok ==> anyFour == AnyFour(p.info) && anyEight == AnyEight(p.info)
  {
    var fours, eights := 0, 0;
    p := NO_FIELDS;
    ok := true;
    for i := 0 to |specs|
      invariant ok ==> AddFields(specs[..i]) == Some(p)
      invariant !ok ==> AddFields(specs[..i]) == None
      invariant ok ==> (fours > 0 <==> AnyFour(p.info)) && (eights > 0 <==> AnyEight(p.info))
      invariant fours >= 0 && eights >= 0
    {
      var f := specs[i];
      assert specs[..i + 1][..i] == specs[..i];
      if ok {
        var q := AddField(p, f);
        if q.None? {
          ok := false;
        } else {
          AddTotals(p, f);
          if f.ftype.FtInt32? || f.ftype.FtVariable32? {
            fours := fours + 1;
          } else if f.ftype.FtInt64? || f.ftype.FtDouble? {
            eights := eights + 1;
          }
          p := q.value;
        }
      }
    }
    assert specs[..|specs|] == specs;
    anyFour, anyEight := fours > 0, eights > 0;
  }

  lemma AddTotals(p: Parsed, f: FieldSpec)
    requires Acceptable(p, f)
    ensures var q := AddField(p, f).value.info;
            && (AnyFour(q) <==> AnyFour(p.info) || f.ftype.FtInt32? || f.ftype.FtVariable32?)
            && (AnyEight(q) <==> AnyEight(p.info) || f.ftype.FtInt64? || f.ftype.FtDouble?)
  {
    var a := InfoOf(f, |p.info|);
    forall g
      ensures Total(AddField(p, f).value.info, g)
           == Total(p.info, g) + (if GroupOf(a) == g then Weight(a) else 0)
              + if f.nullable && g == BoolGroup then 1 else 0
    {
      TotalAppend(p.info, a, g);
      TotalAppend(p.info + [a], NullInfo(f.name), g);
      assert p.info + [a] + [] == p.info + [a];
    }
    var q := AddField(p, f).value.info;
    assert Total(q, Int32Group) == Total(p.info, Int32Group) + if GroupOf(a) == Int32Group then Weight(a) else 0;
    assert Total(q, Var32Group) == Total(p.info, Var32Group) + if GroupOf(a) == Var32Group then Weight(a) else 0;
    assert Total(q, EightGroup) == Total(p.info, EightGroup) + if GroupOf(a) == EightGroup then Weight(a) else 0;
  }
}
