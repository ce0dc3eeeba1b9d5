/** From declarations to the codec's options (src/base/ExtentType.cpp:358-603): what a parsed type does with each field is
    what its declaration says. */
module DeclaredTypes {
  import opened Bytes
  import opened RecordLayout
  import opened TypeParser
  import opened ParsedTypes
  import RF = RecordFormat

  function WidthOf(t: FieldType): nat {
    if t.FtInt32? || t.FtVariable32? then 4 else if t.FtInt64? || t.FtDouble? then 8 else 1
  }

  /** What the theorems start from: an accepted list without bools and fixedwidth fields at k. */
  ghost predicate Accepts(specs: seq<FieldSpec>, compact: bool, k: nat) {
    && AddFields(specs).Some? && Covered(AddFields(specs).value, compact)
    && k < |specs| && !specs[k].ftype.FtBool? && !specs[k].ftype.FtFixedWidth?
  }

  /** The k-th declared field as the codec sees it. */
  ghost function FieldOf(specs: seq<FieldSpec>, ordering: Ordering, pad: PadRecord, k: nat): RF.Field
    requires AddFields(specs).Some? && k < |specs|
  {
    var info := AddFields(specs).value.info;
    EachDeclared(specs, k);
    FieldAt(info, Layout(info, ordering, pad), ColumnOf(specs, k))
  }

  lemma ColumnIs(specs: seq<FieldSpec>, compact: bool, k: nat)
    requires Accepts(specs, compact, k)
    ensures var p, c := AddFields(specs).value, ColumnOf(specs, k);
            && WellParsed(p) && Declared(p, c, specs[k]) && DeclaredRelative(p, c, specs[k]) && IsWord(p.info[c])
  {
    ParsedWell(specs);
    EachDeclared(specs, k);
  }

  /** The field has the width of its type, and a null bit, that of the bool behind it, exactly if it is nullable. */
  lemma DeclaredPlace(
      specs: seq<FieldSpec>, ordering: Ordering, pad: PadRecord, boolBytes: nat, compact: bool, k: nat)
    requires Accepts(specs, compact, k)
    ensures var p := AddFields(specs).value;
            var s, f, c := Layout(p.info, ordering, pad), FieldOf(specs, ordering, pad, k), ColumnOf(specs, k);
            && f in TypeOf(p, ordering, pad, boolBytes, compact).fields && f.width == WidthOf(specs[k].ftype)
            && (if specs[k].nullable
                then c + 1 < |p.info| && p.info[c + 1] == NullInfo(specs[k].name)
                     && f.nullAt == Some(RF.NullBit(Placed(p.info, s, c + 1).offset, Placed(p.info, s, c + 1).bitpos))
                else f.nullAt == None)
  {
    ColumnIs(specs, compact, k);
    FieldsHas(AddFields(specs).value, ordering, pad, boolBytes, compact, ColumnOf(specs, k));
  }

  lemma SameColumn(p: Parsed, ordering: Ordering, pad: PadRecord, i: nat, j: nat)
    requires WellParsed(p) && i < |p.info| && IsWord(p.info[i]) && j < |p.info| && IsWord(p.info[j])
    requires FieldAt(p.info, Layout(p.info, ordering, pad), i) == FieldAt(p.info, Layout(p.info, ordering, pad), j)
    ensures i == j
  {
    if i != j {
      ColumnsApart(p, ordering, pad, i, j);
    }
  }

  /** Its string is packed exactly if it is a variable32 field, and shared exactly if it is declared unique. */
  lemma DeclaredString(
      specs: seq<FieldSpec>, ordering: Ordering, pad: PadRecord, boolBytes: nat, compact: bool, k: nat, unique: bool)
    requires Accepts(specs, compact, k)
    ensures var t := TypeOf(AddFields(specs).value, ordering, pad, boolBytes, compact);
            RF.VarColumn(FieldOf(specs, ordering, pad, k), unique) in t.vars
            <==> specs[k].ftype.FtVariable32? && (unique <==> specs[k].unique == Some(true))
  {
    ColumnIs(specs, compact, k);
    var p, c := AddFields(specs).value, ColumnOf(specs, k);
    var t, f := TypeOf(p, ordering, pad, boolBytes, compact), FieldOf(specs, ordering, pad, k);
    if RF.VarColumn(f, unique) in t.vars {
      var m :| 0 <= m < |p.vars| && t.vars[m] == RF.VarColumn(f, unique);
      assert p.vars[m] in p.vars;
      SameColumn(p, ordering, pad, p.vars[m], c);
    }
    if specs[k].ftype.FtVariable32? && unique == (specs[k].unique == Some(true)) {
      var m :| 0 <= m < |p.vars| && p.vars[m] == c;
      assert t.vars[m] == RF.VarColumn(f, unique);
    }
  }

  /** It is packed relative to itself exactly if it names itself. */
  lemma DeclaredSelf(
      specs: seq<FieldSpec>, ordering: Ordering, pad: PadRecord, boolBytes: nat, compact: bool, k: nat)
    requires Accepts(specs, compact, k)
    ensures var t := TypeOf(AddFields(specs).value, ordering, pad, boolBytes, compact);
            FieldOf(specs, ordering, pad, k) in t.selfs <==> specs[k].relative != "" && specs[k].relative == specs[k].name
  {
    ColumnIs(specs, compact, k);
    var p, c := AddFields(specs).value, ColumnOf(specs, k);
    var t, f := TypeOf(p, ordering, pad, boolBytes, compact), FieldOf(specs, ordering, pad, k);
    if f in t.selfs {
      var m :| 0 <= m < |p.selfs| && t.selfs[m] == f;
      assert p.selfs[m] in p.selfs;
      SameColumn(p, ordering, pad, p.selfs[m], c);
    }
    if c in p.selfs {
      var m :| 0 <= m < |p.selfs| && p.selfs[m] == c;
      assert t.selfs[m] == f;
    }
  }

  lemma {:induction false} ColumnsGrow(specs: seq<FieldSpec>, j: nat, k: nat)
    requires j <= k <= |specs|
    ensures ColumnOf(specs, j) <= ColumnOf(specs, k)
    decreases k
  {
    if j < k {
      ColumnsGrow(specs, j, k - 1);
    }
  }

  /** A column of a numeric type is that of a declaration. */
  lemma NumericDeclared(specs: seq<FieldSpec>, c: nat) returns (j: nat)
    requires AddFields(specs).Some? && c < |AddFields(specs).value.info|
    requires Numeric(AddFields(specs).value.info[c].ftype)
    ensures j < |specs| && ColumnOf(specs, j) == c
  {
    var p := AddFields(specs).value;
    j := ColumnDeclared(specs, c);
    ParsedWell(specs);
    EachDeclared(specs, j);
    NotSpaced(specs, j);
    assert Named(p.info, c);
  }

  /** The field is packed relative to the base. */
  ghost predicate RelativeTo(t: RF.RecordType, f: RF.Field, base: RF.Field) {
    RF.Relative(f, base) in t.others
  }

  /** It is packed relative to another field exactly if it names one, and then to the field of that name and of its type
      that is declared before it. */
  lemma DeclaredOther(
      specs: seq<FieldSpec>, ordering: Ordering, pad: PadRecord, boolBytes: nat, compact: bool, k: nat)
    returns (j: nat)
    requires Accepts(specs, compact, k)
    ensures var t, f := TypeOf(AddFields(specs).value, ordering, pad, boolBytes, compact), FieldOf(specs, ordering, pad, k);
            if specs[k].relative != "" && specs[k].relative != specs[k].name
            then j < k && Matches(specs[j], specs[k]) && RelativeTo(t, f, FieldOf(specs, ordering, pad, j))
            else forall base :: !RelativeTo(t, f, base)
  {
    ColumnIs(specs, compact, k);
    var p, c := AddFields(specs).value, ColumnOf(specs, k);
    var t, f := TypeOf(p, ordering, pad, boolBytes, compact), FieldOf(specs, ordering, pad, k);
    j := 0;
    if specs[k].relative != "" && specs[k].relative != specs[k].name {
      var o :| o in p.others && o.field == c;
      assert BaseBefore(p.info, o);
      j := NumericDeclared(specs, o.base);
      EachDeclared(specs, j);
      if j >= k {
        ColumnsGrow(specs, k, j);
      }
      var m :| 0 <= m < |p.others| && p.others[m] == o;
      assert t.others[m] == RF.Relative(f, FieldOf(specs, ordering, pad, j));
    } else {
      forall base
        ensures !RelativeTo(t, f, base)
      {
        if RelativeTo(t, f, base) {
          var m :| 0 <= m < |p.others| && t.others[m] == RF.Relative(f, base);
          assert p.others[m] in p.others && BaseBefore(p.info, p.others[m]);
          SameColumn(p, ordering, pad, p.others[m].field, c);
        }
      }
    }
  }
}
