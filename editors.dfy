/** The cell editors: which editor each column gets, the department choice
    with its id-to-position map, and the text coercions the budget and
    rating editors apply. */
module Editors {
  import opened Values
  import opened Schema
  import opened Grid

  datatype Editor =
    | FioEditor | BirthDateEditor | SocialRatingEditor | DepartmentIdEditor
    | NameEditor | DescriptionEditor | BudgetEditor

  /** The editor for each column, keyed by its qualified "table.column" name. */
  const Registry: map<string, Editor> := map[
    "professors.fio" := FioEditor,
    "professors.birth_date" := BirthDateEditor,
    "professors.social_rating" := SocialRatingEditor,
    "professors.department_id" := DepartmentIdEditor,
    "departments.name" := NameEditor,
    "departments.description" := DescriptionEditor,
    "departments.budget" := BudgetEditor
  ]

  /** `str(column)`: the table name, a dot, the column name. */
  function QualifiedName(k: Kind, i: nat): string
    requires i < Width(k)
  {
    TableName(k) + "." + Columns(k)[i].name
  }

  lemma DepartmentNames()
    ensures QualifiedName(Department, 0) == "departments.id"
    ensures QualifiedName(Department, 1) == "departments.name"
    ensures QualifiedName(Department, 2) == "departments.description"
    ensures QualifiedName(Department, 3) == "departments.budget"
  {
    var cs := Columns(Department);
    assert TableName(Department) + "." == "departments.";
    assert cs[0].name == "id" && cs[1].name == "name";
    assert cs[2].name == "description" && cs[3].name == "budget";
  }
  lemma ProfessorNames()
    ensures QualifiedName(Professor, 0) == "professors.id"
    ensures QualifiedName(Professor, 1) == "professors.fio"
    ensures QualifiedName(Professor, 2) == "professors.birth_date"
    ensures QualifiedName(Professor, 3) == "professors.social_rating"
    ensures QualifiedName(Professor, 4) == "professors.department_id"
  {
    var cs := Columns(Professor);
    assert TableName(Professor) + "." == "professors.";
    assert cs[0].name == "id" && cs[1].name == "fio" && cs[2].name == "birth_date";
    assert cs[3].name == "social_rating" && cs[4].name == "department_id";
  }
  /** The editor each column gets: the text editors for fio, name and
      description, the calendar for birth_date, the spin boxes for
      social_rating and budget, the choice for department_id. */
  lemma RegistryEditors()
    ensures QualifiedName(Professor, 1) in Registry && Registry[QualifiedName(Professor, 1)] == FioEditor
    ensures QualifiedName(Professor, 2) in Registry && Registry[QualifiedName(Professor, 2)] == BirthDateEditor
    ensures QualifiedName(Professor, 3) in Registry && Registry[QualifiedName(Professor, 3)] == SocialRatingEditor
    ensures QualifiedName(Professor, 4) in Registry && Registry[QualifiedName(Professor, 4)] == DepartmentIdEditor
    ensures QualifiedName(Department, 1) in Registry && Registry[QualifiedName(Department, 1)] == NameEditor
    ensures QualifiedName(Department, 2) in Registry && Registry[QualifiedName(Department, 2)] == DescriptionEditor
    ensures QualifiedName(Department, 3) in Registry && Registry[QualifiedName(Department, 3)] == BudgetEditor
  {
    DepartmentNames();
    ProfessorNames();
  }

  /** The identity column has no editor. */
  lemma IdentityHasNoEditor(k: Kind)
    ensures QualifiedName(k, 0) !in Registry
  {
    var n := QualifiedName(k, 0);
    if k == Department {
      DepartmentNames();
      assert |n| == 14 && n[0] == 'd';
    } else {
      ProfessorNames();
      assert |n| == 13;
    }
    forall key | key in Registry ensures key != n {
      assert |key| != |n| || key[0] != n[0];
    }
  }

  /** Every column after the identity has an editor, and the identity has none. */
  lemma RegistryCoversColumns(k: Kind, i: nat)
    requires i < Width(k)
    ensures QualifiedName(k, i) in Registry <==> i != 0
  {
    if i == 0 {
      IdentityHasNoEditor(k);
    } else if k == Department {
      DepartmentNames();
    } else {
      ProfessorNames();
    }
  }

  /** Every registered name is the qualified name of a column. */
  lemma RegistryNamesColumns(name: string)
    requires name in Registry
    ensures exists k: Kind, i: nat :: 1 <= i < Width(k) && QualifiedName(k, i) == name
  {
    DepartmentNames();
    ProfessorNames();
    if name == "professors.fio" { assert QualifiedName(Professor, 1) == name; }
    else if name == "professors.birth_date" { assert QualifiedName(Professor, 2) == name; }
    else if name == "professors.social_rating" { assert QualifiedName(Professor, 3) == name; }
    else if name == "professors.department_id" { assert QualifiedName(Professor, 4) == name; }
    else if name == "departments.name" { assert QualifiedName(Department, 1) == name; }
    else if name == "departments.description" { assert QualifiedName(Department, 2) == name; }
    else { assert QualifiedName(Department, 3) == name; }
  }

  /** The values an editor's `setModelData` writes: text for the text
      editors, a date, an int, None or an id for the department choice, a
      Decimal for the budget. */
  predicate Writes(e: Editor, v: Value)
  {
    match e
    case FioEditor => v.Text?
    case NameEditor => v.Text?
    case DescriptionEditor => v.Text?
    case BirthDateEditor => v.Day?
    case SocialRatingEditor => v.Int?
    case DepartmentIdEditor => v.Null? || v.Int?
    case BudgetEditor => v.Dec?
  }

  /** What a column's editor writes is a value of the column's type. */
  lemma EditorsFitColumns(k: Kind, i: nat, v: Value)
    requires 1 <= i < Width(k)
    requires QualifiedName(k, i) in Registry && Writes(Registry[QualifiedName(k, i)], v)
    ensures Fits(v, Columns(k)[i])
  {
    if k == Department {
      DepartmentNames();
    } else {
      ProfessorNames();
    }
  }

  // ---------------------------------------------------------------------
  // The department choice

  /** A choice box: its items as (label, data) and the current position. */
  datatype Combo = Combo(items: seq<(string, Value)>, current: nat)

  /** The items of the department choice: "None" for no department, then
      each department's name with its id, in the order the query returns them. */
  function Options(departments: seq<(int, string)>): (items: seq<(string, Value)>)
    ensures |items| == |departments| + 1
    ensures items[0] == ("None", Null)
    ensures forall k :: 0 <= k < |departments| ==> items[k + 1] == (departments[k].1, Int(departments[k].0))
  {
    if departments == [] then [("None", Null)]
    else
      var last := departments[|departments| - 1];
      Options(departments[..|departments| - 1]) + [(last.1, Int(last.0))]
  }

  /** The position map the choice keeps: None at 0, and the id of the k-th
      department at k; a later department with the same id overwrites an
      earlier one, as a dict assignment does. */
  function IdToIdx(departments: seq<(int, string)>): (m: map<Value, nat>)
    ensures Null in m && m[Null] == 0
    ensures forall v :: v in m ==> m[v] <= |departments|
    ensures forall v :: v in m <==> v == Null || exists k :: 0 <= k < |departments| && v == Int(departments[k].0)
  {
    if departments == [] then map[Null := 0]
    else
      var init := departments[..|departments| - 1];
      var rest := IdToIdx(init);
      assert forall k :: 0 <= k < |init| ==> init[k] == departments[k];
      rest[Int(departments[|departments| - 1].0) := |departments|]
  }

  /** Looking a value up and reading the data of that item gives the value
      back. */
  lemma {:induction false} IdToIdxRoundTrip(departments: seq<(int, string)>, v: Value)
    requires v in IdToIdx(departments)
    ensures Options(departments)[IdToIdx(departments)[v]].1 == v
  {
    if departments != [] {
      var init := departments[..|departments| - 1];
      var last := departments[|departments| - 1];
      if v != Int(last.0) {
        IdToIdxRoundTrip(init, v);
      }
    }
  }

  /** With distinct ids the k-th department (counting from 0) sits at k + 1. */
  lemma {:induction false} IdToIdxPosition(departments: seq<(int, string)>, k: nat)
    requires DistinctIds(departments) && k < |departments|
    ensures Int(departments[k].0) in IdToIdx(departments)
    ensures IdToIdx(departments)[Int(departments[k].0)] == k + 1
  {
    var init := departments[..|departments| - 1];
    if k < |departments| - 1 {
      assert init[k] == departments[k];
      assert DistinctIds(init) by {
        forall i, j | 0 <= i < j < |init| ensures init[i].0 != init[j].0 {
          assert init[i] == departments[i] && init[j] == departments[j];
        }
      }
      IdToIdxPosition(init, k);
    }
  }

  /** Every item other than "None" carries the id of a department, and it is
      labelled with that department's name, which is what the grid then
      displays for the chosen value. */
  lemma OptionsAreReferences(departments: seq<(int, string)>, p: nat)
    requires DistinctIds(departments) && p < |Options(departments)|
    requires forall k :: 0 <= k < |departments| ==> departments[k].0 != 0
    ensures Options(departments)[p].1 == Null || exists k :: 0 <= k < |departments| && Options(departments)[p].1 == Int(departments[k].0)
    ensures Displayable(Professor, DepartmentRef, departments, Options(departments)[p].1)
    ensures Display(Professor, DepartmentRef, departments, Options(departments)[p].1) == Options(departments)[p].0
  {
    if p > 0 {
      assert Options(departments)[p] == (departments[p - 1].1, Int(departments[p - 1].0));
      DisplayReference(departments, p - 1);
    }
  }

  /** The delegate for professors.department_id. */
  class DepartmentIdDelegate {
    var idToIdx: map<Value, nat>

    constructor ()
      ensures idToIdx == map[]
    {
      idToIdx := map[];
    }

    /** `createEditor`: the choice with "None" first and one item per
        department, and the position map, filled in one pass. */
    method CreateEditor(departments: seq<(int, string)>) returns (combo: Combo)
      modifies this
      ensures combo == Combo(Options(departments), 0)
      ensures idToIdx == IdToIdx(departments)
    {
      var items := [("None", Null)];
      var m := map[Null := 0];
      var idx := 1;
      while idx <= |departments|
        invariant 1 <= idx <= |departments| + 1
        invariant items == Options(departments[..idx - 1])
        invariant m == IdToIdx(departments[..idx - 1])
      {
        var e := departments[idx - 1];
        assert departments[..idx][..idx - 1] == departments[..idx - 1];
        items := items + [(e.1, Int(e.0))];
        m := m[Int(e.0) := idx];
        idx := idx + 1;
      }
      assert departments[..idx - 1] == departments;
      idToIdx := m;
      combo := Combo(items, 0);
    }

    /** `setEditorData`: select the position of the cell's raw value; None
        when the value is not in the map, where the dict lookup raises KeyError. */
    function SetEditorData(combo: Combo, raw: Value): (r: Option<Combo>)
      reads this
      ensures r.Some? <==> raw in idToIdx
      ensures r.Some? ==> r.value.items == combo.items && r.value.current == idToIdx[raw]
    {
      if raw in idToIdx then Some(combo.(current := idToIdx[raw])) else None
    }
  }

  /** `setModelData`: the data of the current item. */
  function ComboData(combo: Combo): Value
    requires combo.current < |combo.items|
  {
    combo.items[combo.current].1
  }

  /** Opening the department choice on a cell and confirming it unchanged
      writes back the value the cell held; it fails exactly when the cell
      holds neither None nor the id of a listed department. */
  lemma ChoiceRoundTrip(departments: seq<(int, string)>, raw: Value)
    ensures raw in IdToIdx(departments) <==>
      raw == Null || exists k :: 0 <= k < |departments| && raw == Int(departments[k].0)
    ensures raw in IdToIdx(departments) ==>
      IdToIdx(departments)[raw] < |Options(departments)| &&
      ComboData(Combo(Options(departments), IdToIdx(departments)[raw])) == raw
  {
    if raw in IdToIdx(departments) {
      IdToIdxRoundTrip(departments, raw);
    }
  }

  // ---------------------------------------------------------------------
  // The budget and rating coercions

  /** Every "," replaced by ".". */
  function ReplaceComma(s: string): (r: string)
    ensures |r| == |s|
    ensures forall i :: 0 <= i < |s| ==> r[i] == (if s[i] == ',' then '.' else s[i])
    ensures forall i :: 0 <= i < |r| ==> r[i] != ','
  {
    if s == [] then [] else [if s[0] == ',' then '.' else s[0]] + ReplaceComma(s[1..])
  }

  /** Text without a comma is left as it is. */
  lemma ReplaceCommaNoComma(s: string)
    requires forall i :: 0 <= i < |s| ==> s[i] != ','
    ensures ReplaceComma(s) == s
  {
  }

  /** `Decimal(text.replace(",", "."))`: the budget the editor writes, None
      where Decimal rejects the text. */
  function BudgetValue(text: string): Option<Decimal>
  {
    ParseDecimal(ReplaceComma(text))
  }

  lemma NatOfExample()
    ensures NatOf("10010") == 10010
  {
    assert NatOf("1") == 1 by { assert "1"[..0] == []; }
    assert NatOf("10") == 10 by { assert "10"[..1] == "1"; }
    assert NatOf("100") == 100 by { assert "100"[..2] == "10"; }
    assert NatOf("1001") == 1001 by { assert "1001"[..3] == "100"; }
    assert "10010"[..4] == "1001";
  }

  /** A comma written as the decimal separator reads as a point: digits,
      a comma and digits give the Decimal of all the digits, with as many
      places as follow the comma. */
  lemma CommaSeparator(w: string, f: string)
    requires AllDigits(w) && AllDigits(f) && 1 <= |w| + |f|
    ensures BudgetValue(w + "," + f) == BudgetValue(w + "." + f)
    ensures BudgetValue(w + "," + f) == Some(Decimal(NatOf(w + f), |f|))
  {
    ReplaceSeparator(w, f);
    ParseAtSeparator(w, f);
  }

  lemma ReplaceSeparator(w: string, f: string)
    requires AllDigits(w) && AllDigits(f)
    ensures ReplaceComma(w + "," + f) == w + "." + f
    ensures ReplaceComma(w + "." + f) == w + "." + f
  {
    var c, s := w + "," + f, w + "." + f;
    forall i | 0 <= i < |s| ensures ReplaceComma(c)[i] == s[i] && s[i] != ',' {
      if i < |w| {
        assert c[i] == w[i] && s[i] == w[i];
      } else if i > |w| {
        assert c[i] == f[i - |w| - 1] && s[i] == f[i - |w| - 1];
      }
    }
    ReplaceCommaNoComma(s);
  }

  lemma ParseAtSeparator(w: string, f: string)
    requires AllDigits(w) && AllDigits(f) && 1 <= |w| + |f|
    ensures ParseDecimal(w + "." + f) == Some(Decimal(NatOf(w + f), |f|))
  {
    var s, k := w + "." + f, |w|;
    assert Find(s, '.') == k by {
      assert s == w + ("." + f);
      FindPastDigits(w, "." + f);
    }
    assert s[..k] == w && s[k + 1..] == f;
    ParseAtPoint(s, k);
  }

  lemma BudgetValueExample()
    ensures BudgetValue("100,10") == Some(Decimal(10010, 2))
  {
    CommaSeparator("100", "10");
    assert "100" + "," + "10" == "100,10" && "100" + "10" == "10010";
    NatOfExample();
  }

  /** A numeral with its point written as a comma: the other separator the
      coercion accepts. */
  function CommaForm(s: string): (r: string)
    ensures |r| == |s|
    ensures forall i :: 0 <= i < |s| ==> r[i] == (if s[i] == '.' then ',' else s[i])
  {
    if s == [] then [] else [if s[0] == '.' then ',' else s[0]] + CommaForm(s[1..])
  }

  /** The coercion is a left inverse of `str()` on the plain notation of a
      non-negative Decimal, with the point written either way: the text
      reads back as the same Decimal, scale included. */
  lemma {:induction false} BudgetRoundTrip(d: Decimal)
    requires d.coeff >= 0
    requires |NatText(d.coeff)| - 1 - d.scale >= -6
    ensures BudgetValue(DecimalText(d)) == Some(d)
    ensures BudgetValue(CommaForm(DecimalText(d))) == Some(d)
  {
    var s := DecimalText(d);
    DecimalTextRoundTrip(d);
    NumeralChars(d);
    ReplaceCommaNoComma(s);
    assert ReplaceComma(CommaForm(s)) == s;
  }

  lemma PointTextChars(padded: string, scale: nat)
    requires AllDigits(padded) && scale < |padded|
    ensures forall i :: 0 <= i < |PointText(padded, scale)| ==> IsDigit(PointText(padded, scale)[i]) || PointText(padded, scale)[i] == '.'
  {
    var k := |padded| - scale;
    var s := PointText(padded, scale);
    forall i | 0 <= i < |s| ensures IsDigit(s[i]) || s[i] == '.' {
      if i < k { assert s[i] == padded[i]; }
      else if i > k { assert s[i] == padded[i - 1]; }
    }
  }

  /** The plain text of a non-negative Decimal holds digits and at most a point. */
  lemma NumeralChars(d: Decimal)
    requires d.coeff >= 0
    requires |NatText(d.coeff)| - 1 - d.scale >= -6
    ensures forall i :: 0 <= i < |DecimalText(d)| ==> IsDigit(DecimalText(d)[i]) || DecimalText(d)[i] == '.'
  {
    var digits := NatText(d.coeff);
    var s := MagnitudeText(digits, d.scale);
    assert DecimalText(d) == s;
    if d.scale > 0 {
      var padded := Pad(digits, d.scale + 1);
      PointTextChars(padded, d.scale);
      assert s == PointText(padded, d.scale);
    }
  }

  /** `int(text)` of the rating's display text, as the rating editor loads it. */
  function RatingValue(display: string): Option<int>
  {
    ParseInt(display)
  }

  /** A stored rating loads into the editor as itself; an unset rating,
      shown as "None", is rejected as int() rejects it. */
  lemma RatingRoundTrip(v: Value)
    requires v.Int? || v.Null?
    ensures v.Int? ==> RatingValue(Str(v)) == Some(v.i)
    ensures v.Null? ==> RatingValue(Str(v)) == None
  {
    if v.Int? {
      IntTextRoundTrip(v.i);
    } else {
      assert Str(v) == "None" && !IsDigit(Str(v)[0]);
    }
  }
}
