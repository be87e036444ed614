/** The editable record grid: a table model over the rows of one kind that
    its session returns, the cell read rules, cell edits, adding and
    deleting rows, commit and revert, and the comparator its sorting proxy
    uses. */
module Grid {
  import opened Values
  import opened Schema
  import opened Store

  /** The roles a cell is read in: the display text, the raw stored value,
      and any other role, for which the model has no data. */
  datatype Role = DisplayRole | RawRole | OtherRole

  /** A model index: a row of the table and a column of the kind. */
  datatype Index = Index(row: nat, column: nat)

  /** Some department in the list has this id. */
  predicate Resolves(departments: seq<(int, string)>, id: int)
  {
    exists k :: 0 <= k < |departments| && departments[k].0 == id
  }

  /** The name the lookup `select name where id == ...` returns first. */
  function LookupName(departments: seq<(int, string)>, id: int): (name: string)
    requires Resolves(departments, id)
    ensures exists k ::
      (0 <= k < |departments| && departments[k] == (id, name) && forall j :: 0 <= j < k ==> departments[j].0 != id)
  {
    if departments[0].0 == id then departments[0].1
    else
      var name := LookupName(departments[1..], id);
      ghost var k :| 0 <= k < |departments[1..]| && departments[1..][k] == (id, name) &&
        (forall j :: 0 <= j < k ==> departments[1..][j].0 != id);
      assert departments[k + 1] == (id, name);
      name
  }

  /** Department ids are a primary key: no two departments share one. */
  predicate DistinctIds(departments: seq<(int, string)>)
  {
    forall i, j :: 0 <= i < j < |departments| ==> departments[i].0 != departments[j].0
  }

  /** With distinct ids the lookup returns the one department with that id. */
  lemma LookupNameUnique(departments: seq<(int, string)>, k: nat)
    requires DistinctIds(departments) && k < |departments|
    ensures Resolves(departments, departments[k].0)
    ensures LookupName(departments, departments[k].0) == departments[k].1
  {
    var name := LookupName(departments, departments[k].0);
    var k' :| 0 <= k' < |departments| && departments[k'] == (departments[k].0, name) &&
      (forall j :: 0 <= j < k' ==> departments[j].0 != departments[k].0);
    assert k' == k;
  }

  /** The department reference of professors is the one column shown by name. */
  predicate ShownByName(kind: Kind, column: nat)
  {
    kind == Professor && column == DepartmentRef
  }

  /** A value the display rule can show without failing: the lookup of a
      truthy department reference finds its department. */
  predicate Displayable(kind: Kind, column: nat, departments: seq<(int, string)>, v: Value)
  {
    ShownByName(kind, column) && !Falsy(v) ==> v.Int? && Resolves(departments, v.i)
  }

  /** The display text of a stored value. */
  function Display(kind: Kind, column: nat, departments: seq<(int, string)>, v: Value): (s: string)
    requires Displayable(kind, column, departments, v)
    ensures !ShownByName(kind, column) ==> s == Str(v)
    ensures ShownByName(kind, column) && Falsy(v) ==> s == "None"
    ensures ShownByName(kind, column) && !Falsy(v) ==>
      exists k :: 0 <= k < |departments| && departments[k] == (v.i, s)
  {
    if !ShownByName(kind, column) then Str(v)
    else if Falsy(v) then "None"
    else LookupName(departments, v.i)
  }

  /** A department reference shows the name of the department it refers to. */
  lemma DisplayReference(departments: seq<(int, string)>, k: nat)
    requires DistinctIds(departments) && k < |departments| && departments[k].0 != 0
    ensures Displayable(Professor, DepartmentRef, departments, Int(departments[k].0))
    ensures Display(Professor, DepartmentRef, departments, Int(departments[k].0)) == departments[k].1
  {
    LookupNameUnique(departments, k);
  }

  /** The comparator on two stored values of one column: the department
      reference of professors compares display labels, anything else
      compares the raw values with Python's `<`. */
  function SortLess(kind: Kind, column: nat, departments: seq<(int, string)>, a: Value, b: Value): (r: Option<bool>)
    requires Displayable(kind, column, departments, a) && Displayable(kind, column, departments, b)
    ensures ShownByName(kind, column) ==>
      r == Some(LexLess(Display(kind, column, departments, a), Display(kind, column, departments, b)))
    ensures !ShownByName(kind, column) ==> r == PyLess(a, b)
  {
    if ShownByName(kind, column) then
      PyLess(Text(Display(kind, column, departments, a)), Text(Display(kind, column, departments, b)))
    else PyLess(a, b)
  }

  /** Wherever the comparator is defined it is a strict order. */
  lemma SortLessStrictOrder(kind: Kind, column: nat, departments: seq<(int, string)>, a: Value, b: Value, c: Value)
    requires Displayable(kind, column, departments, a)
    requires Displayable(kind, column, departments, b)
    requires Displayable(kind, column, departments, c)
    ensures SortLess(kind, column, departments, a, a) != Some(true)
    ensures SortLess(kind, column, departments, a, b) == Some(true) && SortLess(kind, column, departments, b, c) == Some(true)
      ==> SortLess(kind, column, departments, a, c) == Some(true)
  {
    if ShownByName(kind, column) {
      var x, y, z := Display(kind, column, departments, a), Display(kind, column, departments, b), Display(kind, column, departments, c);
      PyLessStrictOrder(Text(x), Text(y), Text(z));
    } else {
      PyLessStrictOrder(a, b, c);
    }
  }

  /** On the department reference the comparator never fails, and it is
      total: of two distinct labels one sorts first. */
  lemma SortLessReferenceTotal(departments: seq<(int, string)>, a: Value, b: Value)
    requires Displayable(Professor, DepartmentRef, departments, a)
    requires Displayable(Professor, DepartmentRef, departments, b)
    ensures SortLess(Professor, DepartmentRef, departments, a, b).Some?
    ensures Display(Professor, DepartmentRef, departments, a) != Display(Professor, DepartmentRef, departments, b) ==>
      SortLess(Professor, DepartmentRef, departments, a, b) == Some(true) ||
      SortLess(Professor, DepartmentRef, departments, b, a) == Some(true)
  {
    LexLessTotal(Display(Professor, DepartmentRef, departments, a), Display(Professor, DepartmentRef, departments, b));
  }

  /** Labels, not ids, decide the order: department 2 named "Algebra" sorts
      before department 1 named "Physics", and a missing reference, shown as
      "None", sorts between the two. */
  lemma SortLessByLabel()
    ensures Displayable(Professor, DepartmentRef, [(1, "Physics"), (2, "Algebra")], Int(1))
    ensures Displayable(Professor, DepartmentRef, [(1, "Physics"), (2, "Algebra")], Int(2))
    ensures SortLess(Professor, DepartmentRef, [(1, "Physics"), (2, "Algebra")], Int(2), Int(1)) == Some(true)
    ensures SortLess(Professor, DepartmentRef, [(1, "Physics"), (2, "Algebra")], Null, Int(1)) == Some(true)
    ensures SortLess(Professor, DepartmentRef, [(1, "Physics"), (2, "Algebra")], Int(2), Null) == Some(true)
    ensures PyLess(Int(1), Int(2)) == Some(true)
  {
    var ds := [(1, "Physics"), (2, "Algebra")];
    assert ds[0].0 == 1 && ds[1].0 == 2;
    LookupNameUnique(ds, 0);
    LookupNameUnique(ds, 1);
    assert LexLess("Algebra", "Physics");
    assert LexLess("None", "Physics") by {
      assert "Physics"[0] == 'P' && "None"[0] == 'N';
    }
    assert LexLess("Algebra", "None") by {
      assert "Algebra"[0] == 'A' && "None"[0] == 'N';
    }
  }

  /** The rows the indices address in t. */
  function Addressed<T>(t: seq<T>, rows: seq<nat>): (d: set<T>)
    requires forall i :: 0 <= i < |rows| ==> rows[i] < |t|
    ensures forall i :: 0 <= i < |rows| ==> t[rows[i]] in d
    ensures forall x :: x in d ==> exists i :: 0 <= i < |rows| && x == t[rows[i]]
  {
    set i | 0 <= i < |rows| :: t[rows[i]]
  }

  lemma AddressedPrefix<T>(t: seq<T>, rows: seq<nat>, i: nat)
    requires i < |rows| && forall j :: 0 <= j < |rows| ==> rows[j] < |t|
    ensures Addressed(t, rows[..i + 1]) == Addressed(t, rows[..i]) + {t[rows[i]]}
  {
    assert rows[..i + 1][i] == rows[i];
    assert forall j :: 0 <= j < i ==> rows[..i + 1][j] == rows[..i][j];
  }

  /** Deleting rows that are gone already changes nothing. */
  lemma {:induction false} WithoutAbsent<T>(s: seq<T>, d: set<T>, x: T)
    requires x !in Without(s, d)
    ensures Without(s, d + {x}) == Without(s, d)
  {
    WithoutTwice(s, d, {x});
    WithoutNothing(Without(s, d), {x});
  }

  /** One staged deletion keeps the live rows and the staged inserts equal
      to the originals without everything deleted so far. */
  lemma DeleteStep<T>(t: seq<T>, staged: seq<T>, gone: set<T>, x: T,
                      live: seq<T>, inserts: seq<T>, live': seq<T>, inserts': seq<T>)
    requires live == Without(t, gone) && inserts == Without(staged, gone)
    requires live' == Without(live, {x})
    requires x in inserts ==> inserts' == Without(inserts, {x})
    requires x !in inserts ==> inserts' == inserts
    ensures live' == Without(t, gone + {x})
    ensures inserts' == Without(staged, gone + {x})
  {
    WithoutTwice(t, gone, {x});
    if x in inserts {
      WithoutTwice(staged, gone, {x});
    } else {
      WithoutAbsent(staged, gone, x);
    }
  }

  /** Deleting the addressed rows of a table of distinct rows removes one
      row per distinct addressed row: an index repeated, as when several
      cells of one row are selected, deletes that row once. */
  lemma DeletedOnce<T>(t: seq<T>, rows: seq<nat>)
    requires Distinct(t) && forall i :: 0 <= i < |rows| ==> rows[i] < |t|
    ensures |Without(t, Addressed(t, rows))| == |t| - |Addressed(t, rows)|
    ensures |Addressed(t, rows)| <= |rows|
  {
    var d := Addressed(t, rows);
    WithoutCount(t, d);
    assert d * (set x | x in t) == d;
    AddressedSize(t, rows);
  }

  lemma {:induction false} AddressedSize<T>(t: seq<T>, rows: seq<nat>)
    requires forall i :: 0 <= i < |rows| ==> rows[i] < |t|
    ensures |Addressed(t, rows)| <= |rows|
  {
    if rows != [] {
      var n := |rows| - 1;
      AddressedPrefix(t, rows, n);
      AddressedSize(t, rows[..n]);
      assert rows[..n + 1] == rows;
    }
  }

  /** The grid model of one kind. */
  class TableModel {
    const kind: Kind
    const session: Session
    var table: seq<Instance>

    /** The table is what the session's query returns, and its rows are
        instances of the model's kind. */
    ghost predicate Valid()
      reads this, session, table
    {
      && session.Valid() && session.kind == kind && table == session.Live()
      && OfKind(Cells(), kind)
    }

    /** The values the rows hold, in table order. */
    function Cells(): seq<Record>
      reads this, table
    {
      Records(table)
    }

    /** A model over the rows of one kind already in the database. */
    constructor (kind: Kind, departments: seq<(int, string)>, rows: seq<Instance>)
      requires Distinct(rows)
      requires OfKind(Records(rows), kind)
      ensures Valid() && fresh(session)
      ensures this.kind == kind && session.departments == departments
      ensures table == rows && session.durable == rows && session.committed == Records(rows)
      ensures session.inserts == [] && session.deletes == {}
    {
      this.kind := kind;
      var s := new Session(kind, departments, rows);
      WithoutNothing(rows, s.deletes);
      assert s.Live() == rows;
      session := s;
      table := rows;
    }

    /** `rowCount`: one row per row the session's query returns. */
    function RowCount(): (n: nat)
      reads this, session, table
      requires Valid()
      ensures n == |session.Live()|
    {
      |table|
    }

    /** `columnCount`: the number of columns the kind declares. */
    function ColumnCount(): (n: nat)
      ensures kind == Department ==> n == 4
      ensures kind == Professor ==> n == 5
      ensures n == |Columns(kind)|
    {
      Width(kind)
    }

    /** `data(index, role)`: the raw role gives the stored value, the display
        role its display text, any other role None. */
    function Data(index: Index, role: Role): (d: Value)
      reads this, table
      requires index.row < |table| && index.column < Width(KindOf(table[index.row].rec))
      requires role == DisplayRole ==>
        Displayable(kind, index.column, session.departments, Get(table[index.row].rec, index.column))
      ensures role == RawRole ==> d == Get(table[index.row].rec, index.column)
      ensures role == DisplayRole ==>
        d == Text(Display(kind, index.column, session.departments, Get(table[index.row].rec, index.column)))
      ensures role == OtherRole ==> d == Null
    {
      var v := table[index.row].rec;
      match role
      case DisplayRole => Text(Display(kind, index.column, session.departments, Get(v, index.column)))
      case RawRole => Get(v, index.column)
      case OtherRole => Null
    }

    /** `setData(index, value)`: exactly the addressed cell takes the value,
        and the edit reports success. */
    method SetData(index: Index, value: Value) returns (ok: bool)
      requires Valid()
      requires index.row < |table| && index.column < ColumnCount()
      modifies table[index.row]
      ensures Valid() && ok
      ensures table == old(table)
      ensures Cells() == old(Cells())[index.row := Set(old(Cells())[index.row], index.column, value)]
    {
      ghost var before := Cells();
      session.LiveDistinct();
      var x := table[index.row];
      x.SetItem(index.column, value);
      assert forall i :: 0 <= i < |table| && i != index.row ==> table[i] != x;
      assert Cells() == before[index.row := x.rec];
      ok := true;
    }

    /** `add_row`: stage one new instance, then reload; the new instance
        reads the identity the store assigns it and the declared defaults. */
    method AddRow()
      requires Valid()
      modifies this, session
      ensures Valid()
      ensures |table| == |old(table)| + 1 && table[..|old(table)|] == old(table)
      ensures fresh(table[|old(table)|])
      ensures Cells() == old(Cells()) + [NewRecord(kind, NextId(old(Cells())))]
      ensures session.durable == old(session.durable) && session.committed == old(session.committed)
      ensures session.deletes == old(session.deletes)
    {
      ghost var before := Cells();
      var r := NewRecord(kind, NextId(Records(table)));
      var x := session.AddNew(r);
      var t := table + [x];
      assert Records(t) == before + [r] && OfKind(before + [r], kind) by {
        assert Records(table) == before;
        RecordsAppend(table, x);
      }
      table := t;
    }

    /** `delete_rows(idxes)`: stage the deletion of every addressed row,
        then reload. The loop reads the rows of the table as it was before
        the call. */
    method DeleteRows(rows: seq<nat>)
      requires Valid()
      requires forall i :: 0 <= i < |rows| ==> rows[i] < |table|
      modifies this, session
      ensures Valid()
      ensures table == Without(old(table), Addressed(old(table), rows))
      ensures session.inserts == Without(old(session.inserts), Addressed(old(table), rows))
      ensures session.durable == old(session.durable) && session.committed == old(session.committed)
    {
      var t := table;
      ghost var staged, durable, committed := session.inserts, session.durable, session.committed;
      ghost var gone: set<Instance> := {};
      var i := 0;
      WithoutNothing(t, gone);
      WithoutNothing(staged, gone);
      while i < |rows|
        invariant 0 <= i <= |rows| && gone == Addressed(t, rows[..i])
        invariant session.Valid() && session.Live() == Without(t, gone)
        invariant session.inserts == Without(staged, gone)
        invariant session.durable == durable && session.committed == committed
        modifies session
      {
        var x := t[rows[i]];
        ghost var live, inserts := session.Live(), session.inserts;
        AddressedPrefix(t, rows, i);
        session.Delete(x);
        DeleteStep(t, staged, gone, x, live, inserts, session.Live(), session.inserts);
        gone := gone + {x};
        i := i + 1;
      }
      assert rows[..i] == rows;
      table := session.Live();
    }

    /** `commit`: every staged operation and edit becomes durable; the
        table is neither reloaded nor changed. */
    method Commit()
      requires Valid()
      modifies session
      ensures Valid()
      ensures table == old(table) && Cells() == old(Cells())
      ensures session.durable == table && session.committed == Cells()
      ensures session.inserts == [] && session.deletes == {}
    {
      session.Commit();
    }

    /** `revert`: discard every staged operation and edit, then reload; the
        table is the durable rows again, holding their committed values. */
    method Revert()
      requires Valid()
      modifies this, session, session.durable
      ensures Valid()
      ensures table == old(session.durable) && Cells() == old(session.committed)
      ensures session.durable == old(session.durable) && session.committed == old(session.committed)
      ensures session.inserts == [] && session.deletes == {}
    {
      session.Rollback();
      table := session.Live();
    }
  }

  /** The sorting proxy over a table model. */
  class SortModel {
    const source: TableModel

    constructor (source: TableModel)
      ensures this.source == source
    {
      this.source := source;
    }

    /** `lessThan(left, right)`: on the department reference of professors
        the display labels are compared, elsewhere the raw values. */
    function LessThan(left: Index, right: Index): (r: Option<bool>)
      reads source, source.table
      requires left.row < |source.table| && right.row < |source.table|
      requires left.column < Width(KindOf(source.table[left.row].rec))
      requires right.column < Width(KindOf(source.table[right.row].rec))
      requires ShownByName(source.kind, left.column) ==>
        Displayable(source.kind, left.column, source.session.departments, Get(source.table[left.row].rec, left.column)) &&
        Displayable(source.kind, right.column, source.session.departments, Get(source.table[right.row].rec, right.column))
      ensures ShownByName(source.kind, left.column) ==>
        r == PyLess(source.Data(left, DisplayRole), source.Data(right, DisplayRole))
      ensures !ShownByName(source.kind, left.column) ==>
        r == PyLess(source.Data(left, RawRole), source.Data(right, RawRole))
      ensures left.column == right.column ==>
        r == SortLess(source.kind, left.column, source.session.departments,
                      Get(source.table[left.row].rec, left.column), Get(source.table[right.row].rec, right.column))
    {
      if ShownByName(source.kind, left.column) then
        PyLess(source.Data(left, DisplayRole), source.Data(right, DisplayRole))
      else
        PyLess(source.Data(left, RawRole), source.Data(right, RawRole))
    }
  }
}
