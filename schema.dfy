/** The two record kinds of the database (departments and professors): their
    columns in declaration order, their defaults, and index-based field access
    through an explicit accessor table. */
module Schema {
  import opened Values

  datatype Kind = Department | Professor

  /** The SQL types the columns are declared with. */
  datatype ColumnType = Integer | String(maxLength: Option<nat>) | Numeric(scale: nat) | DateColumn

  datatype Column = Column(
    name: string,
    ctype: ColumnType,
    primaryKey: bool,
    default: Option<Value>,
    references: Option<Kind>)

  function TableName(k: Kind): string
  {
    match k
    case Department => "departments"
    case Professor => "professors"
  }

  /** The column list of a kind, in declaration order. */
  function Columns(k: Kind): (cs: seq<Column>)
    ensures 1 <= |cs|
    ensures cs[0].name == "id" && cs[0].primaryKey && cs[0].ctype == Integer
    ensures forall i :: 1 <= i < |cs| ==> !cs[i].primaryKey
  {
    match k
    case Department =>
      [ Column("id", Integer, true, None, None),
        Column("name", String(Some(100)), false, Some(Text("")), None),
        Column("description", String(None), false, Some(Text("")), None),
        Column("budget", Numeric(2), false, Some(Int(0)), None) ]
    case Professor =>
      [ Column("id", Integer, true, None, None),
        Column("fio", String(Some(60)), false, Some(Text("")), None),
        Column("birth_date", DateColumn, false, Some(Day(Date(2002, 12, 27))), None),
        Column("social_rating", Integer, false, Some(Int(0)), None),
        Column("department_id", Integer, false, None, Some(Department)) ]
  }

  /** No two columns of a kind share a name, so `getattr` by column name
      reaches a different attribute per column. */
  lemma ColumnNamesDistinct(k: Kind, i: nat, j: nat)
    requires i < j < |Columns(k)|
    ensures Columns(k)[i].name != Columns(k)[j].name
  {
    var a, b := Columns(k)[i].name, Columns(k)[j].name;
    assert |a| != |b| || a[0] != b[0];
  }

  function Width(k: Kind): nat
  {
    |Columns(k)|
  }

  /** Index of professors.department_id, the one foreign reference. */
  const DepartmentRef: nat := 4

  /** The one foreign reference is Professor column 4, and it refers to departments. */
  lemma ForeignReferences(k: Kind, i: nat)
    requires i < Width(k)
    ensures Columns(k)[i].references.Some? <==> k == Professor && i == DepartmentRef
    ensures Columns(k)[i].references.Some? ==> Columns(k)[i].references.value == Department
  {
  }

  /** The attribute values of one instance. */
  datatype Record =
    | DepartmentRow(id: Value, name: Value, description: Value, budget: Value)
    | ProfessorRow(id: Value, fio: Value, birthDate: Value, socialRating: Value, departmentId: Value)

  function KindOf(r: Record): Kind
  {
    if r.DepartmentRow? then Department else Professor
  }

  /** Attribute access by name, `getattr(obj, name)`; None for a name the kind lacks. */
  function Attr(r: Record, name: string): Option<Value>
  {
    match r
    case DepartmentRow(id, n, d, b) =>
      if name == "id" then Some(id)
      else if name == "name" then Some(n)
      else if name == "description" then Some(d)
      else if name == "budget" then Some(b)
      else None
    case ProfessorRow(id, f, bd, sr, dep) =>
      if name == "id" then Some(id)
      else if name == "fio" then Some(f)
      else if name == "birth_date" then Some(bd)
      else if name == "social_rating" then Some(sr)
      else if name == "department_id" then Some(dep)
      else None
  }

  /** `obj[i]`: the getter half of the accessor table. It reads the
      attribute named by the i-th declared column. */
  function Get(r: Record, i: nat): (v: Value)
    requires i < Width(KindOf(r))
    ensures Attr(r, Columns(KindOf(r))[i].name) == Some(v)
  {
    match r
    case DepartmentRow(id, n, d, b) => [id, n, d, b][i]
    case ProfessorRow(id, f, bd, sr, dep) => [id, f, bd, sr, dep][i]
  }

  /** `obj[i] = v`: the setter half of the accessor table. The i-th field
      becomes v and every other field keeps its value. */
  function Set(r: Record, i: nat, v: Value): (r': Record)
    requires i < Width(KindOf(r))
    ensures KindOf(r') == KindOf(r)
    ensures Get(r', i) == v
    ensures forall j :: 0 <= j < Width(KindOf(r)) && j != i ==> Get(r', j) == Get(r, j)
  {
    match r
    case DepartmentRow(id, n, d, b) =>
      if i == 0 then DepartmentRow(v, n, d, b)
      else if i == 1 then DepartmentRow(id, v, d, b)
      else if i == 2 then DepartmentRow(id, n, v, b)
      else DepartmentRow(id, n, d, v)
    case ProfessorRow(id, f, bd, sr, dep) =>
      if i == 0 then ProfessorRow(v, f, bd, sr, dep)
      else if i == 1 then ProfessorRow(id, v, bd, sr, dep)
      else if i == 2 then ProfessorRow(id, f, v, sr, dep)
      else if i == 3 then ProfessorRow(id, f, bd, v, dep)
      else ProfessorRow(id, f, bd, sr, v)
  }

  /** A record is determined by its kind and the values at its indices. */
  lemma RecordExtensionality(a: Record, b: Record)
    requires KindOf(a) == KindOf(b)
    requires forall i :: 0 <= i < Width(KindOf(a)) ==> Get(a, i) == Get(b, i)
    ensures a == b
  {
    assert Get(a, 0) == Get(b, 0) && Get(a, 1) == Get(b, 1) && Get(a, 2) == Get(b, 2) && Get(a, 3) == Get(b, 3);
    if KindOf(a) == Professor {
      assert Get(a, 4) == Get(b, 4);
    }
  }

  /** Writing a field and reading it back, and writing what was read. */
  lemma SetGetRoundTrip(r: Record, i: nat, v: Value)
    requires i < Width(KindOf(r))
    ensures Get(Set(r, i, v), i) == v
    ensures Set(r, i, Get(r, i)) == r
  {
    RecordExtensionality(Set(r, i, Get(r, i)), r);
  }

  function DefaultOf(c: Column): Value
  {
    if c.default.Some? then c.default.value else Null
  }

  /** A new instance as it reads after its INSERT: the identity the store
      assigned at index 0 and the declared default everywhere else (None
      where no default is declared). */
  function NewRecord(k: Kind, id: int): (r: Record)
    ensures KindOf(r) == k
    ensures Get(r, 0) == Int(id)
    ensures forall i :: 1 <= i < Width(k) ==> Get(r, i) == DefaultOf(Columns(k)[i])
  {
    match k
    case Department => DepartmentRow(Int(id), Text(""), Text(""), Int(0))
    case Professor => ProfessorRow(Int(id), Text(""), Day(Date(2002, 12, 27)), Int(0), Null)
  }

  /** A value an instance can hold in this column: None, or a value of the
      column's Python type (a Numeric column also holds the int default). */
  predicate Fits(v: Value, c: Column)
  {
    v.Null? ||
    match c.ctype
    case Integer => v.Int?
    case String(_) => v.Text?
    case Numeric(_) => v.Dec? || v.Int?
    case DateColumn => v.Day?
  }

  /** One instance of a kind: the object whose fields `obj[i] = v` assigns. */
  class Instance {
    var rec: Record

    constructor (r: Record)
      ensures rec == r
    {
      rec := r;
    }

    /** `obj[i] = v`, in place. */
    method SetItem(i: nat, v: Value)
      requires i < Width(KindOf(rec))
      modifies this
      ensures rec == Set(old(rec), i, v)
    {
      rec := Set(rec, i, v);
    }
  }
}
