/** The persistence session a record grid owns, as an abstract store: the
    durable rows with their committed values, the staged inserts and the
    staged deletes. Field edits are made on the instances themselves, which
    the session shares with the grid. */
module Store {
  import opened Values
  import opened Schema

  predicate Distinct<T(==)>(s: seq<T>)
  {
    forall i, j :: 0 <= i < j < |s| ==> s[i] != s[j]
  }

  /** The elements of s that are not in d, in their order in s. */
  function Without<T(==)>(s: seq<T>, d: set<T>): (r: seq<T>)
    ensures forall i :: 0 <= i < |r| ==> r[i] in s && r[i] !in d
    ensures forall i :: 0 <= i < |s| && s[i] !in d ==> s[i] in r
    ensures |r| <= |s|
  {
    if s == [] then [] else (if s[0] in d then [] else [s[0]]) + Without(s[1..], d)
  }

  lemma {:induction false} WithoutAppend<T>(a: seq<T>, b: seq<T>, d: set<T>)
    ensures Without(a + b, d) == Without(a, d) + Without(b, d)
  {
    if a == [] {
      assert a + b == b;
    } else {
      assert (a + b)[1..] == a[1..] + b;
      WithoutAppend(a[1..], b, d);
    }
  }

  lemma {:induction false} WithoutTwice<T>(s: seq<T>, d: set<T>, e: set<T>)
    ensures Without(Without(s, d), e) == Without(s, d + e)
  {
    if s != [] {
      WithoutTwice(s[1..], d, e);
      var head := if s[0] in d then [] else [s[0]];
      WithoutAppend(head, Without(s[1..], d), e);
    }
  }

  lemma {:induction false} WithoutNothing<T>(s: seq<T>, d: set<T>)
    requires forall x :: x in s ==> x !in d
    ensures Without(s, d) == s
  {
    if s != [] {
      WithoutNothing(s[1..], d);
      assert s == [s[0]] + s[1..];
    }
  }

  lemma {:induction false} WithoutDistinct<T>(s: seq<T>, d: set<T>)
    requires Distinct(s)
    ensures Distinct(Without(s, d))
  {
    if s != [] {
      WithoutDistinct(s[1..], d);
      assert s[0] !in s[1..] by {
        forall j | 0 <= j < |s[1..]| ensures s[1..][j] != s[0] { assert s[1..][j] == s[j + 1]; }
      }
    }
  }

  /** Removing a set from a repetition-free sequence removes exactly the
      members of the set that occur in it. */
  lemma {:induction false} WithoutCount<T>(s: seq<T>, d: set<T>)
    requires Distinct(s)
    ensures |Without(s, d)| == |s| - |d * (set x | x in s)|
  {
    if s == [] {
      assert d * (set x | x in s) == {};
    } else {
      var rest := s[1..];
      assert Distinct(rest);
      WithoutCount(rest, d);
      assert s[0] !in rest by {
        forall j | 0 <= j < |rest| ensures rest[j] != s[0] { assert rest[j] == s[j + 1]; }
      }
      var all, tail := set x | x in s, set x | x in rest;
      assert all == tail + {s[0]};
      if s[0] in d {
        assert d * all == d * tail + {s[0]};
      } else {
        assert d * all == d * tail;
      }
    }
  }

  /** The attribute values of a sequence of instances. */
  function Records(xs: seq<Instance>): (rs: seq<Record>)
    reads xs
    ensures |rs| == |xs|
    ensures forall i :: 0 <= i < |xs| ==> rs[i] == xs[i].rec
  {
    if xs == [] then [] else [xs[0].rec] + Records(xs[1..])
  }

  lemma RecordsAppend(xs: seq<Instance>, x: Instance)
    ensures Records(xs + [x]) == Records(xs) + [x.rec]
  {
    assert forall i :: 0 <= i < |xs| ==> (xs + [x])[i] == xs[i];
  }

  /** Every record is of the given kind. */
  predicate OfKind(rs: seq<Record>, kind: Kind)
  {
    forall i :: 0 <= i < |rs| ==> KindOf(rs[i]) == kind
  }

  /** The identity SQLite gives the next inserted row: one more than the
      largest identity present, or 1 when none is positive. */
  function NextId(rs: seq<Record>): (n: int)
    ensures 1 <= n
    ensures forall i :: 0 <= i < |rs| && rs[i].id.Int? ==> rs[i].id.i < n
    ensures n == 1 || exists i :: 0 <= i < |rs| && rs[i].id == Int(n - 1)
  {
    if rs == [] then 1
    else
      var rest := NextId(rs[1..]);
      assert forall i :: 1 <= i < |rs| ==> rs[i] == rs[1..][i - 1];
      if rs[0].id.Int? && rs[0].id.i >= rest then rs[0].id.i + 1 else rest
  }

  /** Every instance is staged or durable at most once, and every durable
      instance has committed values of the session's kind. */
  ghost predicate Consistent(kind: Kind, durable: seq<Instance>, committed: seq<Record>, inserts: seq<Instance>)
  {
    && Distinct(durable) && Distinct(inserts)
    && (forall i, j :: 0 <= i < |durable| && 0 <= j < |inserts| ==> durable[i] != inserts[j])
    && |committed| == |durable| && OfKind(committed, kind)
  }

  /** One session, bound to one kind. */
  class Session {
    const kind: Kind
    /** (id, name) of each department, as the session's lookups return them. */
    const departments: seq<(int, string)>

    /** The committed rows, in table order, and the values committed for them. */
    var durable: seq<Instance>
    var committed: seq<Record>
    /** Staged operations not yet committed. */
    var inserts: seq<Instance>
    var deletes: set<Instance>

    ghost predicate Valid()
      reads this
    {
      Consistent(kind, durable, committed, inserts)
    }

    /** `query(kind).all()`: the durable rows minus the staged deletes, then
        the staged inserts in the order they were added. */
    function Live(): (rows: seq<Instance>)
      reads this
    {
      Without(durable, deletes) + inserts
    }

    /** An instance is live exactly when it is durable and not staged for
        deletion, or staged for insertion. */
    lemma LiveMembers(x: Instance)
      ensures x in Live() <==> (x in durable && x !in deletes) || x in inserts
    {
      var w := Without(durable, deletes);
      if x in durable && x !in deletes {
        var i :| 0 <= i < |durable| && durable[i] == x;
        assert x in w;
      }
      if x in w {
        var i :| 0 <= i < |w| && w[i] == x;
      }
    }

    /** The live rows are distinct instances. */
    lemma LiveDistinct()
      requires Valid()
      ensures Distinct(Live())
    {
      var w := Without(durable, deletes);
      WithoutDistinct(durable, deletes);
      forall i, j | 0 <= i < j < |w + inserts| ensures (w + inserts)[i] != (w + inserts)[j] {
        if i < |w| && j >= |w| {
          assert (w + inserts)[i] in durable;
          assert (w + inserts)[j] == inserts[j - |w|];
        }
      }
    }

    /** A session over the rows already in the database, with nothing staged. */
    constructor (kind: Kind, departments: seq<(int, string)>, rows: seq<Instance>)
      requires Distinct(rows)
      requires OfKind(Records(rows), kind)
      ensures Valid()
      ensures this.kind == kind && this.departments == departments
      ensures durable == rows && committed == Records(rows)
      ensures inserts == [] && deletes == {}
    {
      this.kind := kind;
      this.departments := departments;
      durable := rows;
      committed := Records(rows);
      inserts := [];
      deletes := {};
    }

    /** `session.add(x)`: stage the insertion of a new instance. */
    method Add(x: Instance)
      requires Valid()
      requires x !in durable && x !in inserts
      modifies this
      ensures Valid()
      ensures Live() == old(Live()) + [x]
      ensures durable == old(durable) && committed == old(committed)
      ensures inserts == old(inserts) + [x] && deletes == old(deletes)
    {
      inserts := inserts + [x];
    }

    /** Create an instance holding r and stage its insertion. */
    method AddNew(r: Record) returns (x: Instance)
      requires Valid()
      modifies this
      ensures Valid() && fresh(x) && x.rec == r
      ensures Live() == old(Live()) + [x]
      ensures durable == old(durable) && committed == old(committed)
      ensures inserts == old(inserts) + [x] && deletes == old(deletes)
    {
      x := new Instance(r);
      Add(x);
    }

    /** `session.delete(x)`: stage the deletion of x. An instance that was
        itself a staged insert just leaves the staged inserts; deleting an
        instance a second time changes nothing. */
    method Delete(x: Instance)
      requires Valid()
      modifies this
      ensures Valid()
      ensures Live() == Without(old(Live()), {x})
      ensures durable == old(durable) && committed == old(committed)
      ensures x in old(inserts) ==> inserts == Without(old(inserts), {x}) && deletes == old(deletes)
      ensures x !in old(inserts) ==> inserts == old(inserts)
    {
      var w := Without(durable, deletes);
      WithoutAppend(w, inserts, {x});
      if x in inserts {
        assert x !in durable;
        WithoutNothing(w, {x});
        WithoutDistinct(inserts, {x});
        inserts := Without(inserts, {x});
      } else {
        WithoutNothing(inserts, {x});
        if x in durable {
          WithoutTwice(durable, deletes, {x});
          deletes := deletes + {x};
        } else {
          WithoutNothing(w, {x});
        }
      }
    }

    /** `session.commit()`: what is live becomes durable, with the values
        the instances now hold; nothing stays staged. */
    method Commit()
      requires Valid()
      requires OfKind(Records(Live()), kind)
      modifies this
      ensures durable == old(Live()) && inserts == [] && deletes == {}
      ensures committed == Records(durable)
      ensures Live() == old(Live())
      ensures Valid()
    {
      var live := Live();
      var values := Records(live);
      assert Consistent(kind, live, values, []) by { LiveDistinct(); }
      var nothing: set<Instance> := {};
      assert Without(live, nothing) + [] == live by { WithoutNothing(live, nothing); }
      durable, committed, inserts, deletes := live, values, [], nothing;
      assert Records(durable) == values by {
        assert forall i :: 0 <= i < |live| ==> live[i].rec == values[i];
      }
    }

    /** `session.rollback()` followed by a reload: every staged operation is
        discarded and every durable instance reads its committed values again. */
    method Rollback()
      requires Valid()
      modifies this, durable
      ensures durable == old(durable) && committed == old(committed)
      ensures inserts == [] && deletes == {}
      ensures Records(durable) == committed
      ensures Live() == durable
      ensures Valid()
    {
      forall i | 0 <= i < |durable| {
        durable[i].rec := committed[i];
      }
      inserts, deletes := [], {};
      WithoutNothing(durable, deletes);
    }
  }
}
