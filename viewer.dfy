/** The table viewer's "Delete rows" button. The view shows the table model
    through the sorting proxy, so the rows it reports as selected are
    positions in the sorted order, not positions in the table. */
module Viewer {
  import opened Store
  import opened Grid

  /** A display order of n rows: view row p shows table row order[p]. */
  predicate IsOrder(order: seq<nat>, n: nat)
  {
    && |order| == n
    && (forall p :: 0 <= p < n ==> order[p] < n)
    && (forall p, q :: 0 <= p < q < n ==> order[p] != order[q])
  }

  /** `mapToSource` of each selected view row. */
  function SourceRows(order: seq<nat>, selected: seq<nat>): (rows: seq<nat>)
    requires forall i :: 0 <= i < |selected| ==> selected[i] < |order|
    ensures |rows| == |selected|
    ensures forall i :: 0 <= i < |selected| ==> rows[i] == order[selected[i]]
  {
    if selected == [] then [] else [order[selected[0]]] + SourceRows(order, selected[1..])
  }

  /** The handler as written: the view rows are handed to the model as if
      they were table rows. */
  method DeleteSelectedAsWritten(m: TableModel, selected: seq<nat>)
    requires m.Valid()
    requires forall i :: 0 <= i < |selected| ==> selected[i] < |m.table|
    modifies m, m.session
    ensures m.Valid()
    ensures m.table == Without(old(m.table), Addressed(old(m.table), selected))
  {
    m.DeleteRows(selected);
  }

  /** With two rows shown in reverse order, selecting the first row on screen
      deletes the other one, and the selected row stays. */
  lemma AsWrittenDeletesUnselected()
    ensures IsOrder([1, 0], 2)
    ensures [10, 20][[1, 0][0]] == 20
    ensures Without([10, 20], Addressed([10, 20], [0])) == [20]
  {
    var t, rows := [10, 20], [0];
    var gone := Addressed(t, rows);
    assert t[rows[0]] == 10;
    assert 20 !in gone;
    assert t[1..] == [20] && [20][1..] == [];
    assert Without(t, gone) == Without([20], gone);
  }

  /** The handler with each view row mapped to its table row first. */
  method DeleteSelected(m: TableModel, order: seq<nat>, selected: seq<nat>)
    requires m.Valid() && IsOrder(order, |m.table|)
    requires forall i :: 0 <= i < |selected| ==> selected[i] < |m.table|
    modifies m, m.session
    ensures m.Valid()
    ensures m.table == Without(old(m.table), Addressed(old(m.table), SourceRows(order, selected)))
  {
    m.DeleteRows(SourceRows(order, selected));
  }

  /** Mapped through the order, exactly the rows selected on screen are
      deleted: each of them leaves, every other row stays. */
  lemma DeleteSelectedExactly<T>(t: seq<T>, order: seq<nat>, selected: seq<nat>)
    requires Distinct(t) && IsOrder(order, |t|)
    requires forall i :: 0 <= i < |selected| ==> selected[i] < |t|
    ensures forall i :: 0 <= i < |selected| ==>
      t[order[selected[i]]] !in Without(t, Addressed(t, SourceRows(order, selected)))
    ensures forall p :: 0 <= p < |t| && p !in selected ==>
      t[order[p]] in Without(t, Addressed(t, SourceRows(order, selected)))
  {
    var rows := SourceRows(order, selected);
    var gone := Addressed(t, rows);
    forall p | 0 <= p < |t| && p !in selected
      ensures t[order[p]] in Without(t, gone)
    {
      forall i | 0 <= i < |rows| ensures t[rows[i]] != t[order[p]] {
        assert rows[i] == order[selected[i]] && selected[i] != p;
      }
      assert t[order[p]] !in gone;
    }
  }
}
