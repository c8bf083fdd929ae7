/**
  The "Mark selected medicines as out of stock" bulk action of
  inventory/admin.py. The table is an array of records; the admin's
  selection is a set of primary keys. The action is one `UPDATE ... SET
  quantity = 0` over the selected rows: it goes through neither `save()` nor
  `auto_now`, so no field other than `quantity` changes.
*/
module Admin {
  import opened Models

  /** The table after the action: selected rows hold no stock, the rest are as they were. */
  function MarkedOutOfStock(rows: seq<Medicine>, selected: set<nat>): (r: seq<Medicine>)
    ensures |r| == |rows|
    ensures forall i :: 0 <= i < |r| ==>
              r[i].quantity == (if rows[i].id in selected then 0 else rows[i].quantity)
    ensures forall i :: 0 <= i < |r| ==> r[i].(quantity := rows[i].quantity) == rows[i]
  {
    seq(|rows|, i requires 0 <= i < |rows| =>
      if rows[i].id in selected then rows[i].(quantity := 0) else rows[i])
  }

  /** Every selected record ends with quantity 0. */
  lemma SelectedAreOutOfStock(rows: seq<Medicine>, selected: set<nat>, i: nat)
    requires i < |rows| && rows[i].id in selected
    ensures MarkedOutOfStock(rows, selected)[i].quantity == 0
  {
  }

  /** Records outside the selection are untouched. */
  lemma UnselectedAreUnchanged(rows: seq<Medicine>, selected: set<nat>, i: nat)
    requires i < |rows| && rows[i].id !in selected
    ensures MarkedOutOfStock(rows, selected)[i] == rows[i]
  {
  }

  /**
    On a selected record only the quantity changes: in particular the key,
    the expiration date and `updatedAt` keep their values.
  */
  lemma OnlyQuantityChanges(rows: seq<Medicine>, selected: set<nat>, i: nat)
    requires i < |rows|
    ensures var m, m' := rows[i], MarkedOutOfStock(rows, selected)[i];
            && m'.id == m.id && m'.name == m.name && m'.composition == m.composition
            && m'.administrationType == m.administrationType && m'.category == m.category
            && m'.countType == m.countType && m'.expirationDate == m.expirationDate
            && m'.remarks == m.remarks && m'.createdAt == m.createdAt
            && m'.updatedAt == m.updatedAt
  {
  }

  /** Nothing is added or removed: the same keys in the same rows. */
  lemma KeysPreserved(rows: seq<Medicine>, selected: set<nat>)
    ensures var r := MarkedOutOfStock(rows, selected);
            |r| == |rows| && forall i :: 0 <= i < |r| ==> r[i].id == rows[i].id
  {
  }

  /** A valid table stays valid: the action keeps every field constraint. */
  lemma PreservesValidity(rows: seq<Medicine>, selected: set<nat>)
    requires forall i :: 0 <= i < |rows| ==> Valid(rows[i])
    ensures var r := MarkedOutOfStock(rows, selected);
            forall i :: 0 <= i < |r| ==> Valid(r[i])
  {
  }

  /**
    Two successive actions are one action over the union of the selections:
    the result does not depend on how a selection is split into batches.
  */
  lemma SuccessiveActionsCompose(rows: seq<Medicine>, first: set<nat>, second: set<nat>)
    ensures MarkedOutOfStock(MarkedOutOfStock(rows, first), second)
            == MarkedOutOfStock(rows, first + second)
  {
  }

  /** Applying the action twice to the same selection is applying it once. */
  lemma Idempotent(rows: seq<Medicine>, selected: set<nat>)
    ensures MarkedOutOfStock(MarkedOutOfStock(rows, selected), selected)
            == MarkedOutOfStock(rows, selected)
  {
  }

  /**
    `make_out_of_stock`: a single parallel assignment over every selected row
    of the table, with no intermediate state.
  */
  method MakeOutOfStock(table: array<Medicine>, selected: set<nat>)
    modifies table
    ensures table[..] == MarkedOutOfStock(old(table[..]), selected)
  {
    forall i | 0 <= i < table.Length && table[i].id in selected {
      table[i] := table[i].(quantity := 0);
    }
  }
}
