/**
 * The three tables behind the Spring Data repositories, as maps keyed by
 * their ids, with the identity counters that generate new ids, and the
 * aggregate the capacity guards query (`SUM(totalCopies)`).
 */
module Repository {

  import opened Wrappers
  import opened Entity
  import Sets

  /** The catalog ceiling on the sum of totalCopies over all items. */
  const MaxTotalCopies: int := 100_000

  /** The ceiling on the number of registered users. */
  const MaxUsers: int := 2000

  /** Sum of totalCopies over the rows whose ids are in `ids`. */
  ghost function SumOver(items: map<int, ItemRow>, ids: set<int>): int
    requires ids <= items.Keys
    decreases ids
  {
    if ids == {} then 0
    else
      Sets.NonEmptyHasMember(ids);
      var k :| k in ids;
      items[k].totalCopies + SumOver(items, ids - {k})
  }

  /** Sum of totalCopies over the whole item table. */
  ghost function TotalCopies(items: map<int, ItemRow>): int {
    SumOver(items, items.Keys)
  }

  /** Every item's copy counts are within bounds. */
  ghost predicate AllCopiesValid(items: map<int, ItemRow>) {
    forall id :: id in items ==> items[id].CopiesValid()
  }

  /** The sum does not depend on which row the definition happens to pick first. */
  lemma {:induction false} SumOverRemove(items: map<int, ItemRow>, ids: set<int>, k: int)
    requires ids <= items.Keys && k in ids
    ensures SumOver(items, ids) == items[k].totalCopies + SumOver(items, ids - {k})
    decreases ids
  {
    var j :| j in ids && SumOver(items, ids) == items[j].totalCopies + SumOver(items, ids - {j});
    if j != k {
      SumOverRemove(items, ids - {j}, k);
      SumOverRemove(items, ids - {k}, j);
      assert ids - {j} - {k} == ids - {k} - {j};
    }
  }

  /** Two tables whose rows agree on totalCopies over `ids` have the same sum there. */
  lemma {:induction false} SumOverAgree(a: map<int, ItemRow>, b: map<int, ItemRow>, ids: set<int>)
    requires ids <= a.Keys && ids <= b.Keys
    requires forall k :: k in ids ==> a[k].totalCopies == b[k].totalCopies
    ensures SumOver(a, ids) == SumOver(b, ids)
    decreases ids
  {
    if ids != {} {
      Sets.NonEmptyHasMember(ids);
      var k :| k in ids;
      SumOverRemove(a, ids, k);
      SumOverRemove(b, ids, k);
      SumOverAgree(a, b, ids - {k});
    }
  }

  /**
   * Saving `row` under `id` changes the catalog sum by the difference between
   * the new row's totalCopies and the replaced row's (0 for a new id).
   */
  lemma TotalCopiesAfterSave(items: map<int, ItemRow>, id: int, row: ItemRow)
    ensures TotalCopies(items[id := row])
         == TotalCopies(items) - (if id in items then items[id].totalCopies else 0) + row.totalCopies
  {
    var saved := items[id := row];
    var rest := items.Keys - {id};
    SumOverRemove(saved, saved.Keys, id);
    assert saved.Keys - {id} == rest;
    SumOverAgree(saved, items, rest);
    if id in items {
      SumOverRemove(items, items.Keys, id);
    } else {
      assert items.Keys == rest;
    }
  }

  /** Saving a row with valid counts keeps every row's counts valid. */
  lemma AllCopiesValidAfterSave(items: map<int, ItemRow>, id: int, row: ItemRow)
    ensures AllCopiesValid(items) && row.CopiesValid() ==> AllCopiesValid(items[id := row])
  {
  }

  class Database {
    var users: map<string, User>
    var items: map<int, ItemRow>
    var reservations: map<int, Reservation>
    /** The next identity value of the item table (ids start at 1). */
    var nextItemId: int
    /** The next identity value of the reservation table (ids start at 1). */
    var nextReservationId: int

    /**
     * Users are stored under their own username, generated ids are positive
     * and below their counter, and every reservation's item exists (the
     * non-null foreign key).
     */
    ghost predicate Valid()
      reads this
    {
      && (forall name :: name in users ==> users[name].username == name)
      && 1 <= nextItemId && 1 <= nextReservationId
      && (forall id :: id in items ==> 1 <= id < nextItemId)
      && (forall id :: id in reservations ==> 1 <= id < nextReservationId)
      && (forall id :: id in reservations ==> reservations[id].itemId in items)
    }

    constructor Empty()
      ensures Valid()
      ensures users == map[] && items == map[] && reservations == map[]
      ensures nextItemId == 1 && nextReservationId == 1
    {
      users, items, reservations := map[], map[], map[];
      nextItemId, nextReservationId := 1, 1;
    }

    /** `save` of a new item entity: the table assigns it the next identity value. */
    method InsertItem(row: ItemRow) returns (id: int)
      requires Valid()
      modifies this
      ensures Valid()
      ensures id == old(nextItemId) && id !in old(items)
      ensures items == old(items)[id := row] && nextItemId == old(nextItemId) + 1
      ensures users == old(users) && reservations == old(reservations)
      ensures nextReservationId == old(nextReservationId)
      ensures TotalCopies(items) == TotalCopies(old(items)) + row.totalCopies
    {
      id := nextItemId;
      TotalCopiesAfterSave(items, id, row);
      items := items[id := row];
      nextItemId := nextItemId + 1;
    }

    /** `save` of an item entity loaded from the table: its row is overwritten. */
    method UpdateItem(id: int, row: ItemRow)
      requires Valid() && id in items
      modifies this`items
      ensures Valid()
      ensures items == old(items)[id := row]
      ensures TotalCopies(items) == TotalCopies(old(items)) - old(items)[id].totalCopies + row.totalCopies
    {
      TotalCopiesAfterSave(items, id, row);
      items := items[id := row];
    }

    /** `save` of a new reservation entity: the table assigns it the next identity value. */
    method InsertReservation(r: Reservation) returns (id: int)
      requires Valid() && r.itemId in items
      modifies this`reservations, this`nextReservationId
      ensures Valid()
      ensures id == old(nextReservationId) && id !in old(reservations)
      ensures reservations == old(reservations)[id := r]
      ensures nextReservationId == old(nextReservationId) + 1
    {
      id := nextReservationId;
      reservations := reservations[id := r];
      nextReservationId := nextReservationId + 1;
    }

    /** `delete` of a stored reservation. */
    method DeleteReservation(id: int)
      requires Valid()
      modifies this`reservations
      ensures Valid()
      ensures reservations == old(reservations) - {id}
    {
      reservations := reservations - {id};
    }

    /** `SELECT SUM(e.totalCopies) FROM Item e`, which is NULL on an empty table. */
    method SumTotalCopies() returns (s: Option<int>)
      ensures s == if items == map[] then None else Some(TotalCopies(items))
    {
      if items == map[] {
        return None;
      }
      var todo := items.Keys;
      var acc := 0;
      while todo != {}
        invariant todo <= items.Keys
        invariant acc == SumOver(items, items.Keys - todo)
        decreases todo
      {
        Sets.NonEmptyHasMember(todo);
        var k :| k in todo;
        var done := items.Keys - todo;
        SumOverRemove(items, done + {k}, k);
        assert done + {k} - {k} == done;
        acc := acc + items[k].totalCopies;
        todo := todo - {k};
        assert items.Keys - todo == done + {k};
      }
      assert items.Keys - todo == items.Keys;
      return Some(acc);
    }
  }
}
