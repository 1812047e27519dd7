/**
 * The capacity guards the Book and DVD services share: the cap on the sum
 * of totalCopies over the whole catalog, and the rule that an edited item
 * must still own at least the copies that are on loan.
 */
module Catalog {

  import opened JavaInt
  import opened Response
  import opened Entity
  import opened Repository
  import opened Wrappers

  /** `findById(id)` on the Book or DVD repository finds a row of that variant. */
  predicate IsVariant(items: map<int, ItemRow>, id: int, itemType: string) {
    id in items && ItemType(items[id].details) == itemType
  }

  /** The answer of `add` for a new item owning `totalCopies` copies. */
  ghost function AddOutcome(items: map<int, ItemRow>, totalCopies: Int32): (code: Code)
  {
    if TotalCopies(items) + totalCopies <= MaxTotalCopies then OK else MAX_ITEMS_REACHED
  }

  /**
   * The answer of `edit` on item `id` of variant `itemType` with a new
   * count: NOT_FOUND, then MAX_ITEMS_REACHED (the sum with the new count in
   * place of the old one is over the cap), then INVALID_TOTAL_COPIES (fewer
   * copies than are on loan, in Java `int` arithmetic), then OK.
   */
  ghost function EditOutcome(items: map<int, ItemRow>, id: int, itemType: string, totalCopies: Int32)
    : (code: Code)
  {
    if !IsVariant(items, id, itemType) then NOT_FOUND
    else if TotalCopies(items) - items[id].totalCopies + totalCopies > MaxTotalCopies then MAX_ITEMS_REACHED
    else if items[id].CopiesOnLoan() > totalCopies then INVALID_TOTAL_COPIES
    else OK
  }

  /**
   * Re-saving an item with valid counts under its own count is accepted
   * whenever the catalog is within the cap, even at the cap exactly: the sum
   * the guard reads still includes the item being edited.
   */
  lemma ResavingSameCountIsAccepted(items: map<int, ItemRow>, id: int, itemType: string)
    requires IsVariant(items, id, itemType) && items[id].CopiesValid()
    requires TotalCopies(items) <= MaxTotalCopies
    ensures EditOutcome(items, id, itemType, items[id].totalCopies) == OK
  {
    SubInRange(items[id].totalCopies, items[id].availableCopies);
  }

  /** An accepted add or edit leaves the catalog within the cap. */
  lemma AcceptedChangesStayWithinCap(items: map<int, ItemRow>, id: int, itemType: string,
                                     totalCopies: Int32, row: ItemRow)
    requires row.totalCopies == totalCopies
    ensures AddOutcome(items, totalCopies) == OK && id !in items ==>
              TotalCopies(items[id := row]) <= MaxTotalCopies
    ensures EditOutcome(items, id, itemType, totalCopies) == OK ==>
              TotalCopies(items[id := row]) <= MaxTotalCopies
  {
    TotalCopiesAfterSave(items, id, row);
  }

  /**
   * The counts `edit` leaves, as written: the new total is stored first and
   * the delta is then taken against it, so the setter is asked for the old
   * available count again; only the status is recomputed.
   */
  function ResizedAsWritten(row: ItemRow, totalCopies: Int32): (r: ItemRow)
    ensures r.totalCopies == totalCopies
    ensures r.availableCopies == row.availableCopies
    ensures r.status == (row.availableCopies != 0)
    ensures r == row.(totalCopies := totalCopies, status := r.status)
  {
    row.(totalCopies := totalCopies).WithAvailableCopies(Add(row.availableCopies, Sub(totalCopies, totalCopies)))
  }

  /**
   * The counts `edit` evidently means to leave: the delta between the new
   * and the old total is taken before the new total is stored.
   */
  function ResizedKeepingLoans(row: ItemRow, totalCopies: Int32): (r: ItemRow)
    ensures r.totalCopies == totalCopies
    ensures r == row.(totalCopies := totalCopies, availableCopies := r.availableCopies, status := r.status)
    ensures row.CopiesValid() && row.CopiesOnLoan() <= totalCopies ==>
              && r.CopiesValid()
              && r.CopiesOnLoan() == row.CopiesOnLoan()
              && r.availableCopies == totalCopies - row.CopiesOnLoan()
              && r.status == (r.availableCopies != 0)
  {
    LoanArithmetic(row.availableCopies, row.totalCopies, totalCopies);
    row.(totalCopies := totalCopies).WithAvailableCopies(Add(row.availableCopies, Sub(totalCopies, row.totalCopies)))
  }

  /**
   * With valid counts and a new total covering the copies on loan, none of
   * the `int` operations the resize performs wraps around.
   */
  lemma LoanArithmetic(available: Int32, total: Int32, newTotal: Int32)
    ensures 0 <= available <= total && Sub(total, available) <= newTotal ==>
              && Sub(total, available) == total - available
              && Sub(newTotal, total) == newTotal - total
              && Add(available, Sub(newTotal, total)) == newTotal - (total - available)
  {
    if 0 <= available <= total && Sub(total, available) <= newTotal {
      SubInRange(total, available);
      SubInRange(newTotal, total);
      AddInRange(available, newTotal - total);
    }
  }

  /**
   * As written, an accepted edit can leave more copies available than the
   * item owns: an item with 10 copies, none on loan, resized to 3.
   */
  lemma ResizedAsWrittenBreaksCounts()
    ensures var row := ItemRow(true, "", "", None, "", 10, 10, BookDetails("", ""));
            && row.CopiesValid() && row.CopiesOnLoan() <= 3
            && !ResizedAsWritten(row, 3).CopiesValid()
  {
    var row := ItemRow(true, "", "", None, "", 10, 10, BookDetails("", ""));
    SubInRange(10, 10);
    assert row.CopiesOnLoan() == 0;
  }

  /** Resizing with the loans kept never breaks valid counts (the corrected form of the lemma above). */
  lemma ResizedKeepingLoansKeepsCounts(row: ItemRow, totalCopies: Int32)
    requires row.CopiesValid() && row.CopiesOnLoan() <= totalCopies
    ensures ResizedKeepingLoans(row, totalCopies).CopiesValid()
  {
  }
}
