/**
 * The persistent entities: items (with their Book and DVD variants), users
 * and reservations. `Item` is a class because its setters update copy counts
 * and status in place; users and reservations are plain records.
 */
module Entity {

  import opened JavaInt
  import opened Dates
  import opened Wrappers

  /** The variant-specific part of an item: the Book and DVD subclasses. */
  datatype Details =
    | BookDetails(publisher: string, isbn: string)
    | DvdDetails(duration: string)

  /** The discriminator value of the single item table. */
  function ItemType(d: Details): (t: string)
    ensures t == "BOOK" <==> d.BookDetails?
    ensures t == "DVD" <==> d.DvdDetails?
  {
    match d
    case BookDetails(_, _) => "BOOK"
    case DvdDetails(_) => "DVD"
  }

  /** The persisted state of one item (a row of the item table, without its id). */
  datatype ItemRow = ItemRow(
    status: bool,
    author: string,
    title: string,
    releaseDate: Option<Date>,
    genre: string,
    totalCopies: Int32,
    availableCopies: Int32,
    details: Details)
  {
    /** Copy counts within their bounds: none negative, no more free than owned. */
    predicate CopiesValid() {
      0 <= availableCopies <= totalCopies
    }

    /** Copies currently on loan, `totalCopies - availableCopies` in Java `int` arithmetic. */
    function CopiesOnLoan(): Int32 {
      Sub(totalCopies, availableCopies)
    }

    /**
     * The row as the guarded setter `setAvailableCopies(v)` leaves it: `v` is
     * stored only when it lies in [0, totalCopies]; the status is recomputed
     * from whatever count is then stored.
     */
    function WithAvailableCopies(v: Int32): (r: ItemRow)
      ensures r.status == (r.availableCopies != 0)
      ensures r.availableCopies == v || r.availableCopies == availableCopies
      ensures r.availableCopies == v <== 0 <= v <= totalCopies
      ensures r == this.(availableCopies := r.availableCopies, status := r.status)
      ensures CopiesValid() ==> r.CopiesValid()
    {
      var stored := if v <= totalCopies && v >= 0 then v else availableCopies;
      this.(availableCopies := stored, status := stored != 0)
    }
  }

  datatype User = User(
    username: string,
    email: string,
    password: string,
    firstName: string,
    lastName: string,
    address: string,
    birthday: Date,
    registrationDate: Date,
    admin: bool)

  /** A loan: the borrowing user, the borrowed item and the day it was made. */
  datatype Reservation = Reservation(username: string, itemId: int, reservationDate: Date)

  /** An item entity object, as the services load, mutate and save it. */
  class Item {
    var id: int
    var status: bool
    var author: string
    var title: string
    var releaseDate: Option<Date>
    var genre: string
    var totalCopies: Int32
    var availableCopies: Int32
    var details: Details

    /** The state the repository persists when this entity is saved. */
    function Row(): ItemRow
      reads this
    {
      ItemRow(status, author, title, releaseDate, genre, totalCopies, availableCopies, details)
    }

    /**
     * The no-argument constructor (`new Book()`, `new DVD()`): status starts
     * true and availableCopies is initialised from totalCopies while that is
     * still 0. Java's null strings are the empty string here.
     */
    constructor Blank(details: Details)
      ensures id == 0 && this.details == details
      ensures status && totalCopies == 0 && availableCopies == 0
      ensures author == "" && title == "" && genre == "" && releaseDate == None
    {
      id := 0;
      status := true;
      author, title, genre := "", "", "";
      releaseDate := None;
      totalCopies := 0;
      availableCopies := 0;
      this.details := details;
    }

    /**
     * The full constructor: it demands totalCopies >= availableCopies and
     * stores every argument as given, the status included (it is not
     * recomputed from the counts).
     */
    constructor (id: int, status: bool, availableCopies: Int32, totalCopies: Int32,
                 author: string, title: string, releaseDate: Option<Date>, genre: string,
                 details: Details)
      requires totalCopies >= availableCopies
      ensures this.id == id
      ensures Row() == ItemRow(status, author, title, releaseDate, genre, totalCopies, availableCopies, details)
    {
      this.id := id;
      this.status := status;
      this.author := author;
      this.title := title;
      this.releaseDate := releaseDate;
      this.genre := genre;
      this.totalCopies := totalCopies;
      this.availableCopies := availableCopies;
      this.details := details;
    }

    /** The entity the repository materialises from a stored row (`findById`). */
    constructor Load(id: int, row: ItemRow)
      ensures this.id == id && Row() == row
    {
      this.id := id;
      status := row.status;
      author := row.author;
      title := row.title;
      releaseDate := row.releaseDate;
      genre := row.genre;
      totalCopies := row.totalCopies;
      availableCopies := row.availableCopies;
      details := row.details;
    }

    /** The guarded setter: out-of-range values are ignored; status is always recomputed. */
    method SetAvailableCopies(v: Int32)
      modifies this`availableCopies, this`status
      ensures Row() == old(Row()).WithAvailableCopies(v)
      ensures availableCopies == (if 0 <= v <= totalCopies then v else old(availableCopies))
      ensures status == (availableCopies != 0)
      ensures old(Row().CopiesValid()) ==> Row().CopiesValid()
    {
      if v <= totalCopies && v >= 0 {
        availableCopies := v;
      }
      status := availableCopies != 0;
    }

    /** The unguarded setter: only totalCopies changes, with no check against availableCopies. */
    method SetTotalCopies(v: Int32)
      modifies this`totalCopies
      ensures totalCopies == v
      ensures Row() == old(Row()).(totalCopies := v)
    {
      totalCopies := v;
    }
  }
}
