/**
 * The seven book search filters. Each is "no constraint" on its sentinel
 * (the string "null", an absent date) and otherwise a `LIKE '%x%'` or an
 * equality test on one column of the book.
 *
 * As written, the publisher and isbn filters both test the `author`
 * column; `PublisherLike` and `IsbnLike` are the filters on the columns
 * their names and parameters refer to.
 */
module BookSpecification {

  import opened Wrappers
  import opened Dates
  import opened Entity
  import opened SqlLike
  import opened Text

  /** `titleLike`: a `LIKE` filter on the title. */
  function TitleLike(title: string, book: ItemRow): (accepted: bool)
    ensures title == "null" ==> accepted
    ensures title != "null" && NoWildcards(title) ==> (accepted <==> Contains(book.title, title))
  {
    LikeFilterMeaning(title, book.title);
    LikeFilter(title, book.title)
  }

  /** `authorLike`: a `LIKE` filter on the author. */
  function AuthorLike(author: string, book: ItemRow): (accepted: bool)
    ensures author == "null" ==> accepted
    ensures author != "null" && NoWildcards(author) ==> (accepted <==> Contains(book.author, author))
  {
    LikeFilterMeaning(author, book.author);
    LikeFilter(author, book.author)
  }

  /** `publisherLike` as written: the argument is matched against the author. */
  function PublisherLikeAsWritten(publisher: string, book: ItemRow): (accepted: bool)
    ensures publisher == "null" ==> accepted
    ensures publisher != "null" && NoWildcards(publisher) ==> (accepted <==> Contains(book.author, publisher))
  {
    LikeFilterMeaning(publisher, book.author);
    LikeFilter(publisher, book.author)
  }

  /** `isbnLike` as written: the argument is matched against the author. */
  function IsbnLikeAsWritten(isbn: string, book: ItemRow): (accepted: bool)
    ensures isbn == "null" ==> accepted
    ensures isbn != "null" && NoWildcards(isbn) ==> (accepted <==> Contains(book.author, isbn))
  {
    LikeFilterMeaning(isbn, book.author);
    LikeFilter(isbn, book.author)
  }

  /** `publisherLike` as evidently intended: a `LIKE` filter on the publisher. */
  function PublisherLike(publisher: string, book: ItemRow): (accepted: bool)
    requires book.details.BookDetails?
    ensures publisher == "null" ==> accepted
    ensures publisher != "null" && NoWildcards(publisher) ==>
              (accepted <==> Contains(book.details.publisher, publisher))
  {
    LikeFilterMeaning(publisher, book.details.publisher);
    LikeFilter(publisher, book.details.publisher)
  }

  /** `isbnLike` as evidently intended: a `LIKE` filter on the isbn. */
  function IsbnLike(isbn: string, book: ItemRow): (accepted: bool)
    requires book.details.BookDetails?
    ensures isbn == "null" ==> accepted
    ensures isbn != "null" && NoWildcards(isbn) ==> (accepted <==> Contains(book.details.isbn, isbn))
  {
    LikeFilterMeaning(isbn, book.details.isbn);
    LikeFilter(isbn, book.details.isbn)
  }

  /** `genreEquals`: exact equality with the stored genre. */
  function GenreEquals(genre: string, book: ItemRow): (accepted: bool)
    ensures genre == "null" ==> accepted
    ensures genre != "null" ==> (accepted <==> book.genre == genre)
  {
    genre == "null" || book.genre == genre
  }

  /** `releaseDateEquals`: an absent date accepts every book, a present one only that release day. */
  function ReleaseDateEquals(releaseDate: Option<Date>, book: ItemRow): (accepted: bool)
    ensures releaseDate == None ==> accepted
    ensures releaseDate != None ==> (accepted <==> book.releaseDate == releaseDate)
  {
    releaseDate.None? || book.releaseDate == releaseDate
  }

  /** `statusEquals`: "0" selects the unavailable books, any other value but "null" the available ones. */
  function StatusEquals(status: string, book: ItemRow): (accepted: bool)
    ensures status == "null" ==> accepted
    ensures status == "0" ==> (accepted <==> !book.status)
    ensures status != "null" && status != "0" ==> (accepted <==> book.status)
  {
    if status == "null" then true
    else if status == "0" then !book.status
    else book.status
  }

  /**
   * The stored genre is upper-cased, so a genre filter other than the
   * sentinel that holds a lower-case ASCII letter selects no book whose
   * genre `add` or `edit` stored.
   */
  lemma LowerCaseGenreSelectsNothing(genre: string, given: string, book: ItemRow, i: int)
    requires book.genre == ToUpperAscii(given)
    requires genre != "null" && 0 <= i < |genre| && IsLowerAscii(genre[i])
    ensures !GenreEquals(genre, book)
  {
  }

  /**
   * The discrepancy on concrete input: a book by "Camus" published by
   * "Gallimard" is not found by the publisher filter "Gallimard" as
   * written, and is found by the intended one; the author filter "Camus"
   * passed as a publisher finds it.
   */
  lemma PublisherFilterReadsAuthor()
    ensures var book := ItemRow(true, "Camus", "Caligula", None, "THEATRE", 1, 1, BookDetails("Gallimard", "9782070360642"));
            && !PublisherLikeAsWritten("Gallimard", book)
            && PublisherLike("Gallimard", book)
            && PublisherLikeAsWritten("Camus", book)
            && !PublisherLike("Camus", book)
  {
    assert NoWildcards("Gallimard");
    assert NoWildcards("Camus");
    assert OccursAt("Gallimard", "Gallimard", 0);
    assert OccursAt("Camus", "Camus", 0);
    assert !Contains("Camus", "Gallimard");
    assert !Contains("Gallimard", "Camus") by {
      forall k | 0 <= k <= |"Gallimard"| - 5 ensures !OccursAt("Gallimard", "Camus", k) {
        assert "Gallimard"[k] != 'C';
      }
    }
  }
}
