/**
 * The five DVD search filters: "no constraint" on the sentinel (the string
 * "null", an absent date), otherwise a `LIKE '%x%'` or an equality test on
 * one column. The director is the `author` column.
 */
module DvdSpecification {

  import opened Wrappers
  import opened Dates
  import opened Entity
  import opened SqlLike

  /** `titleLike`: a `LIKE` filter on the title. */
  function TitleLike(title: string, dvd: ItemRow): (accepted: bool)
    ensures title == "null" ==> accepted
    ensures title != "null" && NoWildcards(title) ==> (accepted <==> Contains(dvd.title, title))
  {
    LikeFilterMeaning(title, dvd.title);
    LikeFilter(title, dvd.title)
  }

  /** `directorLike`: a `LIKE` filter on the `author` column, where the director is stored. */
  function DirectorLike(director: string, dvd: ItemRow): (accepted: bool)
    ensures director == "null" ==> accepted
    ensures director != "null" && NoWildcards(director) ==> (accepted <==> Contains(dvd.author, director))
  {
    LikeFilterMeaning(director, dvd.author);
    LikeFilter(director, dvd.author)
  }

  /** `genreEquals`: exact equality with the stored genre. */
  function GenreEquals(genre: string, dvd: ItemRow): (accepted: bool)
    ensures genre == "null" ==> accepted
    ensures genre != "null" ==> (accepted <==> dvd.genre == genre)
  {
    genre == "null" || dvd.genre == genre
  }

  /** `releaseDateEquals`: an absent date accepts every DVD, a present one only that release day. */
  function ReleaseDateEquals(releaseDate: Option<Date>, dvd: ItemRow): (accepted: bool)
    ensures releaseDate == None ==> accepted
    ensures releaseDate != None ==> (accepted <==> dvd.releaseDate == releaseDate)
  {
    releaseDate.None? || dvd.releaseDate == releaseDate
  }

  /** `statusEquals`: "0" selects the unavailable DVDs, any other value but "null" the available ones. */
  function StatusEquals(status: string, dvd: ItemRow): (accepted: bool)
    ensures status == "null" ==> accepted
    ensures status == "0" ==> (accepted <==> !dvd.status)
    ensures status != "null" && status != "0" ==> (accepted <==> dvd.status)
  {
    if status == "null" then true
    else if status == "0" then !dvd.status
    else dvd.status
  }

  /**
   * On a row whose status agrees with its count (as the guarded setter
   * leaves it), "0" selects exactly the DVDs with no copy available.
   */
  lemma StatusFilterMeansAvailability(status: string, dvd: ItemRow)
    requires dvd.status == (dvd.availableCopies != 0)
    ensures status == "0" ==> (StatusEquals(status, dvd) <==> dvd.availableCopies == 0)
    ensures status != "null" && status != "0" ==> (StatusEquals(status, dvd) <==> dvd.availableCopies != 0)
  {
  }
}
