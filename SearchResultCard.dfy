/**
  The search result card: release year, first genre, runtime text, the
  link to the movie's detail page and the poster address.
 */
module SearchResultCard {
  import opened Wrappers
  import Decimal
  import Text

  datatype Genre = Genre(id: int, name: string)

  /** The fields of a movie the card reads (the vote average is left out). */
  datatype MovieDetail = MovieDetail(
    id: nat,
    title: string,
    posterPath: string,
    releaseDate: Option<string>,
    runtime: nat,
    genres: Option<seq<Genre>>)

  /** The texts and addresses one card shows. */
  datatype Card = Card(href: string, posterUri: string, title: string, genre: string, year: string, runtime: string)

  const NotAvailable: string := "N/A"
  const MovieRoute: string := "/movie/"
  const PosterBase: string := "https://image.tmdb.org/t/p/w500/"

  /** `getYear`: a missing or empty date reads "N/A"; otherwise the first piece of `date.split('-')`. */
  function GetYear(date: Option<string>): string {
    if date.None? || date.value == "" then NotAvailable
    else Text.SplitOn(date.value, '-')[0]
  }

  /**
    For a non-empty date the year is the prefix before its first '-' (the
    whole date when it has none), and a missing or empty date reads "N/A".
   */
  lemma GetYearIsPrefixBeforeFirstDash(date: Option<string>)
    ensures date.None? || date == Some("") ==> GetYear(date) == "N/A"
    ensures date.Some? && date.value != "" ==>
      var year := GetYear(date);
      && |year| <= |date.value|
      && year == date.value[..|year|]
      && '-' !in year
      && (|year| == |date.value| || date.value[|year|] == '-')
  {
    if date.Some? && date.value != "" {
      Text.FirstPieceIsPrefixBeforeSeparator(date.value, '-');
    }
  }

  /** A date of the form `YYYY-MM-DD` (any text after the first '-') reads as its `YYYY` part. */
  lemma GetYearOfIsoDate(year: string, rest: string)
    requires '-' !in year
    ensures GetYear(Some(year + "-" + rest)) == year
  {
    Text.SplitAtSeparator(year, '-', rest);
    Text.SplitWithoutSeparator(year, '-');
  }

  /** `getFirstGenre`: the first genre's name, or "N/A" for a missing or empty list. */
  function GetFirstGenre(genres: Option<seq<Genre>>): string {
    if genres.Some? && |genres.value| > 0 then genres.value[0].name else NotAvailable
  }

  /** Only the first genre is shown; the others never affect the card. */
  lemma GetFirstGenreIgnoresRest(first: Genre, rest1: seq<Genre>, rest2: seq<Genre>)
    ensures GetFirstGenre(Some([first] + rest1)) == GetFirstGenre(Some([first] + rest2)) == first.name
    ensures GetFirstGenre(None) == GetFirstGenre(Some([])) == "N/A"
  {
  }

  /** The link target `/movie/${movie.id}`. */
  function MovieHref(id: nat): string {
    MovieRoute + Decimal.FromNat(id)
  }

  /** The link target starts with the route and the movie id can be read back from the rest. */
  lemma MovieHrefNamesTheMovie(id: nat)
    ensures MovieHref(id)[..|MovieRoute|] == MovieRoute
    ensures Decimal.AllDigits(MovieHref(id)[|MovieRoute|..])
    ensures Decimal.ToNat(MovieHref(id)[|MovieRoute|..]) == id
  {
    assert MovieHref(id)[|MovieRoute|..] == Decimal.FromNat(id);
    Decimal.ToNatFromNat(id);
  }

  /** Distinct movies link to distinct pages. */
  lemma MovieHrefInjective(id1: nat, id2: nat)
    ensures MovieHref(id1) == MovieHref(id2) ==> id1 == id2
  {
    MovieHrefNamesTheMovie(id1);
    MovieHrefNamesTheMovie(id2);
  }

  /** The poster address: the fixed `w500` base followed by `poster_path`, unaltered. */
  function PosterUri(posterPath: string): (uri: string)
    ensures |uri| == |PosterBase| + |posterPath|
    ensures uri[..|PosterBase|] == PosterBase
    ensures uri[|PosterBase|..] == posterPath
  {
    PosterBase + posterPath
  }

  const RuntimeUnit: string := " minutos"

  /**
    What the card shows for a movie: its title; the year as "N/A" or the
    dash-free prefix of the release date ending at its first '-'; the first
    genre or "N/A"; a link and a runtime text from which the id and the
    runtime read back; and a poster address ending in `poster_path`.
   */
  function Render(movie: MovieDetail): (card: Card)
    ensures card.title == movie.title
    ensures movie.releaseDate.None? || movie.releaseDate == Some("") ==> card.year == NotAvailable
    ensures movie.releaseDate.Some? && movie.releaseDate.value != "" ==>
      var date := movie.releaseDate.value;
      && |card.year| <= |date|
      && card.year == date[..|card.year|]
      && '-' !in card.year
      && (|card.year| == |date| || date[|card.year|] == '-')
    ensures movie.genres.None? || movie.genres == Some([]) ==> card.genre == NotAvailable
    ensures movie.genres.Some? && movie.genres.value != [] ==> card.genre == movie.genres.value[0].name
    ensures |card.href| > |MovieRoute| && card.href[..|MovieRoute|] == MovieRoute
    ensures Decimal.AllDigits(card.href[|MovieRoute|..]) && Decimal.ToNat(card.href[|MovieRoute|..]) == movie.id
    ensures |card.posterUri| >= |PosterBase| && card.posterUri[..|PosterBase|] == PosterBase && card.posterUri[|PosterBase|..] == movie.posterPath
    ensures |card.runtime| > |RuntimeUnit|
    ensures card.runtime[|card.runtime| - |RuntimeUnit|..] == RuntimeUnit
    ensures var digits := card.runtime[..|card.runtime| - |RuntimeUnit|];
      Decimal.AllDigits(digits) && Decimal.ToNat(digits) == movie.runtime
  {
    GetYearIsPrefixBeforeFirstDash(movie.releaseDate);
    MovieHrefNamesTheMovie(movie.id);
    var digits := Decimal.FromNat(movie.runtime);
    Decimal.ToNatFromNat(movie.runtime);
    assert (digits + RuntimeUnit)[..|digits|] == digits;
    Card(MovieHref(movie.id), PosterUri(movie.posterPath), movie.title,
         GetFirstGenre(movie.genres), GetYear(movie.releaseDate),
         digits + RuntimeUnit)
  }
}
