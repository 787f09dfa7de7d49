# FilmesApp view logic in Dafny

FilmesApp is a React Native movie-discovery client over a public movie
catalog. Almost all of it is presentation; this project models the pieces
of component logic that decide what is shown:

- **Rating filter modal** (`src/components/RatingFilterModal.tsx`): the
  working selection of age ratings (`tempSelected`), the dirty flag
  (`isDirty`) kept against the applied selection owned by the parent
  screen (`selectedRatings`), toggling a rating, the reset when the modal is
  shown, and the single footer button that either applies the working
  selection or clears the filter. The modal is the class
  `RatingFilter.RatingFilterModal` with those two fields; the React effect
  is the method `SyncOnShow`, and the `onApply`/`onClose` callbacks are the
  event list `HandleApplyOrClear` returns. The order-insensitive comparison
  `areArraysEqual` (sort both copies, compare position by position) is
  modelled as written, with JavaScript's default string sort as insertion
  sort under lexicographic character order (module `StringSort`), and is
  proved to be exactly multiset equality. The invariant of the modal is
  `Valid(selectedRatings)`: the dirty flag is set exactly when the working
  selection differs from the applied one as a multiset.
- **Search result card** (`src/components/SearchResultCard.tsx`): the
  release year (`getYear`, the text before the first `-` of the date, via
  a model of `String.prototype.split` in module `Text`), the first genre,
  the detail-page link `/movie/<id>` (decimal rendering in module
  `Decimal`), the poster address and the runtime text.
- **Crew section** (`src/components/CrewSection.tsx`): the three-entry job
  translation table with pass-through, the empty-crew guard, and one row per
  member with the key `<name>-<index>`, proved distinct for distinct
  positions.
- **Watch providers** (`src/components/WatchProviders.tsx`): the
  availability check on the `BR` entry, the rule that a section shows only a
  present, non-empty list, the fixed section order Streaming, Alugar,
  Comprar, and one logo per provider. The check at line 44 tests only
  whether a list is present, and an empty JavaScript array is truthy, so an
  entry whose present lists are all empty renders an empty container rather
  than the unavailable message; the model keeps this behaviour
  (`AllListsEmptyRendersEmptyContainer`).

JavaScript's optional values (`undefined`/`null`) are `Wrappers.Option`.
Every module is a plain set of datatypes, functions and lemmas except the
modal, whose state the source updates in place.

## Model

| member | source | states |
|---|---|---|
| `RatingFilter.ArraysEqualIffSameMultiset` | src/components/RatingFilterModal.tsx:13-17 | `areArraysEqual` holds exactly when both lists hold the same ratings with the same multiplicities, in any order; lists of different lengths never compare equal |
| `RatingFilter.ArraysEqualIsEquivalence` | src/components/RatingFilterModal.tsx:13-17 | the comparison is reflexive, symmetric and transitive |
| `StringSort.SortIsSortedPermutation` | src/components/RatingFilterModal.tsx:15-16 | the sorted copy is in ascending lexicographic order and a permutation of the original |
| `StringSort.SortedUnique` | src/components/RatingFilterModal.tsx:15-17 | two ordered lists with the same multiset are identical, so comparing sorted copies position by position decides multiset equality whatever sorting algorithm is used |
| `RatingFilter.RemoveAll` | src/components/RatingFilterModal.tsx:39 | the filter drops every occurrence of the rating and keeps the multiplicity of every other rating |
| `RatingFilter.ToggleEffect` | src/components/RatingFilterModal.tsx:37-40 | a present rating loses every occurrence, an absent one is appended at the end, membership of the rating flips, other ratings keep their multiplicities, and with the rating filtered out the old and new selections are the same sequence (relative order kept) |
| `RatingFilter.ToggleKeepsNoDuplicates` | src/components/RatingFilterModal.tsx:37-40 | a selection without repeated ratings stays without them |
| `RatingFilter.ToggleTwice` | src/components/RatingFilterModal.tsx:37-40 | toggling an absent rating twice restores the selection exactly; on a duplicate-free selection toggling twice gives a selection that compares equal |
| `RatingFilter.ToggleTwiceRestoresDirtyFlag` | src/components/RatingFilterModal.tsx:37-43 | with the dirty flag in step with the selections and a duplicate-free working selection, the flag recomputed after toggling the same rating twice equals its earlier value |
| `RatingFilter.RatingFilterModal.constructor` | src/components/RatingFilterModal.tsx:27-28 | the modal starts from the applied selection, not dirty, with the invariant holding |
| `RatingFilter.RatingFilterModal.SyncOnShow` | src/components/RatingFilterModal.tsx:30-35 | when visible, the working selection becomes the applied one and the dirty flag is cleared, establishing the invariant; when hidden, nothing changes |
| `RatingFilter.RatingFilterModal.ToggleRating` | src/components/RatingFilterModal.tsx:37-44 | the working selection becomes its toggle, the row's checkbox flips, and the dirty flag is recomputed so that the invariant holds afterwards |
| `RatingFilter.RatingFilterModal.HandleApplyOrClear` | src/components/RatingFilterModal.tsx:46-53 | `onApply` fires once with the empty list (not dirty, non-empty applied selection) or the working selection, then `onClose` always fires; under the invariant what is applied differs from the applied selection unless both selections are empty |
| `RatingFilter.ApplyOrClearChangesFilter` | src/components/RatingFilterModal.tsx:43-53 | under the invariant the button clears exactly when the working selection matches a non-empty applied one, and the list handed to `onApply` equals the applied selection as a multiset only when both are empty |
| `RatingFilter.ButtonTextMatchesAction` | src/components/RatingFilterModal.tsx:46-55 | the button reads "Limpar Filtro" exactly when pressing it clears the filter and "Aplicar Filtros" exactly when it applies the working selection |
| `RatingFilter.AgeLabelParts` | src/components/RatingFilterModal.tsx:85 | any rating `r` other than `L` reads as `r` followed by " anos" |
| `RatingFilter.RatingLabelInjective` | src/components/RatingFilterModal.tsx:85 | `L` reads "Livre", and distinct ratings get distinct row texts |
| `Text.FirstPieceIsPrefixBeforeSeparator` | src/components/SearchResultCard.tsx:21 | the first piece of a split is the prefix before the first separator |
| `Text.JoinSplit` | src/components/SearchResultCard.tsx:21 | joining the pieces of a split with the separator gives back the string |
| `SearchResultCard.GetYearIsPrefixBeforeFirstDash` | src/components/SearchResultCard.tsx:21 | a missing or empty date reads "N/A"; otherwise the year is a prefix of the date with no `-`, ending at the first `-` or at the end of the date |
| `SearchResultCard.GetYearOfIsoDate` | src/components/SearchResultCard.tsx:21 | a date `YYYY-MM-DD` reads `YYYY` |
| `SearchResultCard.GetFirstGenreIgnoresRest` | src/components/SearchResultCard.tsx:22 | a missing or empty genre list reads "N/A"; otherwise the first genre's name is shown whatever follows it |
| `Decimal.ToNatFromNat` | src/components/SearchResultCard.tsx:25 | the decimal text of a number reads back as that number |
| `SearchResultCard.MovieHrefNamesTheMovie` | src/components/SearchResultCard.tsx:25 | the link is `/movie/` followed by digits that read back as the movie id |
| `SearchResultCard.MovieHrefInjective` | src/components/SearchResultCard.tsx:25 | distinct movies link to distinct pages |
| `SearchResultCard.PosterUri` | src/components/SearchResultCard.tsx:28 | the poster address is the `w500` base followed by the unaltered `poster_path` |
| `SearchResultCard.Render` | src/components/SearchResultCard.tsx:25-47 | the card shows the title; the year as "N/A" for a missing or empty date, else the dash-free prefix of the date ending at its first `-`; the first genre or "N/A"; a link `/movie/` whose digits read back as the id; a poster address ending in `poster_path`; and a runtime text of digits that read back as the runtime followed by " minutos" |
| `CrewSection.TranslateJobTable` | src/components/CrewSection.tsx:14-32 | Director, Screenplay and Writer show as Diretor, Argumentista and Escritor; any other job shows unchanged; translating is idempotent |
| `CrewSection.RowsFrom` | src/components/CrewSection.tsx:29-33 | one row per member, in input order, with the name unchanged, the translated job and the key built from the member's position |
| `CrewSection.Render` | src/components/CrewSection.tsx:22-35 | a missing or empty crew renders nothing; otherwise the section has the title and exactly one row per member as above |
| `CrewSection.RowKeyEndsWithIndex` | src/components/CrewSection.tsx:30 | the text after the last `-` of a row key is the decimal index, holds no `-`, and reads back as the index, whatever dashes the name holds |
| `CrewSection.RowKeysDistinct` | src/components/CrewSection.tsx:30 | keys of rows at distinct positions differ |
| `CrewSection.RenderedKeysDistinct` | src/components/CrewSection.tsx:29-30 | the keys of a rendered section are pairwise distinct |
| `WatchProviders.Logos` | src/components/WatchProviders.tsx:29-35 | one logo per provider, in list order, keyed by the provider name, at the `w200` base followed by `logo_path` |
| `WatchProviders.RenderSection` | src/components/WatchProviders.tsx:22-39 | a section renders exactly when its list is present and non-empty, with its title and its list's logos |
| `WatchProviders.UnavailableIff` | src/components/WatchProviders.tsx:42-57 | the unavailable message shows exactly when there is no `BR` entry or it has none of `flatrate`, `rent`, `buy`; otherwise the container holds the entry's sections |
| `WatchProviders.SectionShownIff` | src/components/WatchProviders.tsx:23-56 | each of Streaming, Alugar and Comprar appears exactly when its list is present and non-empty |
| `WatchProviders.SectionsInFixedOrder` | src/components/WatchProviders.tsx:52-57 | sections come in the order Streaming, Alugar, Comprar, none is empty, and each shows its own list's logos |
| `WatchProviders.AllListsEmptyRendersEmptyContainer` | src/components/WatchProviders.tsx:44-57 | an entry whose present lists are all empty passes the check and renders a container with no sections |

## Left out

- Rendering and styling: `Modal`, `ScrollView`, `FlatList`, `Image`, `Link`, icons, colours and `StyleSheet` blocks; the model stops at the texts, keys and addresses a component would show.
- React scheduling: state setters are applied together as one step of a method, and the effect at src/components/RatingFilterModal.tsx:30-35 is an explicit call `SyncOnShow(isVisible, selectedRatings)`; when it runs is up to the caller.
- The applied selection belongs to the parent screen; the modal's methods receive it as a parameter, and the invariant is stated relative to the value passed.
- String order: the model orders strings by Unicode code point where JavaScript orders by UTF-16 code unit; the two differ only for characters outside the Basic Multilingual Plane, and the result of the comparison does not depend on the order used (it is multiset equality either way).
- The sorting algorithm of the JavaScript engine is not modelled; insertion sort stands in for it, which `StringSort.SortedUnique` shows gives the same sorted copy.
- `vote_average.toFixed(1)` at src/components/SearchResultCard.tsx:35: floating-point formatting.
- Movie ids and runtimes are non-negative integers below 10^21 (JavaScript renders larger numbers in exponent notation, and numbers above 2^53 inexactly); JavaScript's rendering of negative, fractional or such large numbers is not modelled.
- A genre entry without a `name`, or a provider without `logo_path` (JavaScript would show `undefined`), is not modelled; the datatypes require the fields.
- Prototype-chain lookups on `jobTranslations` (a job named `toString`): the table is a three-entry map.
- Duplicate `provider_name` keys within one provider list (a React key collision) are not checked; the key values are modelled.
- `formatCurrency` in src/components/FinancialInfo.tsx: a wrapper over `Intl.NumberFormat` on floating-point amounts.
- src/services/api.js and src/services/firebaseConfig.js: configuration of the external catalog client and of authentication/storage.
- app/index.tsx, app/_layout.tsx, app/_splash.tsx and the other screens: timers, navigation and rendering.
- SearchBar, CategoryMenu, CastList, TrendingMovies, MovieGrid, GenreCard and EmptyState: input and callback plumbing or pure rendering.
- The paginated, deduplicating discovery list and its debounced search are not part of this model: the screen that implements them is not among the source files modelled, and the debounce is timer-driven.
