# Favorites and recommendations: a verified model

This project models the state logic of a small browser application. The application keeps a list of
favorite music items: songs ("music"), albums ("album") and artists ("artist"). It recommends songs from
a fixed catalog, based on a keyword guess of each favorite's genre. All of it lives in `script.js`.
The model covers the following parts of that file:

- **The store.** Two pieces of state: the ordered list `favorites`, and `currentType`, the category of the
  last clicked category button. Four operations change them:
  - start-up loading of the persisted list;
  - form submission, which trims both fields, rejects an empty name, rejects an empty artist for a
    non-artist category, rejects a case-insensitive duplicate, and otherwise appends a record;
  - removal with `splice(index, 1)`;
  - the category click.
- **The category label** shown for each tag.
- **The genre classifier `detectGenre`.** It searches the lowercased `name + " " + artist` for the keywords
  of rock, pop, jazz and "eletronic" (the application's own spelling), in that priority order. When no
  keyword matches, it falls back to rock.
- **The catalog `musicDatabase`:** three candidate songs per genre.
- **The engine `generateRecommendations`.** It walks the favorites in order, and for each one walks the
  catalog bucket of its genre. A candidate is emitted unless one of these holds:
  - its `name-artist` key was already used;
  - six items are already out;
  - the user already has it as a favorite: same name and same artist, ignoring case, with a missing
    artist read as "".

  Each emitted candidate carries the reason "Baseado em seu gosto por <favorite name>".

Modules:

- `Text`: `trim`, `toLowerCase`, `includes` and `some`.
- `Genre`: the classifier.
- `Catalog`: the table.
- `Favorites`: records, the submission checks, labels, and the `Store` class holding the mutable state.
- `Recommendations`: the engine.

Each `forEach` loop of the engine is a method: `GenerateRecommendations` holds the outer one and
`OfferBucket` the inner one. The `some` scans are the recursive function `Text.Any`. Each method is proved equal to a recursive specification function
(`Recommend`, `ScanBucket`), and the properties of the recommendations are proved about that function.
The engine is stated for any lookup `buckets` from a favorite to its candidates. The application's
lookup, `GenreBucket`, reads `musicDatabase[detectGenre(name, artist || name)]`, and
`GenerateRecommendations` uses exactly that one.

"Take Five" by Dave Brubeck is a jazz entry of the catalog. Its search text "take five dave brubeck"
contains no keyword of any list, so `detectGenre` files it under the rock fallback
(`Genre.TakeFiveFallsBack`).

## Model

| member | source | states |
|---|---|---|
| Text.Trim | script.js:162-163 | the trimmed field starts and ends with non-white-space, occurs in the raw input, and is empty exactly when the input is all white space |
| Text.TrimDropsOnlyEnds | script.js:162-163 | the trimmed field is a slice `s[a..b]` of the raw input, and everything before `a` and from `b` on is white space: only the two ends are removed |
| Text.LowerFolds | script.js:178 | lowercasing keeps the length, turns each ASCII capital into its own small letter, keeps every other character, and is idempotent |
| Text.LowerMatches | script.js:178 | two strings compare equal after lowercasing exactly when they have the same length and agree character by character up to the case of ASCII letters |
| Text.IncludesIsContains | script.js:377 | `includes` answers true exactly when the keyword occurs at some position of the text |
| Text.AnyIsExists | script.js:176-182 | `some` answers true exactly when some element satisfies the callback |
| Genre.DetectGenre | script.js:348-387 | the result is always one of "rock", "pop", "jazz", "eletronic" |
| Genre.DetectGenreFirstMatch | script.js:375-386 | the genre is the first of rock, pop, jazz, electronic with a keyword in the lowercased "name artist" text; rock also when no list has one (both directions of each case) |
| Genre.DaftPunkIsRock | script.js:352 | any text containing the electronic keyword "daft punk" is classified as rock, because the rock keyword "punk" is tried first |
| Genre.TakeFiveFallsBack | script.js:348-387 | "Take Five" by Dave Brubeck hits no pop, jazz or electronic keyword and is classified as rock |
| Catalog.BucketOfDetectedGenre | script.js:236-273 | every genre the classifier can return is a key of the table, with exactly three candidates, so the `\|\| []` fallback is never used |
| Favorites.Admit | script.js:165-187 | the verdict is MissingName iff the name is empty; MissingArtist iff the name is present, the category is not "artist" and the artist is empty; AlreadyFavorite iff both checks pass and some stored item has the same name and category and, outside "artist", the same artist, ignoring case; Accepted iff no stored item does |
| Favorites.AdmitKeepsConsistent | script.js:176-200 | appending an accepted submission keeps every record well formed and the list free of duplicates; the new record has an artist exactly when the category is not "artist" |
| Favorites.RemoveKeepsConsistent | script.js:72 | taking one record out keeps the list well formed and free of duplicates |
| Favorites.ResubmitIsDuplicate | script.js:190-198 | the record built from an accepted submission matches its own fields, so submitting the same fields again is rejected as a duplicate |
| Favorites.StoredArtistPresent | script.js:179-181 | in a list kept consistent, every record the duplicate check compares by artist has one, so `item.artist.toLowerCase()` never reads a missing artist |
| Favorites.SpliceStart | script.js:72 | the position `splice` starts at: the index itself when it lies in 0..length, length plus the index for a negative index down to minus the length, 0 below that, the length above it |
| Favorites.CategoryLabel | script.js:80-87 | "music", "album" and "artist" show as "Música", "Álbum" and "Artista"; any other tag shows as itself |
| Favorites.Store.constructor | script.js:2-3 | the application starts with no favorites and an empty current category |
| Favorites.Store.ChooseCategory | script.js:94 | a category click sets the current category and leaves the list alone |
| Favorites.Store.Load | script.js:6-21 | an absent slot keeps the list, unparseable content empties it, a parsed list replaces it |
| Favorites.Store.Submit | script.js:162-200 | the verdict is that of the checks on the trimmed fields; on acceptance exactly the new record is appended at the end, otherwise nothing changes; the store invariant is kept |
| Favorites.Store.Remove | script.js:72 | `splice(index, 1)`: a valid index removes exactly that record and keeps the order of the rest; an index past the end changes nothing; a negative index counts from the end, clamped at 0; the store invariant is kept |
| Recommendations.KeyIdentifies | script.js:324-325 | when neither name contains '-', two suggestions have the same key exactly when their names and artists agree |
| Recommendations.KeyIsAmbiguous | script.js:324-325 | two different suggestions ("a-b" by "c" and "a" by "b-c") share a key, so the used-key test can treat distinct songs as one |
| Recommendations.GenreArtistOfRecord | script.js:320 | for a record added through the form, the classifier gets the name twice for an artist and the name and artist otherwise |
| Recommendations.IsAlreadyFavorite | script.js:327-331 | true exactly when some favorite has the candidate's name and artist, ignoring case, with a missing artist read as "" |
| Recommendations.RecommendSound | script.js:314-345 | at most six recommendations, no two share a `name-artist` key, none is already a favorite, and no favorites give no recommendations |
| Recommendations.RecommendFromStep | script.js:319-342 | handling one more favorite only appends to the list built so far, and what it appends is drawn in catalog order from that favorite's bucket |
| Recommendations.RecommendOrigin | script.js:319-338 | every recommendation is a candidate of some favorite's bucket, with that favorite named in its reason |
| Recommendations.RecommendComplete | script.js:323-341 | when fewer than six come out, every candidate of every favorite's bucket was either already a favorite or has its key among the recommendations |
| Recommendations.OfferBucket | script.js:323-341 | the inner loop computes the specified scan of the bucket, and the used-key set stays the set of keys emitted |
| Recommendations.GenerateRecommendations | script.js:314-345 | the loop computes `Recommend` over the application's genre lookup, so its result has at most six items, distinct keys, no favorite, and is empty for no favorites |
| Recommendations.RecommendForBohemianRhapsody | script.js:236-249 | a single favorite "Bohemian Rhapsody" by Queen yields exactly "Stairway to Heaven" and "Hotel California", each with the reason naming that favorite |
| Recommendations.BohemianRhapsodyIsRock | script.js:354 | "Bohemian Rhapsody" by Queen is classified as rock, through the keyword "queen" |

## Left out

- Rendering is left out: the favorites grid, the empty state, the recommendation cards and the modal are DOM output.
- Persistence is left out. Reading the `localStorage` slot and `JSON.parse` are outside the model; their outcome is the `Stored` value handed to `Load`. Writing the slot back (`saveFavorites`) is a side effect with no state of its own here.
- `confirm` before a removal, `alert` on a rejected submission and `showNotification` with its timers are user interaction. `Remove` models the confirmed path. A rejected submission is reported by its `Verdict`.
- `new Date().toISOString()` is a clock read. The caller passes the timestamp as `dateAdded`.
- Text.Trim: only ASCII white space and line terminators are trimmed, not every Unicode space character that `trim` removes.
- Text.Lower: only ASCII letters are lowercased, not the full Unicode case mapping of `toLowerCase`.
- Favorites.Admit: the model reads a missing artist as "". In the source, a stored record without an artist makes the duplicate check throw only in one case: the submission's category is not "artist", that record has the submitted name (ignoring case) and the submitted category, and no earlier record has already matched. The `&&` chain stops before reading the artist otherwise, and `some` stops at the first match. Records added through the form always carry an artist outside the "artist" category (`Favorites.AdmitKeepsConsistent`, `Favorites.StoredArtistPresent`), so only a hand-edited stored list can reach that case.
- Favorites.CategoryLabel: tags that name inherited object properties (such as "constructor") would look up the prototype in the source. The model shows them as themselves.
- Favorites.Store.Load: a parsed value that is not a list of records is not modelled.
