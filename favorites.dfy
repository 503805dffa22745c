/** The favorites store: the ordered list of saved items, the validation and
    duplicate check that guard an addition, the append itself, removal by
    position, and the category labels shown to the user. */
module Favorites {
  import opened Text

  datatype Option<T> = None | Some(value: T)

  /** A saved item. `kind` is the category tag ("music", "album", "artist");
      `artist` is absent for artist items; `dateAdded` is the timestamp the
      caller supplies. */
  datatype Favorite = Favorite(name: string, kind: string, artist: Option<string>, dateAdded: string)

  const ArtistKind := "artist"

  /** `fav.artist || ""`. */
  function ArtistOrEmpty(f: Favorite): string {
    if f.artist.Some? then f.artist.value else ""
  }

  /** The duplicate test applied to each stored item: same name ignoring
      case, same category, and, unless the category is "artist", the same
      artist ignoring case. */
  predicate SameEntry(item: Favorite, kind: string, name: string, artist: string) {
    Lower(item.name) == Lower(name) && item.kind == kind &&
    (kind == ArtistKind || Lower(ArtistOrEmpty(item)) == Lower(artist))
  }

  function SameEntryAs(kind: string, name: string, artist: string): Favorite -> bool {
    item => SameEntry(item, kind, name, artist)
  }

  /** What the form submission decides, in the order the checks are made. */
  datatype Verdict = Accepted | MissingName | MissingArtist | AlreadyFavorite

  /** The checks made on the trimmed `name` and `artist` before an item of
      category `kind` is added to `favorites`. */
  function Admit(favorites: seq<Favorite>, kind: string, name: string, artist: string): (v: Verdict)
    ensures v == MissingName <==> name == ""
    ensures v == MissingArtist <==> name != "" && kind != ArtistKind && artist == ""
    ensures v == AlreadyFavorite <==>
      name != "" && (kind == ArtistKind || artist != "") &&
      exists i :: 0 <= i < |favorites| && SameEntry(favorites[i], kind, name, artist)
    ensures v == Accepted <==>
      name != "" && (kind == ArtistKind || artist != "") &&
      forall i :: 0 <= i < |favorites| ==> !SameEntry(favorites[i], kind, name, artist)
  {
    if name == "" then MissingName
    else if kind != ArtistKind && artist == "" then MissingArtist
    else
      AnyIsExists(favorites, SameEntryAs(kind, name, artist));
      if Any(favorites, SameEntryAs(kind, name, artist)) then AlreadyFavorite else Accepted
  }

  /** The record appended on success; only non-artist items carry an artist. */
  function NewFavorite(kind: string, name: string, artist: string, dateAdded: string): Favorite {
    Favorite(name, kind, if kind == ArtistKind then None else Some(artist), dateAdded)
  }

  /** The shape every record added through the form has. */
  predicate WellFormed(f: Favorite) {
    f.name != "" && Trimmed(f.name) &&
    if f.kind == ArtistKind then f.artist.None?
    else f.artist.Some? && f.artist.value != "" && Trimmed(f.artist.value)
  }

  /** No item is a duplicate, in the sense of the form's check, of an
      earlier one. */
  predicate NoDuplicates(favorites: seq<Favorite>) {
    forall i, j :: 0 <= i < j < |favorites| ==>
      !SameEntry(favorites[i], favorites[j].kind, favorites[j].name, ArtistOrEmpty(favorites[j]))
  }

  /** The store invariant: every record well formed, no duplicates. */
  predicate Consistent(favorites: seq<Favorite>) {
    (forall i :: 0 <= i < |favorites| ==> WellFormed(favorites[i])) && NoDuplicates(favorites)
  }

  /** Appending a well-formed record that duplicates nothing already there
      keeps the list consistent. */
  lemma AppendKeepsConsistent(favorites: seq<Favorite>, f: Favorite)
    requires Consistent(favorites) && WellFormed(f)
    requires forall i :: 0 <= i < |favorites| ==> !SameEntry(favorites[i], f.kind, f.name, ArtistOrEmpty(f))
    ensures Consistent(favorites + [f])
  {
    var s := favorites + [f];
    forall i, j | 0 <= i < j < |s|
      ensures !SameEntry(s[i], s[j].kind, s[j].name, ArtistOrEmpty(s[j]))
    {
      if j == |favorites| {
        assert s[i] == favorites[i] && s[j] == f;
      } else {
        assert s[i] == favorites[i] && s[j] == favorites[j];
      }
    }
  }

  /** An accepted submission keeps the list consistent and appends a
      record whose artist is present exactly for non-artist categories. */
  lemma AdmitKeepsConsistent(favorites: seq<Favorite>, kind: string, rawName: string, rawArtist: string, dateAdded: string)
    requires Consistent(favorites)
    requires Admit(favorites, kind, Trim(rawName), Trim(rawArtist)) == Accepted
    ensures var f := NewFavorite(kind, Trim(rawName), Trim(rawArtist), dateAdded);
      Consistent(favorites + [f]) && (f.artist.Some? <==> kind != ArtistKind)
  {
    var name, artist := Trim(rawName), Trim(rawArtist);
    var f := NewFavorite(kind, name, artist, dateAdded);
    assert WellFormed(f);
    forall i | 0 <= i < |favorites|
      ensures !SameEntry(favorites[i], f.kind, f.name, ArtistOrEmpty(f))
    {
      assert !SameEntry(favorites[i], kind, name, artist);
    }
    AppendKeepsConsistent(favorites, f);
  }

  /** Submitting the same fields again right after an accepted submission
      is rejected as a duplicate: the new record matches its own fields. */
  lemma ResubmitIsDuplicate(favorites: seq<Favorite>, kind: string, name: string, artist: string, dateAdded: string)
    requires Admit(favorites, kind, name, artist) == Accepted
    ensures Admit(favorites + [NewFavorite(kind, name, artist, dateAdded)], kind, name, artist) == AlreadyFavorite
  {
    var s := favorites + [NewFavorite(kind, name, artist, dateAdded)];
    assert SameEntry(s[|favorites|], kind, name, artist);
  }

  /** In a consistent list every record the duplicate check compares by
      artist (same non-artist category) has an artist, so the check never
      reads a missing one. */
  lemma StoredArtistPresent(favorites: seq<Favorite>, kind: string)
    requires Consistent(favorites) && kind != ArtistKind
    ensures forall i :: 0 <= i < |favorites| && favorites[i].kind == kind ==> favorites[i].artist.Some?
  {
    forall i | 0 <= i < |favorites| && favorites[i].kind == kind ensures favorites[i].artist.Some? {
      assert WellFormed(favorites[i]);
    }
  }

  /** Taking one record out keeps the list consistent. */
  lemma RemoveKeepsConsistent(favorites: seq<Favorite>, k: nat)
    requires Consistent(favorites) && k < |favorites|
    ensures Consistent(favorites[..k] + favorites[k + 1..])
  {
    var s := favorites[..k] + favorites[k + 1..];
    assert forall n :: 0 <= n < |s| ==> s[n] == favorites[if n < k then n else n + 1];
  }

  const Labels: map<string, string> := map["music" := "Música", "album" := "Álbum", ArtistKind := "Artista"]

  /** The label shown for a category; an unknown tag is shown as is. */
  function CategoryLabel(kind: string): (shown: string)
    ensures kind == "music" ==> shown == "Música"
    ensures kind == "album" ==> shown == "Álbum"
    ensures kind == ArtistKind ==> shown == "Artista"
    ensures kind != "music" && kind != "album" && kind != ArtistKind ==> shown == kind
  {
    if kind in Labels then Labels[kind] else kind
  }

  /** What the persisted slot yields at start-up: nothing (or an empty
      string), text that does not parse, or a parsed list. */
  datatype Stored = Absent | Unparseable | Parsed(items: seq<Favorite>)

  /** The position `splice(index, 1)` starts from in a list of length
      `len`: a negative index counts from the end, and both ends clamp. */
  function SpliceStart(len: nat, index: int): (start: nat)
    ensures start <= len
    ensures 0 <= index <= len ==> start == index
    ensures index < 0 && len + index >= 0 ==> start == len + index
    ensures len + index < 0 ==> start == 0
    ensures index > len ==> start == len
  {
    if index < 0 then (if len + index < 0 then 0 else len + index)
    else if index > len then len
    else index
  }

  /** The application state: the favorites list and the category chosen
      by the last click on a category button. */
  class Store {
    var favorites: seq<Favorite>
    var currentType: string

    ghost predicate Valid()
      reads this
    {
      Consistent(favorites)
    }

    constructor ()
      ensures favorites == [] && currentType == ""
      ensures Valid()
    {
      favorites := [];
      currentType := "";
    }

    /** A category button was clicked. */
    method ChooseCategory(kind: string)
      modifies this
      ensures currentType == kind
      ensures favorites == old(favorites)
    {
      currentType := kind;
    }

    /** Start-up: an absent slot leaves the list alone, unparseable
        content resets it to empty, a parsed list replaces it. */
    method Load(saved: Stored)
      modifies this
      ensures currentType == old(currentType)
      ensures saved.Absent? ==> favorites == old(favorites)
      ensures saved.Unparseable? ==> favorites == []
      ensures saved.Parsed? ==> favorites == saved.items
    {
      match saved
      case Absent =>
      case Unparseable => favorites := [];
      case Parsed(items) => favorites := items;
    }

    /** Form submission with the raw field contents: both are trimmed,
        checked, and on success one record is appended at the end. */
    method Submit(rawName: string, rawArtist: string, dateAdded: string) returns (verdict: Verdict)
      modifies this
      ensures currentType == old(currentType)
      ensures verdict == Admit(old(favorites), currentType, Trim(rawName), Trim(rawArtist))
      ensures verdict == Accepted ==>
        favorites == old(favorites) + [NewFavorite(currentType, Trim(rawName), Trim(rawArtist), dateAdded)]
      ensures verdict != Accepted ==> favorites == old(favorites)
      ensures old(Valid()) ==> Valid()
    {
      var name := Trim(rawName);
      var artist := Trim(rawArtist);
      verdict := Admit(favorites, currentType, name, artist);
      if verdict == Accepted {
        var added := favorites + [NewFavorite(currentType, name, artist, dateAdded)];
        assert Consistent(favorites) ==> Consistent(added) by {
          if Consistent(favorites) {
            AdmitKeepsConsistent(favorites, currentType, rawName, rawArtist, dateAdded);
          }
        }
        favorites := added;
      }
    }

    /** `favorites.splice(index, 1)` on the confirmed path. */
    method Remove(index: int)
      modifies this
      ensures currentType == old(currentType)
      ensures 0 <= index < |old(favorites)| ==>
        |favorites| == |old(favorites)| - 1 &&
        favorites == old(favorites)[..index] + old(favorites)[index + 1..]
      ensures index >= |old(favorites)| ==> favorites == old(favorites)
      ensures index < 0 ==>
        var start := SpliceStart(|old(favorites)|, index);
        favorites == if start < |old(favorites)| then old(favorites)[..start] + old(favorites)[start + 1..]
                     else old(favorites)
      ensures old(Valid()) ==> Valid()
    {
      var start := SpliceStart(|favorites|, index);
      if start < |favorites| {
        if Valid() {
          RemoveKeepsConsistent(favorites, start);
        }
        favorites := favorites[..start] + favorites[start + 1..];
      }
    }
  }
}
