/** The recommendation engine `generateRecommendations`: for each favorite in
    order, the catalog bucket of its detected genre is walked in catalog
    order; a candidate is emitted, with a reason naming that favorite, unless
    its key was already emitted, six items are already out, or it is itself
    a favorite by name and artist, ignoring case. */
module Recommendations {
  import opened Text
  import opened Genre
  import opened Catalog
  import opened Favorites

  const MaxRecommendations := 6

  /** The de-duplication key `${rec.name}-${rec.artist}`. */
  function Key(s: Suggestion): string {
    s.name + "-" + s.artist
  }

  function KeysOf(recs: seq<Suggestion>): set<string> {
    set r | r in recs :: Key(r)
  }

  /** Without a '-' in the name, the first '-' of the key ends the name. */
  lemma FirstSeparator(s: Suggestion)
    requires '-' !in s.name
    ensures Key(s)[|s.name|] == '-'
    ensures forall i :: 0 <= i < |s.name| ==> Key(s)[i] != '-'
  {
    forall i | 0 <= i < |s.name| ensures Key(s)[i] != '-' {
      assert Key(s)[i] == s.name[i];
    }
  }

  /** When neither name contains the separator '-', the key identifies
      the song: equal keys exactly when the names and the artists agree. */
  lemma KeyIdentifies(s: Suggestion, t: Suggestion)
    requires '-' !in s.name && '-' !in t.name
    ensures Key(s) == Key(t) <==> s.name == t.name && s.artist == t.artist
  {
    var k, l := Key(s), Key(t);
    if k == l {
      FirstSeparator(s);
      FirstSeparator(t);
      assert |s.name| == |t.name|;
      assert s.name == k[..|s.name|] == l[..|t.name|] == t.name;
      assert s.artist == k[|s.name| + 1..] == l[|t.name| + 1..] == t.artist;
    }
  }

  /** The key does not tell the two fields apart when one contains the
      separator: different suggestions can share a key. */
  lemma KeyIsAmbiguous()
    ensures var s, t := Suggestion("a-b", "c", ""), Suggestion("a", "b-c", "");
      s != t && Key(s) == Key(t)
  {
    assert Suggestion("a-b", "c", "").name != Suggestion("a", "b-c", "").name by {
      assert |"a-b"| != |"a"|;
    }
  }

  lemma KeysOfSnoc(recs: seq<Suggestion>, r: Suggestion)
    ensures KeysOf(recs + [r]) == KeysOf(recs) + {Key(r)}
  {
    assert forall x :: x in recs + [r] <==> x in recs || x == r;
  }

  function Reason(favorite: Favorite): string {
    "Baseado em seu gosto por " + favorite.name
  }

  /** The artist text the classifier is given: `favorite.artist || favorite.name`. */
  function GenreArtist(favorite: Favorite): string {
    if favorite.artist.Some? && favorite.artist.value != "" then favorite.artist.value else favorite.name
  }

  /** A record added through the form is classified by its name twice when
      it is an artist, and by its name and artist otherwise. */
  lemma GenreArtistOfRecord(favorite: Favorite)
    requires WellFormed(favorite)
    ensures favorite.kind == ArtistKind ==> GenreArtist(favorite) == favorite.name
    ensures favorite.kind != ArtistKind ==> Some(GenreArtist(favorite)) == favorite.artist
  {
  }

  /** The candidates looked at for `favorite`, in catalog order: the
      bucket of its detected genre. The engine below is stated for any such
      lookup `buckets`; the application uses this one. */
  function GenreBucket(favorite: Favorite): seq<Suggestion> {
    Bucket(MusicDatabase, DetectGenre(favorite.name, GenreArtist(favorite)))
  }

  /** A favorite and a suggestion name the same song: equal names and equal
      artists (an absent artist reads as ""), ignoring case. */
  predicate SameSong(fav: Favorite, s: Suggestion) {
    Lower(fav.name) == Lower(s.name) && Lower(ArtistOrEmpty(fav)) == Lower(s.artist)
  }

  function SameSongAs(s: Suggestion): Favorite -> bool {
    fav => SameSong(fav, s)
  }

  /** The `isAlreadyFavorite` test. */
  function IsAlreadyFavorite(favorites: seq<Favorite>, s: Suggestion): (b: bool)
    ensures b <==> exists k :: 0 <= k < |favorites| && SameSong(favorites[k], s)
  {
    AnyIsExists(favorites, SameSongAs(s));
    Any(favorites, SameSongAs(s))
  }

  /** A catalog candidate as emitted on behalf of `favorite`. */
  function Relabel(c: Suggestion, favorite: Favorite): Suggestion {
    Suggestion(c.name, c.artist, Reason(favorite))
  }

  function RelabelAll(bucket: seq<Suggestion>, favorite: Favorite): seq<Suggestion> {
    seq(|bucket|, k requires 0 <= k < |bucket| => Relabel(bucket[k], favorite))
  }

  /** One pass of the inner loop body, for candidate `c`. */
  function Emit(favorites: seq<Favorite>, favorite: Favorite, c: Suggestion, recs: seq<Suggestion>): seq<Suggestion> {
    if Key(c) !in KeysOf(recs) && |recs| < MaxRecommendations && !IsAlreadyFavorite(favorites, c)
    then recs + [Relabel(c, favorite)]
    else recs
  }

  /** The inner loop over `bucket`, starting from the list `recs`. */
  function ScanBucket(favorites: seq<Favorite>, favorite: Favorite, bucket: seq<Suggestion>, recs: seq<Suggestion>): seq<Suggestion>
    decreases |bucket|
  {
    if bucket == [] then recs
    else
      var last := |bucket| - 1;
      Emit(favorites, favorite, bucket[last], ScanBucket(favorites, favorite, bucket[..last], recs))
  }

  /** The outer loop over the favorites `triggers`, checked against the
      whole list `favorites`. */
  function RecommendFrom(buckets: Favorite -> seq<Suggestion>, favorites: seq<Favorite>, triggers: seq<Favorite>): seq<Suggestion>
    decreases |triggers|
  {
    if triggers == [] then []
    else
      var last := |triggers| - 1;
      ScanBucket(favorites, triggers[last], buckets(triggers[last]), RecommendFrom(buckets, favorites, triggers[..last]))
  }

  function Recommend(buckets: Favorite -> seq<Suggestion>, favorites: seq<Favorite>): seq<Suggestion> {
    RecommendFrom(buckets, favorites, favorites)
  }

  /** `s` is `t` with some elements left out, the rest in order. */
  predicate SubseqOf<T(==)>(s: seq<T>, t: seq<T>) {
    if s == [] then true
    else if t == [] then false
    else if s[0] == t[0] then SubseqOf(s[1..], t[1..])
    else SubseqOf(s, t[1..])
  }

  lemma {:induction false} SubseqSnoc<T>(s: seq<T>, t: seq<T>, x: T)
    requires SubseqOf(s, t)
    ensures SubseqOf(s + [x], t + [x])
    decreases |t|
  {
    if t == [] {
      assert s == [];
      assert SubseqOf(([] + [x])[1..], ([] + [x])[1..]);
    } else if s == [] {
      if t[0] != x {
        SubseqSnoc(s, t[1..], x);
        assert (t + [x])[1..] == t[1..] + [x];
      }
    } else if s[0] == t[0] {
      SubseqSnoc(s[1..], t[1..], x);
      assert (s + [x])[1..] == s[1..] + [x];
      assert (t + [x])[1..] == t[1..] + [x];
    } else {
      SubseqSnoc(s, t[1..], x);
      assert (t + [x])[1..] == t[1..] + [x];
    }
  }

  lemma {:induction false} SubseqGrow<T>(s: seq<T>, t: seq<T>, x: T)
    requires SubseqOf(s, t)
    ensures SubseqOf(s, t + [x])
    decreases |t|
  {
    if s != [] {
      assert t != [];
      assert (t + [x])[1..] == t[1..] + [x];
      if s[0] == t[0] {
        SubseqGrow(s[1..], t[1..], x);
      } else {
        SubseqGrow(s, t[1..], x);
      }
    }
  }

  lemma {:induction false} SubseqMembers<T>(s: seq<T>, t: seq<T>)
    requires SubseqOf(s, t)
    ensures forall x :: x in s ==> x in t
    decreases |t|
  {
    if s != [] {
      if s[0] == t[0] {
        SubseqMembers(s[1..], t[1..]);
        forall x | x in s ensures x in t {
          if x != s[0] { assert x in s[1..]; }
        }
      } else {
        SubseqMembers(s, t[1..]);
      }
    }
  }

  /** What every prefix of the output satisfies: at most six items, keys
      pairwise distinct, none of them a favorite. */
  ghost predicate Sound(favorites: seq<Favorite>, recs: seq<Suggestion>) {
    |recs| <= MaxRecommendations &&
    (forall i, j :: 0 <= i < j < |recs| ==> Key(recs[i]) != Key(recs[j])) &&
    (forall i, k :: 0 <= i < |recs| && 0 <= k < |favorites| ==> !SameSong(favorites[k], recs[i]))
  }

  lemma {:induction false} ScanBucketSound(favorites: seq<Favorite>, favorite: Favorite, bucket: seq<Suggestion>, recs: seq<Suggestion>)
    requires Sound(favorites, recs)
    ensures Sound(favorites, ScanBucket(favorites, favorite, bucket, recs))
    decreases |bucket|
  {
    if bucket != [] {
      var last := |bucket| - 1;
      var mid := ScanBucket(favorites, favorite, bucket[..last], recs);
      ScanBucketSound(favorites, favorite, bucket[..last], recs);
      var c := bucket[last];
      if Key(c) !in KeysOf(mid) && |mid| < MaxRecommendations && !IsAlreadyFavorite(favorites, c) {
        var out := mid + [Relabel(c, favorite)];
        forall i | 0 <= i < |mid| ensures Key(mid[i]) != Key(c) {
          assert Key(mid[i]) in KeysOf(mid);
        }
        assert Key(Relabel(c, favorite)) == Key(c);
        assert forall i, j :: 0 <= i < j < |out| ==> Key(out[i]) != Key(out[j]);
      }
    }
  }

  lemma {:induction false} RecommendFromSound(buckets: Favorite -> seq<Suggestion>, favorites: seq<Favorite>, triggers: seq<Favorite>)
    ensures Sound(favorites, RecommendFrom(buckets, favorites, triggers))
    decreases |triggers|
  {
    if triggers != [] {
      var last := |triggers| - 1;
      RecommendFromSound(buckets, favorites, triggers[..last]);
      ScanBucketSound(favorites, triggers[last], buckets(triggers[last]), RecommendFrom(buckets, favorites, triggers[..last]));
    }
  }

  /** The output has at most six items, no two share a key, none names the
      same song as a favorite, and no favorites give no output. */
  lemma RecommendSound(buckets: Favorite -> seq<Suggestion>, favorites: seq<Favorite>)
    ensures var recs := Recommend(buckets, favorites);
      |recs| <= MaxRecommendations &&
      (forall i, j :: 0 <= i < j < |recs| ==> Key(recs[i]) != Key(recs[j])) &&
      (forall i, k :: 0 <= i < |recs| && 0 <= k < |favorites| ==> !SameSong(favorites[k], recs[i])) &&
      (favorites == [] ==> recs == [])
  {
    RecommendFromSound(buckets, favorites, favorites);
  }

  /** The inner loop only appends, and what it appends is the bucket, in
      order and relabelled for `favorite`, with some candidates skipped. */
  lemma {:induction false} ScanBucketExtends(favorites: seq<Favorite>, favorite: Favorite, bucket: seq<Suggestion>, recs: seq<Suggestion>)
    ensures var out := ScanBucket(favorites, favorite, bucket, recs);
      |recs| <= |out| && out[..|recs|] == recs &&
      SubseqOf(out[|recs|..], RelabelAll(bucket, favorite))
    decreases |bucket|
  {
    var out := ScanBucket(favorites, favorite, bucket, recs);
    if bucket == [] {
      assert out[|recs|..] == [];
    } else {
      var last := |bucket| - 1;
      var mid := ScanBucket(favorites, favorite, bucket[..last], recs);
      ScanBucketExtends(favorites, favorite, bucket[..last], recs);
      var c := bucket[last];
      assert RelabelAll(bucket, favorite) == RelabelAll(bucket[..last], favorite) + [Relabel(c, favorite)];
      if out == mid {
        SubseqGrow(mid[|recs|..], RelabelAll(bucket[..last], favorite), Relabel(c, favorite));
      } else {
        assert out == mid + [Relabel(c, favorite)];
        assert out[|recs|..] == mid[|recs|..] + [Relabel(c, favorite)];
        SubseqSnoc(mid[|recs|..], RelabelAll(bucket[..last], favorite), Relabel(c, favorite));
      }
    }
  }

  /** Adding one more favorite at the end of the walk only appends, and
      what it appends comes from that favorite's bucket, in catalog order,
      with the reason naming that favorite. */
  lemma RecommendFromStep(buckets: Favorite -> seq<Suggestion>, favorites: seq<Favorite>, triggers: seq<Favorite>, favorite: Favorite)
    ensures var before := RecommendFrom(buckets, favorites, triggers);
      var after := RecommendFrom(buckets, favorites, triggers + [favorite]);
      |before| <= |after| && after[..|before|] == before &&
      SubseqOf(after[|before|..], RelabelAll(buckets(favorite), favorite))
  {
    assert (triggers + [favorite])[..|triggers|] == triggers;
    ScanBucketExtends(favorites, favorite, buckets(favorite), RecommendFrom(buckets, favorites, triggers));
  }

  /** Every recommendation is a catalog candidate of some favorite's bucket,
      with the reason naming that favorite. */
  lemma {:induction false} RecommendFromOrigin(buckets: Favorite -> seq<Suggestion>, favorites: seq<Favorite>, triggers: seq<Favorite>)
    ensures forall r :: r in RecommendFrom(buckets, favorites, triggers) ==>
      exists j, k :: 0 <= j < |triggers| && 0 <= k < |buckets(triggers[j])| &&
        r == Relabel(buckets(triggers[j])[k], triggers[j])
    decreases |triggers|
  {
    if triggers != [] {
      var last := |triggers| - 1;
      var prefix := triggers[..last];
      var favorite := triggers[last];
      assert triggers == prefix + [favorite];
      RecommendFromOrigin(buckets, favorites, prefix);
      RecommendFromStep(buckets, favorites, prefix, favorite);
      var before := RecommendFrom(buckets, favorites, prefix);
      var after := RecommendFrom(buckets, favorites, triggers);
      SubseqMembers(after[|before|..], RelabelAll(buckets(favorite), favorite));
      forall r | r in after
        ensures exists j, k :: (0 <= j < |triggers| && 0 <= k < |buckets(triggers[j])| &&
          r == Relabel(buckets(triggers[j])[k], triggers[j]))
      {
        var n :| 0 <= n < |after| && after[n] == r;
        if n < |before| {
          assert r in before;
          var j, k :| 0 <= j < |prefix| && 0 <= k < |buckets(prefix[j])| &&
            r == Relabel(buckets(prefix[j])[k], prefix[j]);
          assert triggers[j] == prefix[j];
        } else {
          assert r in after[|before|..];
          var k :| 0 <= k < |buckets(favorite)| && RelabelAll(buckets(favorite), favorite)[k] == r;
          assert triggers[last] == favorite;
        }
      }
    }
  }

  lemma RecommendOrigin(buckets: Favorite -> seq<Suggestion>, favorites: seq<Favorite>)
    ensures forall r :: r in Recommend(buckets, favorites) ==>
      exists j, k :: 0 <= j < |favorites| && 0 <= k < |buckets(favorites[j])| &&
        r.name == buckets(favorites[j])[k].name && r.artist == buckets(favorites[j])[k].artist &&
        r.reason == Reason(favorites[j])
  {
    RecommendFromOrigin(buckets, favorites, favorites);
  }

  lemma KeysOfPrefix(recs: seq<Suggestion>, out: seq<Suggestion>)
    requires |recs| <= |out| && out[..|recs|] == recs
    ensures KeysOf(recs) <= KeysOf(out)
  {
    forall r | r in recs ensures r in out {
      var n :| 0 <= n < |recs| && recs[n] == r;
      assert out[n] == r;
    }
  }

  /** Every candidate of `favorite`'s bucket names the same song as a
      favorite or has its key among `recs`. */
  ghost predicate Covered(buckets: Favorite -> seq<Suggestion>, favorites: seq<Favorite>, favorite: Favorite, recs: seq<Suggestion>) {
    forall c :: c in buckets(favorite) ==> IsAlreadyFavorite(favorites, c) || Key(c) in KeysOf(recs)
  }

  lemma CoveredGrows(buckets: Favorite -> seq<Suggestion>, favorites: seq<Favorite>, favorite: Favorite, recs: seq<Suggestion>, out: seq<Suggestion>)
    requires Covered(buckets, favorites, favorite, recs)
    requires |recs| <= |out| && out[..|recs|] == recs
    ensures Covered(buckets, favorites, favorite, out)
  {
    KeysOfPrefix(recs, out);
  }

  /** While fewer than six items are out, a candidate is skipped only when
      it names the same song as a favorite or its key was already used. */
  lemma {:induction false} ScanBucketComplete(favorites: seq<Favorite>, favorite: Favorite, bucket: seq<Suggestion>, recs: seq<Suggestion>)
    requires |ScanBucket(favorites, favorite, bucket, recs)| < MaxRecommendations
    ensures forall c :: c in bucket ==>
      IsAlreadyFavorite(favorites, c) || Key(c) in KeysOf(ScanBucket(favorites, favorite, bucket, recs))
    decreases |bucket|
  {
    if bucket != [] {
      var last := |bucket| - 1;
      var mid := ScanBucket(favorites, favorite, bucket[..last], recs);
      var out := ScanBucket(favorites, favorite, bucket, recs);
      var c := bucket[last];
      assert |mid| <= |out| && out[..|mid|] == mid;
      KeysOfPrefix(mid, out);
      ScanBucketComplete(favorites, favorite, bucket[..last], recs);
      assert out != mid ==> out[|mid|] == Relabel(c, favorite) && Key(out[|mid|]) in KeysOf(out);
      forall d | d in bucket
        ensures IsAlreadyFavorite(favorites, d) || Key(d) in KeysOf(out)
      {
        if d != c {
          var k :| 0 <= k < |bucket| && bucket[k] == d;
          assert d in bucket[..last];
        }
      }
    }
  }

  lemma {:induction false} RecommendFromComplete(buckets: Favorite -> seq<Suggestion>, favorites: seq<Favorite>, triggers: seq<Favorite>)
    requires |RecommendFrom(buckets, favorites, triggers)| < MaxRecommendations
    ensures forall f :: f in triggers ==> Covered(buckets, favorites, f, RecommendFrom(buckets, favorites, triggers))
    decreases |triggers|
  {
    if triggers != [] {
      var last := |triggers| - 1;
      var prefix := triggers[..last];
      var favorite := triggers[last];
      var before := RecommendFrom(buckets, favorites, prefix);
      var after := RecommendFrom(buckets, favorites, triggers);
      ScanBucketExtends(favorites, favorite, buckets(favorite), before);
      RecommendFromComplete(buckets, favorites, prefix);
      ScanBucketComplete(favorites, favorite, buckets(favorite), before);
      assert triggers == prefix + [favorite];
      forall f | f in triggers ensures Covered(buckets, favorites, f, after) {
        if f in prefix {
          CoveredGrows(buckets, favorites, f, before, after);
        }
      }
    }
  }

  /** Short of six items, every candidate of every favorite's bucket is
      either itself a favorite or has its key among the recommendations. */
  lemma RecommendComplete(buckets: Favorite -> seq<Suggestion>, favorites: seq<Favorite>)
    requires |Recommend(buckets, favorites)| < MaxRecommendations
    ensures forall f, c :: f in favorites && c in buckets(f) ==>
      (exists i :: 0 <= i < |favorites| && SameSong(favorites[i], c)) ||
      Key(c) in KeysOf(Recommend(buckets, favorites))
  {
    RecommendFromComplete(buckets, favorites, favorites);
  }

  lemma PrefixSnoc<T>(s: seq<T>, i: nat)
    requires i < |s|
    ensures s[..i + 1] == s[..i] + [s[i]]
  {
  }

  lemma RecommendFromSnoc(buckets: Favorite -> seq<Suggestion>, favorites: seq<Favorite>, triggers: seq<Favorite>, favorite: Favorite)
    ensures RecommendFrom(buckets, favorites, triggers + [favorite]) ==
      ScanBucket(favorites, favorite, buckets(favorite), RecommendFrom(buckets, favorites, triggers))
  {
    assert (triggers + [favorite])[..|triggers|] == triggers;
  }

  /** The inner `forEach` of `generateRecommendations`: the candidates
      `genreRecs` found for `favorite` are offered in order. */
  method OfferBucket(favorites: seq<Favorite>, favorite: Favorite, genreRecs: seq<Suggestion>,
                     recs: seq<Suggestion>, used: set<string>)
    returns (recommendations: seq<Suggestion>, usedItems: set<string>)
    requires used == KeysOf(recs)
    ensures recommendations == ScanBucket(favorites, favorite, genreRecs, recs)
    ensures usedItems == KeysOf(recommendations)
  {
    recommendations, usedItems := recs, used;
    var j := 0;
    while j < |genreRecs|
      invariant 0 <= j <= |genreRecs|
      invariant recommendations == ScanBucket(favorites, favorite, genreRecs[..j], recs)
      invariant usedItems == KeysOf(recommendations)
    {
      var rec := genreRecs[j];
      var key := Key(rec);
      assert genreRecs[..j + 1][..j] == genreRecs[..j];
      if key !in usedItems && |recommendations| < MaxRecommendations {
        var isAlreadyFavorite := IsAlreadyFavorite(favorites, rec);
        if !isAlreadyFavorite {
          KeysOfSnoc(recommendations, Relabel(rec, favorite));
          recommendations := recommendations + [Relabel(rec, favorite)];
          usedItems := usedItems + {key};
        }
      }
      j := j + 1;
    }
    assert genreRecs[..j] == genreRecs;
  }

  /** `generateRecommendations` over the favorites list it is given. */
  method GenerateRecommendations(favorites: seq<Favorite>) returns (recommendations: seq<Suggestion>)
    ensures recommendations == Recommend(GenreBucket, favorites)
    ensures favorites == [] ==> recommendations == []
    ensures |recommendations| <= MaxRecommendations
    ensures forall i, j :: 0 <= i < j < |recommendations| ==>
      Key(recommendations[i]) != Key(recommendations[j])
    ensures forall i, k :: 0 <= i < |recommendations| && 0 <= k < |favorites| ==>
      !SameSong(favorites[k], recommendations[i])
  {
    recommendations := [];
    var usedItems: set<string> := {};
    var i := 0;
    while i < |favorites|
      invariant 0 <= i <= |favorites|
      invariant recommendations == RecommendFrom(GenreBucket, favorites, favorites[..i])
      invariant usedItems == KeysOf(recommendations)
    {
      var favorite := favorites[i];
      var genre := DetectGenre(favorite.name, GenreArtist(favorite));
      var genreRecs := Bucket(MusicDatabase, genre);
      PrefixSnoc(favorites, i);
      RecommendFromSnoc(GenreBucket, favorites, favorites[..i], favorite);
      recommendations, usedItems := OfferBucket(favorites, favorite, genreRecs, recommendations, usedItems);
      i := i + 1;
    }
    assert favorites[..i] == favorites;
    RecommendSound(GenreBucket, favorites);
  }

  lemma BohemianRhapsodyIsRock()
    ensures DetectGenre("Bohemian Rhapsody", "Queen") == Rock
  {
    var text := SearchText("Bohemian Rhapsody", "Queen");
    assert text[18..23] == "queen";
    assert OccursAt(text, "queen", 18);
    assert "queen" in RockKeywords;
    DetectGenreFirstMatch("Bohemian Rhapsody", "Queen");
  }

  lemma BohemianRhapsodyBucket(favorite: Favorite)
    requires favorite.name == "Bohemian Rhapsody" && favorite.artist == Some("Queen")
    ensures GenreBucket(favorite) == MusicDatabase[Rock]
  {
    BohemianRhapsodyIsRock();
  }

  lemma BohemianRhapsodyFavorites(favorite: Favorite, bucket: seq<Suggestion>)
    requires favorite.name == "Bohemian Rhapsody" && favorite.artist == Some("Queen")
    requires bucket == MusicDatabase[Rock]
    ensures |bucket| == 3 && Key(bucket[1]) != Key(bucket[2])
    ensures IsAlreadyFavorite([favorite], bucket[0])
    ensures !IsAlreadyFavorite([favorite], bucket[1]) && !IsAlreadyFavorite([favorite], bucket[2])
  {
    assert SameSong([favorite][0], bucket[0]);
    assert |Lower(bucket[1].name)| != |Lower(favorite.name)|;
    assert |Lower(bucket[2].name)| != |Lower(favorite.name)|;
  }

  lemma BohemianRhapsodyRelabelled(favorite: Favorite)
    requires favorite.name == "Bohemian Rhapsody"
    ensures Relabel(MusicDatabase[Rock][1], favorite) ==
      Suggestion("Stairway to Heaven", "Led Zeppelin", "Baseado em seu gosto por Bohemian Rhapsody")
    ensures Relabel(MusicDatabase[Rock][2], favorite) ==
      Suggestion("Hotel California", "Eagles", "Baseado em seu gosto por Bohemian Rhapsody")
  {
    assert Reason(favorite) == "Baseado em seu gosto por Bohemian Rhapsody";
  }

  /** A single favorite "Bohemian Rhapsody" by Queen is classified as rock
      (through the keyword "queen"); its own catalog entry is skipped and
      the other two rock candidates are recommended on its behalf. */
  lemma RecommendForBohemianRhapsody(dateAdded: string)
    ensures var favorite := Favorite("Bohemian Rhapsody", "music", Some("Queen"), dateAdded);
      Recommend(GenreBucket, [favorite]) == [
        Suggestion("Stairway to Heaven", "Led Zeppelin", "Baseado em seu gosto por Bohemian Rhapsody"),
        Suggestion("Hotel California", "Eagles", "Baseado em seu gosto por Bohemian Rhapsody")]
  {
    var favorite := Favorite("Bohemian Rhapsody", "music", Some("Queen"), dateAdded);
    var bucket := MusicDatabase[Rock];
    RecommendSingle(GenreBucket, favorite);
    BohemianRhapsodyBucket(favorite);
    BohemianRhapsodyFavorites(favorite, bucket);
    ScanRockBucket([favorite], favorite, bucket);
    BohemianRhapsodyRelabelled(favorite);
  }

  lemma RecommendSingle(buckets: Favorite -> seq<Suggestion>, favorite: Favorite)
    ensures Recommend(buckets, [favorite]) == ScanBucket([favorite], favorite, buckets(favorite), [])
  {
    assert [favorite][..0] == [] && [favorite][0] == favorite;
    assert RecommendFrom(buckets, [favorite], []) == [];
  }

  lemma ScanRockBucket(favorites: seq<Favorite>, favorite: Favorite, bucket: seq<Suggestion>)
    requires |bucket| == 3 && Key(bucket[1]) != Key(bucket[2])
    requires IsAlreadyFavorite(favorites, bucket[0])
    requires !IsAlreadyFavorite(favorites, bucket[1]) && !IsAlreadyFavorite(favorites, bucket[2])
    ensures ScanBucket(favorites, favorite, bucket, []) == [Relabel(bucket[1], favorite), Relabel(bucket[2], favorite)]
  {
    assert bucket[..1][..0] == [] && bucket[..2][..1] == bucket[..1] && bucket[..3][..2] == bucket[..2];
    assert bucket[..3] == bucket;
    assert ScanBucket(favorites, favorite, bucket[..1][..0], []) == [];
    var r1 := ScanBucket(favorites, favorite, bucket[..1], []);
    assert r1 == Emit(favorites, favorite, bucket[0], []) == [];
    var r2 := ScanBucket(favorites, favorite, bucket[..2], []);
    assert r2 == [Relabel(bucket[1], favorite)];
    assert Key(bucket[2]) !in KeysOf(r2);
  }
}
