/** The keyword classifier `detectGenre`: the lowercased text
    `name + " " + artist` is searched for the keywords of each genre in a
    fixed priority order; the first genre with a hit wins, rock otherwise. */
module Genre {
  import opened Text

  const Rock := "rock"
  const Pop := "pop"
  const Jazz := "jazz"
  /** The spelling the application uses for the electronic bucket. */
  const Electronic := "eletronic"

  const RockKeywords: seq<string> :=
    ["rock", "metal", "punk", "grunge", "queen", "led zeppelin", "pink floyd"]
  const PopKeywords: seq<string> :=
    ["pop", "taylor", "ariana", "billie", "harry styles", "dua lipa"]
  const JazzKeywords: seq<string> :=
    ["jazz", "blue", "miles", "coltrane", "bebop"]
  const ElectronicKeywords: seq<string> :=
    ["electronic", "house", "techno", "edm", "daft punk"]

  predicate IsGenre(g: string) {
    g == Rock || g == Pop || g == Jazz || g == Electronic
  }

  function SearchText(name: string, artist: string): string {
    Lower(name + " " + artist)
  }

  /** The callback handed to `some`: does `text` include the keyword? */
  function IncludedIn(text: string): string -> bool {
    keyword => Includes(text, keyword)
  }

  function DetectGenre(name: string, artist: string): (genre: string)
    ensures IsGenre(genre)
  {
    var text := SearchText(name, artist);
    if Any(RockKeywords, IncludedIn(text)) then Rock
    else if Any(PopKeywords, IncludedIn(text)) then Pop
    else if Any(JazzKeywords, IncludedIn(text)) then Jazz
    else if Any(ElectronicKeywords, IncludedIn(text)) then Electronic
    else Rock
  }

  /** Some keyword of the list occurs somewhere in `text` as a substring. */
  ghost predicate MentionsAny(keywords: seq<string>, text: string) {
    exists k :: k in keywords && Contains(text, k)
  }

  lemma KeywordSearch(keywords: seq<string>, text: string)
    ensures Any(keywords, IncludedIn(text)) <==> MentionsAny(keywords, text)
  {
    AnyIsExists(keywords, IncludedIn(text));
    forall k | k in keywords ensures Includes(text, k) <==> Contains(text, k) {
      IncludesIsContains(text, k);
    }
    if MentionsAny(keywords, text) {
      var k :| k in keywords && Contains(text, k);
      var i :| 0 <= i < |keywords| && keywords[i] == k;
      assert IncludedIn(text)(keywords[i]);
    }
  }

  /** The genre is the first of rock, pop, jazz, electronic whose keyword
      list has a hit in the search text, and rock when no list has one. */
  lemma DetectGenreFirstMatch(name: string, artist: string)
    ensures var t := SearchText(name, artist);
      var rock, pop, jazz, electronic :=
        MentionsAny(RockKeywords, t), MentionsAny(PopKeywords, t),
        MentionsAny(JazzKeywords, t), MentionsAny(ElectronicKeywords, t);
      var g := DetectGenre(name, artist);
      (g == Rock <==> rock || (!pop && !jazz && !electronic)) &&
      (g == Pop <==> !rock && pop) &&
      (g == Jazz <==> !rock && !pop && jazz) &&
      (g == Electronic <==> !rock && !pop && !jazz && electronic)
  {
    var t := SearchText(name, artist);
    KeywordSearch(RockKeywords, t);
    KeywordSearch(PopKeywords, t);
    KeywordSearch(JazzKeywords, t);
    KeywordSearch(ElectronicKeywords, t);
  }

  /** The electronic keyword "daft punk" can never decide the genre: any
      text containing it also contains the rock keyword "punk", and rock is
      tried first. */
  lemma DaftPunkIsRock(name: string, artist: string)
    requires Contains(SearchText(name, artist), "daft punk")
    ensures DetectGenre(name, artist) == Rock
  {
    var t := SearchText(name, artist);
    var i :| OccursAt(t, "daft punk", i);
    assert t[i + 5..i + 9] == t[i..i + 9][5..9];
    assert OccursAt(t, "punk", i + 5);
    assert "punk" in RockKeywords;
    DetectGenreFirstMatch(name, artist);
  }

  /** A word with a character the text lacks does not occur in it. */
  lemma MissingCharExcludes(text: string, word: string, c: char)
    requires c in word && c !in text
    ensures !Contains(text, word)
  {
  }

  /** No keyword of the list occurs when each has a character, named in
      `missing`, that the text lacks. */
  lemma MissingCharsExclude(keywords: seq<string>, text: string, missing: seq<char>)
    requires |missing| == |keywords|
    requires forall i :: 0 <= i < |keywords| ==> missing[i] in keywords[i] && missing[i] !in text
    ensures !MentionsAny(keywords, text)
  {
    forall k | k in keywords ensures !Contains(text, k) {
      var i :| 0 <= i < |keywords| && keywords[i] == k;
      MissingCharExcludes(text, k, missing[i]);
    }
  }

  /** The search text of "Take Five" by Dave Brubeck. */
  const TakeFiveText := "take five dave brubeck"

  lemma TakeFiveNotPop()
    ensures !MentionsAny(PopKeywords, TakeFiveText)
  {
    MissingCharsExclude(PopKeywords, TakeFiveText, ['p', 'l', 'n', 'l', 'h', 'l']);
  }

  lemma TakeFiveNotJazz()
    ensures !MentionsAny(JazzKeywords, TakeFiveText)
  {
    MissingCharsExclude(JazzKeywords, TakeFiveText, ['j', 'l', 'l', 'l', 'p']);
  }

  lemma TakeFiveNotElectronic()
    ensures !MentionsAny(ElectronicKeywords, TakeFiveText)
  {
    MissingCharsExclude(ElectronicKeywords, TakeFiveText, ['l', 'h', 'h', 'm', 'p']);
  }

  /** "Take Five" by Dave Brubeck hits no keyword of any list, so it is
      filed under the rock fallback, not under jazz. */
  lemma TakeFiveFallsBack(name: string, artist: string)
    requires name == "Take Five" && artist == "Dave Brubeck"
    ensures DetectGenre(name, artist) == Rock
  {
    assert SearchText(name, artist) == TakeFiveText;
    TakeFiveNotPop();
    TakeFiveNotJazz();
    TakeFiveNotElectronic();
    DetectGenreFirstMatch(name, artist);
  }
}
