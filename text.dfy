/** The string primitives the application relies on: `toLowerCase`, `trim`,
    `includes` and `Array.prototype.some`, restricted to ASCII letters and
    ASCII white space. */
module Text {

  /** ASCII white space and line terminators, as removed by `trim`. */
  predicate IsSpace(c: char) {
    c == ' ' || c == '\t' || c == '\n' || c == '\r' || c == '\U{0B}' || c == '\U{0C}'
  }

  /** A string that starts and ends with something other than white space. */
  predicate Trimmed(s: string) {
    s == [] || (!IsSpace(s[0]) && !IsSpace(s[|s| - 1]))
  }

  function LowerChar(c: char): char {
    if 'A' <= c <= 'Z' then (c as int + 32) as char else c
  }

  /** `toLowerCase` on ASCII letters; every other character is kept. */
  function Lower(s: string): string {
    seq(|s|, i requires 0 <= i < |s| => LowerChar(s[i]))
  }

  /** Two characters that `toLowerCase` cannot tell apart: equal, or the
      same ASCII letter in its two cases. */
  predicate SameIgnoringAsciiCase(a: char, b: char) {
    a == b ||
    ('A' <= a <= 'Z' && b as int == a as int + ('a' as int - 'A' as int)) ||
    ('A' <= b <= 'Z' && a as int == b as int + ('a' as int - 'A' as int))
  }

  /** Lowercasing keeps the length, turns each ASCII capital into its own
      small letter, keeps every other character, and a second pass changes
      nothing. */
  lemma LowerFolds(s: string)
    ensures |Lower(s)| == |s|
    ensures forall i :: 0 <= i < |s| && 'A' <= s[i] <= 'Z' ==>
      Lower(s)[i] == (s[i] as int - 'A' as int + 'a' as int) as char
    ensures forall i :: 0 <= i < |s| && !('A' <= s[i] <= 'Z') ==> Lower(s)[i] == s[i]
    ensures forall i :: 0 <= i < |s| ==> !('A' <= Lower(s)[i] <= 'Z')
    ensures Lower(Lower(s)) == Lower(s)
  {
    var l := Lower(s);
    forall i | 0 <= i < |s| ensures Lower(l)[i] == l[i] {
      assert !('A' <= l[i] <= 'Z');
    }
  }

  /** The case-insensitive comparison `x.toLowerCase() === y.toLowerCase()`
      holds exactly when the strings agree character by character up to
      the case of ASCII letters. */
  lemma LowerMatches(x: string, y: string)
    ensures Lower(x) == Lower(y) <==>
      |x| == |y| && forall i :: 0 <= i < |x| ==> SameIgnoringAsciiCase(x[i], y[i])
  {
    if Lower(x) == Lower(y) {
      forall i | 0 <= i < |x| ensures SameIgnoringAsciiCase(x[i], y[i]) {
        assert LowerChar(x[i]) == Lower(x)[i] == Lower(y)[i] == LowerChar(y[i]);
      }
    }
    if |x| == |y| && forall i :: 0 <= i < |x| ==> SameIgnoringAsciiCase(x[i], y[i]) {
      forall i | 0 <= i < |x| ensures Lower(x)[i] == Lower(y)[i] {
        assert SameIgnoringAsciiCase(x[i], y[i]);
      }
    }
  }

  function TrimStart(s: string): string {
    if s != [] && IsSpace(s[0]) then TrimStart(s[1..]) else s
  }

  function TrimEnd(s: string): string {
    if s != [] && IsSpace(s[|s| - 1]) then TrimEnd(s[..|s| - 1]) else s
  }

  /** A slice of a suffix is a slice of the whole. */
  lemma SliceOfSuffix<T>(s: seq<T>, k: nat, i: nat, j: nat)
    requires k <= |s| && i <= j <= |s| - k
    ensures s[k..][i..j] == s[k + i..k + j]
  {
    forall n | 0 <= n < j - i ensures s[k..][i..j][n] == s[k + i..k + j][n] {
      assert s[k..][i..j][n] == s[k..][i + n] == s[k + i + n];
    }
  }

  /** Leading white space is dropped, and only that. */
  lemma {:induction false} TrimStartDrops(s: string)
    ensures var r := TrimStart(s);
      |r| <= |s| && r == s[|s| - |r|..] && (r == [] || !IsSpace(r[0])) &&
      forall i :: 0 <= i < |s| - |r| ==> IsSpace(s[i])
  {
    if s != [] && IsSpace(s[0]) {
      var r := TrimStart(s[1..]);
      TrimStartDrops(s[1..]);
      SliceOfSuffix(s, 1, |s| - 1 - |r|, |s| - 1);
      forall i | 0 <= i < |s| - |r| ensures IsSpace(s[i]) {
        if i > 0 { assert s[i] == s[1..][i - 1]; }
      }
    }
  }

  /** Trailing white space is dropped, and only that. */
  lemma {:induction false} TrimEndDrops(s: string)
    ensures var r := TrimEnd(s);
      |r| <= |s| && r == s[..|r|] && (r == [] || !IsSpace(r[|r| - 1])) &&
      forall i :: |r| <= i < |s| ==> IsSpace(s[i])
  {
    if s != [] && IsSpace(s[|s| - 1]) {
      TrimEndDrops(s[..|s| - 1]);
    }
  }

  /** `trim`: the result is a slice of `s`, trimmed, obtained by dropping
      white space only, and it is empty exactly when `s` is blank. */
  function Trim(s: string): (r: string)
    ensures Trimmed(r)
    ensures r == [] <==> forall i :: 0 <= i < |s| ==> IsSpace(s[i])
    ensures Contains(s, r)
  {
    var t := TrimStart(s);
    var r := TrimEnd(t);
    TrimStartDrops(s);
    TrimEndDrops(t);
    assert r == s[|s| - |t|..|s| - |t| + |r|];
    assert OccursAt(s, r, |s| - |t|);
    if r == [] then
      r
    else
      assert !IsSpace(r[0]) by { assert r[0] == t[0]; }
      assert !IsSpace(s[|s| - |t|]);
      r
  }

  /** `trim` removes white space from the two ends and nothing else: the
      result is the slice `s[a..b]`, and everything before `a` and from `b`
      on is white space. */
  lemma TrimDropsOnlyEnds(s: string)
    ensures exists a, b :: (0 <= a <= b <= |s| && Trim(s) == s[a..b] &&
      (forall i :: 0 <= i < a ==> IsSpace(s[i])) && (forall i :: b <= i < |s| ==> IsSpace(s[i])))
  {
    var t := TrimStart(s);
    var r := TrimEnd(t);
    var a := |s| - |t|;
    var b := a + |r|;
    assert 0 <= a <= b <= |s| && Trim(s) == s[a..b] by {
      TrimStartDrops(s);
      TrimEndDrops(t);
      SliceOfSuffix(s, a, 0, |r|);
    }
    assert forall i :: 0 <= i < a ==> IsSpace(s[i]) by {
      TrimStartDrops(s);
    }
    assert forall i :: b <= i < |s| ==> IsSpace(s[i]) by {
      TrimStartDrops(s);
      TrimEndDrops(t);
      forall i | b <= i < |s| ensures IsSpace(s[i]) {
        assert s[i] == t[i - a];
      }
    }
  }

  /** `word` occurs in `text` starting at position `i`. */
  predicate OccursAt(text: string, word: string, i: int) {
    0 <= i && i + |word| <= |text| && text[i..i + |word|] == word
  }

  ghost predicate Contains(text: string, word: string) {
    exists i :: OccursAt(text, word, i)
  }

  /** `text.includes(word)`, scanning the start positions left to right. */
  function Includes(text: string, word: string): bool
    decreases |text|
  {
    if |word| > |text| then false
    else if text[..|word|] == word then true
    else Includes(text[1..], word)
  }

  lemma {:induction false} IncludesIsContains(text: string, word: string)
    ensures Includes(text, word) <==> Contains(text, word)
    decreases |text|
  {
    if |word| > |text| {
      assert forall i :: !OccursAt(text, word, i);
    } else if text[..|word|] == word {
      assert OccursAt(text, word, 0);
    } else {
      IncludesIsContains(text[1..], word);
      if Contains(text[1..], word) {
        var i :| OccursAt(text[1..], word, i);
        SliceOfSuffix(text, 1, i, i + |word|);
        assert OccursAt(text, word, i + 1);
      }
      if Contains(text, word) {
        var i :| OccursAt(text, word, i);
        assert i != 0;
        SliceOfSuffix(text, 1, i - 1, i - 1 + |word|);
        assert OccursAt(text[1..], word, i - 1);
      }
    }
  }

  /** `s.some(p)`: the elements are tried from the front. */
  function Any<T>(s: seq<T>, p: T -> bool): bool {
    |s| > 0 && (p(s[0]) || Any(s[1..], p))
  }

  lemma {:induction false} AnyIsExists<T>(s: seq<T>, p: T -> bool)
    ensures Any(s, p) <==> exists i :: 0 <= i < |s| && p(s[i])
  {
    if |s| > 0 {
      AnyIsExists(s[1..], p);
      if exists i :: 0 <= i < |s| && p(s[i]) {
        var i :| 0 <= i < |s| && p(s[i]);
        if i > 0 { assert p(s[1..][i - 1]); }
      }
      if exists i :: 0 <= i < |s| - 1 && p(s[1..][i]) {
        var i :| 0 <= i < |s| - 1 && p(s[1..][i]);
        assert p(s[i + 1]);
      }
    }
  }
}
