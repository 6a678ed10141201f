/** Text tests the annotators apply to page text before they offer a QR code for it:
    the whitespace trim that `String.prototype.trim` performs, and the three credential
    shapes (Reddit client ID, Reddit fallback heading, Giphy API key). */
module Keys {

  /** Lower bound (exclusive) on the length of a Reddit client ID. */
  const RedditIdMinExclusive: nat := 10
  /** Lower bound (inclusive) on the length of a fallback Reddit heading. */
  const FallbackKeyMinLength: nat := 20
  /** Exact length of a Giphy API key. */
  const GiphyKeyLength: nat := 32

  /** The code points ECMAScript counts as WhiteSpace or LineTerminator, i.e. the ones
      `trim` strips from both ends of a string. */
  predicate IsJsWhitespace(c: char) {
    c == '\t' || c == '\n' || c == '\U{B}' || c == '\U{C}' || c == '\r' || c == ' '
    || c == '\U{A0}' || c == '\U{1680}' || ('\U{2000}' <= c <= '\U{200A}')
    || c == '\U{2028}' || c == '\U{2029}' || c == '\U{202F}' || c == '\U{205F}'
    || c == '\U{3000}' || c == '\U{FEFF}'
  }

  predicate AllWhitespace(s: string) {
    forall k :: 0 <= k < |s| ==> IsJsWhitespace(s[k])
  }

  /** Neither end of `s` is whitespace (an empty string qualifies). */
  predicate Unpadded(s: string) {
    s == [] || (!IsJsWhitespace(s[0]) && !IsJsWhitespace(s[|s| - 1]))
  }

  /** The first position at or after `i` that does not hold whitespace (or `|s|`). */
  function SkipWhitespace(s: string, i: nat): (n: nat)
    requires i <= |s|
    ensures i <= n <= |s|
    ensures forall k :: i <= k < n ==> IsJsWhitespace(s[k])
    ensures n < |s| ==> !IsJsWhitespace(s[n])
    decreases |s| - i
  {
    if i < |s| && IsJsWhitespace(s[i]) then SkipWhitespace(s, i + 1) else i
  }

  /** The end of `s[lo..j]` once its trailing whitespace is cut off. */
  function SkipWhitespaceBack(s: string, lo: nat, j: nat): (m: nat)
    requires lo <= j <= |s|
    ensures lo <= m <= j
    ensures forall k :: m <= k < j ==> IsJsWhitespace(s[k])
    ensures m > lo ==> !IsJsWhitespace(s[m - 1])
    decreases j
  {
    if j > lo && IsJsWhitespace(s[j - 1]) then SkipWhitespaceBack(s, lo, j - 1) else j
  }

  /** `String.prototype.trim`: whitespace is cut from the front, then from the back.
      What is left starts and ends with a non-whitespace character, or is empty. */
  function Trim(s: string): (r: string)
    ensures |r| <= |s| && Unpadded(r)
  {
    var i := SkipWhitespace(s, 0);
    var j := SkipWhitespaceBack(s, i, |s|);
    s[i..j]
  }

  /** Only whitespace is cut away: `s` is its trim with whitespace on either side.
      Together with `Unpadded` and `TrimOfPadded` this pins the trim down. */
  lemma TrimCutsOnlyWhitespace(s: string)
    ensures exists pre, post :: s == pre + Trim(s) + post && AllWhitespace(pre) && AllWhitespace(post)
  {
    var i := SkipWhitespace(s, 0);
    var j := SkipWhitespaceBack(s, i, |s|);
    SplitThree(s, i, j);
    assert AllWhitespace(s[..i]) by {
      forall k | 0 <= k < i
        ensures IsJsWhitespace(s[..i][k])
      {
        assert s[..i][k] == s[k];
      }
    }
    assert AllWhitespace(s[j..]) by {
      forall k | 0 <= k < |s| - j
        ensures IsJsWhitespace(s[j..][k])
      {
        assert s[j..][k] == s[j + k];
      }
    }
  }

  lemma SplitThree(s: string, i: nat, j: nat)
    requires i <= j <= |s|
    ensures s == s[..i] + s[i..j] + s[j..]
  {
  }

  /** A string of whitespace alone trims to the empty string. */
  lemma TrimOfBlank(s: string)
    requires AllWhitespace(s)
    ensures Trim(s) == []
  {
  }

  /** Trimming a trimmed string changes nothing. */
  lemma TrimIdempotent(s: string)
    ensures Trim(Trim(s)) == Trim(s)
  {
    TrimOfUnpadded(Trim(s));
  }

  /** A string without whitespace at its ends is its own trim. */
  lemma TrimOfUnpadded(s: string)
    requires Unpadded(s)
    ensures Trim(s) == s
  {
    if s != [] {
      assert SkipWhitespace(s, 0) == 0;
      assert SkipWhitespaceBack(s, 0, |s|) == |s|;
    }
  }

  /** The character class `[a-zA-Z0-9_-]`. */
  predicate IsIdChar(c: char) {
    ('a' <= c <= 'z') || ('A' <= c <= 'Z') || ('0' <= c <= '9') || c == '_' || c == '-'
  }

  /** The character class `[a-zA-Z0-9]`. */
  predicate IsAlnum(c: char) {
    ('a' <= c <= 'z') || ('A' <= c <= 'Z') || ('0' <= c <= '9')
  }

  /** The whole string matches `^[a-zA-Z0-9_-]+$`. */
  predicate MatchesIdPattern(s: string) {
    s != [] && forall k :: 0 <= k < |s| ==> IsIdChar(s[k])
  }

  /** The whole string matches `^[a-zA-Z0-9]+$`. */
  predicate MatchesAlnumPattern(s: string) {
    s != [] && forall k :: 0 <= k < |s| ==> IsAlnum(s[k])
  }

  /** A trimmed heading taken as a Reddit client ID: non-empty, longer than 10
      characters, all from `[a-zA-Z0-9_-]`. */
  predicate IsRedditClientId(t: string) {
    t != [] && |t| > RedditIdMinExclusive && MatchesIdPattern(t)
  }

  /** A trimmed heading taken by the looser fallback pass: non-empty, at least 20
      characters, all from `[a-zA-Z0-9_-]`. */
  predicate IsRedditFallbackKey(t: string) {
    t != [] && |t| >= FallbackKeyMinLength && MatchesIdPattern(t)
  }

  /** A trimmed input value taken as a Giphy API key: exactly 32 characters, all
      from `[a-zA-Z0-9]`. */
  predicate IsGiphyKey(t: string) {
    t != [] && |t| == GiphyKeyLength && MatchesAlnumPattern(t)
  }

  /** Every heading the fallback pass accepts would also pass the primary test, so a
      heading the primary test rejected for its text is rejected by the fallback too. */
  lemma FallbackKeyIsClientId(t: string)
    ensures IsRedditFallbackKey(t) ==> IsRedditClientId(t)
    ensures !IsRedditClientId(t) ==> !IsRedditFallbackKey(t)
  {
  }

  /** A Giphy key is judged character by character: it is accepted exactly when it has
      32 characters none of which is outside `[a-zA-Z0-9]`; in particular `_` and `-`,
      which the Reddit pattern allows, make a 32-character value fail. The first clause
      spells the definition out without its redundant emptiness test; the second is the
      consequence the dashboard relies on. */
  lemma GiphyKeyCharacterisation(t: string)
    ensures IsGiphyKey(t) <==> |t| == 32 && forall k :: 0 <= k < |t| ==> IsAlnum(t[k])
    ensures ('_' in t || '-' in t) ==> !IsGiphyKey(t)
  {
    if '_' in t || '-' in t {
      var k :| 0 <= k < |t| && (t[k] == '_' || t[k] == '-');
      assert !IsAlnum(t[k]);
    }
  }

  /** The trim happens before the test: whitespace around a key never makes it fail. */
  lemma GiphyKeyIgnoresPadding(pre: string, key: string, post: string)
    requires AllWhitespace(pre) && AllWhitespace(post) && IsGiphyKey(key)
    ensures IsGiphyKey(Trim(pre + key + post))
  {
    TrimOfPadded(pre, key, post);
  }

  /** Trimming a key that is surrounded by whitespace gives the key back. */
  lemma TrimOfPadded(pre: string, key: string, post: string)
    requires AllWhitespace(pre) && AllWhitespace(post)
    requires key != [] && Unpadded(key)
    ensures Trim(pre + key + post) == key
  {
    var s := pre + key + post;
    var i := |pre|;
    var j := |pre| + |key|;
    assert s[i] == key[0] && s[j - 1] == key[|key| - 1];
    assert forall k :: 0 <= k < i ==> s[k] == pre[k];
    assert forall k :: j <= k < |s| ==> s[k] == post[k - j];
    assert SkipWhitespace(s, 0) == i;
    assert SkipWhitespaceBack(s, i, |s|) == j;
    assert s[i..j] == key;
  }
}
