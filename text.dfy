/**
 * Character classes, string searches and the answer tags shared by the reward
 * functions, and the length of a two-way `zip`.
 * Strings are sequences of Unicode code points other than the surrogates
 * U+D800-U+DFFF: a Python `str` may also hold a lone surrogate, which a Dafny `char`
 * cannot, so such strings are outside this model.
 */
module Text {
  import opened Wrappers

  /**
   * The characters for which Python's `str.isspace()` holds. `str.strip()` with no
   * argument removes exactly these, and the regular-expression class `\s` on a `str`
   * pattern matches exactly these.
   */
  predicate IsWhitespace(c: char) {
    || ('\t' <= c <= '\r')
    || ('\U{1C}' <= c <= '\U{1F}')
    || c == ' '
    || c == '\U{85}'
    || c == '\U{A0}'
    || c == '\U{1680}'
    || ('\U{2000}' <= c <= '\U{200A}')
    || c == '\U{2028}'
    || c == '\U{2029}'
    || c == '\U{202F}'
    || c == '\U{205F}'
    || c == '\U{3000}'
  }

  /** The tags that open and close the answer section of a response. */
  const AnswerOpen: string := "<answer>"
  const AnswerClose: string := "</answer>"

  /** The length of `zip(xs, ys)`: the shorter of the two lengths. */
  function Min(a: nat, b: nat): (m: nat)
    ensures m <= a && m <= b && (m == a || m == b)
  {
    if a < b then a else b
  }

  predicate AllWhitespace(s: string) {
    forall i :: 0 <= i < |s| ==> IsWhitespace(s[i])
  }

  /** Length of the longest all-whitespace prefix of `s`. */
  function LeadingWhitespace(s: string): (n: nat)
    ensures n <= |s| && AllWhitespace(s[..n])
    ensures n < |s| ==> !IsWhitespace(s[n])
  {
    if s == [] || !IsWhitespace(s[0]) then 0
    else
      var n := 1 + LeadingWhitespace(s[1..]);
      assert s[..n] == [s[0]] + s[1..][..n - 1];
      n
  }

  /** A whitespace prefix followed by a non-whitespace character, or by nothing, is the longest one. */
  lemma {:induction false} LeadingWhitespaceUnique(s: string, n: nat)
    requires n <= |s| && AllWhitespace(s[..n]) && (n < |s| ==> !IsWhitespace(s[n]))
    ensures LeadingWhitespace(s) == n
  {
    if n > 0 {
      assert IsWhitespace(s[..n][0]);
      assert s[1..][..n - 1] == s[..n][1..];
      LeadingWhitespaceUnique(s[1..], n - 1);
    }
  }

  /** Length of the longest all-whitespace suffix of `s`. */
  function TrailingWhitespace(s: string): (n: nat)
    ensures n <= |s| && AllWhitespace(s[|s| - n..])
    ensures n < |s| ==> !IsWhitespace(s[|s| - n - 1])
  {
    if s == [] || !IsWhitespace(s[|s| - 1]) then 0
    else
      var t := s[..|s| - 1];
      var n := 1 + TrailingWhitespace(t);
      assert s[|s| - n..] == t[|t| - (n - 1)..] + [s[|s| - 1]];
      n
  }

  /** `s[i..j]` is what is left of `s` once whitespace is cut from both ends. */
  predicate TrimmedAt(s: string, i: nat, j: nat) {
    && i <= j <= |s|
    && AllWhitespace(s[..i]) && AllWhitespace(s[j..])
    && (i < j ==> !IsWhitespace(s[i]) && !IsWhitespace(s[j - 1]))
  }

  /** Python's `str.strip()`: cut the whitespace from both ends. */
  function Strip(s: string): (r: string)
    ensures exists i: nat, j: nat :: TrimmedAt(s, i, j) && r == s[i..j]
    ensures r == [] || (!IsWhitespace(r[0]) && !IsWhitespace(r[|r| - 1]))
  {
    var i := LeadingWhitespace(s);
    if i == |s| then
      assert TrimmedAt(s, i, i);
      []
    else
      var j := |s| - TrailingWhitespace(s);
      assert TrimmedAt(s, i, j);
      s[i..j]
  }

  /** Only one factor of `s` is whitespace-trimmed, so `Strip` is determined by its contract. */
  lemma {:induction false} TrimmedUnique(s: string, i: nat, j: nat, i': nat, j': nat)
    requires TrimmedAt(s, i, j) && TrimmedAt(s, i', j')
    ensures s[i..j] == s[i'..j']
  {
  }

  /** Stripping is idempotent. */
  lemma {:induction false} StripIdempotent(s: string)
    ensures Strip(Strip(s)) == Strip(s)
  {
    var r := Strip(s);
    assert TrimmedAt(r, 0, |r|);
    var i: nat, j: nat :| TrimmedAt(r, i, j) && Strip(r) == r[i..j];
    TrimmedUnique(r, 0, |r|, i, j);
  }

  /** `pat` occurs in `s` starting at index `i`. */
  predicate IsAt(s: string, pat: string, i: nat) {
    i + |pat| <= |s| && s[i..i + |pat|] == pat
  }

  /** The first index at or after `from` where `pat` occurs (Python's `str.find(pat, from)`). */
  function FindFrom(s: string, pat: string, from: nat): (r: Option<nat>)
    decreases |s| - from
    ensures r.Some? ==> from <= r.value && IsAt(s, pat, r.value)
    ensures r.Some? ==> forall k :: from <= k < r.value ==> !IsAt(s, pat, k)
    ensures r.None? ==> forall k :: from <= k ==> !IsAt(s, pat, k)
  {
    if from + |pat| > |s| then None
    else if IsAt(s, pat, from) then Some(from)
    else FindFrom(s, pat, from + 1)
  }

  /** An occurrence with none before it, from `from` on, is the one `FindFrom` finds. */
  lemma {:induction false} FindFromUnique(s: string, pat: string, from: nat, p: nat)
    requires from <= p && IsAt(s, pat, p) && forall k :: from <= k < p ==> !IsAt(s, pat, k)
    ensures FindFrom(s, pat, from) == Some(p)
  {
  }

  /** The first index at or after `from` holding `c` (Python's `str.find(c, from)` for one character). */
  function IndexOf(s: string, c: char, from: nat): (r: Option<nat>)
    decreases |s| - from
    ensures r.Some? ==> from <= r.value < |s| && s[r.value] == c
    ensures r.Some? ==> forall k :: from <= k < r.value ==> s[k] != c
    ensures r.None? ==> forall k :: from <= k < |s| ==> s[k] != c
  {
    if from >= |s| then None
    else if s[from] == c then Some(from)
    else IndexOf(s, c, from + 1)
  }

  /** The last index holding `c` among the first `n` characters of `s`. */
  function LastIndexOf(s: string, c: char, n: nat): (r: Option<nat>)
    requires n <= |s|
    ensures r.Some? ==> r.value < n && s[r.value] == c
    ensures r.Some? ==> forall k :: r.value < k < n ==> s[k] != c
    ensures r.None? ==> forall k :: 0 <= k < n ==> s[k] != c
  {
    if n == 0 then None
    else if s[n - 1] == c then Some(n - 1)
    else LastIndexOf(s, c, n - 1)
  }

  /** ASCII case folding; the rest of Unicode is left as it is. */
  function LowerChar(c: char): char {
    if 'A' <= c <= 'Z' then (c as int + 32) as char else c
  }

  /** Python's `str.lower()` restricted to ASCII letters. */
  function Lower(s: string): (r: string)
    ensures |r| == |s|
    ensures forall i :: 0 <= i < |s| ==> r[i] == LowerChar(s[i])
  {
    if s == [] then [] else [LowerChar(s[0])] + Lower(s[1..])
  }

  /** Python's `s.replace(" ", "")`. */
  function RemoveSpaces(s: string): (r: string)
    ensures ' ' !in r
    ensures |r| <= |s|
    ensures ' ' !in s ==> r == s
    ensures |s| == 1 ==> r == if s[0] == ' ' then [] else s
  {
    if s == [] then []
    else if s[0] == ' ' then RemoveSpaces(s[1..])
    else [s[0]] + RemoveSpaces(s[1..])
  }

  /**
   * Removing spaces works piece by piece; with the one-character case in the contract of
   * `RemoveSpaces`, this determines it: every non-space character is kept, in order.
   */
  lemma {:induction false} RemoveSpacesAppend(a: string, b: string)
    ensures RemoveSpaces(a + b) == RemoveSpaces(a) + RemoveSpaces(b)
  {
    if a != [] {
      assert (a + b)[1..] == a[1..] + b;
      RemoveSpacesAppend(a[1..], b);
    } else {
      assert a + b == b;
    }
  }
}
