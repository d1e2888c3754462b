/**
 * Reward functions for the medical tasks: a multiple-choice reward that looks for the
 * answer between `<answer>` tags, a set-F1 diagnosis score, and the e-POCT episode
 * reward that combines the diagnosis score with path, step, safety and abnormality terms.
 */
module GrpoRewards {
  import opened Wrappers
  import opened Text
  import opened Fractions

  // ---------------------------------------------------------------------------
  // Answer normalisation
  // ---------------------------------------------------------------------------

  /** `a.replace(" ", "").lower()`: drop the spaces, then fold ASCII capitals. */
  function Normalize(a: string): (r: string)
    ensures |r| == |RemoveSpaces(a)| <= |a|
    ensures forall i :: 0 <= i < |r| ==> r[i] == LowerChar(RemoveSpaces(a)[i])
    ensures ' ' !in r
    ensures forall i :: 0 <= i < |r| ==> !('A' <= r[i] <= 'Z')
  {
    var t := RemoveSpaces(a);
    var r := Lower(t);
    assert forall i :: 0 <= i < |r| ==> r[i] == LowerChar(t[i]) && t[i] != ' ';
    r
  }

  /** Normalising twice changes nothing more than normalising once. */
  lemma {:induction false} NormalizeIdempotent(a: string)
    ensures Normalize(Normalize(a)) == Normalize(a)
  {
    var r := Normalize(a);
    assert RemoveSpaces(r) == r;
    var l := Lower(r);
    assert forall i :: 0 <= i < |r| ==> l[i] == r[i];
  }

  /** The list of normalised correct answers, in order. */
  function NormalizeAll(answers: seq<string>): (r: seq<string>)
    ensures |r| == |answers|
    ensures forall i :: 0 <= i < |r| ==> r[i] == Normalize(answers[i])
  {
    seq(|answers|, i requires 0 <= i < |answers| => Normalize(answers[i]))
  }

  // ---------------------------------------------------------------------------
  // The answer-tag search
  // ---------------------------------------------------------------------------

  // The pattern as written both opens and closes the answer with `AnswerOpen`; the
  // closing tag it evidently means is `AnswerClose`. That intent is inferred, not
  // stated: the comment above the pattern speaks of the answer inside `<answer>` tags,
  // and the repository's other extractor reads `<answer>...</answer>`
  // (grpo_code/rewards.py:31).

  /**
   * Case-insensitive matching of one pattern character: ASCII capitals fold to their
   * lower-case letter, and the long s (U+017F) matches `s` as it does in Python's `re`.
   */
  predicate CharMatches(c: char, p: char) {
    LowerChar(c) == p || (p == 's' && c == 'ſ')
  }

  /** The literal `tag` occurs at index `i` of `s`, ignoring case. */
  predicate TagAt(s: string, tag: string, i: nat) {
    i + |tag| <= |s| && forall k :: 0 <= k < |tag| ==> CharMatches(s[i + k], tag[k])
  }

  /** A tag the search may close on: it starts with `<`, which is not whitespace. */
  predicate ClosingTag(tag: string) {
    |tag| > 0 && tag[0] == '<'
  }

  /** Every character of `s[i..j]` is whitespace (what `\s*` consumes). */
  predicate WsSpan(s: string, i: nat, j: nat) {
    forall k :: i <= k < j && k < |s| ==> IsWhitespace(s[k])
  }

  /** No character of `s[i..j]` is a newline (what `.` consumes without DOTALL). */
  predicate NoNewline(s: string, i: nat, j: nat) {
    forall k :: i <= k < j && k < |s| ==> s[k] != '\n'
  }

  /** Where a greedy `\s*` starting at `i` stops: the first non-whitespace index. */
  function WsEnd(s: string, i: nat): (r: nat)
    requires i <= |s|
    decreases |s| - i
    ensures i <= r <= |s| && WsSpan(s, i, r)
    ensures r < |s| ==> !IsWhitespace(s[r])
  {
    if i < |s| && IsWhitespace(s[i]) then WsEnd(s, i + 1) else i
  }

  /** The greedy end is the only end of a whitespace run followed by a non-whitespace character. */
  lemma {:induction false} WsEndUnique(s: string, i: nat, r: nat)
    requires i <= r <= |s| && WsSpan(s, i, r) && (r < |s| ==> !IsWhitespace(s[r]))
    decreases r - i
    ensures WsEnd(s, i) == r
  {
    if i < r {
      WsEndUnique(s, i + 1, r);
    }
  }

  /** The greedy run is the longest whitespace prefix of the rest, as `LeadingWhitespace` measures it. */
  lemma {:induction false} WsEndLeading(s: string, i: nat)
    requires i <= |s|
    ensures WsEnd(s, i) == i + LeadingWhitespace(s[i..])
  {
    var n := LeadingWhitespace(s[i..]);
    assert forall k :: i <= k < i + n ==> s[k] == s[i..][..n][k - i];
    WsEndUnique(s, i, i + n);
  }

  /** A whitespace run from `i` ends no later than the greedy end. */
  lemma {:induction false} WsSpanWithin(s: string, i: nat, m: nat)
    requires i <= m <= |s| && WsSpan(s, i, m)
    ensures m <= WsEnd(s, i)
  {
  }

  /** The greedy end stops at or before any non-whitespace character. */
  lemma {:induction false} WsEndStops(s: string, i: nat, m: nat)
    requires i <= m < |s| && !IsWhitespace(s[m])
    ensures WsEnd(s, i) <= m
  {
  }

  /**
   * `<answer>\s*(.*?)\s*` followed by `close` matches at `p` with group `s[j..e]` and the
   * closing tag at `w`.
   */
  predicate MatchWith(s: string, close: string, p: nat, j: nat, e: nat, w: nat) {
    && TagAt(s, AnswerOpen, p)
    && p + |AnswerOpen| <= j <= e <= w
    && WsSpan(s, p + |AnswerOpen|, j) && NoNewline(s, j, e) && WsSpan(s, e, w)
    && TagAt(s, close, w)
  }

  /**
   * The lazy group: the first end `e` from `from` on, reached without crossing a newline,
   * after which the whitespace run is followed by `close`.
   */
  function GroupEnd(s: string, close: string, from: nat): (r: Option<nat>)
    requires from <= |s|
    decreases |s| - from
    ensures r.Some? ==> from <= r.value <= |s|
  {
    if TagAt(s, close, WsEnd(s, from)) then Some(from)
    else if from < |s| && s[from] != '\n' then GroupEnd(s, close, from + 1)
    else None
  }

  /** The end `GroupEnd` reports is reached without crossing a newline and is followed by `close`. */
  lemma {:induction false} GroupEndFound(s: string, close: string, from: nat)
    requires from <= |s|
    decreases |s| - from
    ensures var r := GroupEnd(s, close, from);
      r.Some? ==> NoNewline(s, from, r.value) && TagAt(s, close, WsEnd(s, r.value))
  {
    if !TagAt(s, close, WsEnd(s, from)) && from < |s| && s[from] != '\n' {
      GroupEndFound(s, close, from + 1);
    }
  }

  /**
   * No earlier end from `from` on is followed by `close`, and `GroupEnd` reports `None` only
   * when no end before the first newline is.
   */
  lemma {:induction false} GroupEndSpec(s: string, close: string, from: nat)
    requires from <= |s|
    decreases |s| - from
    ensures var r := GroupEnd(s, close, from);
      && (r.Some? ==> forall e :: from <= e < r.value ==> !TagAt(s, close, WsEnd(s, e)))
      && (r.None? ==> forall e :: from <= e <= |s| && NoNewline(s, from, e) ==> !TagAt(s, close, WsEnd(s, e)))
  {
    if !TagAt(s, close, WsEnd(s, from)) && from < |s| && s[from] != '\n' {
      GroupEndSpec(s, close, from + 1);
    }
  }

  /** The first qualifying end is the one `GroupEnd` reports. */
  lemma {:induction false} GroupEndUnique(s: string, close: string, from: nat, e: nat)
    requires from <= e <= |s| && NoNewline(s, from, e) && TagAt(s, close, WsEnd(s, e))
    requires forall k :: from <= k < e ==> !TagAt(s, close, WsEnd(s, k))
    decreases e - from
    ensures GroupEnd(s, close, from) == Some(e)
  {
    if from < e {
      GroupEndUnique(s, close, from + 1, e);
    }
  }

  /** The match the regular-expression engine reports at `p`: the group bounds `(j, e)`. */
  function MatchAt(s: string, close: string, p: nat): Option<(nat, nat)> {
    if !TagAt(s, AnswerOpen, p) then None
    else
      var j := WsEnd(s, p + |AnswerOpen|);
      match GroupEnd(s, close, j)
      case None => None
      case Some(e) => Some((j, e))
  }

  /** A closing tag sits at the end of the whitespace run that precedes it. */
  lemma {:induction false} CloseAtWsEnd(s: string, close: string, e: nat, w: nat)
    requires ClosingTag(close) && e <= w && WsSpan(s, e, w) && TagAt(s, close, w)
    ensures WsEnd(s, e) == w
  {
    assert CharMatches(s[w], close[0]);
    WsEndUnique(s, e, w);
  }

  /**
   * At `p` the engine finds a match exactly when one exists, and the one it reports comes
   * first in backtracking order: the longest leading whitespace, then the shortest group.
   */
  lemma {:induction false} MatchAtSpec(s: string, close: string, p: nat)
    requires ClosingTag(close)
    ensures MatchAt(s, close, p).Some? ==>
      var (j, e) := MatchAt(s, close, p).value;
      MatchWith(s, close, p, j, e, WsEnd(s, e))
    ensures MatchAt(s, close, p).Some? ==>
      var (j, e) := MatchAt(s, close, p).value;
      forall j': nat, e': nat, w': nat :: MatchWith(s, close, p, j', e', w') ==> j' <= j && (j' == j ==> e <= e')
    ensures MatchAt(s, close, p).None? ==> forall j': nat, e': nat, w': nat :: !MatchWith(s, close, p, j', e', w')
  {
    if TagAt(s, AnswerOpen, p) {
      var j := WsEnd(s, p + |AnswerOpen|);
      GroupEndFound(s, close, j);
      forall j': nat, e': nat, w': nat | MatchWith(s, close, p, j', e', w')
        ensures GroupEnd(s, close, j).Some?
        ensures j' <= j
        ensures j' == j ==> GroupEnd(s, close, j).value <= e'
      {
        MatchAtOther(s, close, p, j', e', w');
      }
    }
  }

  /** Any match at `p` starts its group no later than the greedy whitespace end, and leaves the engine's group no longer. */
  lemma {:induction false} MatchAtOther(s: string, close: string, p: nat, j': nat, e': nat, w': nat)
    requires ClosingTag(close) && MatchWith(s, close, p, j', e', w')
    ensures GroupEnd(s, close, WsEnd(s, p + |AnswerOpen|)).Some?
    ensures j' <= WsEnd(s, p + |AnswerOpen|)
    ensures j' == WsEnd(s, p + |AnswerOpen|) ==> GroupEnd(s, close, WsEnd(s, p + |AnswerOpen|)).value <= e'
  {
    var j := WsEnd(s, p + |AnswerOpen|);
    WsSpanWithin(s, p + |AnswerOpen|, j');
    CloseAtWsEnd(s, close, e', w');
    GroupEndFound(s, close, j);
    GroupEndSpec(s, close, j);
    if e' < j {
      WsEndUnique(s, e', j);
      WsEndUnique(s, j, j);
    } else {
      assert NoNewline(s, j, e');
    }
  }

  /** The pattern matches at none of the starts `from .. to - 1`. */
  predicate NoMatchIn(s: string, close: string, from: nat, to: nat)
    decreases to - from
  {
    from >= to || (MatchAt(s, close, from).None? && NoMatchIn(s, close, from + 1, to))
  }

  /** A start inside a match-free range has no match. */
  lemma {:induction false} NoMatchAt(s: string, close: string, from: nat, to: nat, k: nat)
    requires NoMatchIn(s, close, from, to) && from <= k < to
    decreases k - from
    ensures MatchAt(s, close, k).None?
  {
    if from < k {
      NoMatchAt(s, close, from + 1, to, k);
    }
  }

  /** `re.search`: the leftmost start from `from` on at which the pattern matches. */
  function Search(s: string, close: string, from: nat): (r: Option<(nat, nat, nat)>)
    requires from <= |s|
    decreases |s| - from
    ensures r.Some? ==> from <= r.value.0 && MatchAt(s, close, r.value.0) == Some((r.value.1, r.value.2))
    ensures r.Some? ==> NoMatchIn(s, close, from, r.value.0)
    ensures r.None? ==> NoMatchIn(s, close, from, |s| + 1)
  {
    match MatchAt(s, close, from)
    case Some((j, e)) => Some((from, j, e))
    case None => if from == |s| then None else Search(s, close, from + 1)
  }

  /**
   * The search finds a match exactly when one exists, and reports the first one in the
   * engine's order: leftmost start, then longest leading whitespace, then shortest group.
   */
  lemma {:induction false} SearchSpec(s: string, close: string)
    requires ClosingTag(close)
    ensures Search(s, close, 0).Some? ==>
      var (p, j, e) := Search(s, close, 0).value;
      MatchWith(s, close, p, j, e, WsEnd(s, e))
    ensures Search(s, close, 0).Some? ==>
      var (p, j, e) := Search(s, close, 0).value;
      forall p': nat, j': nat, e': nat, w': nat :: MatchWith(s, close, p', j', e', w') ==>
        p <= p' && (p' == p ==> j' <= j && (j' == j ==> e <= e'))
    ensures Search(s, close, 0).None? ==>
      forall p': nat, j': nat, e': nat, w': nat :: !MatchWith(s, close, p', j', e', w')
  {
    var r := Search(s, close, 0);
    if r.Some? {
      MatchAtSpec(s, close, r.value.0);
    }
    forall p': nat, j': nat, e': nat, w': nat | MatchWith(s, close, p', j', e', w')
      ensures r.Some? && r.value.0 <= p'
    {
      SearchLeftmost(s, close, p', j', e', w');
    }
  }

  /** Any match starts no earlier than the one the search reports, so the search reports one. */
  lemma {:induction false} SearchLeftmost(s: string, close: string, p: nat, j: nat, e: nat, w: nat)
    requires ClosingTag(close) && MatchWith(s, close, p, j, e, w)
    ensures Search(s, close, 0).Some? && Search(s, close, 0).value.0 <= p
  {
    MatchAtSpec(s, close, p);
    var r := Search(s, close, 0);
    if r.None? {
      NoMatchAt(s, close, 0, |s| + 1, p);
    } else if p < r.value.0 {
      NoMatchAt(s, close, 0, r.value.0, p);
    }
  }

  /** `match.group(1)` of the search, or `None` when the pattern does not occur. */
  function ExtractGroup(s: string, close: string): Option<string> {
    match Search(s, close, 0)
    case None => None
    case Some((_, j, e)) => Some(s[j..e])
  }

  /** The group `GroupEnd` delimits holds no newline and does not end in whitespace. */
  lemma {:induction false} GroupEndTrimmed(s: string, close: string, j: nat, e: nat)
    requires j <= |s| && GroupEnd(s, close, j) == Some(e)
    ensures NoNewline(s, j, e)
    ensures j < e ==> !IsWhitespace(s[e - 1])
  {
    GroupEndFound(s, close, j);
    if j < e && IsWhitespace(s[e - 1]) {
      WsEndUnique(s, e - 1, WsEnd(s, e));
      GroupEndSpec(s, close, j);
    }
  }

  /** A group ending where `GroupEnd` says, after a greedy whitespace run, holds no newline and is trimmed. */
  lemma {:induction false} GroupTrimmed(s: string, close: string, i: nat, e: nat)
    requires i <= |s| && GroupEnd(s, close, WsEnd(s, i)) == Some(e)
    ensures var g := s[WsEnd(s, i)..e];
      '\n' !in g && (g != [] ==> !IsWhitespace(g[0]) && !IsWhitespace(g[|g| - 1]))
  {
    var j := WsEnd(s, i);
    GroupEndTrimmed(s, close, j, e);
    var g := s[j..e];
    assert forall k :: 0 <= k < |g| ==> g[k] == s[j + k];
  }

  /** The captured answer holds no newline and starts and ends with a non-whitespace character. */
  lemma {:induction false} ExtractGroupTrimmed(s: string, close: string)
    ensures ExtractGroup(s, close).Some? ==>
      var g := ExtractGroup(s, close).value;
      '\n' !in g && (g != [] ==> !IsWhitespace(g[0]) && !IsWhitespace(g[|g| - 1]))
  {
    var r := Search(s, close, 0);
    if r.Some? {
      var p := r.value.0;
      assert TagAt(s, AnswerOpen, p);
      GroupTrimmed(s, close, p + |AnswerOpen|, r.value.2);
    }
  }

  /** The answer the reward extracts: the pattern closes on a second `<answer>`. */
  function McqExtract(response: string): (r: Option<string>)
    ensures r.Some? ==> '\n' !in r.value && (r.value != [] ==> !IsWhitespace(r.value[0]) && !IsWhitespace(r.value[|r.value| - 1]))
  {
    ExtractGroupTrimmed(response, AnswerOpen);
    ExtractGroup(response, AnswerOpen)
  }

  /** The answer with the inferred closing tag: the pattern closes on `</answer>`. */
  function IntendedExtract(response: string): (r: Option<string>)
    ensures r.Some? ==> '\n' !in r.value && (r.value != [] ==> !IsWhitespace(r.value[0]) && !IsWhitespace(r.value[|r.value| - 1]))
  {
    ExtractGroupTrimmed(response, AnswerClose);
    ExtractGroup(response, AnswerClose)
  }

  /** 1.0 when the extracted answer, normalised, is one of the normalised correct answers; 0.0 otherwise. */
  function AnswerScore(group: Option<string>, correct: seq<string>): (r: real)
    ensures r == 0.0 || r == 1.0
    ensures group.None? ==> r == 0.0
  {
    match group
    case None => 0.0
    case Some(g) => if Normalize(g) in NormalizeAll(correct) then 1.0 else 0.0
  }

  /** The score is 0 or 1, and 1 exactly when an answer was extracted that normalises to a correct one. */
  lemma {:induction false} AnswerScoreSpec(group: Option<string>, correct: seq<string>)
    ensures AnswerScore(group, correct) == 0.0 || AnswerScore(group, correct) == 1.0
    ensures AnswerScore(group, correct) == 1.0 <==>
      group.Some? && exists i :: 0 <= i < |correct| && Normalize(group.value) == Normalize(correct[i])
  {
    if group.Some? {
      var norm := NormalizeAll(correct);
      if Normalize(group.value) in norm {
        var i :| 0 <= i < |norm| && norm[i] == Normalize(group.value);
        assert Normalize(group.value) == Normalize(correct[i]);
      }
    }
  }

  /** The per-completion score of `mcq_reward` as written. */
  function McqScore(response: string, correct: seq<string>): (r: real)
    ensures r == 0.0 || r == 1.0
    ensures McqExtract(response).None? ==> r == 0.0
  {
    AnswerScore(McqExtract(response), correct)
  }

  /** The per-completion score with the inferred closing tag `</answer>`. */
  function IntendedMcqScore(response: string, correct: seq<string>): (r: real)
    ensures r == 0.0 || r == 1.0
    ensures IntendedExtract(response).None? ==> r == 0.0
  {
    AnswerScore(IntendedExtract(response), correct)
  }

  /** Characters of `AnswerOpen + x + AnswerClose`, position by position. */
  lemma {:induction false} TaggedChars(x: string)
    ensures var s := AnswerOpen + x + AnswerClose;
      && |s| == |x| + 17
      && (forall k :: 0 <= k < 8 ==> s[k] == AnswerOpen[k])
      && (forall k :: 0 <= k < |x| ==> s[8 + k] == x[k])
      && (forall k :: 0 <= k < 9 ==> s[8 + |x| + k] == AnswerClose[k])
  {
  }

  /** A pattern character other than a letter matches only itself. */
  lemma {:induction false} CharMatchesSelf(c: char, p: char)
    requires !('a' <= p <= 'z') && !('A' <= p <= 'Z')
    ensures CharMatches(c, p) <==> c == p
  {
    if 'A' <= c <= 'Z' {
      assert LowerChar(c) as int == c as int + 32;
    }
  }

  /** As written, a match needs two opening tags: one before the answer and one after it. */
  lemma {:induction false} McqNeedsTwoOpenTags(s: string)
    ensures McqExtract(s).Some? ==>
      exists p: nat, w: nat :: p + |AnswerOpen| <= w && TagAt(s, AnswerOpen, p) && TagAt(s, AnswerOpen, w)
  {
    SearchSpec(s, AnswerOpen);
    if Search(s, AnswerOpen, 0).Some? {
      var (p, j, e) := Search(s, AnswerOpen, 0).value;
      assert MatchWith(s, AnswerOpen, p, j, e, WsEnd(s, e));
    }
  }

  /** In `<answer>x</answer>` with no `<` in `x`, no opening tag follows the first one. */
  lemma {:induction false} NoSecondOpenTag(x: string, w: nat)
    requires '<' !in x && w >= |AnswerOpen|
    ensures !TagAt(AnswerOpen + x + AnswerClose, AnswerOpen, w)
  {
    var s := AnswerOpen + x + AnswerClose;
    TaggedChars(x);
    if w + |AnswerOpen| <= |s| {
      if w < 8 + |x| {
        assert s[w] == x[w - 8];
        CharMatchesSelf(s[w], '<');
        assert !CharMatches(s[w + 0], AnswerOpen[0]);
      } else if w == 8 + |x| {
        assert s[w + 1] == '/';
        assert !CharMatches(s[w + 1], AnswerOpen[1]);
      } else {
        assert s[w] == AnswerClose[w - 8 - |x|];
        CharMatchesSelf(s[w], '<');
        assert !CharMatches(s[w + 0], AnswerOpen[0]);
      }
    }
  }

  /**
   * As written, a response that writes its answer as `<answer>x</answer>`, with no other
   * `<` inside, never matches.
   */
  lemma {:induction false} McqMissesClosedAnswer(x: string)
    requires '<' !in x
    ensures McqExtract(AnswerOpen + x + AnswerClose) == None
  {
    var s := AnswerOpen + x + AnswerClose;
    McqNeedsTwoOpenTags(s);
    forall w: nat | |AnswerOpen| <= w
      ensures !TagAt(s, AnswerOpen, w)
    {
      NoSecondOpenTag(x, w);
    }
  }

  /**
   * With the intended closing tag, an answer written as `<answer>x</answer>` is recovered
   * exactly, for any `x` the group can hold: no `<`, no newline, no whitespace at either end.
   */
  lemma {:induction false} IntendedRecoversAnswer(x: string)
    requires '<' !in x && '\n' !in x
    requires x != [] ==> !IsWhitespace(x[0]) && !IsWhitespace(x[|x| - 1])
    ensures IntendedExtract(AnswerOpen + x + AnswerClose) == Some(x)
  {
    var s := AnswerOpen + x + AnswerClose;
    var n := 8 + |x|;
    TaggedChars(x);
    if |x| > 0 {
      assert s[8] == x[0];
    } else {
      assert s[8] == AnswerClose[0];
    }
    WsEndUnique(s, 8, 8);
    assert s[n] == AnswerClose[0];
    WsEndUnique(s, n, n);
    assert TagAt(s, AnswerClose, n);
    assert NoNewline(s, 8, n);
    forall k | 8 <= k < n
      ensures !TagAt(s, AnswerClose, WsEnd(s, k))
    {
      assert s[n - 1] == x[|x| - 1];
      WsEndStops(s, k, n - 1);
      var w := WsEnd(s, k);
      assert s[w] == x[w - 8];
      CharMatchesSelf(s[w], '<');
      assert !CharMatches(s[w + 0], AnswerClose[0]);
    }
    GroupEndUnique(s, AnswerClose, 8, n);
    assert TagAt(s, AnswerOpen, 0);
    assert MatchAt(s, AnswerClose, 0) == Some((8, n));
    assert s[8..n] == x;
  }

  /** On `<answer>B</answer>` with correct answer `B`, the reward as written gives 0.0; the intended pattern gives 1.0. */
  lemma {:induction false} McqClosedAnswerExample()
    ensures McqScore("<answer>B</answer>", ["B"]) == 0.0
    ensures IntendedMcqScore("<answer>B</answer>", ["B"]) == 1.0
  {
    assert "<answer>B</answer>" == AnswerOpen + "B" + AnswerClose;
    McqMissesClosedAnswer("B");
    IntendedRecoversAnswer("B");
    AnswerScoreSpec(Some("B"), ["B"]);
    assert Normalize("B") == Normalize(["B"][0]);
  }

  /** `[f(x, y) for x, y in zip(xs, ys)]` over the first `n` pairs. */
  function Zip<A, B, R>(xs: seq<A>, ys: seq<B>, n: nat, f: (A, B) -> R): (r: seq<R>)
    requires n <= |xs| && n <= |ys|
    ensures |r| == n
    ensures forall k :: 0 <= k < n ==> r[k] == f(xs[k], ys[k])
  {
    if n == 0 then [] else Zip(xs, ys, n - 1, f) + [f(xs[n - 1], ys[n - 1])]
  }

  /** The length of `zip` over three lists: the shortest of the three. */
  function Min3(a: nat, b: nat, c: nat): (m: nat)
    ensures m <= a && m <= b && m <= c
    ensures m == a || m == b || m == c
  {
    if a <= b && a <= c then a else if b <= c then b else c
  }

  /**
   * `mcq_reward`: one score per (prompt, completion, correct answers) triple, over the
   * shortest of the three lists, scored with the intended closing tag.
   */
  method McqReward(prompts: seq<string>, completions: seq<string>, answer: seq<seq<string>>)
    returns (rewards: seq<real>)
    ensures |rewards| == Min3(|prompts|, |completions|, |answer|)
    ensures forall i :: 0 <= i < |rewards| ==> rewards[i] == IntendedMcqScore(completions[i], answer[i])
  {
    var n := Min3(|prompts|, |completions|, |answer|);
    rewards := [];
    var i := 0;
    while i < n
      invariant i <= n && |rewards| == i
      invariant rewards == Zip(completions, answer, i, IntendedMcqScore)
    {
      var score := IntendedMcqScore(completions[i], answer[i]);
      rewards := rewards + [score];
      i := i + 1;
    }
  }

  // ---------------------------------------------------------------------------
  // Set F1 over normalised answers
  // ---------------------------------------------------------------------------

  /** `set(p.replace(" ", "").lower() for p in xs)`. */
  function NormSet(xs: seq<string>): (r: set<string>)
    ensures forall x :: x in xs ==> Normalize(x) in r
    ensures forall y :: y in r ==> exists x :: x in xs && y == Normalize(x)
  {
    set x | x in xs :: Normalize(x)
  }

  /** The normalised set is empty exactly when the list is. */
  lemma {:induction false} NormSetEmpty(xs: seq<string>)
    ensures |NormSet(xs)| == 0 <==> |xs| == 0
  {
    if |xs| > 0 {
      assert Normalize(xs[0]) in NormSet(xs);
    }
  }

  /** A subset is no larger than its superset. */
  lemma {:induction false} SubsetSize<T>(a: set<T>, b: set<T>)
    requires a <= b
    ensures |a| <= |b|
  {
    assert b == a + (b - a);
    assert a * (b - a) == {};
  }

  /** A subset as large as its superset is the whole superset. */
  lemma {:induction false} SubsetSameSize<T>(a: set<T>, b: set<T>)
    requires a <= b && |a| == |b|
    ensures a == b
  {
    assert a * b == a;
    assert |b - a| == 0;
  }

  /** Recall weighted by `alpha` plus precision weighted by `1 - alpha`, of `pred` against `gt`. */
  function F1<T>(pred: set<T>, gt: set<T>, alpha: real): real {
    var tp := |pred * gt|;
    var precision := if |pred| > 0 then tp as real / |pred| as real else 0.0;
    var recall := if |gt| > 0 then tp as real / |gt| as real else 0.0;
    alpha * recall + (1.0 - alpha) * precision
  }

  /** `compute_set_f1`: 1 when both lists are empty, 0 when one is, else `F1` of the normalised sets. */
  function SetF1(predicted: seq<string>, truth: seq<string>, alpha: real): (r: real)
  {
    if |predicted| == 0 && |truth| == 0 then 1.0
    else if |predicted| == 0 || |truth| == 0 then 0.0
    else F1(NormSet(predicted), NormSet(truth), alpha)
  }

  /** Precision and recall of two non-empty sets: fractions, 1 for inclusion, recall 0 for disjointness. */
  lemma {:induction false} PrecisionRecall<T>(pred: set<T>, gt: set<T>) returns (precision: real, recall: real)
    requires |pred| > 0 && |gt| > 0
    ensures precision == |pred * gt| as real / |pred| as real
    ensures recall == |pred * gt| as real / |gt| as real
    ensures 0.0 <= precision <= 1.0 && 0.0 <= recall <= 1.0
    ensures precision == 1.0 <==> pred * gt == pred
    ensures recall == 1.0 <==> pred * gt == gt
    ensures recall == 0.0 <==> pred * gt == {}
  {
    var tp := |pred * gt|;
    SubsetSize(pred * gt, pred);
    SubsetSize(pred * gt, gt);
    precision := tp as real / |pred| as real;
    recall := tp as real / |gt| as real;
    Fraction(tp as real, |pred| as real);
    Fraction(tp as real, |gt| as real);
    if tp == |pred| {
      SubsetSameSize(pred * gt, pred);
    }
    if tp == |gt| {
      SubsetSameSize(pred * gt, gt);
    }
  }

  /**
   * Over non-empty sets and a weight in [0, 1]: the score is in [0, 1]; equal sets score 1
   * and disjoint sets 0; with a weight strictly inside (0, 1), only equal sets score 1 and
   * only disjoint sets score 0.
   */
  lemma {:induction false} F1Spec<T>(pred: set<T>, gt: set<T>, alpha: real)
    requires |pred| > 0 && |gt| > 0 && 0.0 <= alpha <= 1.0
    ensures 0.0 <= F1(pred, gt, alpha) <= 1.0
    ensures pred == gt ==> F1(pred, gt, alpha) == 1.0
    ensures pred * gt == {} ==> F1(pred, gt, alpha) == 0.0
    ensures 0.0 < alpha < 1.0 && F1(pred, gt, alpha) == 1.0 ==> pred == gt
    ensures 0.0 < alpha < 1.0 && F1(pred, gt, alpha) == 0.0 ==> pred * gt == {}
  {
    var precision, recall := PrecisionRecall(pred, gt);
    assert F1(pred, gt, alpha) == alpha * recall + (1.0 - alpha) * precision;
    var u := BoundedProduct(alpha, recall);
    var v := BoundedProduct(1.0 - alpha, precision);
    if pred == gt {
      assert pred * gt == pred;
    }
    assert F1(pred, gt, alpha) == u + v;

  }

  /** With a weight in [0, 1] the score is a fraction in [0, 1]. */
  lemma {:induction false} SetF1Range(predicted: seq<string>, truth: seq<string>, alpha: real)
    requires 0.0 <= alpha <= 1.0
    ensures 0.0 <= SetF1(predicted, truth, alpha) <= 1.0
  {
    if |predicted| > 0 && |truth| > 0 {
      NormSetEmpty(predicted);
      NormSetEmpty(truth);
      F1Spec(NormSet(predicted), NormSet(truth), alpha);
    }
  }

  /**
   * Identical normalised sets score 1; with both weights positive, only identical sets
   * score 1.
   */
  lemma {:induction false} SetF1Perfect(predicted: seq<string>, truth: seq<string>, alpha: real)
    requires 0.0 <= alpha <= 1.0
    ensures NormSet(predicted) == NormSet(truth) ==> SetF1(predicted, truth, alpha) == 1.0
    ensures 0.0 < alpha < 1.0 && SetF1(predicted, truth, alpha) == 1.0 ==> NormSet(predicted) == NormSet(truth)
  {
    NormSetEmpty(predicted);
    NormSetEmpty(truth);
    if |predicted| > 0 && |truth| > 0 {
      F1Spec(NormSet(predicted), NormSet(truth), alpha);
    }
  }

  /**
   * When at least one list is non-empty, no common normalised answer scores 0; with
   * both weights positive, only that scores 0.
   */
  lemma {:induction false} SetF1Disjoint(predicted: seq<string>, truth: seq<string>, alpha: real)
    requires 0.0 <= alpha <= 1.0 && (|predicted| > 0 || |truth| > 0)
    ensures NormSet(predicted) * NormSet(truth) == {} ==> SetF1(predicted, truth, alpha) == 0.0
    ensures 0.0 < alpha < 1.0 && SetF1(predicted, truth, alpha) == 0.0 ==> NormSet(predicted) * NormSet(truth) == {}
  {
    NormSetEmpty(predicted);
    NormSetEmpty(truth);
    if |predicted| > 0 && |truth| > 0 {
      F1Spec(NormSet(predicted), NormSet(truth), alpha);
    }
  }

  /** Swapping the two sets swaps the roles of precision and recall, and so the weights. */
  lemma {:induction false} F1Swap<T>(pred: set<T>, gt: set<T>, alpha: real)
    ensures F1(pred, gt, alpha) == F1(gt, pred, 1.0 - alpha)
  {
    assert pred * gt == gt * pred;
  }

  /** Swapping the two lists swaps the weights. */
  lemma {:induction false} SetF1Swap(predicted: seq<string>, truth: seq<string>, alpha: real)
    ensures SetF1(predicted, truth, alpha) == SetF1(truth, predicted, 1.0 - alpha)
  {
    F1Swap(NormSet(predicted), NormSet(truth), alpha);
  }

  // ---------------------------------------------------------------------------
  // The e-POCT episode reward
  // ---------------------------------------------------------------------------

  /** `sum(bs)` over booleans: the number of `True` entries. */
  function CountTrue(bs: seq<bool>): (n: nat)
    ensures n <= |bs|
    ensures n == 0 <==> true !in bs
  {
    if bs == [] then 0
    else
      var init := bs[..|bs| - 1];
      assert forall k :: 0 <= k < |init| ==> init[k] == bs[k];
      CountTrue(init) + (if bs[|bs| - 1] then 1 else 0)
  }

  /** Appending one flag adds one exactly when the flag is set. */
  lemma {:induction false} CountTrueSnoc(bs: seq<bool>, b: bool)
    ensures CountTrue(bs + [b]) == CountTrue(bs) + (if b then 1 else 0)
  {
    assert (bs + [b])[..|bs|] == bs;
  }

  /** The keyword defaults of `compute_episode_reward` and the other weights it uses. */
  datatype Weights = Weights(alpha: real, beta: real, stepCost: real, safetyPenalty: real)

  const DefaultWeights: Weights := Weights(0.5, 0.3, 0.05, 1.0)

  /** Bonus per abnormality flag set, fixed in the formula. */
  const AbnormalityBonus: real := 0.05

  /** The abnormality term: nothing when the flags are absent. */
  function AbnormalityTerm(flags: Option<seq<bool>>): real {
    match flags
    case None => 0.0
    case Some(fs) => AbnormalityBonus * CountTrue(fs) as real
  }

  /**
   * The sum the episode reward is made of: the diagnosis score, plus `beta` per matching
   * path branch, plus the abnormality bonus, minus `step_cost` per step and
   * `safety_penalty` per skipped safety check.
   */
  function Combine(diagnosis: real, matches: nat, abnormality: real, numSteps: int, numSafetySkips: int, w: Weights): real {
    diagnosis + w.beta * matches as real + abnormality
      - w.stepCost * numSteps as real - w.safetyPenalty * numSafetySkips as real
  }

  /** `compute_episode_reward`, with the weights passed as one value. */
  function EpisodeReward(
    predicted: seq<string>, trueCauses: seq<string>, path: seq<bool>,
    numSteps: int, numSafetySkips: int, flags: Option<seq<bool>>, w: Weights): real
  {
    Combine(SetF1(predicted, trueCauses, w.alpha), CountTrue(path), AbnormalityTerm(flags), numSteps, numSafetySkips, w)
  }

  /** Each term of the sum moves it by its own weight. */
  lemma {:induction false} CombineSteps(diagnosis: real, matches: nat, abnormality: real, numSteps: int, numSafetySkips: int, w: Weights)
    ensures Combine(diagnosis, matches + 1, abnormality, numSteps, numSafetySkips, w)
      == Combine(diagnosis, matches, abnormality, numSteps, numSafetySkips, w) + w.beta
    ensures Combine(diagnosis, matches, abnormality, numSteps + 1, numSafetySkips, w)
      == Combine(diagnosis, matches, abnormality, numSteps, numSafetySkips, w) - w.stepCost
    ensures Combine(diagnosis, matches, abnormality, numSteps, numSafetySkips + 1, w)
      == Combine(diagnosis, matches, abnormality, numSteps, numSafetySkips, w) - w.safetyPenalty
  {
  }

  /** Bounds on the sum from bounds on its terms. */
  lemma {:induction false} CombineBounds(
    diagnosis: real, matches: nat, maxMatches: nat, abnormality: real, maxAbnormality: real,
    numSteps: int, numSafetySkips: int, w: Weights)
    requires 0.0 <= diagnosis <= 1.0 && matches <= maxMatches && 0.0 <= abnormality <= maxAbnormality
    requires 0.0 <= w.beta
    ensures var charges := w.stepCost * numSteps as real + w.safetyPenalty * numSafetySkips as real;
      var r := Combine(diagnosis, matches, abnormality, numSteps, numSafetySkips, w);
      -charges <= r <= 1.0 + w.beta * maxMatches as real + maxAbnormality - charges
  {
    ScaleMonotone(w.beta, 0.0, matches as real);
    ScaleMonotone(w.beta, matches as real, maxMatches as real);
    var earned, most := w.beta * matches as real, w.beta * maxMatches as real;
    var steps, skips := w.stepCost * numSteps as real, w.safetyPenalty * numSafetySkips as real;
    assert 0.0 <= earned <= most;
    assert Combine(diagnosis, matches, abnormality, numSteps, numSafetySkips, w)
      == diagnosis + earned + abnormality - steps - skips;
  }

  /** The abnormality term lies between 0 and the bonus for every flag set. */
  lemma {:induction false} AbnormalityTermBounds(flags: Option<seq<bool>>)
    ensures 0.0 <= AbnormalityTerm(flags) <= AbnormalityBonus * (if flags.Some? then |flags.value| else 0) as real
  {
    if flags.Some? {
      ScaleMonotone(AbnormalityBonus, 0.0, CountTrue(flags.value) as real);
      ScaleMonotone(AbnormalityBonus, CountTrue(flags.value) as real, |flags.value| as real);
    }
  }

  /**
   * With a diagnosis weight in [0, 1] and a non-negative path weight, the reward lies between
   * minus the step and safety charges and 1 plus every bonus earned in full.
   */
  lemma {:induction false} EpisodeRewardBounds(
    predicted: seq<string>, trueCauses: seq<string>, path: seq<bool>,
    numSteps: int, numSafetySkips: int, flags: Option<seq<bool>>, w: Weights)
    requires 0.0 <= w.alpha <= 1.0 && 0.0 <= w.beta
    ensures var charges := w.stepCost * numSteps as real + w.safetyPenalty * numSafetySkips as real;
      var flagCount := if flags.Some? then |flags.value| else 0;
      -charges <= EpisodeReward(predicted, trueCauses, path, numSteps, numSafetySkips, flags, w)
      <= 1.0 + w.beta * |path| as real + AbnormalityBonus * flagCount as real - charges
  {
    SetF1Range(predicted, trueCauses, w.alpha);
    AbnormalityTermBounds(flags);
    var flagCount := if flags.Some? then |flags.value| else 0;
    CombineBounds(
      SetF1(predicted, trueCauses, w.alpha), CountTrue(path), |path|,
      AbnormalityTerm(flags), AbnormalityBonus * flagCount as real, numSteps, numSafetySkips, w);
  }

  /** One more matching path branch adds `beta`; one more non-matching branch adds nothing. */
  lemma {:induction false} EpisodeRewardPathBranch(
    predicted: seq<string>, trueCauses: seq<string>, path: seq<bool>, b: bool,
    numSteps: int, numSafetySkips: int, flags: Option<seq<bool>>, w: Weights)
    ensures EpisodeReward(predicted, trueCauses, path + [b], numSteps, numSafetySkips, flags, w)
      == EpisodeReward(predicted, trueCauses, path, numSteps, numSafetySkips, flags, w) + (if b then w.beta else 0.0)
  {
    CountTrueSnoc(path, b);
    CombineSteps(SetF1(predicted, trueCauses, w.alpha), CountTrue(path), AbnormalityTerm(flags), numSteps, numSafetySkips, w);
  }

  /** One more step costs `step_cost`; one more skipped safety check costs `safety_penalty`. */
  lemma {:induction false} EpisodeRewardCharges(
    predicted: seq<string>, trueCauses: seq<string>, path: seq<bool>,
    numSteps: int, numSafetySkips: int, flags: Option<seq<bool>>, w: Weights)
    ensures EpisodeReward(predicted, trueCauses, path, numSteps + 1, numSafetySkips, flags, w)
      == EpisodeReward(predicted, trueCauses, path, numSteps, numSafetySkips, flags, w) - w.stepCost
    ensures EpisodeReward(predicted, trueCauses, path, numSteps, numSafetySkips + 1, flags, w)
      == EpisodeReward(predicted, trueCauses, path, numSteps, numSafetySkips, flags, w) - w.safetyPenalty
  {
    CombineSteps(SetF1(predicted, trueCauses, w.alpha), CountTrue(path), AbnormalityTerm(flags), numSteps, numSafetySkips, w);
  }

  /** Absent abnormality flags count as a list with none set. */
  lemma {:induction false} EpisodeRewardNoFlags(
    predicted: seq<string>, trueCauses: seq<string>, path: seq<bool>,
    numSteps: int, numSafetySkips: int, flags: seq<bool>, w: Weights)
    ensures true !in flags <==>
      EpisodeReward(predicted, trueCauses, path, numSteps, numSafetySkips, None, w)
      == EpisodeReward(predicted, trueCauses, path, numSteps, numSafetySkips, Some(flags), w)
  {
    if true in flags {
      ScaleSign(CountTrue(flags) as real, AbnormalityBonus);
    }
  }

  // ---------------------------------------------------------------------------
  // The e-POCT reward over completions
  // ---------------------------------------------------------------------------

  /** `i < k` index the first `{` and the last `}` of `s`. */
  predicate OuterBraces(s: string, i: nat, k: nat) {
    && i < k < |s| && s[i] == '{' && s[k] == '}'
    && (forall m :: 0 <= m < i ==> s[m] != '{')
    && (forall m :: k < m < |s| ==> s[m] != '}')
  }

  /**
   * `re.search(r"\{.*\}", s, re.DOTALL).group(0)`: from the first `{` to the last `}`, or
   * `None` when no `}` follows the first `{`.
   */
  function BraceBlock(s: string): (r: Option<string>)
    ensures r.Some? ==> |r.value| >= 2 && r.value[0] == '{' && r.value[|r.value| - 1] == '}'
  {
    match IndexOf(s, '{', 0)
    case None => None
    case Some(i) =>
      match LastIndexOf(s, '}', |s|)
      case None => None
      case Some(k) => if i < k then Some(s[i..k + 1]) else None
  }

  /**
   * A block is found exactly when some `{` precedes some `}`, and it runs from the first `{`
   * to the last `}`.
   */
  lemma {:induction false} BraceBlockSpec(s: string)
    ensures BraceBlock(s).Some? <==> exists i, k :: 0 <= i < k < |s| && s[i] == '{' && s[k] == '}'
    ensures BraceBlock(s).Some? ==> exists i: nat, k: nat :: OuterBraces(s, i, k) && BraceBlock(s).value == s[i..k + 1]
  {
    var first := IndexOf(s, '{', 0);
    var last := LastIndexOf(s, '}', |s|);
    if first.Some? && last.Some? && first.value < last.value {
      assert OuterBraces(s, first.value, last.value);
    }
  }

  /** Prose around the block, with no `{` before it and no `}` after it, does not change what is found. */
  lemma {:induction false} BraceBlockInProse(before: string, block: string, after: string)
    requires |block| >= 2 && block[0] == '{' && block[|block| - 1] == '}'
    requires '{' !in before && '}' !in after
    ensures BraceBlock(before + block + after) == Some(block)
  {
    var s := before + block + after;
    var i, k := |before|, |before| + |block| - 1;
    assert s[i] == '{' && s[k] == '}';
    assert forall m :: 0 <= m < i ==> s[m] == before[m];
    assert forall m :: k < m < |s| ==> s[m] == after[m - k - 1];
    assert s[i..k + 1] == block;
  }

  /**
   * The fields of the dictionary the completion embeds; a missing key is `None`. Each field
   * has the type the docstring gives it (integer counts, lists of booleans); a float count
   * or a list of numbers, which Python would also score, is not an `Episode`.
   */
  datatype Episode = Episode(
    predictedCauses: Option<seq<string>>, pathBranchMatches: Option<seq<bool>>,
    numSteps: Option<int>, numSafetySkips: Option<int>, abnormalityFlags: Option<seq<bool>>)

  /** An entry of `answers`: the `true_causes` key, when present. */
  datatype Answer = Answer(trueCauses: Option<seq<string>>)

  /**
   * The reward of one completion. `parse` stands for evaluating the block as a Python
   * literal and reading its keys: `None` when that raises.
   */
  function EpocScore(completion: string, answer: Answer, parse: string -> Option<Episode>): (r: real)
    ensures BraceBlock(completion).None? ==> r == 0.0
    ensures BraceBlock(completion).Some? && parse(BraceBlock(completion).value).None? ==> r == 0.0
  {
    match BraceBlock(completion)
    case None => 0.0
    case Some(block) =>
      match parse(block)
      case None => 0.0
      case Some(ep) =>
        EpisodeReward(
          ep.predictedCauses.GetOr([]), answer.trueCauses.GetOr([]), ep.pathBranchMatches.GetOr([]),
          ep.numSteps.GetOr(0), ep.numSafetySkips.GetOr(0), ep.abnormalityFlags, DefaultWeights)
  }

  /**
   * A completion whose embedded dictionary parses is scored on that dictionary alone,
   * whatever prose surrounds it; one with no block, or whose block does not parse, scores 0.
   */
  lemma {:induction false} EpocScoreSpec(
    before: string, block: string, after: string, answer: Answer, parse: string -> Option<Episode>)
    requires |block| >= 2 && block[0] == '{' && block[|block| - 1] == '}'
    requires '{' !in before && '}' !in after
    ensures parse(block).None? ==> EpocScore(before + block + after, answer, parse) == 0.0
    ensures parse(block).Some? ==>
      var ep := parse(block).value;
      EpocScore(before + block + after, answer, parse) == EpisodeReward(
        ep.predictedCauses.GetOr([]), answer.trueCauses.GetOr([]), ep.pathBranchMatches.GetOr([]),
        ep.numSteps.GetOr(0), ep.numSafetySkips.GetOr(0), ep.abnormalityFlags, DefaultWeights)
  {
    BraceBlockInProse(before, block, after);
  }

  /** A completion with no `{` before a `}` scores 0. */
  lemma {:induction false} EpocScoreNoBlock(completion: string, answer: Answer, parse: string -> Option<Episode>)
    requires forall i, k :: 0 <= i < k < |completion| ==> !(completion[i] == '{' && completion[k] == '}')
    ensures EpocScore(completion, answer, parse) == 0.0
  {
    BraceBlockSpec(completion);
  }

  /** `epoct_reward`: one score per (completion, answer) pair; the prompts are not read. */
  method EpocRewards(
    prompts: seq<string>, completions: seq<string>, answers: seq<Answer>, parse: string -> Option<Episode>)
    returns (rewards: seq<real>)
    ensures |rewards| == Min(|completions|, |answers|)
    ensures forall i :: 0 <= i < |rewards| ==> rewards[i] == EpocScore(completions[i], answers[i], parse)
  {
    var n := Min(|completions|, |answers|);
    var score := (c: string, a: Answer) => EpocScore(c, a, parse);
    rewards := [];
    var i := 0;
    while i < n
      invariant i <= n && rewards == Zip(completions, answers, i, score)
    {
      rewards := rewards + [EpocScore(completions[i], answers[i], parse)];
      i := i + 1;
    }
  }
}
