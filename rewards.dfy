/**
 * Reward functions for code completions: pull the code out of the `<answer>` section,
 * run it (alone or against its tests) through the executor, and turn the verdicts
 * into rewards; plus a reward for following the reasoning/answer layout.
 */
module Rewards {
  import opened Wrappers
  import opened Text
  import opened Chat
  import opened ParallelExecutor
  import opened Executor
  import opened Fractions

  // ---------------------------------------------------------------------------
  // Configuration read at import time
  // ---------------------------------------------------------------------------

  /** The environment variables the module reads, already converted to numbers; `None` when unset. */
  datatype Environ = Environ(
    worldSize: Option<int>, maxProcesses: Option<int>, taskTimeout: Option<int>,
    wasmPath: Option<string>, fuel: Option<int>)

  datatype Config = Config(maxProcesses: int, taskTimeout: int, wasmPath: string, fuel: int)

  /** What importing the module can raise: the floor division by `WORLD_SIZE`, or the missing image. */
  datatype ConfigError = ZeroDivision | WasmFileNotFound(path: string)

  /** Python's `a // b`: the quotient rounded towards minus infinity. */
  function FloorDiv(a: int, b: int): (q: int)
    requires b != 0
    ensures b > 0 ==> q * b <= a < q * b + b
    ensures b < 0 ==> q * b + b < a <= q * b
  {
    if b > 0 then a / b
    else
      var q := (-a) / (-b);
      assert (-b) * q <= -a < (-b) * q + (-b);
      q
  }

  /** `MAX_PROCESSES = max(1, MAX_PROCESSES // WORLD_SIZE)`: at least one, whatever the variables say. */
  function MaxProcesses(maxProcesses: int, worldSize: int): (r: int)
    requires worldSize != 0
    ensures r >= 1
    ensures r > 1 ==> worldSize > 0 ==> r * worldSize <= maxProcesses
    ensures FloorDiv(maxProcesses, worldSize) >= 1 <==> r == FloorDiv(maxProcesses, worldSize)
  {
    var q := FloorDiv(maxProcesses, worldSize);
    if q > 1 then q else 1
  }

  /** The default image path: `<repository root>/wasm/python-3.12.0.wasm`. */
  function DefaultWasmPath(root: string): string {
    root + "/wasm/python-3.12.0.wasm"
  }

  /**
   * The module constants `MAX_PROCESSES`, `TASK_TIMEOUT`, `WASM_PATH` and `FUEL`,
   * with their defaults (1 process per rank, 1 second, the bundled image, a billion
   * fuel units), or the error the import raises.
   */
  function LoadConfig(env: Environ, root: string, fileExists: string -> bool): (r: Result<Config, ConfigError>)
    ensures env.worldSize.GetOr(1) == 0 <==> r == Err(ZeroDivision)
    ensures r.Ok? <==> env.worldSize.GetOr(1) != 0 && fileExists(env.wasmPath.GetOr(DefaultWasmPath(root)))
    ensures r.Ok? ==> r.value.maxProcesses >= 1
    ensures r.Ok? ==> r.value.taskTimeout == env.taskTimeout.GetOr(1) && r.value.fuel == env.fuel.GetOr(1000000000)
    ensures r.Ok? ==> r.value.wasmPath == env.wasmPath.GetOr(DefaultWasmPath(root))
    ensures r.Ok? ==> r.value.maxProcesses == MaxProcesses(env.maxProcesses.GetOr(1), env.worldSize.GetOr(1))
  {
    var worldSize := env.worldSize.GetOr(1);
    if worldSize == 0 then Err(ZeroDivision)
    else
      var path := env.wasmPath.GetOr(DefaultWasmPath(root));
      if !fileExists(path) then Err(WasmFileNotFound(path))
      else Ok(Config(MaxProcesses(env.maxProcesses.GetOr(1), worldSize), env.taskTimeout.GetOr(1), path, env.fuel.GetOr(1000000000)))
  }

  // ---------------------------------------------------------------------------
  // Extracting the answer
  // ---------------------------------------------------------------------------

  /**
   * `re.search(r"<answer>(.*?)</answer>", text, re.S)` followed by `group(1).strip()`,
   * or "" when there is no match. The leftmost match starts at the first `<answer>`
   * (any later start has fewer closing tags after it), and the lazy group ends at the
   * first `</answer>` after it.
   */
  function ExtractXmlAnswer(text: string): (r: string)
    ensures r == [] || (!IsWhitespace(r[0]) && !IsWhitespace(r[|r| - 1]))
  {
    match FindFrom(text, AnswerOpen, 0)
    case None => ""
    case Some(p) =>
      match FindFrom(text, AnswerClose, p + |AnswerOpen|)
      case None => ""
      case Some(q) => Strip(text[p + |AnswerOpen|..q])
  }

  /** Some `<answer>` at `p` is followed by a `</answer>` at `q`. */
  predicate Tagged(text: string, p: nat, q: nat) {
    IsAt(text, AnswerOpen, p) && p + |AnswerOpen| <= q && IsAt(text, AnswerClose, q)
  }

  /** `p` is the first `<answer>` and `q` the first `</answer>` after it. */
  predicate FirstTagged(text: string, p: nat, q: nat) {
    && Tagged(text, p, q)
    && (forall k :: 0 <= k < p ==> !IsAt(text, AnswerOpen, k))
    && (forall k :: p + |AnswerOpen| <= k < q ==> !IsAt(text, AnswerClose, k))
  }

  /**
   * What `extract_xml_answer` returns: "" when no `<answer>` is followed by a
   * `</answer>`; otherwise such a pair exists with the first `<answer>`, and the
   * result is the stripped text between it and the first `</answer>` after it.
   */
  lemma {:induction false} ExtractXmlAnswerSpec(text: string)
    ensures (forall p: nat, q: nat :: !Tagged(text, p, q)) ==> ExtractXmlAnswer(text) == ""
    ensures (exists p: nat, q: nat :: Tagged(text, p, q)) ==> exists p: nat, q: nat :: FirstTagged(text, p, q)
    ensures forall p: nat, q: nat :: FirstTagged(text, p, q) ==>
      ExtractXmlAnswer(text) == Strip(text[p + |AnswerOpen|..q])
  {
    var first := FindFrom(text, AnswerOpen, 0);
    if first.Some? {
      var close := FindFrom(text, AnswerClose, first.value + |AnswerOpen|);
      if close.Some? {
        assert FirstTagged(text, first.value, close.value);
      }
    }
    forall p: nat, q: nat | Tagged(text, p, q) ensures first.Some? && FindFrom(text, AnswerClose, first.value + |AnswerOpen|).Some? {
    }
    forall p: nat, q: nat | FirstTagged(text, p, q)
      ensures ExtractXmlAnswer(text) == Strip(text[p + |AnswerOpen|..q])
    {
      FindFromUnique(text, AnswerOpen, 0, p);
      FindFromUnique(text, AnswerClose, p + |AnswerOpen|, q);
    }
  }

  // ---------------------------------------------------------------------------
  // Code execution reward
  // ---------------------------------------------------------------------------

  /** `0.5 if result == 1.0 else -0.25`: only a slot holding True equals 1.0. */
  function CodeReward(result: TaskResult): (reward: real)
    ensures reward == 0.5 <==> result == Ran(true)
    ensures reward == 0.5 || reward == -0.25
  {
    if result.Value() == 1.0 then 0.5 else -0.25
  }

  /** `[extract_xml_answer(completion[0]["content"]) for completion in completions]` */
  function ModelAnswers(completions: seq<Completion>): (codes: seq<string>)
    requires WellFormed(completions)
    ensures |codes| == |completions|
    ensures forall i :: 0 <= i < |completions| ==> codes[i] == ExtractXmlAnswer(Content(completions[i]))
  {
    seq(|completions|, i requires 0 <= i < |completions| => ExtractXmlAnswer(Content(completions[i])))
  }

  /**
   * `code_execution_reward_func`: run each completion's answer and reward 0.5 when it
   * ran and -0.25 otherwise. A 0.5 always means the code ran; unless a round of the pool
   * finished nothing (`stalled`, never the case serially), the converse holds too. A
   * snippet left unfinished by a stalled round gets -0.25, and a stall is visible: the
   * pool is shut down and the singleton handle cleared.
   */
  method CodeExecutionRewardFunc(d: Dispatcher, cfg: Config, completions: seq<Completion>, run: string -> bool)
    returns (rewards: seq<real>, ghost stalled: bool)
    requires d.Valid() && WellFormed(completions)
    modifies d, d.registry, d.wasm
    ensures d.Valid()
    ensures |rewards| == |completions|
    ensures forall i :: 0 <= i < |rewards| ==> rewards[i] == 0.5 || rewards[i] == -0.25
    ensures forall i :: 0 <= i < |rewards| && rewards[i] == 0.5 ==> run(ExtractXmlAnswer(Content(completions[i])))
    ensures !stalled ==>
      forall i :: 0 <= i < |rewards| ==> (rewards[i] == 0.5 <==> run(ExtractXmlAnswer(Content(completions[i]))))
    ensures stalled ==> exists i :: 0 <= i < |rewards| && rewards[i] == -0.25
    ensures cfg.maxProcesses <= 1 ==> !stalled
    ensures cfg.maxProcesses > 1 ==> (stalled <==> d.registry.executor.None?)
    ensures cfg.maxProcesses > 1 && stalled ==>
      d.executor.Some? && d.registry.shutDown == old(d.registry.shutDown) + [d.executor.value]
  {
    var modelAnswers := ModelAnswers(completions);
    var taskResults;
    taskResults, stalled := d.ExecuteTasks(modelAnswers, cfg.maxProcesses, cfg.wasmPath, cfg.fuel, cfg.taskTimeout, run);
    rewards := seq(|taskResults|, i requires 0 <= i < |taskResults| => CodeReward(taskResults[i]));
    if stalled {
      var t :| 0 <= t < |taskResults| && taskResults[t] == Unset;
      assert rewards[t] == -0.25;
    }
  }

  // ---------------------------------------------------------------------------
  // Format reward
  // ---------------------------------------------------------------------------

  const ReasoningOpen: string := "<reasoning>"
  const ReasoningClose: string := "</reasoning>"

  /**
   * The pattern `<reasoning>.*?</reasoning>\s*<answer>.*?</answer>.*` (dot matching
   * newlines) matches at the start of `s` with `</reasoning>` at `q`, `<answer>` at `w`
   * and `</answer>` at `e`.
   */
  predicate FormatAt(s: string, q: nat, w: nat, e: nat) {
    && IsAt(s, ReasoningOpen, 0)
    && |ReasoningOpen| <= q && IsAt(s, ReasoningClose, q)
    && q + |ReasoningClose| <= w <= |s| && AllWhitespace(s[q + |ReasoningClose|..w])
    && IsAt(s, AnswerOpen, w)
    && w + |AnswerOpen| <= e && IsAt(s, AnswerClose, e)
  }

  /** After position `p`: optional whitespace, `<answer>`, and a `</answer>` somewhere later. */
  predicate AnswerSectionAt(s: string, p: nat)
    requires p <= |s|
  {
    var w := p + LeadingWhitespace(s[p..]);
    IsAt(s, AnswerOpen, w) && FindFrom(s, AnswerClose, w + |AnswerOpen|).Some?
  }

  /** Some `</reasoning>` at or after `q` is followed by an answer section. */
  predicate FormatFrom(s: string, q: nat)
    decreases |s| - q
  {
    if q + |ReasoningClose| > |s| then false
    else (IsAt(s, ReasoningClose, q) && AnswerSectionAt(s, q + |ReasoningClose|)) || FormatFrom(s, q + 1)
  }

  /** `re.match(r"<reasoning>.*?</reasoning>\s*<answer>.*?</answer>.*", s, re.S)` succeeds. */
  predicate SoftFormat(s: string) {
    IsAt(s, ReasoningOpen, 0) && FormatFrom(s, |ReasoningOpen|)
  }

  /** A whitespace run from `p` that stops before a non-whitespace character is the longest one. */
  lemma {:induction false} WhitespaceRunEnd(s: string, p: nat, w: nat)
    requires p <= w < |s| && AllWhitespace(s[p..w]) && !IsWhitespace(s[w])
    ensures w == p + LeadingWhitespace(s[p..])
  {
    assert s[p..][..w - p] == s[p..w] && s[p..][w - p] == s[w];
    LeadingWhitespaceUnique(s[p..], w - p);
  }

  /** An answer section after `p` yields the positions of its `<answer>` and `</answer>`. */
  lemma {:induction false} AnswerSectionWitness(s: string, p: nat) returns (w: nat, e: nat)
    requires p <= |s| && AnswerSectionAt(s, p)
    ensures p <= w <= |s| && AllWhitespace(s[p..w]) && IsAt(s, AnswerOpen, w)
    ensures w + |AnswerOpen| <= e && IsAt(s, AnswerClose, e)
  {
    var n := LeadingWhitespace(s[p..]);
    w, e := p + n, FindFrom(s, AnswerClose, p + n + |AnswerOpen|).value;
    assert s[p..w] == s[p..][..n];
  }

  /** Whitespace, `<answer>` at `w` and a later `</answer>` make an answer section after `p`. */
  lemma {:induction false} AnswerSectionFrom(s: string, p: nat, w: nat, e: nat)
    requires p <= w <= |s| && AllWhitespace(s[p..w]) && IsAt(s, AnswerOpen, w)
    requires w + |AnswerOpen| <= e && IsAt(s, AnswerClose, e)
    ensures AnswerSectionAt(s, p)
  {
    assert s[w] == s[w..w + |AnswerOpen|][0] == '<';
    WhitespaceRunEnd(s, p, w);
    assert FindFrom(s, AnswerClose, w + |AnswerOpen|).Some?;
  }

  /**
   * The answer section after `p` exists exactly when `<answer>` follows an all-whitespace
   * run from `p`; that run must be the longest one, as `<` is not whitespace.
   */
  lemma {:induction false} AnswerSectionSpec(s: string, p: nat)
    requires p <= |s|
    ensures AnswerSectionAt(s, p) <==>
      exists w: nat, e: nat :: p <= w <= |s| && AllWhitespace(s[p..w]) && IsAt(s, AnswerOpen, w)
        && w + |AnswerOpen| <= e && IsAt(s, AnswerClose, e)
  {
    if AnswerSectionAt(s, p) {
      var w, e := AnswerSectionWitness(s, p);
    }
    forall w: nat, e: nat | p <= w <= |s| && AllWhitespace(s[p..w]) && IsAt(s, AnswerOpen, w)
        && w + |AnswerOpen| <= e && IsAt(s, AnswerClose, e)
      ensures AnswerSectionAt(s, p)
    {
      AnswerSectionFrom(s, p, w, e);
    }
  }

  /** A `</reasoning>` at `q` followed by an answer section. */
  predicate FormatWith(s: string, q: nat) {
    IsAt(s, ReasoningClose, q) && AnswerSectionAt(s, q + |ReasoningClose|)
  }

  /** With `</reasoning>` fixed at `q`, the pattern matches exactly when the answer section follows. */
  lemma {:induction false} FormatWithSpec(s: string, q: nat)
    requires IsAt(s, ReasoningOpen, 0) && |ReasoningOpen| <= q
    ensures FormatWith(s, q) <==> exists w: nat, e: nat :: FormatAt(s, q, w, e)
  {
    var p := q + |ReasoningClose|;
    if FormatWith(s, q) {
      var w, e := AnswerSectionWitness(s, p);
      assert FormatAt(s, q, w, e);
    }
    forall w: nat, e: nat | FormatAt(s, q, w, e) ensures FormatWith(s, q) {
      AnswerSectionFrom(s, p, w, e);
    }
  }

  /** The search over closing tags from `q0` on finds a `</reasoning>` with an answer section after it, if any. */
  lemma {:induction false} FormatFromSpec(s: string, q0: nat)
    ensures FormatFrom(s, q0) <==> exists q: nat :: q0 <= q && FormatWith(s, q)
    decreases |s| - q0
  {
    if q0 + |ReasoningClose| <= |s| {
      FormatFromSpec(s, q0 + 1);
      if FormatWith(s, q0) {
        assert q0 <= q0 && FormatWith(s, q0);
      }
      forall q: nat | q0 <= q && FormatWith(s, q) ensures FormatFrom(s, q0) {
        if q > q0 { assert q0 + 1 <= q; }
      }
    }
  }

  /** `SoftFormat` is exactly "the anchored pattern matches somewhere". */
  lemma {:induction false} SoftFormatSpec(s: string)
    ensures SoftFormat(s) <==> exists q: nat, w: nat, e: nat :: FormatAt(s, q, w, e)
  {
    FormatFromSpec(s, |ReasoningOpen|);
    if SoftFormat(s) {
      var q: nat :| |ReasoningOpen| <= q && FormatWith(s, q);
      FormatWithSpec(s, q);
    }
    if exists q: nat, w: nat, e: nat :: FormatAt(s, q, w, e) {
      var q: nat, w: nat, e: nat :| FormatAt(s, q, w, e);
      FormatWithSpec(s, q);
    }
  }

  /**
   * A matching response splits as `"<reasoning>" + a + "</reasoning>" + ws + "<answer>"
   * + b + "</answer>" + c` with `ws` all whitespace.
   */
  lemma {:induction false} FormatAtParts(s: string, q: nat, w: nat, e: nat)
    requires FormatAt(s, q, w, e)
    ensures s == ReasoningOpen + s[|ReasoningOpen|..q] + ReasoningClose + s[q + |ReasoningClose|..w]
      + AnswerOpen + s[w + |AnswerOpen|..e] + AnswerClose + s[e + |AnswerClose|..]
  {
    var r, p, v, f := |ReasoningOpen|, q + |ReasoningClose|, w + |AnswerOpen|, e + |AnswerClose|;
    assert s[..q] == ReasoningOpen + s[r..q];
    assert s[..p] == s[..q] + ReasoningClose;
    assert s[..w] == s[..p] + s[p..w];
    assert s[..v] == s[..w] + AnswerOpen;
    assert s[..e] == s[..v] + s[v..e];
    assert s[..f] == s[..e] + AnswerClose;
    assert s == s[..f] + s[f..];
  }

  /** Conversely, every response of that shape matches. */
  lemma {:induction false} SoftFormatOfParts(a: string, ws: string, b: string, c: string)
    requires AllWhitespace(ws)
    ensures SoftFormat(ReasoningOpen + a + ReasoningClose + ws + AnswerOpen + b + AnswerClose + c)
  {
    var s := ReasoningOpen + a + ReasoningClose + ws + AnswerOpen + b + AnswerClose + c;
    var q := |ReasoningOpen| + |a|;
    var w := q + |ReasoningClose| + |ws|;
    var e := w + |AnswerOpen| + |b|;
    assert s[..|ReasoningOpen|] == ReasoningOpen;
    assert s[q..q + |ReasoningClose|] == ReasoningClose;
    assert s[q + |ReasoningClose|..w] == ws;
    assert s[w..w + |AnswerOpen|] == AnswerOpen;
    assert s[e..e + |AnswerClose|] == AnswerClose;
    assert FormatAt(s, q, w, e);
    SoftFormatSpec(s);
  }

  /** `soft_format_reward_func`: 0.25 for each response in the layout, 0.0 for the others. */
  method SoftFormatRewardFunc(completions: seq<Completion>) returns (rewards: seq<real>)
    requires WellFormed(completions)
    ensures |rewards| == |completions|
    ensures forall i :: 0 <= i < |completions| ==>
      rewards[i] == if SoftFormat(Content(completions[i])) then 0.25 else 0.0
  {
    rewards := [];
    var i := 0;
    while i < |completions|
      invariant 0 <= i <= |completions| && |rewards| == i
      invariant forall k :: 0 <= k < i ==> rewards[k] == if SoftFormat(Content(completions[k])) then 0.25 else 0.0
    {
      var response := Content(completions[i]);
      if SoftFormat(response) {
        rewards := rewards + [0.25];
      } else {
        rewards := rewards + [0.0];
      }
      i := i + 1;
    }
  }

  // ---------------------------------------------------------------------------
  // Answer execution reward
  // ---------------------------------------------------------------------------

  /** The tasks of one completion: its code followed by each of its tests. */
  function TestTasks(code: string, tests: seq<string>): (tasks: seq<string>)
    ensures |tasks| == |tests|
    ensures forall k :: 0 <= k < |tests| ==> tasks[k] == code + "\n" + tests[k]
  {
    seq(|tests|, k requires 0 <= k < |tests| => code + "\n" + tests[k])
  }

  /** Where the tasks of completion `i` start in the flattened task list. */
  function Offset(answers: seq<seq<string>>, i: nat): nat
    requires i <= |answers|
  {
    if i == 0 then 0 else Offset(answers, i - 1) + |answers[i - 1]|
  }

  lemma {:induction false} OffsetMonotone(answers: seq<seq<string>>, i: nat, j: nat)
    requires i <= j <= |answers|
    ensures Offset(answers, i) <= Offset(answers, j)
    decreases j
  {
    if i < j { OffsetMonotone(answers, i, j - 1); }
  }

  /** `tasks` after the loops over the first `n` zipped (code, tests) pairs. */
  function TaskList(codes: seq<string>, answers: seq<seq<string>>, n: nat): (r: seq<string>)
    requires n <= |codes| && n <= |answers|
    ensures |r| == Offset(answers, n)
  {
    if n == 0 then [] else TaskList(codes, answers, n - 1) + TestTasks(codes[n - 1], answers[n - 1])
  }

  function Repeat(i: nat, m: nat): seq<nat>
  {
    seq(m, _ => i)
  }

  /** `test_indices` after the loops over the first `n` pairs: the owning completion of each task. */
  function Owners(answers: seq<seq<string>>, n: nat): (r: seq<nat>)
    requires n <= |answers|
    ensures forall k :: 0 <= k < |r| ==> r[k] < n
  {
    if n == 0 then [] else Owners(answers, n - 1) + Repeat(n - 1, |answers[n - 1]|)
  }

  /** Both flattened lists hold one entry per test of the zipped completions. */
  lemma {:induction false} TaskListLength(codes: seq<string>, answers: seq<seq<string>>, n: nat)
    requires n <= |codes| && n <= |answers|
    ensures |TaskList(codes, answers, n)| == |Owners(answers, n)| == Offset(answers, n)
  {
    if n > 0 { TaskListLength(codes, answers, n - 1); }
  }

  /**
   * The tests of completion `i` occupy the block starting at `Offset(answers, i)`:
   * entry `Offset(answers, i) + k` is completion `i`'s code followed by its `k`-th
   * test, and is owned by `i`.
   */
  lemma {:induction false} TaskAt(codes: seq<string>, answers: seq<seq<string>>, n: nat, i: nat, k: nat)
    requires n <= |codes| && n <= |answers| && i < n && k < |answers[i]|
    ensures Offset(answers, i) + k < Offset(answers, n) == |TaskList(codes, answers, n)| == |Owners(answers, n)|
    ensures && TaskList(codes, answers, n)[Offset(answers, i) + k] == codes[i] + "\n" + answers[i][k]
      && Owners(answers, n)[Offset(answers, i) + k] == i
  {
    TaskListLength(codes, answers, n);
    TaskListLength(codes, answers, n - 1);
    if i < n - 1 {
      TaskAt(codes, answers, n - 1, i, k);
    }
  }

  /** Conversely, every flattened task lies in the block of the completion that owns it. */
  lemma {:induction false} OwnerBlock(answers: seq<seq<string>>, n: nat, t: nat)
    requires n <= |answers| && t < |Owners(answers, n)|
    ensures Owners(answers, n)[t] < n
    ensures var i := Owners(answers, n)[t];
      Offset(answers, i) <= t < Offset(answers, i) + |answers[i]|
  {
    if n > 0 {
      OwnersLength(answers, n - 1);
      if t < |Owners(answers, n - 1)| {
        OwnerBlock(answers, n - 1, t);
      }
    }
  }

  /** A completion owns some task exactly when it is among the zipped pairs and has a test. */
  lemma {:induction false} OwnersMembership(answers: seq<seq<string>>, n: nat, i: nat)
    requires n <= |answers|
    ensures i in Owners(answers, n) <==> i < n && |answers[i]| > 0
  {
    if n > 0 {
      OwnersMembership(answers, n - 1, i);
      var tail := Repeat(n - 1, |answers[n - 1]|);
      assert i in Owners(answers, n) <==> i in Owners(answers, n - 1) || i in tail;
      if i == n - 1 && |answers[i]| > 0 { assert tail[0] == i; }
    }
  }

  /**
   * The nested loops of `answer_execution_reward_func` that build `tasks` and
   * `test_indices` from `zip(model_answers, answers)`.
   */
  method BuildTasks(codes: seq<string>, answers: seq<seq<string>>) returns (tasks: seq<string>, testIndices: seq<nat>)
    ensures tasks == TaskList(codes, answers, Min(|codes|, |answers|))
    ensures testIndices == Owners(answers, Min(|codes|, |answers|))
  {
    var n := Min(|codes|, |answers|);
    tasks, testIndices := [], [];
    var i := 0;
    while i < n
      invariant 0 <= i <= n
      invariant tasks == TaskList(codes, answers, i)
      invariant testIndices == Owners(answers, i)
    {
      var code, tests := codes[i], answers[i];
      var k := 0;
      while k < |tests|
        invariant 0 <= k <= |tests|
        invariant tasks == TaskList(codes, answers, i) + TestTasks(code, tests[..k])
        invariant testIndices == Owners(answers, i) + Repeat(i, k)
      {
        tasks := tasks + [code + "\n" + tests[k]];
        testIndices := testIndices + [i];
        k := k + 1;
      }
      assert tests[..k] == tests;
      i := i + 1;
    }
  }

  /** The results, in task order, of the tasks owned by completion `i`. */
  function Collect(owners: seq<nat>, results: seq<TaskResult>, i: nat): seq<TaskResult>
    requires |owners| == |results|
  {
    if owners == [] then []
    else
      var last := |owners| - 1;
      Collect(owners[..last], results[..last], i) + (if owners[last] == i then [results[last]] else [])
  }

  lemma {:induction false} CollectNonEmpty(owners: seq<nat>, results: seq<TaskResult>, i: nat)
    requires |owners| == |results|
    ensures i in owners <==> |Collect(owners, results, i)| > 0
  {
    if owners != [] {
      var last := |owners| - 1;
      CollectNonEmpty(owners[..last], results[..last], i);
      assert owners == owners[..last] + [owners[last]];
    }
  }

  lemma {:induction false} CollectAppend(a: seq<nat>, ra: seq<TaskResult>, b: seq<nat>, rb: seq<TaskResult>, i: nat)
    requires |a| == |ra| && |b| == |rb|
    ensures Collect(a + b, ra + rb, i) == Collect(a, ra, i) + Collect(b, rb, i)
    decreases |b|
  {
    if b != [] {
      var last := |b| - 1;
      assert (a + b)[..|a + b| - 1] == a + b[..last];
      assert (ra + rb)[..|ra + rb| - 1] == ra + rb[..last];
      CollectAppend(a, ra, b[..last], rb[..last], i);
    } else {
      assert a + b == a && ra + rb == ra;
    }
  }

  lemma {:induction false} CollectRepeat(j: nat, rb: seq<TaskResult>, i: nat)
    ensures Collect(Repeat(j, |rb|), rb, i) == if i == j then rb else []
  {
    if rb != [] {
      var last := |rb| - 1;
      assert Repeat(j, |rb|)[..last] == Repeat(j, last);
      CollectRepeat(j, rb[..last], i);
      assert rb == rb[..last] + [rb[last]];
    }
  }

  lemma {:induction false} OwnersLength(answers: seq<seq<string>>, n: nat)
    requires n <= |answers|
    ensures |Owners(answers, n)| == Offset(answers, n)
  {
    if n > 0 { OwnersLength(answers, n - 1); }
  }

  /**
   * Appending a block of `len` results owned by `j` after the first `m` results, whose
   * regrouping gives `i` the slice `lo..hi` (or nothing, when `i` comes at or after
   * `j`), extends the regrouping by that block for `j` only.
   */
  lemma {:induction false} CollectBlock(
    whole: seq<nat>, owners: seq<nat>, results: seq<TaskResult>, m: nat, len: nat, j: nat, i: nat, lo: nat, hi: nat)
    requires whole == owners + Repeat(j, len) && |owners| == m && |results| == m + len
    requires i < j ==> lo <= hi <= m
    requires Collect(owners, results[..m], i) == if i < j then results[..m][lo..hi] else []
    ensures Collect(whole, results, i) ==
      if i < j then results[lo..hi] else if i == j then results[m..] else []
  {
    var left, right := results[..m], results[m..];
    assert |right| == len && results == left + right;
    CollectAppend(owners, left, Repeat(j, len), right, i);
    CollectRepeat(j, right, i);
    if i < j {
      assert left[lo..hi] == results[lo..hi];
    }
  }

  /** The tests of completion `i` end no later than those of the first `n` completions. */
  lemma {:induction false} OffsetBlock(answers: seq<seq<string>>, n: nat, i: nat)
    requires i < n <= |answers|
    ensures Offset(answers, i) + |answers[i]| <= Offset(answers, n)
  {
    OffsetMonotone(answers, i + 1, n);
  }

  /** A completion outside the first `n` owns none of their tasks, so its regrouping is empty. */
  lemma {:induction false} CollectOwnersOther(answers: seq<seq<string>>, n: nat, results: seq<TaskResult>, i: nat)
    requires n <= |answers| && |results| == |Owners(answers, n)| && n <= i
    ensures Collect(Owners(answers, n), results, i) == []
  {
    OwnersMembership(answers, n, i);
    CollectNonEmpty(Owners(answers, n), results, i);
  }

  lemma {:induction false} SliceToEnd<T>(s: seq<T>, lo: nat, hi: nat)
    requires lo <= hi == |s|
    ensures s[lo..] == s[lo..hi]
  {
  }

  /** The last of the first `n` completions gets the final block. */
  lemma {:induction false} CollectOwnersLast(answers: seq<seq<string>>, n: nat, results: seq<TaskResult>)
    requires 0 < n <= |answers| && |results| == |Owners(answers, n)| == Offset(answers, n)
    ensures Collect(Owners(answers, n), results, n - 1) == results[Offset(answers, n - 1)..]
  {
    var m := Offset(answers, n - 1);
    OwnersLength(answers, n - 1);
    CollectOwnersOther(answers, n - 1, results[..m], n - 1);
    CollectBlock(Owners(answers, n), Owners(answers, n - 1), results, m, |answers[n - 1]|, n - 1, n - 1, 0, 0);
  }

  /** Regrouping the flattened results by owner gives each completion exactly its own block. */
  lemma {:induction false} CollectOwners(answers: seq<seq<string>>, n: nat, results: seq<TaskResult>, i: nat)
    requires n <= |answers| && |results| == |Owners(answers, n)| == Offset(answers, n)
    requires i < n && Offset(answers, i) + |answers[i]| <= |results|
    ensures Collect(Owners(answers, n), results, i) == results[Offset(answers, i)..Offset(answers, i) + |answers[i]|]
  {
    if i == n - 1 {
      CollectOwnersLast(answers, n, results);
      SliceToEnd(results, Offset(answers, i), Offset(answers, i) + |answers[i]|);
    } else {
      var m := Offset(answers, n - 1);
      OwnersLength(answers, n - 1);
      OffsetBlock(answers, n - 1, i);
      CollectOwners(answers, n - 1, results[..m], i);
      var lo := Offset(answers, i);
      CollectBlock(Owners(answers, n), Owners(answers, n - 1), results, m, |answers[n - 1]|, n - 1, i, lo, lo + |answers[i]|);
    }
  }

  /**
   * The loop that fills `completion_results` from `zip(test_indices, task_results)`:
   * a key for every owner that appears, holding that owner's results in task order.
   */
  method GroupResults(testIndices: seq<nat>, taskResults: seq<TaskResult>) returns (groups: map<nat, seq<TaskResult>>)
    ensures forall i :: i in groups <==> i in testIndices[..Min(|testIndices|, |taskResults|)]
    ensures forall i :: i in groups ==> |groups[i]| > 0
    ensures forall i :: i in groups ==>
      (groups[i] == Collect(testIndices[..Min(|testIndices|, |taskResults|)], taskResults[..Min(|testIndices|, |taskResults|)], i))
  {
    var m := Min(|testIndices|, |taskResults|);
    groups := map[];
    var k := 0;
    while k < m
      invariant 0 <= k <= m
      invariant forall i :: i in groups ==> |groups[i]| > 0
      invariant forall i :: Collect(testIndices[..k], taskResults[..k], i) == if i in groups then groups[i] else []
    {
      var idx, result := testIndices[k], taskResults[k];
      ghost var before := groups;
      if idx !in groups {
        groups := groups[idx := []];
      }
      groups := groups[idx := groups[idx] + [result]];
      GroupStep(testIndices, taskResults, k, before, groups);
      k := k + 1;
    }
    forall i ensures i in groups <==> i in testIndices[..m] {
      CollectNonEmpty(testIndices[..m], taskResults[..m], i);
    }
  }

  /** One more (owner, result) pair adds the result to that owner's group only. */
  lemma {:induction false} CollectSnoc(owners: seq<nat>, results: seq<TaskResult>, o: nat, r: TaskResult, i: nat)
    requires |owners| == |results|
    ensures Collect(owners + [o], results + [r], i) == Collect(owners, results, i) + if o == i then [r] else []
  {
    assert (owners + [o])[..|owners|] == owners;
    assert (results + [r])[..|results|] == results;
  }

  /** Appending result `k` to its owner's group keeps the groups equal to the regrouping of the first `k + 1` pairs. */
  lemma {:induction false} GroupStep(
    owners: seq<nat>, results: seq<TaskResult>, k: nat, groups: map<nat, seq<TaskResult>>,
    groups': map<nat, seq<TaskResult>>)
    requires k < |owners| && k < |results|
    requires forall i :: i in groups ==> |groups[i]| > 0
    requires forall i :: Collect(owners[..k], results[..k], i) == if i in groups then groups[i] else []
    requires groups' == groups[owners[k] := (if owners[k] in groups then groups[owners[k]] else []) + [results[k]]]
    ensures forall i :: i in groups' ==> |groups'[i]| > 0
    ensures forall i :: Collect(owners[..k + 1], results[..k + 1], i) == if i in groups' then groups'[i] else []
  {
    assert owners[..k + 1] == owners[..k] + [owners[k]];
    assert results[..k + 1] == results[..k] + [results[k]];
    forall i ensures Collect(owners[..k + 1], results[..k + 1], i) == if i in groups' then groups'[i] else [] {
      CollectSnoc(owners[..k], results[..k], owners[k], results[k], i);
    }
  }

  /** `sum(test_results)`: True counts 1, False and the 0.0 placeholder count 0. */
  function Sum(results: seq<TaskResult>): (r: real)
    ensures 0.0 <= r <= |results| as real
  {
    if results == [] then 0.0 else results[0].Value() + Sum(results[1..])
  }

  /** The sum lies between 0 and the count, reaching the count exactly when all passed and 0 exactly when none did. */
  lemma {:induction false} SumBounds(results: seq<TaskResult>)
    ensures 0.0 <= Sum(results) <= |results| as real
    ensures Sum(results) == |results| as real <==> forall k :: 0 <= k < |results| ==> results[k] == Ran(true)
    ensures Sum(results) == 0.0 <==> forall k :: 0 <= k < |results| ==> results[k] != Ran(true)
  {
    if results != [] {
      SumBounds(results[1..]);
      assert forall k :: 1 <= k < |results| ==> results[k] == results[1..][k - 1];
    }
  }

  /** `math.pow(sum(test_results) / len(test_results), 3) * 2` */
  function AccuracyReward(results: seq<TaskResult>): (r: real)
    requires |results| > 0
    ensures Sum(results) == 0.0 ==> r == 0.0
    ensures Sum(results) == |results| as real ==> r == 2.0
  {
    var accuracy := Sum(results) / |results| as real;
    Fraction(Sum(results), |results| as real);
    accuracy * accuracy * accuracy * 2.0
  }

  /** A cube of a fraction in [0, 1] stays in [0, 1], and is 0 or 1 only for 0 or 1. */
  lemma {:induction false} CubeOfFraction(a: real)
    requires 0.0 <= a <= 1.0
    ensures 0.0 <= a * a * a <= 1.0
    ensures a * a * a == 1.0 <==> a == 1.0
    ensures a * a * a == 0.0 <==> a == 0.0
  {
    assert a * a <= a by { assert a * a <= a * 1.0; }
    assert a * a * a <= a * a by { assert a * a * a <= a * a * 1.0; }
    if 0.0 < a {
      assert 0.0 < a * a;
      assert 0.0 < a * a * a;
    }
  }

  /**
   * The accuracy reward lies in [0, 2]; it is 2 exactly when every test passed and 0
   * exactly when none did.
   */
  lemma {:induction false} AccuracyRewardRange(results: seq<TaskResult>)
    requires |results| > 0
    ensures 0.0 <= AccuracyReward(results) <= 2.0
    ensures AccuracyReward(results) == 2.0 <==> forall k :: 0 <= k < |results| ==> results[k] == Ran(true)
    ensures AccuracyReward(results) == 0.0 <==> forall k :: 0 <= k < |results| ==> results[k] != Ran(true)
  {
    SumBounds(results);
    Fraction(Sum(results), |results| as real);
    CubeOfFraction(Sum(results) / |results| as real);
  }

  /** Two passes out of three tests: (2/3)^3 * 2 = 16/27, about 0.593. */
  lemma {:induction false} AccuracyRewardTwoOfThree()
    ensures AccuracyReward([Ran(true), Ran(true), Ran(false)]) == 16.0 / 27.0
  {
    var rs := [Ran(true), Ran(true), Ran(false)];
    assert rs[1..] == [Ran(true), Ran(false)];
    assert rs[1..][1..] == [Ran(false)];
    assert Sum(rs) == 2.0;
  }

  /**
   * The final loop of `answer_execution_reward_func`: the accuracy reward for each
   * completion that has results, 0.0 for the others.
   */
  method RewardsFromGroups(count: nat, groups: map<nat, seq<TaskResult>>) returns (rewards: seq<real>)
    requires forall i :: i in groups ==> |groups[i]| > 0
    ensures |rewards| == count
    ensures forall i :: 0 <= i < count ==> rewards[i] == if i in groups then AccuracyReward(groups[i]) else 0.0
  {
    rewards := [];
    var i := 0;
    while i < count
      invariant 0 <= i <= count && |rewards| == i
      invariant forall k :: 0 <= k < i ==> rewards[k] == if k in groups then AccuracyReward(groups[k]) else 0.0
    {
      var reward;
      if i in groups {
        var testResults := groups[i];
        reward := AccuracyReward(testResults);
      } else {
        reward := 0.0;
      }
      rewards := rewards + [reward];
      i := i + 1;
    }
  }

  /**
   * `answer_execution_reward_func`: every completion's code is run once per test,
   * the verdicts are regrouped by completion, and a completion earns 2 * accuracy^3.
   * A completion with no tests, or with no entry in `answers`, earns 0. Unless a round of
   * the pool finished nothing (`stalled`, never the case serially), the reward is exactly
   * that of the completion's own verdicts; after a stalled round a slot left unfinished
   * counts as a failure, so a 2 still means every test passed, and the completion that
   * owns it falls short of 2; the pool is then shut down and the singleton handle cleared.
   */
  method AnswerExecutionRewardFunc(
    d: Dispatcher, cfg: Config, completions: seq<Completion>, answers: seq<seq<string>>, run: string -> bool)
    returns (rewards: seq<real>, ghost stalled: bool)
    requires d.Valid() && WellFormed(completions)
    modifies d, d.registry, d.wasm
    ensures d.Valid()
    ensures |rewards| == |completions|
    ensures forall i :: 0 <= i < |completions| ==> 0.0 <= rewards[i] <= 2.0
    ensures forall i :: 0 <= i < |completions| && (i >= |answers| || answers[i] == []) ==> rewards[i] == 0.0
    ensures forall i :: 0 <= i < |completions| && i < |answers| && rewards[i] == 2.0 ==>
      forall k :: 0 <= k < |answers[i]| ==> run(ExtractXmlAnswer(Content(completions[i])) + "\n" + answers[i][k])
    ensures !stalled ==>
      forall i :: 0 <= i < |completions| && i < |answers| && answers[i] != [] ==>
        rewards[i] == AccuracyReward(RunSerially(TestTasks(ExtractXmlAnswer(Content(completions[i])), answers[i]), run))
    ensures stalled ==> exists i :: 0 <= i < |completions| && i < |answers| && answers[i] != [] && rewards[i] < 2.0
    ensures cfg.maxProcesses <= 1 ==> !stalled
    ensures cfg.maxProcesses > 1 ==> (stalled <==> d.registry.executor.None?)
    ensures cfg.maxProcesses > 1 && stalled ==>
      d.executor.Some? && d.registry.shutDown == old(d.registry.shutDown) + [d.executor.value]
  {
    var modelAnswers := ModelAnswers(completions);
    var tasks, testIndices := BuildTasks(modelAnswers, answers);
    var taskResults;
    taskResults, stalled := d.ExecuteTasks(tasks, cfg.maxProcesses, cfg.wasmPath, cfg.fuel, cfg.taskTimeout, run);
    var completionResults := GroupResults(testIndices, taskResults);
    rewards := RewardsFromGroups(|completions|, completionResults);

    AnswerRewards(modelAnswers, answers, tasks, testIndices, taskResults, completionResults, rewards, run, !stalled);
  }

  /**
   * The rewards `answer_execution_reward_func` computes from a result list that holds,
   * slot by slot, 0.0 or the slot's own verdict: per completion, the properties its
   * contract promises; with `complete`, the exact reward of its own verdicts, and
   * otherwise some completion with tests that falls short of 2.
   */
  lemma {:induction false} AnswerRewards(
    codes: seq<string>, answers: seq<seq<string>>, tasks: seq<string>, owners: seq<nat>, results: seq<TaskResult>,
    groups: map<nat, seq<TaskResult>>, rewards: seq<real>, run: string -> bool, complete: bool)
    requires tasks == TaskList(codes, answers, Min(|codes|, |answers|))
    requires owners == Owners(answers, Min(|codes|, |answers|))
    requires |results| == |tasks|
    requires forall t :: 0 <= t < |results| ==> results[t] == Unset || results[t] == Ran(run(tasks[t]))
    requires complete ==> forall t :: 0 <= t < |results| ==> results[t] == Ran(run(tasks[t]))
    requires !complete ==> exists t :: 0 <= t < |results| && results[t] == Unset
    requires forall i :: i in groups <==> i in owners[..Min(|owners|, |results|)]
    requires forall i :: i in groups ==> |groups[i]| > 0
    requires forall i :: i in groups ==>
      groups[i] == Collect(owners[..Min(|owners|, |results|)], results[..Min(|owners|, |results|)], i)
    requires |rewards| == |codes|
    requires forall i :: 0 <= i < |codes| ==> rewards[i] == if i in groups then AccuracyReward(groups[i]) else 0.0
    ensures forall i :: 0 <= i < |codes| ==> 0.0 <= rewards[i] <= 2.0
    ensures forall i :: 0 <= i < |codes| && (i >= |answers| || answers[i] == []) ==> rewards[i] == 0.0
    ensures forall i :: 0 <= i < |codes| && i < |answers| && rewards[i] == 2.0 ==>
      forall k :: 0 <= k < |answers[i]| ==> run(codes[i] + "\n" + answers[i][k])
    ensures complete ==>
      forall i :: 0 <= i < |codes| && i < |answers| && answers[i] != [] ==>
        rewards[i] == AccuracyReward(RunSerially(TestTasks(codes[i], answers[i]), run))
    ensures !complete ==> exists i :: 0 <= i < |codes| && i < |answers| && answers[i] != [] && rewards[i] < 2.0
  {
    var n := Min(|codes|, |answers|);
    TaskListLength(codes, answers, n);
    assert owners[..|results|] == owners && results[..|results|] == results;
    if complete {
      assert results == RunSerially(tasks, run);
    } else {
      var t :| 0 <= t < |results| && results[t] == Unset;
      UnfinishedGroup(answers, n, results, groups, t);
      var i := owners[t];
      assert 0 <= i < |codes| && i < |answers| && answers[i] != [] && rewards[i] < 2.0;
    }
    forall i | 0 <= i < |codes|
      ensures 0.0 <= rewards[i] <= 2.0
      ensures (i >= |answers| || answers[i] == []) ==> rewards[i] == 0.0
      ensures i < |answers| && rewards[i] == 2.0 ==>
        forall k :: 0 <= k < |answers[i]| ==> run(codes[i] + "\n" + answers[i][k])
      ensures complete && i < |answers| && answers[i] != [] ==>
        rewards[i] == AccuracyReward(RunSerially(TestTasks(codes[i], answers[i]), run))
    {
      CompletionGroup(codes, answers, n, tasks, results, groups, run, complete, i);
    }
  }

  /**
   * The block of results that belongs to completion `i`, for any result list that
   * holds, slot by slot, either 0.0 or the verdict on that slot's task (and, when
   * `complete`, always the verdict): entry `k` of the block is 0.0 or the verdict on
   * completion `i`'s code followed by its `k`-th test.
   */
  lemma {:induction false} BlockVerdicts(
    codes: seq<string>, answers: seq<seq<string>>, n: nat, tasks: seq<string>, results: seq<TaskResult>,
    run: string -> bool, complete: bool, i: nat)
    requires n <= |codes| && n <= |answers| && i < n && tasks == TaskList(codes, answers, n)
    requires |results| == |tasks|
    requires forall t :: 0 <= t < |results| ==> results[t] == Unset || results[t] == Ran(run(tasks[t]))
    requires complete ==> forall t :: 0 <= t < |results| ==> results[t] == Ran(run(tasks[t]))
    ensures Offset(answers, i) + |answers[i]| <= |results|
    ensures PartialVerdicts(results[Offset(answers, i)..Offset(answers, i) + |answers[i]|], TestTasks(codes[i], answers[i]), run)
    ensures complete ==>
      results[Offset(answers, i)..Offset(answers, i) + |answers[i]|] == RunSerially(TestTasks(codes[i], answers[i]), run)
  {
    TaskListLength(codes, answers, n);
    OffsetBlock(answers, n, i);
    var start := Offset(answers, i);
    var block := results[start..start + |answers[i]|];
    var own := TestTasks(codes[i], answers[i]);
    forall k | 0 <= k < |answers[i]|
      ensures block[k] == results[start + k] && tasks[start + k] == own[k]
    {
      TaskAt(codes, answers, n, i, k);
    }
    if complete {
      assert block == RunSerially(own, run);
    }
  }

  /** Each result is the 0.0 placeholder or the verdict on its task. */
  ghost predicate PartialVerdicts(results: seq<TaskResult>, tasks: seq<string>, run: string -> bool) {
    |results| == |tasks| && forall k :: 0 <= k < |results| ==> results[k] == Unset || results[k] == Ran(run(tasks[k]))
  }

  /** Full marks on a block of placeholders and verdicts means every task ran. */
  lemma {:induction false} FullMarks(results: seq<TaskResult>, tasks: seq<string>, run: string -> bool)
    requires |results| > 0 && PartialVerdicts(results, tasks, run)
    ensures 0.0 <= AccuracyReward(results) <= 2.0
    ensures AccuracyReward(results) == 2.0 ==> forall k :: 0 <= k < |tasks| ==> run(tasks[k])
  {
    AccuracyRewardRange(results);
  }

  /** A completion has a group exactly when it has tests, and its group is its own block of results. */
  lemma {:induction false} GroupIsBlock(
    answers: seq<seq<string>>, n: nat, results: seq<TaskResult>, groups: map<nat, seq<TaskResult>>, i: nat)
    requires n <= |answers| && |results| == |Owners(answers, n)|
    requires forall j :: j in groups <==> j in Owners(answers, n)
    requires forall j :: j in groups ==> groups[j] == Collect(Owners(answers, n), results, j)
    ensures i in groups <==> i < n && answers[i] != []
    ensures i in groups ==> (Offset(answers, i) + |answers[i]| <= |results|
      && groups[i] == results[Offset(answers, i)..Offset(answers, i) + |answers[i]|])
  {
    OwnersMembership(answers, n, i);
    if i in groups {
      OwnersLength(answers, n);
      OffsetBlock(answers, n, i);
      CollectOwners(answers, n, results, i);
    }
  }

  /** The completion that owns an unfinished slot has a group, and that group falls short of full marks. */
  lemma {:induction false} UnfinishedGroup(
    answers: seq<seq<string>>, n: nat, results: seq<TaskResult>, groups: map<nat, seq<TaskResult>>, t: nat)
    requires n <= |answers| && |results| == |Owners(answers, n)|
    requires forall j :: j in groups <==> j in Owners(answers, n)
    requires forall j :: j in groups ==> groups[j] == Collect(Owners(answers, n), results, j)
    requires t < |results| && results[t] == Unset
    ensures var i := Owners(answers, n)[t];
      i < n && answers[i] != [] && i in groups && |groups[i]| > 0 && AccuracyReward(groups[i]) < 2.0
  {
    OwnerBlock(answers, n, t);
    var i := Owners(answers, n)[t];
    var lo := Offset(answers, i);
    GroupIsBlock(answers, n, results, groups, i);
    var g := groups[i];
    assert g == results[lo..lo + |answers[i]|];
    assert g[t - lo] == Unset;
    AccuracyRewardRange(g);
  }

  /**
   * What one completion's regrouped results are, for any result list that holds, slot
   * by slot, either 0.0 or the verdict on that slot's task (and, run serially, always
   * the verdict): the completion has a group exactly when it has tests; its reward is
   * in [0, 2]; a 2 means every test ran; and serially the group is the list of its own
   * tests' verdicts.
   */
  lemma {:induction false} CompletionGroup(
    codes: seq<string>, answers: seq<seq<string>>, n: nat, tasks: seq<string>, results: seq<TaskResult>,
    groups: map<nat, seq<TaskResult>>, run: string -> bool, serial: bool, i: nat)
    requires n == Min(|codes|, |answers|) && i < |codes| && tasks == TaskList(codes, answers, n)
    requires |results| == |tasks| == |Owners(answers, n)|
    requires forall t :: 0 <= t < |results| ==> results[t] == Unset || results[t] == Ran(run(tasks[t]))
    requires serial ==> results == RunSerially(tasks, run)
    requires forall j :: j in groups <==> j in Owners(answers, n)
    requires forall j :: j in groups ==> groups[j] == Collect(Owners(answers, n), results, j)
    ensures i in groups <==> i < |answers| && answers[i] != []
    ensures i in groups ==> |groups[i]| > 0 && 0.0 <= AccuracyReward(groups[i]) <= 2.0
    ensures i in groups && AccuracyReward(groups[i]) == 2.0 ==>
      forall k :: 0 <= k < |answers[i]| ==> run(codes[i] + "\n" + answers[i][k])
    ensures i in groups && serial ==> groups[i] == RunSerially(TestTasks(codes[i], answers[i]), run)
  {
    GroupIsBlock(answers, n, results, groups, i);
    if i in groups {
      BlockVerdicts(codes, answers, n, tasks, results, run, serial, i);
      FullMarks(groups[i], TestTasks(codes[i], answers[i]), run);
    }
  }
}
