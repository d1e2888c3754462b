/**
 * The dataset transform for the AceCode training data: a record with a question and its
 * test cases becomes a one-message chat prompt plus the test cases as answers.
 */
module Transforms {
  import opened Chat

  /** The layout instructions appended to every question. */
  const SystemPrompt: string :=
    "\n"
    + "Respond in the following format:\n"
    + "<reasoning>\n"
    + "...\n"
    + "</reasoning>\n"
    + "<answer>\n"
    + "...\n"
    + "</answer>\n"
    + "\n"
    + "Additionally, you may optionally use the following imports:\n"
    + "\n"
    + "import time\n"
    + "import itertools\n"
    + "from itertools import accumulate, product, permutations, combinations\n"
    + "import collections\n"
    + "from collections import Counter, OrderedDict, deque, defaultdict, ChainMap\n"
    + "from functools import lru_cache\n"
    + "import math\n"
    + "from typing import List, Dict, Tuple, Optional, Any\n"
    + "\n"
    + "If you choose to use any of these imports, ensure they are included\n"
    + "inside the <answer> </answer> tags, e.g:\n"
    + "\n"
    + "<answer>\n"
    + "import time\n"
    + "import math\n"
    + "...\n"
    + "</answer>\n"
    + "\n"
    + "You may not utilise any other imports or filesystem operations. \n"

  /** What separates the question from the instructions. */
  const Separator: string := "\n\n"

  /** A dataset row: the `question` and `test_cases` columns. */
  datatype Example = Example(question: string, testCases: seq<string>)

  /** The row the transform produces: the `prompt` messages and the `answers` column. */
  datatype PromptRecord = PromptRecord(prompt: seq<Message>, answers: seq<string>)

  /** The columns the trainer drops once the transform has run. */
  const RemovedColumns: seq<string> := ["question", "test_cases"]

  /**
   * `transform_fn`: a single user message holding the question, a blank line and the
   * instructions; the test cases pass through as the answers.
   */
  function TransformFn(example: Example): (r: PromptRecord)
    ensures |r.prompt| == 1 && r.prompt[0].role == "user"
    ensures var content := r.prompt[0].content;
      && |content| == |example.question| + |Separator| + |SystemPrompt|
      && content[..|example.question|] == example.question
      && content[|example.question|..|example.question| + |Separator|] == Separator
      && content[|content| - |SystemPrompt|..] == SystemPrompt
    ensures r.answers == example.testCases
  {
    var content := example.question + Separator + SystemPrompt;
    Concat3(example.question, Separator, SystemPrompt);
    PromptRecord([Message("user", content)], example.testCases)
  }

  /** Where the three parts of `a + b + c` sit. */
  lemma {:induction false} Concat3(a: string, b: string, c: string)
    ensures var s := a + b + c;
      && |s| == |a| + |b| + |c|
      && s[..|a|] == a && s[|a|..|a| + |b|] == b && s[|s| - |c|..] == c
  {
    var s := a + b + c;
    assert s[..|a|] == a;
    assert s[|a|..|a| + |b|] == b;
    assert s[|s| - |c|..] == c;
  }

  /** Whether a record has the shape `TransformFn` produces. */
  predicate IsTransformed(r: PromptRecord) {
    && |r.prompt| == 1 && r.prompt[0].role == "user"
    && |r.prompt[0].content| >= |Separator| + |SystemPrompt|
  }

  /** Reads the row back from a transformed record: the question is the content minus the fixed tail. */
  function ExampleOf(r: PromptRecord): Example
    requires IsTransformed(r)
  {
    var content := r.prompt[0].content;
    Example(content[..|content| - |Separator| - |SystemPrompt|], r.answers)
  }

  /** The transform loses nothing: the row can be read back from the record it produces. */
  lemma {:induction false} TransformRoundTrip(example: Example)
    ensures IsTransformed(TransformFn(example))
    ensures ExampleOf(TransformFn(example)) == example
  {
    var content := TransformFn(example).prompt[0].content;
    assert content[..|content| - |Separator| - |SystemPrompt|] == content[..|example.question|];
  }

  /** Two rows with different questions or tests give different records. */
  lemma {:induction false} TransformInjective(a: Example, b: Example)
    requires TransformFn(a) == TransformFn(b)
    ensures a == b
  {
    TransformRoundTrip(a);
    TransformRoundTrip(b);
  }

  /**
   * `axolotl_acecode_transform`: the transform and the loader options naming the columns to
   * drop. `cfg` is not read.
   */
  function AcecodeTransform<C>(cfg: C): (r: (Example -> PromptRecord, seq<string>))
    ensures forall e :: r.0(e) == TransformFn(e)
    ensures r.1 == RemovedColumns
  {
    (TransformFn, RemovedColumns)
  }
}
