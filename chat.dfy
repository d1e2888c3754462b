/** Chat-format records exchanged with the trainer: a completion is a list of messages. */
module Chat {

  datatype Message = Message(role: string, content: string)

  type Completion = seq<Message>

  /** Every completion holds at least one message, so `completion[0]["content"]` exists. */
  predicate WellFormed(completions: seq<Completion>) {
    forall i :: 0 <= i < |completions| ==> |completions[i]| > 0
  }

  /** `completion[0]["content"]`: the text of the first message. */
  function Content(completion: Completion): string
    requires |completion| > 0
  {
    completion[0].content
  }
}
