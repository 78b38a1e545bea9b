/** The chat page's conversation log, kept in the session state across
    reruns of the page script: a greeting to start with, a reset that brings
    it back, and one user message and one assistant message per question. */
module Chat {
  import opened Text
  import opened Answer
  import opened Citations

  datatype Role = User | Assistant

  datatype Message = Message(role: Role, content: string)

  /** The assistant's opening line. */
  const Greeting: string :=
    "Hello! I'm here to assist with any questions you have about the uploaded documents. How can I help you today?"

  /** The log a new or reset conversation starts from. */
  const InitialMessages: seq<Message> := [Message(Assistant, Greeting)]

  /** What the question-answering pipeline hands back: the model's answer
      and the page number of every retrieved source, in retrieval order and
      possibly repeated. */
  datatype QueryResult = QueryResult(answer: string, sourcePages: seq<int>)

  /** A call to the pipeline either returns a result or raises. */
  datatype Outcome = Answered(result: QueryResult) | Failed

  /** The pieces of the HTML template an answer with citations is shown in. */
  const Indent: string := "\n        "
  const BeforeCitations: string :=
    "\n        \n        <span style=\"color:grey; font-size: small; font-style: italic;\">The information was found on the following pages: "
  const AfterCitations: string := ".</span>\n        "

  /** The answer text with the citation line under it. Both can be read
      back from fixed places in the result: the answer right after the
      indent, the citations between the two fixed pieces of markup. */
  function CitedAnswer(answer: string, citations: string): (r: string)
    ensures |r| == |Indent| + |answer| + |BeforeCitations| + |citations| + |AfterCitations|
    ensures r[|Indent|..|Indent| + |answer|] == answer
    ensures r[|Indent| + |answer| + |BeforeCitations|..|r| - |AfterCitations|] == citations
  {
    FillIn(Indent, answer, BeforeCitations, citations, AfterCitations);
    Indent + answer + BeforeCitations + citations + AfterCitations
  }

  /** The two pieces filled into a three-piece template are where the
      template's pieces leave room for them. */
  lemma FillIn(a: string, x: string, b: string, y: string, c: string)
    ensures var r := a + x + b + y + c;
      |r| == |a| + |x| + |b| + |y| + |c|
      && r[|a|..|a| + |x|] == x
      && r[|a| + |x| + |b|..|r| - |c|] == y
  {
    var r := a + x + b + y + c;
    assert r[|a|..|a| + |x|] == x by {
      assert r == a + x + (b + y + c);
    }
    assert r[|a| + |x| + |b|..|r| - |c|] == y;
  }

  /** The text shown (and logged) for a pipeline result: the raw answer
      with its citation line when the pipeline returned any sources,
      otherwise the answer with its "SOURCES:" trailer cut off. */
  function DisplayedAnswer(r: QueryResult): (d: string)
    ensures |r.sourcePages| > 0 ==> d == CitedAnswer(r.answer, CitationString(r.sourcePages))
    ensures |r.sourcePages| == 0 ==> d == ExtractAnswerWithoutSources(r.answer)
  {
    var citations := CitationString(r.sourcePages);
    if citations != [] then CitedAnswer(r.answer, citations)
    else ExtractAnswerWithoutSources(r.answer)
  }

  /** With sources, the model's answer is shown verbatim, trailer and all,
      followed by the citation line of its pages. */
  lemma DisplayedWithSources(r: QueryResult)
    requires |r.sourcePages| > 0
    ensures var d := DisplayedAnswer(r);
      var k := |Indent| + |r.answer| + |BeforeCitations|;
      k + |AfterCitations| <= |d|
      && d[|Indent|..|Indent| + |r.answer|] == r.answer
      && var pieces := Split(d[k..|d| - |AfterCitations|], Separator);
         |pieces| == |SortedPages(r.sourcePages)|
         && forall i :: 0 <= i < |pieces| ==> pieces[i] == IntToDecimal(SortedPages(r.sourcePages)[i])
  {
    CitationReadsBack(r.sourcePages);
  }

  /** Without sources, only the part of the answer before its first
      "SOURCES:" is shown, trimmed, and no "SOURCES:" is left in it. */
  lemma DisplayedWithoutSources(r: QueryResult)
    requires |r.sourcePages| == 0
    ensures DisplayedAnswer(r) == Strip(Before(r.answer, Marker))
    ensures !Contains(DisplayedAnswer(r), Marker)
  {
    NormalisationInvisible(r.answer);
  }

  /** A log every state of the page keeps: it opens with the greeting, and
      every later assistant message answers the user message just before
      it. */
  predicate WellFormedLog(log: seq<Message>)
  {
    |log| > 0 && log[0] == Message(Assistant, Greeting)
    && forall i :: 1 <= i < |log| && log[i].role == Assistant ==> log[i - 1].role == User
  }

  /** The log after one question: the user's message, then (when the
      pipeline answered) the assistant's reply. The user's message is
      logged before the pipeline runs, so it stays when the pipeline
      raises. */
  function AfterQuestion(log: seq<Message>, query: string, outcome: Outcome): (after: seq<Message>)
    ensures |after| == |log| + (if outcome.Answered? then 2 else 1)
    ensures after[..|log|] == log
    ensures after[|log|] == Message(User, query)
    ensures outcome.Answered? ==> after[|log| + 1] == Message(Assistant, DisplayedAnswer(outcome.result))
  {
    match outcome
    case Answered(result) => log + [Message(User, query), Message(Assistant, DisplayedAnswer(result))]
    case Failed => log + [Message(User, query)]
  }

  /** A question keeps the log well formed. */
  lemma {:induction false} QuestionKeepsLog(log: seq<Message>, query: string, outcome: Outcome)
    requires WellFormedLog(log)
    ensures WellFormedLog(AfterQuestion(log, query, outcome))
  {
    var after := AfterQuestion(log, query, outcome);
    forall i | 1 <= i < |after| && after[i].role == Assistant ensures after[i - 1].role == User {
      if i < |log| {
        assert after[i] == log[i] && after[i - 1] == log[i - 1];
      }
    }
  }

  /** What one run of the page script is given: whether "Reset Chat" was
      pressed, what the chat box holds, and what the pipeline would make of
      the question. */
  datatype PageRun = PageRun(resetPressed: bool, input: Option<string>, outcome: Outcome)

  /** The log after one run: the greeting after a reset or when there is no
      log yet, then the question when the chat box holds a non-empty one.
      Starting from no log or a well-formed one, the result is well formed. */
  function LogAfterRun(messages: Option<seq<Message>>, run: PageRun): (log: seq<Message>)
    ensures (messages.None? || WellFormedLog(messages.value)) ==> WellFormedLog(log)
  {
    var start := if run.resetPressed || messages.None? then InitialMessages else messages.value;
    if run.input.Some? && run.input.value != "" then
      var after := AfterQuestion(start, run.input.value, run.outcome);
      assert WellFormedLog(start) ==> WellFormedLog(after) by {
        if WellFormedLog(start) {
          QuestionKeepsLog(start, run.input.value, run.outcome);
        }
      }
      after
    else start
  }

  /** The log a session holds after a sequence of runs: none before the
      first run, and a well-formed one after any number of runs. */
  function LogAfterRuns(runs: seq<PageRun>): (r: Option<seq<Message>>)
    ensures r.Some? <==> |runs| > 0
    ensures r.Some? ==> WellFormedLog(r.value)
  {
    if |runs| == 0 then None
    else Some(LogAfterRun(LogAfterRuns(runs[..|runs| - 1]), runs[|runs| - 1]))
  }

  /** The page's session state: the conversation log and the chat history,
      each absent until first set. */
  class Session {
    var messages: Option<seq<Message>>
    var history: Option<seq<Message>>

    predicate Valid()
      reads this
    {
      messages.Some? ==> WellFormedLog(messages.value)
    }

    /** A fresh browser session holds no keys. */
    constructor ()
      ensures messages == None && history == None
      ensures Valid()
    {
      messages := None;
      history := None;
    }

    /** "Reset Chat": the conversation starts over from the greeting and
        the history is emptied. */
    method Reset()
      modifies this
      ensures messages == Some(InitialMessages) && history == Some([])
      ensures Valid()
    {
      messages := Some(InitialMessages);
      history := Some([]);
    }

    /** The greeting is put in place when there is no log yet; an existing
        log is left alone. */
    method EnsureMessages()
      requires Valid()
      modifies this
      ensures old(messages).None? ==> messages == Some(InitialMessages)
      ensures old(messages).Some? ==> messages == old(messages)
      ensures history == old(history)
      ensures messages.Some? && Valid()
    {
      if messages.None? {
        messages := Some(InitialMessages);
      }
    }

    /** One question typed in the chat box, with what the pipeline made of
        it; returns the reply shown, if any. */
    method Ask(query: string, outcome: Outcome) returns (reply: Option<string>)
      requires messages.Some? && Valid()
      modifies this
      ensures messages == Some(AfterQuestion(old(messages.value), query, outcome))
      ensures history == old(history)
      ensures reply == (if outcome.Answered? then Some(DisplayedAnswer(outcome.result)) else None)
      ensures Valid()
    {
      var before := messages.value;
      QuestionKeepsLog(before, query, outcome);
      var log := before + [Message(User, query)];
      messages := Some(log);
      match outcome {
        case Answered(result) =>
          var answer := DisplayedAnswer(result);
          assert log + [Message(Assistant, answer)] == before + [Message(User, query), Message(Assistant, answer)];
          messages := Some(log + [Message(Assistant, answer)]);
          reply := Some(answer);
        case Failed =>
          reply := None;
      }
    }

    /** One run of the page script: the reset button, then the greeting if
        needed, then the question when the chat box holds a non-empty one. */
    method Run(resetPressed: bool, input: Option<string>, outcome: Outcome) returns (reply: Option<string>)
      requires Valid()
      modifies this
      ensures messages == Some(LogAfterRun(old(messages), PageRun(resetPressed, input, outcome)))
      ensures reply == if input.Some? && input.value != "" && outcome.Answered?
                       then Some(DisplayedAnswer(outcome.result)) else None
      ensures history == (if resetPressed then Some([]) else old(history))
      ensures Valid()
    {
      if resetPressed {
        Reset();
      }
      EnsureMessages();
      reply := None;
      if input.Some? && input.value != "" {
        reply := Ask(input.value, outcome);
      }
    }
  }
}
