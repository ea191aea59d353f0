/** The text `export_history` (app.py) writes for a chat history: a placeholder
    when there is nothing to export, otherwise one "Role: content" line per
    message. */
module App {
  import opened Strings
  import opened Utils

  /** One chat message as the chat widget holds it. */
  datatype Message = Message(role: string, content: string)

  const Placeholder: string := "No chat history available yet."

  /** The line for one message: the capitalised role, ": ", then the content
      exactly as it is. */
  function Line(m: Message): (line: string)
    ensures |line| == |m.role| + 2 + |m.content|
    ensures line[..|m.role|] == Capitalize(m.role)
    ensures line[|m.role|..|m.role| + 2] == ": "
    ensures line[|m.role| + 2..] == m.content
  {
    Capitalize(m.role) + ": " + m.content
  }

  /** The list comprehension over the history: one line per message, in order. */
  function Lines(history: seq<Message>): (lines: seq<string>)
    ensures |lines| == |history|
    ensures forall i :: 0 <= i < |history| ==> lines[i] == Line(history[i])
  {
    seq(|history|, i requires 0 <= i < |history| => Line(history[i]))
  }

  /** Python's `not history` for a history that may be `None`: true for
      `None` and for the empty list, false for any list with a message. */
  predicate IsEmptyHistory(history: Option<seq<Message>>): (empty: bool)
    ensures empty <==> history == None || history == Some([])
  {
    history.None? || |history.value| == 0
  }

  /** A helper fact for ExportContent: the placeholder holds no colon, while
      every message line does, so no export of messages equals it. */
  lemma PlaceholderHasNoColon()
    ensures ':' !in Placeholder
  {
  }

  /** The content of the exported file. It is the placeholder exactly when
      there is no history: a non-empty history never renders as the
      placeholder, and its export starts with the first message's line. */
  function ExportContent(history: Option<seq<Message>>): (text: string)
    ensures text == Placeholder <==> IsEmptyHistory(history)
    ensures !IsEmptyHistory(history) ==>
      var first := Line(history.value[0]);
      |text| >= |first| && text[..|first|] == first
  {
    if IsEmptyHistory(history) then Placeholder
    else
      var h := history.value;
      var text := Join("\n", Lines(h));
      JoinEnds("\n", Lines(h));
      PlaceholderHasNoColon();
      assert text[..|Line(h[0])|] == Line(h[0]);
      assert Line(h[0])[|h[0].role|] == ':';
      text
  }

  /** Splitting a non-empty export at "\n" gives one line per message, in the
      order of the history, each the message's capitalised role, ": " and its
      content verbatim -- provided no role or content holds a "\n" of its
      own. */
  lemma {:induction false} ExportLines(h: seq<Message>)
    requires |h| > 0
    requires forall i :: 0 <= i < |h| ==> '\n' !in h[i].role && '\n' !in h[i].content
    ensures var lines := Split('\n', ExportContent(Some(h)));
      |lines| == |h| &&
      forall i :: 0 <= i < |h| ==> lines[i] == Capitalize(h[i].role) + ": " + h[i].content
  {
    var lines := Lines(h);
    forall i | 0 <= i < |lines| ensures '\n' !in lines[i] {
      CapitalizeKeepsNewlines(h[i].role);
    }
    SplitJoin('\n', lines);
  }

  /** A non-empty export ends with the last message's line: no newline is
      added after it. */
  lemma ExportEndsWithLastLine(h: seq<Message>)
    requires |h| > 0
    ensures var text := ExportContent(Some(h));
      var last := Line(h[|h| - 1]);
      |text| >= |last| && text[|text| - |last|..] == last
  {
    JoinEnds("\n", Lines(h));
  }

  /** Two concrete exports: no history, and a single user message "hi". */
  lemma ExportExamples()
    ensures ExportContent(None) == Placeholder
    ensures ExportContent(Some([])) == Placeholder
    ensures ExportContent(Some([Message("user", "hi")])) == "User: hi"
  {
    assert Capitalize("user") == "User";
  }
}
