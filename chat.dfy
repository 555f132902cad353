/** The chat transcript controller: the ordered message list and the session
    status, changed by a submission and then by the events of the reply
    stream (chunks, then completion or failure). The streaming client is
    not modelled; its events arrive as calls of `OnChunk`, `OnComplete` and
    `OnError` while the status is `Loading`. */
module Chat {
  import opened Types
  import opened Strings
  import opened Seqs
  import Sources

  /** The warning marker that starts an error message. */
  const ErrorPrefix: string := "⚠️ 오류 발생: "

  /** The error text used when the failure carries no message. */
  const DefaultErrorText: string := "공식 데이터를 가져오는 중 예상치 못한 문제가 발생했습니다."

  /** The message the transcript starts with: the intro banner image. */
  function Banner(url: string): Message {
    Message(Model, None, None, Some(url), None, None)
  }

  /** The message recording what the user submitted. */
  function UserMessage(input: string): Message {
    Message(User, Some(input), None, None, None, None)
  }

  /** The model message opened on submission, filled in as chunks arrive. */
  function Placeholder(): Message {
    Message(Model, Some(""), Some(""), None, Some(true), None)
  }

  /** A message whose stream is still open. */
  predicate IsOpen(m: Message) {
    m.isStreaming == Some(true)
  }

  /** A message with a non-empty text, the only kind sent upstream. */
  predicate HasText(m: Message) {
    Truthy(m.text)
  }

  /** A message as a history entry: its role and one part with its text. */
  function ToEntry(m: Message): HistoryEntry {
    HistoryEntry(m.role, [Part(m.text.GetOr(""))])
  }

  /** The history sent upstream for a submission: the earlier messages that
      have text, then the new user message. */
  function History(prior: seq<Message>, input: string): (h: seq<HistoryEntry>)
    ensures 1 <= |h| <= |prior| + 1
    ensures h[|h| - 1] == HistoryEntry(User, [Part(input)])
  {
    Map(Filter(prior, HasText) + [UserMessage(input)], ToEntry)
  }

  /** The history is one entry per earlier message with text, in order,
      carrying that message's role and text, followed by the user's
      entry; earlier messages without text, such as the banner, are left
      out. */
  lemma HistoryShape(prior: seq<Message>, input: string) returns (idx: seq<nat>)
    ensures |History(prior, input)| == |idx| + 1 && IncreasingIndices(idx, prior)
    ensures History(prior, input)[|idx|] == HistoryEntry(User, [Part(input)])
    ensures forall j :: 0 <= j < |idx| ==>
      && HasText(prior[idx[j]])
      && History(prior, input)[j] == HistoryEntry(prior[idx[j]].role, [Part(prior[idx[j]].text.value)])
    ensures forall i :: 0 <= i < |prior| ==> (HasText(prior[i]) <==> i in idx)
  {
    var kept := Filter(prior, HasText);
    idx := FilterIndices(prior, HasText);
    MapAppend(kept, [UserMessage(input)], ToEntry);
    forall j | 0 <= j < |idx|
      ensures HasText(prior[idx[j]])
      ensures History(prior, input)[j] == HistoryEntry(prior[idx[j]].role, [Part(prior[idx[j]].text.value)])
    {
      assert kept[j] == prior[idx[j]] && HasText(kept[j]);
    }
  }

  /** The first submission sends the question alone: the banner has no
      text and is never sent upstream. */
  lemma FirstHistory(banner: string, input: string)
    ensures History([Banner(banner)], input) == [HistoryEntry(User, [Part(input)])]
  {
    assert Filter([Banner(banner)], HasText) == [];
    assert Map([UserMessage(input)], ToEntry) == [ToEntry(UserMessage(input))];
  }

  /** The text fragment of a chunk; a missing fragment adds nothing. */
  function TextOf(c: Chunk): string {
    c.text.GetOr("")
  }

  /** The thought fragment of a chunk; a missing fragment adds nothing. */
  function ThoughtOf(c: Chunk): string {
    c.thought.GetOr("")
  }

  /** All text fragments received, concatenated in arrival order. */
  function AllText(chunks: seq<Chunk>): string {
    Concat(Map(chunks, TextOf))
  }

  /** All thought fragments received, concatenated in arrival order. */
  function AllThought(chunks: seq<Chunk>): string {
    Concat(Map(chunks, ThoughtOf))
  }

  /** One more chunk appends its fragments to the concatenations. */
  lemma FragmentsSnoc(chunks: seq<Chunk>, c: Chunk)
    ensures AllText(chunks + [c]) == AllText(chunks) + TextOf(c)
    ensures AllThought(chunks + [c]) == AllThought(chunks) + ThoughtOf(c)
  {
    MapAppend(chunks, [c], TextOf);
    assert Map([c], TextOf) == [TextOf(c)];
    ConcatAppend(Map(chunks, TextOf), [TextOf(c)]);
    assert Concat([TextOf(c)]) == TextOf(c) + Concat([]);
    MapAppend(chunks, [c], ThoughtOf);
    assert Map([c], ThoughtOf) == [ThoughtOf(c)];
    ConcatAppend(Map(chunks, ThoughtOf), [ThoughtOf(c)]);
    assert Concat([ThoughtOf(c)]) == ThoughtOf(c) + Concat([]);
  }

  /** `acc += fragment` when the fragment is truthy: the same as appending
      the fragment or nothing. */
  function Accumulate(acc: string, fragment: Option<string>): (r: string)
    ensures r == acc + fragment.GetOr("")
  {
    if Truthy(fragment) then acc + fragment.value else acc
  }

  /** The text shown for a failed stream: the warning marker, then the
      failure's message, or the default text when it has none. */
  function ErrorText(f: Failure): (t: string)
    ensures |t| >= |ErrorPrefix| && t[..|ErrorPrefix|] == ErrorPrefix
    ensures Truthy(f.message) ==> t[|ErrorPrefix|..] == f.message.value
    ensures !Truthy(f.message) ==> t[|ErrorPrefix|..] == DefaultErrorText
  {
    ErrorPrefix + (if Truthy(f.message) then f.message.value else DefaultErrorText)
  }

  /** The message that replaces the placeholder of a failed stream. */
  function ErrorMessage(f: Failure): Message {
    Message(Model, Some(ErrorText(f)), None, None, Some(false), None)
  }

  class Controller {
    /** The transcript, oldest first. */
    var messages: seq<Message>
    /** The session status. */
    var status: AppStatus
    /** The text accumulated from the current stream's chunks. */
    var currentText: string
    /** The thought accumulated from the current stream's chunks. */
    var currentThought: string
    /** The chunks of the current stream, in arrival order. */
    ghost var received: seq<Chunk>
    /** The banner image the transcript opened with. */
    ghost const bannerUrl: string

    /** The last message of the transcript, the one the stream events
        rewrite. */
    function Last(): Message
      reads this
      requires |messages| > 0
    {
      messages[|messages| - 1]
    }

    /** The transcript invariant: the banner stays first; no message but
        the last is open, and the last is open exactly while a reply is
        loading; while loading, the user message precedes the placeholder,
        and the placeholder shows the fragments received so far. */
    ghost predicate Valid()
      reads this
    {
      && |messages| >= 1
      && messages[0] == Banner(bannerUrl)
      && (forall k :: 0 <= k < |messages| - 1 ==> !IsOpen(messages[k]))
      && (IsOpen(Last()) <==> status == Loading)
      && (status == Loading ==>
            && |messages| >= 3
            && messages[|messages| - 2].role == User
            && currentText == AllText(received)
            && currentThought == AllThought(received)
            && Last() == Message(Model, Some(currentText), Some(currentThought), None, Some(true), None))
    }

    /** A fresh screen: the banner alone, nothing loading. */
    constructor(banner: string)
      ensures Valid()
      ensures messages == [Banner(banner)] && status == Idle
    {
      bannerUrl := banner;
      messages := [Banner(banner)];
      status := Idle;
      currentText := "";
      currentThought := "";
      received := [];
    }

    /** `handleSubmit`: ignored when the input is blank or a reply is
        loading; otherwise appends the user message and an open
        placeholder, starts loading, and returns the history to send. */
    method Submit(input: string) returns (request: Option<seq<HistoryEntry>>)
      requires Valid()
      modifies this
      ensures Valid()
      ensures old(IsBlank(input) || status == Loading) ==>
        && request == None
        && messages == old(messages) && status == old(status)
        && received == old(received)
      ensures !old(IsBlank(input) || status == Loading) ==>
        && request == Some(History(old(messages), input))
        && messages == old(messages) + [UserMessage(input), Placeholder()]
        && status == Loading
        && received == []
    {
      if IsBlank(input) || status == Loading {
        return None;
      }
      var prior := messages;
      messages := messages + [UserMessage(input)];
      status := Loading;
      messages := messages + [Placeholder()];
      request := Some(History(prior, input));
      currentText := "";
      currentThought := "";
      received := [];
    }

    /** The chunk callback: accumulate the fragments and show them in the
        last message; nothing else changes. */
    method OnChunk(chunk: Chunk)
      requires Valid() && status == Loading
      modifies this
      ensures Valid() && status == Loading
      ensures received == old(received) + [chunk]
      ensures |messages| == old(|messages|)
      ensures messages[..|messages| - 1] == old(messages[..|messages| - 1])
      ensures Last() == old(Last()).(text := Some(AllText(received)), thought := Some(AllThought(received)))
    {
      currentText := Accumulate(currentText, chunk.text);
      currentThought := Accumulate(currentThought, chunk.thought);
      received := received + [chunk];
      FragmentsSnoc(old(received), chunk);
      var lastIndex := |messages| - 1;
      messages := messages[lastIndex := messages[lastIndex].(text := Some(currentText), thought := Some(currentThought))];
    }

    /** The completion callback: close the stream, attach the filtered
        sources and return to idle; the reply keeps the concatenated
        fragments and nothing before it changes. */
    method OnComplete(citations: seq<Citation>)
      requires Valid() && status == Loading
      modifies this
      ensures Valid() && status == Idle
      ensures |messages| == old(|messages|)
      ensures messages[..|messages| - 1] == old(messages[..|messages| - 1])
      ensures received == old(received)
      ensures Last() == old(Last()).(isStreaming := Some(false), groundingSources := Some(Sources.SourcesOf(citations)))
      ensures Last().text == Some(AllText(received)) && Last().thought == Some(AllThought(received))
    {
      var sources := Sources.SourcesOf(citations);
      var lastIndex := |messages| - 1;
      messages := messages[lastIndex := messages[lastIndex].(isStreaming := Some(false), groundingSources := Some(sources))];
      status := Idle;
    }

    /** The error callback: report the failure and replace the placeholder
        by the error message, dropping what it had received; nothing
        before it changes. */
    method OnError(failure: Failure)
      requires Valid() && status == Loading
      modifies this
      ensures Valid() && status == Error
      ensures |messages| == old(|messages|)
      ensures messages[..|messages| - 1] == old(messages[..|messages| - 1])
      ensures received == old(received)
      ensures Last() == ErrorMessage(failure)
    {
      status := Error;
      var lastIndex := |messages| - 1;
      messages := messages[lastIndex := ErrorMessage(failure)];
    }
  }

  /** The sample question is not blank. */
  lemma QuestionNotBlank()
    ensures !IsBlank("질문")
  {
    BlankIffAllWhitespace("질문");
    assert !IsJsWhitespace("질문"[0]);
  }

  /** The fragments of the two chunks of the sample reply. */
  lemma ReplyFragments(first: Chunk, second: Chunk)
    requires first == Chunk(Some("안"), None) && second == Chunk(Some("녕"), None)
    ensures AllText([] + [first] + [second]) == "안녕" && AllThought([] + [first] + [second]) == ""
  {
    FragmentsSnoc([], first);
    FragmentsSnoc([] + [first], second);
  }

  /** The sample question submitted and answered by two chunks,
      the stream still open: the placeholder shows "안녕". */
  method QuestionStreamed(banner: string) returns (c: Controller, request: Option<seq<HistoryEntry>>)
    ensures fresh(c) && c.Valid() && c.status == Loading
    ensures request == Some([HistoryEntry(User, [Part("질문")])])
    ensures c.messages == [
      Banner(banner),
      UserMessage("질문"),
      Message(Model, Some("안녕"), Some(""), None, Some(true), None)]
  {
    c := new Controller(banner);
    QuestionNotBlank();
    request := c.Submit("질문");
    FirstHistory(banner, "질문");
    var first, second := Chunk(Some("안"), None), Chunk(Some("녕"), None);
    c.OnChunk(first);
    c.OnChunk(second);
    ReplyFragments(first, second);
    assert c.messages == c.messages[..2] + [c.messages[2]];
  }

  /** A question answered in two chunks with no citations: the transcript
      ends as the banner, the question, and the closed reply "안녕". */
  method QuestionAnswered(banner: string) returns (transcript: seq<Message>, request: Option<seq<HistoryEntry>>)
    ensures request == Some([HistoryEntry(User, [Part("질문")])])
    ensures transcript == [
      Banner(banner),
      UserMessage("질문"),
      Message(Model, Some("안녕"), Some(""), None, Some(false), Some([]))]
  {
    var c;
    c, request := QuestionStreamed(banner);
    c.OnComplete([]);
    assert Sources.SourcesOf([]) == [];
    assert c.messages == c.messages[..2] + [c.messages[2]];
    transcript := c.messages;
  }

  /** A question whose stream fails with no message: the placeholder becomes
      the default error text and the status is `Error`. */
  method QuestionFailed(banner: string) returns (transcript: seq<Message>, status: AppStatus)
    ensures status == Error
    ensures transcript == [
      Banner(banner),
      UserMessage("질문"),
      Message(Model, Some(ErrorPrefix + DefaultErrorText), None, None, Some(false), None)]
  {
    var c := new Controller(banner);
    QuestionNotBlank();
    var _ := c.Submit("질문");
    c.OnError(Failure(None));
    assert c.messages == c.messages[..2] + [c.messages[2]];
    transcript, status := c.messages, c.status;
  }

  /** A submission while a reply is loading changes nothing. */
  method SubmitWhileLoading(banner: string) returns (before: seq<Message>, after: seq<Message>, request: Option<seq<HistoryEntry>>)
    ensures request == None && after == before && |after| == 3
  {
    var c := new Controller(banner);
    QuestionNotBlank();
    var _ := c.Submit("질문");
    before := c.messages;
    request := c.Submit("또 질문");
    after := c.messages;
  }
}
