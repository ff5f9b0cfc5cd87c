/**
  The per-turn retrieval hook of the voice agent
  (DigitalMike.on_user_turn_completed and _msg_text in apps/agent/main.py).
  After a user turn it adds a brevity instruction and one assistant message
  holding up to four retrieved excerpts to the chat context. Whatever fails
  inside the hook is swallowed, so it never raises.
*/
module Hook {
  import opened Wrappers
  import opened Text
  import Store
  import opened Orchestrator

  /** The shape of an attribute of a chat message. */
  datatype Attr =
    | Callable(result: Option<string>)  // a method returning a string or None
    | Str(s: string)                    // a string
    | Other                             // anything else, or absent

  datatype ChatMessage = ChatMessage(textContent: Attr, content: Attr)

  /** _msg_text: the stripped text of a message, from `text_content` (called
      when callable) or else from a string `content`; "" otherwise. */
  function MsgText(m: ChatMessage): (r: string)
    ensures r == [] || (!IsSpace(r[0]) && !IsSpace(r[|r| - 1]))
  {
    match m.textContent
    case Callable(res) => Strip(res.GetOr(""))
    case Str(s) => Strip(s)
    case Other =>
      match m.content
      case Str(c) => Strip(c)
      case _ => ""
  }

  const Brevity: string := "Keep replies to 1\U{2013}3 short sentences for voice output."

  const BlockHeader: string := "RAG CONTEXT \U{2014} excerpts from 'Scientific Principles of Strength Training':\n"

  const BlockFooter: string := "\n\nWhen citing, include page numbers like (p.X)."

  /** The hook's snippet: longer than 380 characters becomes the first 380
      right-stripped with " …" appended. */
  function HookSnippet(s: string): (r: string)
    ensures |r| <= 382
    ensures |s| <= 380 ==> r == s
    ensures |s| > 380 ==> 2 <= |r| && r[|r| - 2..] == " \U{2026}"
    ensures |s| > 380 ==> var kept := r[..|r| - 2];
      kept <= s[..380] && Blank(s[|kept|..380]) && (kept == [] || !IsSpace(kept[|kept| - 1]))
  {
    if |s| > 380 then RStrip(s[..380]) + " \U{2026}" else s
  }

  /** `r.get("page")`. */
  function PageField(r: Store.Record): Store.Value {
    if "page" in r then r["page"] else Store.VNone
  }

  /** The excerpt line of a result whose text can be read: its page as
      `str` formats it, then the hook's snippet of its stripped text. */
  function ExcerptLineOf(r: Store.Record): string
    requires TextField(r).Some?
  {
    "(p." + Store.Str(PageField(r)) + ") " + HookSnippet(TextField(r).value)
  }

  /** `(p.{pg}) {snippet}` for a result, nothing for an empty text, `Failure`
      where reading the text raises. */
  function ResultLine(r: Store.Record): (l: Result<Option<string>, string>)
    ensures l.Success? <==> TextField(r).Some?
    ensures l.Success? ==> (l.value.Some? <==> HasText(r))
    ensures l.Success? && l.value.Some? ==> l.value.value == ExcerptLineOf(r) && ExcerptOf(l.value.value, r)
  {
    var pg := PageField(r);
    match TextField(r)
    case None => Failure("the text field has no strip()")
    case Some(snippet) =>
      if snippet == "" then Success(None)
      else
        var line := "(p." + Store.Str(pg) + ") " + HookSnippet(snippet);
        assert line == ("(p." + Store.Str(pg) + ") ") + HookSnippet(snippet);
        Success(Some(line))
  }

  /** The lines of the results, in order. */
  function Lines(results: seq<Store.Record>): Result<seq<string>, string> {
    if results == [] then Success([])
    else
      match Lines(results[..|results| - 1])
      case Failure(e) => Failure(e)
      case Success(ls) =>
        match ResultLine(results[|results| - 1])
        case Failure(e) => Failure(e)
        case Success(None) => Success(ls)
        case Success(Some(l)) => Success(ls + [l])
  }

  /** The assistant message: header, one "- " line per excerpt, instruction. */
  function Block(lines: seq<string>): string {
    BlockHeader + JoinWith("\n", seq(|lines|, t requires 0 <= t < |lines| => "- " + lines[t])) + BlockFooter
  }

  /** `results[:4]`. */
  function FirstFour(results: seq<Store.Record>): (r: seq<Store.Record>)
    ensures |r| == (if |results| <= 4 then |results| else 4) && r <= results
  {
    if |results| <= 4 then results else results[..4]
  }

  /** The messages the hook adds for a turn with text `text`, given what
      opening the store and searching it returned. */
  function Added(text: string, found: Result<seq<Store.Record>, string>): seq<Message> {
    if text == "" then []
    else
      [Message(System, Brevity)]
        + match found
          case Failure(_) => []
          case Success(results) =>
            if results == [] then []
            else
              match Lines(FirstFour(results))
              case Failure(_) => []
              case Success(lines) => [Message(Assistant, Block(lines))]
  }

  /** The chat context of the session: a growing list of messages. */
  class ChatContext {
    var messages: seq<Message>

    constructor(messages: seq<Message>)
      ensures this.messages == messages
    {
      this.messages := messages;
    }

    method AddMessage(role: Role, content: string)
      modifies this
      ensures messages == old(messages) + [Message(role, content)]
    {
      messages := messages + [Message(role, content)];
    }
  }

  lemma {:induction false} LinesStopAtFailure(results: seq<Store.Record>, t: nat)
    requires t <= |results| && Lines(results[..t]).Failure?
    ensures Lines(results) == Lines(results[..t])
  {
    if t < |results| {
      var init := results[..|results| - 1];
      assert init[..t] == results[..t];
      LinesStopAtFailure(init, t);
    } else {
      assert results[..t] == results;
    }
  }

  /** The loop over the first four results. */
  method ExcerptLines(results: seq<Store.Record>) returns (r: Result<seq<string>, string>)
    ensures r == Lines(results)
  {
    var lines: seq<string> := [];
    var t := 0;
    while t < |results|
      invariant 0 <= t <= |results|
      invariant Lines(results[..t]) == Success(lines)
    {
      assert results[..t + 1][..t] == results[..t];
      var res := results[t];
      var line := ResultLine(res);
      if line.Failure? {
        LinesStopAtFailure(results, t + 1);
        return Failure(line.error);
      }
      if line.value.Some? {
        lines := lines + [line.value.value];
      }
      t := t + 1;
    }
    assert results[..t] == results;
    r := Success(lines);
  }

  /** on_user_turn_completed: `openAndSearch` is what `RAGStore()` followed by
      `search(text, k=4)` returns (`Failure` where either raises). */
  method OnUserTurnCompleted(ctx: ChatContext, msg: ChatMessage,
                             openAndSearch: string -> Result<seq<Store.Record>, string>)
    modifies ctx
    ensures ctx.messages == old(ctx.messages) + Added(MsgText(msg), openAndSearch(MsgText(msg)))
  {
    var text := MsgText(msg);
    if text == "" {
      return;
    }
    ctx.AddMessage(System, Brevity);
    var found := openAndSearch(text);
    if found.Failure? {
      return;
    }
    var results := found.value;
    if results == [] {
      return;
    }
    var firstFour := FirstFour(results);
    var lines := ExcerptLines(firstFour);
    if lines.Failure? {
      return;
    }
    var ragBlock := Block(lines.value);
    ctx.AddMessage(Assistant, ragBlock);
  }

  // ---------- properties ----------

  /** A turn without text adds nothing. */
  lemma NoTextNothingAdded(found: Result<seq<Store.Record>, string>)
    ensures Added("", found) == []
  {
  }

  /** A turn with text adds the brevity instruction first, then at most one
      assistant message, which is the excerpt block; a search that finds
      nothing (or fails) adds only the instruction. */
  lemma AddedShape(text: string, found: Result<seq<Store.Record>, string>)
    requires text != ""
    ensures var added := Added(text, found);
      && 1 <= |added| <= 2
      && added[0] == Message(System, Brevity)
      && (found.Failure? || found.value == [] ==> |added| == 1)
      && (found.Success? && found.value != [] && Lines(FirstFour(found.value)).Success? ==>
            |added| == 2 && added[1] == Message(Assistant, Block(Lines(FirstFour(found.value)).value)))
      && (|added| == 2 ==>
            (added[1].role == Assistant && BlockHeader <= added[1].content && EndsWith(added[1].content, BlockFooter)))
  {
  }

  /** The lines come out without error exactly when the text of every
      result can be read. */
  lemma {:induction false} LinesSucceed(results: seq<Store.Record>)
    ensures Lines(results).Success? <==> forall t :: 0 <= t < |results| ==> TextField(results[t]).Some?
  {
    if results != [] {
      var n := |results|;
      var init := results[..n - 1];
      LinesSucceed(init);
      assert forall t :: 0 <= t < n - 1 ==> init[t] == results[t];
      if Lines(results).Success? {
        assert Lines(init).Success? && TextField(results[n - 1]).Some?;
      }
    }
  }

  /** `lines` holds, position by position, the excerpt line of each result
      with text, in result order. */
  predicate ExcerptsOf(results: seq<Store.Record>, lines: seq<string>)
    requires forall t :: 0 <= t < |results| ==> TextField(results[t]).Some?
  {
    var ks := TextIndices(results);
    && |lines| == |ks|
    && forall i :: 0 <= i < |ks| ==> ks[i] < |results| && lines[i] == ExcerptLineOf(results[ks[i]])
  }

  /** The excerpt lines are those of the results with text, one each, in
      result order; each is a page marker and a snippet of 1 to 382
      characters. */
  lemma {:induction false} LinesShape(results: seq<Store.Record>)
    requires Lines(results).Success?
    ensures forall t :: 0 <= t < |results| ==> TextField(results[t]).Some?
    ensures ExcerptsOf(results, Lines(results).value)
    ensures var lines := Lines(results).value;
      && |lines| <= |results|
      && forall i :: 0 <= i < |lines| ==> TextIndices(results)[i] < |results| && ExcerptOf(lines[i], results[TextIndices(results)[i]])
  {
    LinesSucceed(results);
    if results != [] {
      var init := results[..|results| - 1];
      LinesShape(init);
      assert ResultLine(results[|results| - 1]).Success?;
      ExcerptsSnoc(results, Lines(init).value, Lines(results).value);
    }
    TextIndicesProps(results);
    var lines := Lines(results).value;
    var ks := TextIndices(results);
    forall i | 0 <= i < |lines|
      ensures ExcerptOf(lines[i], results[ks[i]])
    {
      assert ResultLine(results[ks[i]]).Success?;
    }
  }

  /** One more result extends the lines by its own excerpt line. */
  lemma ExcerptsSnoc(results: seq<Store.Record>, lines0: seq<string>, lines: seq<string>)
    requires results != []
    requires forall t :: 0 <= t < |results| ==> TextField(results[t]).Some?
    requires ExcerptsOf(results[..|results| - 1], lines0)
    requires var r := results[|results| - 1];
      lines == if HasText(r) then lines0 + [ExcerptLineOf(r)] else lines0
    ensures ExcerptsOf(results, lines)
  {
    var n := |results|;
    var init := results[..n - 1];
    var ks0 := TextIndices(init);
    TextIndicesSnoc(results);
    var ks := TextIndices(results);
    var last := HasText(results[n - 1]);
    assert |ks| == |ks0| + (if last then 1 else 0) && |lines| == |ks|;
    forall i | 0 <= i < |ks|
      ensures ks[i] < n && lines[i] == ExcerptLineOf(results[ks[i]])
    {
      if i < |ks0| {
        assert ks[i] == ks0[i] && results[ks0[i]] == init[ks0[i]];
        assert lines[i] == lines0[i];
      } else {
        assert ks[i] == n - 1 && lines[i] == ExcerptLineOf(results[n - 1]);
      }
    }
  }

  /** `line` is the excerpt line of result `r`: its page marker and then a
      snippet of 1 to 382 characters. */
  predicate ExcerptOf(line: string, r: Store.Record) {
    var marker := "(p." + Store.Str(PageField(r)) + ") ";
    marker <= line && 1 <= |line| - |marker| <= 382
  }

  /** At most four excerpts reach the block. */
  lemma AtMostFourExcerpts(results: seq<Store.Record>)
    requires Lines(FirstFour(results)).Success?
    ensures |Lines(FirstFour(results)).value| <= 4
  {
    LinesShape(FirstFour(results));
  }
}
