/**
 The prompt handler of src/components/aether-ui-main.tsx as one atomic
 step: from the active session, the prompt, the loading flag and the AI
 backend's answer to the post-state. The backend is a parameter, a
 function from the request the editor sends to the response it gets.
 */
module Orchestrator {

  import opened Types
  import opened Text
  import History
  import Sessions

  /**
   The two flows the editor calls, with their input schemas
   (src/ai/flows/generate-ui-component.ts and
   src/ai/flows/iteratively-refine-component.ts).
   */
  datatype AiRequest =
    | Generate(prompt: string, imageDataUri: Option<string>)
    | Refine(userPrompt: string, baseComponentCode: string, existingCss: Option<string>,
             imageDataUri: Option<string>)

  /**
   The flows' output schemas, and `Failed` for any error the call raises
   (network failure, a response that does not fit the schema).
   */
  datatype AiResponse =
    | Generated(jsxTsxCode: string, cssCode: string)
    | Refined(refinedComponentCode: string, refinedCss: Option<string>)
    | Failed

  /** The ids the handler draws from uuid for the messages it appends. */
  datatype MessageIds = MessageIds(userMessage: string, reply: string)

  /** A session name derived from a prompt keeps at most this many characters of it. */
  const NameLimit: nat := 40
  const Ellipsis: string := "..."
  const ErrorText: string := "An error occurred. Please try again."

  /** The assistant's acknowledgement after a successful call. */
  function ReplyText(prompt: string): string {
    "I've updated the component based on your request: \"" + prompt + "\". Feel free to provide more feedback."
  }

  /** `prompt.substring(0, 40) + (prompt.length > 40 ? '...' : '')`. */
  function SessionName(prompt: string): (n: string)
    ensures |n| <= NameLimit + |Ellipsis|
    ensures |prompt| <= NameLimit ==> n == prompt
    ensures |prompt| > NameLimit ==>
              |n| == NameLimit + |Ellipsis| && n[..NameLimit] == prompt[..NameLimit] && n[NameLimit..] == Ellipsis
  {
    if |prompt| <= NameLimit then prompt else prompt[..NameLimit] + Ellipsis
  }

  /** The chat holds nothing but the session's opening system message. */
  predicate IsFirstUserPrompt(s: Session) {
    |s.chatHistory| == 1 && s.chatHistory[0].role == System
  }

  /** `imageUrl || undefined`: an empty data URI is not sent. */
  function ImageArg(image: Option<string>): (r: Option<string>)
    ensures r.Some? <==> image.Some? && image.value != ""
    ensures r.Some? ==> r == image
  {
    if image.Some? && image.value != "" then image else None
  }

  /**
   The request sent for `prompt`: Generate exactly when the shown code
   still carries the placeholder text, otherwise Refine with the current
   code and stylesheet; both carry the pending image.
   */
  function Request(s: Session, prompt: string): (q: AiRequest)
    ensures q.Generate? <==> Contains(s.jsxCode, Sessions.PlaceholderMarker)
    ensures q.Generate? ==> q.prompt == prompt
    ensures q.Refine? ==>
              q.userPrompt == prompt && q.baseComponentCode == s.jsxCode && q.existingCss == Some(s.cssCode)
    ensures q.imageDataUri.Some? <==> s.uploadedImage.Some? && s.uploadedImage.value != ""
    ensures q.imageDataUri.Some? ==> q.imageDataUri == s.uploadedImage
  {
    IndexFindsContained(s.jsxCode, Sessions.PlaceholderMarker);
    if IndexFrom(s.jsxCode, Sessions.PlaceholderMarker, 0).Some? then
      Generate(prompt, ImageArg(s.uploadedImage))
    else
      Refine(prompt, s.jsxCode, Some(s.cssCode), ImageArg(s.uploadedImage))
  }

  /**
   The new version a response carries, whichever flow produced it
   (`'jsxTsxCode' in response ? … : …`); a missing refined stylesheet
   becomes the empty string. `None` for a failed call.
   */
  function Normalize(resp: AiResponse): (v: Option<CodeVersion>)
    ensures v.None? <==> resp.Failed?
    ensures resp.Generated? ==> v == Some(CodeVersion(resp.jsxTsxCode, resp.cssCode))
    ensures resp.Refined? ==> v.value.jsxCode == resp.refinedComponentCode
    ensures resp.Refined? && resp.refinedCss.Some? ==> v.value.cssCode == resp.refinedCss.value
    ensures resp.Refined? && resp.refinedCss.None? ==> v.value.cssCode == ""
  {
    match resp
    case Generated(jsx, css) => Some(CodeVersion(jsx, css))
    case Refined(jsx, css) => Some(CodeVersion(jsx, css.GetOr("")))
    case Failed => None
  }

  /** The message that records the prompt, carrying the pending image. */
  function UserMessage(s: Session, prompt: string, ids: MessageIds): (m: Message)
    ensures m.role == User && m.content == prompt && m.imageUrl == s.uploadedImage && m.id == ids.userMessage
  {
    Message(ids.userMessage, User, prompt, s.uploadedImage)
  }

  /** The message that reports a failed backend call: a system message without an image. */
  function ErrorMessage(ids: MessageIds): (m: Message)
    ensures m.role == System && m.content == ErrorText && m.imageUrl == None && m.id == ids.reply
  {
    Message(ids.reply, System, ErrorText, None)
  }

  /** The message that acknowledges a successful backend call; it quotes the prompt. */
  function AssistantMessage(prompt: string, ids: MessageIds): (m: Message)
    ensures m.role == Assistant && m.imageUrl == None && m.id == ids.reply
    ensures Contains(m.content, prompt)
  {
    var before := "I've updated the component based on your request: \"";
    var after := "\". Feel free to provide more feedback.";
    assert ReplyText(prompt) == before + prompt + after;
    InfixStartsAt(before, prompt, after);
    Message(ids.reply, Assistant, ReplyText(prompt), None)
  }

  /**
   The first update of an accepted prompt, computed from the active
   session `a` and spread onto `x` (a session with the active id): the
   user message is appended to `x`'s chat, the pending image is cleared,
   and `x` is named after the prompt when it is `a`'s first.
   */
  function Accept(x: Session, a: Session, prompt: string, ids: MessageIds): (r: Session)
    ensures r.chatHistory == x.chatHistory + [UserMessage(a, prompt, ids)]
    ensures r.uploadedImage == None
    ensures IsFirstUserPrompt(a) ==> r.name == SessionName(prompt)
    ensures !IsFirstUserPrompt(a) ==> r.name == x.name
    ensures r.(name := x.name, chatHistory := x.chatHistory, uploadedImage := x.uploadedImage) == x
  {
    var named := if IsFirstUserPrompt(a) then SessionName(prompt) else x.name;
    x.(name := named, chatHistory := x.chatHistory + [UserMessage(a, prompt, ids)], uploadedImage := None)
  }

  /**
   Both updates of an accepted prompt onto `x`, with the request built
   from the active session `a`: the user message, then either the commit
   of the backend's version with an assistant reply or, on failure, only
   a system error message.
   */
  function Respond(x: Session, a: Session, prompt: string, ids: MessageIds,
                   backend: AiRequest -> AiResponse): (r: Session)
    ensures r.id == x.id && r.createdAt == x.createdAt
    ensures r.uploadedImage == None
    ensures r.name == if IsFirstUserPrompt(a) then SessionName(prompt) else x.name
    ensures backend(Request(a, prompt)).Failed? ==>
              && r.chatHistory == x.chatHistory + [UserMessage(a, prompt, ids), ErrorMessage(ids)]
              && r.jsxCode == x.jsxCode && r.cssCode == x.cssCode
              && r.codeHistory == x.codeHistory && r.currentVersion == x.currentVersion
    ensures !backend(Request(a, prompt)).Failed? ==>
              var v := Normalize(backend(Request(a, prompt))).value;
              && r.chatHistory == x.chatHistory + [UserMessage(a, prompt, ids), AssistantMessage(prompt, ids)]
              && History.Synced(r) && History.Bounded(r)
              && r.currentVersion == |r.codeHistory| - 1 && r.codeHistory[r.currentVersion] == v
              && r.codeHistory == History.Commit(x, v, AssistantMessage(prompt, ids)).codeHistory
  {
    var asked := Accept(x, a, prompt, ids);
    assert x.chatHistory + [UserMessage(a, prompt, ids)] + [ErrorMessage(ids)]
           == x.chatHistory + [UserMessage(a, prompt, ids), ErrorMessage(ids)];
    assert x.chatHistory + [UserMessage(a, prompt, ids)] + [AssistantMessage(prompt, ids)]
           == x.chatHistory + [UserMessage(a, prompt, ids), AssistantMessage(prompt, ids)];
    match Normalize(backend(Request(a, prompt)))
    case Some(v) =>
      History.CommitReadsTimeline(asked, x, v, AssistantMessage(prompt, ids));
      History.Commit(asked, v, AssistantMessage(prompt, ids))
    case None =>
      asked.(chatHistory := asked.chatHistory + [ErrorMessage(ids)])
  }

  /**
   One prompt submission on the active session. A blank prompt, or one
   sent while a call is in flight, changes nothing. Otherwise the user
   message (carrying the pending image) is appended, the image is
   cleared, the session is renamed after its first prompt, and the
   backend's answer to `Request` either commits a new version with an
   assistant reply or, on failure, adds only a system error message.
   */
  function Submit(s: Session, prompt: string, isLoading: bool, ids: MessageIds,
                  backend: AiRequest -> AiResponse): (r: Session)
    ensures IsBlank(prompt) || isLoading ==> r == s
    ensures r.id == s.id && r.createdAt == s.createdAt
    ensures !IsBlank(prompt) && !isLoading ==>
              && r.uploadedImage == None
              && r.name == if IsFirstUserPrompt(s) then SessionName(prompt) else s.name
    ensures !IsBlank(prompt) && !isLoading && backend(Request(s, prompt)).Failed? ==>
              && r.chatHistory == s.chatHistory + [UserMessage(s, prompt, ids), ErrorMessage(ids)]
              && r.jsxCode == s.jsxCode && r.cssCode == s.cssCode
              && r.codeHistory == s.codeHistory && r.currentVersion == s.currentVersion
    ensures !IsBlank(prompt) && !isLoading && !backend(Request(s, prompt)).Failed? ==>
              var v := Normalize(backend(Request(s, prompt))).value;
              && r.chatHistory == s.chatHistory + [UserMessage(s, prompt, ids), AssistantMessage(prompt, ids)]
              && History.Synced(r) && History.Bounded(r)
              && r.currentVersion == |r.codeHistory| - 1 && r.codeHistory[r.currentVersion] == v
              && r.codeHistory == History.Commit(s, v, AssistantMessage(prompt, ids)).codeHistory
  {
    if IsBlank(prompt) || isLoading then s else Respond(s, s, prompt, ids, backend)
  }

  /**
   `handlePromptSubmit` on the store. The name, the request and the user
   message are computed once from the active session (the first with the
   active id); each update is then spread onto every session with that
   id. Without an active session nothing changes.
   */
  function SubmitActive(st: Sessions.Store, prompt: string, isLoading: bool, ids: MessageIds,
                        backend: AiRequest -> AiResponse): (r: Sessions.Store)
    ensures r.activeId == st.activeId && |r.sessions| == |st.sessions|
    ensures forall i :: 0 <= i < |st.sessions| && Some(st.sessions[i].id) != st.activeId ==>
              r.sessions[i] == st.sessions[i]
    ensures IsBlank(prompt) || isLoading || Sessions.Active(st).None? ==> r == st
    ensures !IsBlank(prompt) && !isLoading && Sessions.Active(st).Some? ==>
              forall i :: 0 <= i < |st.sessions| && Some(st.sessions[i].id) == st.activeId ==>
                r.sessions[i] == Respond(st.sessions[i], Sessions.Active(st).value, prompt, ids, backend)
    ensures Sessions.WellFormed(st) && Sessions.UniqueIds(st.sessions) ==>
              && Sessions.WellFormed(r) && Sessions.UniqueIds(r.sessions)
              && Sessions.Active(r) == Some(Submit(Sessions.Active(st).value, prompt, isLoading, ids, backend))
  {
    if IsBlank(prompt) || isLoading then st
    else
      match Sessions.Active(st)
      case None => st
      case Some(a) => RespondActive(st, a, prompt, ids, backend)
  }

  /** `Respond`, with the request built from `a`, spread onto every session with the active id. */
  function RespondActive(st: Sessions.Store, a: Session, prompt: string, ids: MessageIds,
                         backend: AiRequest -> AiResponse): (r: Sessions.Store)
    ensures r.activeId == st.activeId && |r.sessions| == |st.sessions|
    ensures forall i :: 0 <= i < |st.sessions| && Some(st.sessions[i].id) != st.activeId ==>
              r.sessions[i] == st.sessions[i]
    ensures forall i :: 0 <= i < |st.sessions| && Some(st.sessions[i].id) == st.activeId ==>
              r.sessions[i] == Respond(st.sessions[i], a, prompt, ids, backend)
    ensures Sessions.WellFormed(st) && Sessions.UniqueIds(st.sessions) && Sessions.Active(st) == Some(a) ==>
              && Sessions.WellFormed(r) && Sessions.UniqueIds(r.sessions)
              && Sessions.Active(r) == Some(Respond(a, a, prompt, ids, backend))
  {
    var f := x => Respond(x, a, prompt, ids, backend);
    if Sessions.WellFormed(st) && Sessions.UniqueIds(st.sessions) && Sessions.Active(st) == Some(a) then
      Sessions.ApplyToActiveKeepsStore(st, f);
      Sessions.ApplyToActive(st, f)
    else
      Sessions.ApplyToActive(st, f)
  }

  /**
   A session is named after its first prompt only: once a prompt has been
   accepted the chat holds more than the opening message, so later
   prompts keep the name.
   */
  lemma RenamedOnce(s: Session, first: string, next: string, ids: MessageIds, ids': MessageIds,
                    backend: AiRequest -> AiResponse)
    requires !IsBlank(first) && !IsBlank(next)
    ensures !IsFirstUserPrompt(Submit(s, first, false, ids, backend))
    ensures var s1 := Submit(s, first, false, ids, backend);
            Submit(s1, next, false, ids', backend).name == s1.name
  {
    var s1 := Submit(s, first, false, ids, backend);
    assert |s1.chatHistory| >= |s.chatHistory| + 2;
  }

  /** The first prompt of a new session goes to Generate, not Refine. */
  lemma FirstPromptGenerates(id: string, messageId: string, nameIndex: nat, createdAt: int, prompt: string)
    requires nameIndex < |Sessions.CreativeNames|
    ensures Request(Sessions.Fresh(id, messageId, nameIndex, createdAt), prompt).Generate?
    ensures IsFirstUserPrompt(Sessions.Fresh(id, messageId, nameIndex, createdAt))
  {
  }

  /**
   Once a generated component without the placeholder text has been
   committed, the next prompt is routed to Refine with that component.
   */
  lemma AfterGenerateRefines(s: Session, prompt: string, ids: MessageIds, backend: AiRequest -> AiResponse,
                             next: string)
    requires !IsBlank(prompt)
    requires backend(Request(s, prompt)).Generated?
    requires !Contains(backend(Request(s, prompt)).jsxTsxCode, Sessions.PlaceholderMarker)
    ensures Request(Submit(s, prompt, false, ids, backend), next).Refine?
    ensures Request(Submit(s, prompt, false, ids, backend), next).baseComponentCode
            == backend(Request(s, prompt)).jsxTsxCode
  {
  }
}
