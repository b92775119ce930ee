/**
 The Decoder of exml.go as a value, and what each of its operations does to
 it: registration (On, OnTextOf, OnText, OnError), the token-by-token run loop
 (Run, handleTag, handleText) and the terminal error. Everything a user
 callback observes is appended to an event log.
 */
module Dispatch {
  import opened Optional
  import opened Bytes
  import opened Attributes
  import opened Handlers
  import Paths

  /** The tokens of encoding/xml's Decoder.Token that the run loop can see. */
  datatype Token =
    | StartElement(name: Name, attr: Attrs)
    | EndElement(name: Name)
    | CharData(data: seq<byte>)
    | Comment(data: seq<byte>)
    | ProcInst(target: string, inst: seq<byte>)
    | Directive(data: seq<byte>)

  /** The error that comes with the first nil token: end of input or a parse failure. */
  datatype StreamError = EOF | SyntaxError(msg: string, line: int) | ReadError(msg: string)

  /** One invocation of a user callback, with its argument. */
  datatype Event =
    | TagCalled(onTag: TagCallback, attrs: Attrs)
    | TextCalled(onText: TextCallback, text: seq<byte>)
    | ErrorCalled(onError: ErrorCallback, err: StreamError)

  /** The fields of a Decoder, plus the log of callback invocations. */
  datatype DecoderState = DecoderState(
    handlers: seq<Handler>,
    current: NodeId,
    errorCallback: Option<ErrorCallback>,
    log: seq<Event>)

  /** currentHandler always denotes a handler of the arena. */
  predicate ValidState(s: DecoderState) {
    ValidTree(s.handlers) && s.current < |s.handlers|
  }

  /** NewCustomDecoder: only topHandler, which is current; no error callback. */
  function Initial(): (s: DecoderState)
    ensures ValidState(s) && s.current == TOP && s.log == []
    ensures |s.handlers| == 1 && s.handlers[TOP].subHandlers == map[] && s.errorCallback == None
  {
    DecoderState([Handler(None, None, map[], None, [])], TOP, None, [])
  }

  /**
   Every handler of hs keeps its parentHandler and its pending text in hs',
   and the handlers hs' adds have no pending text.
   */
  predicate KeepsLinksAndText(hs: seq<Handler>, hs': seq<Handler>) {
    && |hs| <= |hs'|
    && (forall i :: 0 <= i < |hs| ==> hs'[i].parentHandler == hs[i].parentHandler && hs'[i].text == hs[i].text)
    && (forall c :: |hs| <= c < |hs'| ==> hs'[c].text == [])
  }

  lemma KeepsLinksAndTextTransitive(hs: seq<Handler>, hs1: seq<Handler>, hs2: seq<Handler>)
    requires KeepsLinksAndText(hs, hs1) && KeepsLinksAndText(hs1, hs2)
    ensures KeepsLinksAndText(hs, hs2)
  {
  }

  /** installHandlers(path), starting from currentHandler. */
  function InstallPath(s: DecoderState, path: string): (r: (seq<Handler>, NodeId))
    requires ValidState(s)
    ensures ValidTree(r.0) && |s.handlers| <= r.1 < |r.0|
    ensures KeepsLinksAndText(s.handlers, r.0)
  {
    var r := Install(s.handlers, s.current, Paths.Split(path));
    InstallGrows(s.handlers, s.current, Paths.Split(path));
    InstallFreshlyLinks(s.handlers, s.current, Paths.Split(path));
    r
  }

  /**
   One registration call on the decoder. It never moves currentHandler, never
   invokes a callback, and never touches a parent link or a pending text.
   */
  function Register(s: DecoderState, reg: Registration): (r: DecoderState)
    requires ValidState(s)
    ensures ValidState(r)
    ensures r.current == s.current && r.log == s.log
    ensures KeepsLinksAndText(s.handlers, r.handlers)
  {
    match reg
    case On(path, onTag) =>
      var (hs, h) := InstallPath(s, path);
      UpdateKeepsTree(hs, h, hs[h].(tagCallback := onTag));
      s.(handlers := hs[h := hs[h].(tagCallback := onTag)])
    case OnTextOf(path, onText) =>
      var (hs, h) := InstallPath(s, path);
      UpdateKeepsTree(hs, h, hs[h].(textCallback := onText));
      s.(handlers := hs[h := hs[h].(textCallback := onText)])
    case OnText(onText) =>
      UpdateKeepsTree(s.handlers, s.current, s.handlers[s.current].(textCallback := onText));
      s.(handlers := s.handlers[s.current := s.handlers[s.current].(textCallback := onText)])
    case OnError(onError) =>
      s.(errorCallback := onError)
  }

  /** The registrations a tag callback makes, in order. */
  function RunScript(s: DecoderState, script: seq<Registration>): (r: DecoderState)
    requires ValidState(s)
    ensures ValidState(r)
    ensures r.current == s.current && r.log == s.log
    ensures KeepsLinksAndText(s.handlers, r.handlers)
    decreases |script|
  {
    if script == [] then s
    else
      var s1 := Register(s, script[0]);
      var r := RunScript(s1, script[1..]);
      KeepsLinksAndTextTransitive(s.handlers, s1.handlers, r.handlers);
      r
  }

  /**
   The handler a start tag named `name` resolves to: the global one (a child of
   topHandler) if there is one, otherwise, away from the top, a child of the
   current handler. It is never topHandler itself.
   */
  function Resolve(s: DecoderState, name: string): (r: Option<NodeId>)
    requires ValidState(s)
    ensures r.Some? ==> TOP < r.value < |s.handlers|
  {
    if name in s.handlers[TOP].subHandlers then Some(s.handlers[TOP].subHandlers[name])
    else if s.current != TOP && name in s.handlers[s.current].subHandlers then
      Some(s.handlers[s.current].subHandlers[name])
    else None
  }

  /**
   handleTag: on a match, the handler's parent becomes the current handler, it
   becomes current, and then its tag callback (if any) runs with the
   attributes as given, so that what it registers lands under it.
   */
  function HandleTag(s: DecoderState, name: string, attrs: Attrs): (r: DecoderState)
    requires ValidState(s)
    ensures ValidState(r) && s.log <= r.log
    ensures r.current == if Resolve(s, name).Some? then Resolve(s, name).value else s.current
  {
    match Resolve(s, name)
    case None => s
    case Some(h) =>
      UpdateKeepsTree(s.handlers, h, s.handlers[h].(parentHandler := Some(s.current)));
      var matched := s.(handlers := s.handlers[h := s.handlers[h].(parentHandler := Some(s.current))], current := h);
      match matched.handlers[h].tagCallback
      case None => matched
      case Some(onTag) => RunScript(matched.(log := matched.log + [TagCalled(onTag, attrs)]), onTag.script)
  }

  /** What flushing a handler's pending text delivers: at most one text callback. */
  function Flushed(h: Handler): (r: seq<Event>)
    ensures |r| <= 1
    ensures r != [] <==> h.textCallback.Some? && !AllSpace(h.text)
    ensures r != [] ==> r[0] == TextCalled(h.textCallback.value, TrimSpace(h.text))
  {
    var text := TrimSpace(h.text);
    if h.textCallback.Some? && |text| > 0 then [TextCalled(h.textCallback.value, text)] else []
  }

  /** handleText: flush the current handler's pending text and empty it. */
  function HandleText(s: DecoderState): (r: DecoderState)
    requires ValidState(s)
    ensures ValidState(r) && r.current == s.current && r.handlers[r.current].text == []
    ensures s.log <= r.log && |r.log| <= |s.log| + 1
  {
    var h := s.handlers[s.current];
    UpdateKeepsTree(s.handlers, s.current, h.(text := []));
    s.(handlers := s.handlers[s.current := h.(text := [])], log := s.log + Flushed(h))
  }

  /** One pass of Run's loop over a non-nil token. */
  function Step(s: DecoderState, t: Token): (r: DecoderState)
    requires ValidState(s)
    ensures ValidState(r) && s.log <= r.log
  {
    match t
    case StartElement(name, attr) =>
      HandleTag(HandleText(s), name.local, attr)
    case CharData(data) =>
      var h := s.handlers[s.current];
      UpdateKeepsTree(s.handlers, s.current, h.(text := h.text + data));
      s.(handlers := s.handlers[s.current := h.(text := h.text + data)])
    case EndElement(_) =>
      var r := HandleText(s);
      if r.current != TOP then r.(current := r.handlers[r.current].parentHandler.value) else r
    case _ => s
  }

  /** Run's loop over the tokens before the first nil one. */
  function RunTokens(s: DecoderState, tokens: seq<Token>): (r: DecoderState)
    requires ValidState(s)
    ensures ValidState(r) && s.log <= r.log
    decreases |tokens|
  {
    if tokens == [] then s else RunTokens(Step(s, tokens[0]), tokens[1..])
  }

  /** The nil token: the error callback, if one is registered, gets the error. */
  function Finish(s: DecoderState, err: StreamError): (r: DecoderState)
    ensures r.handlers == s.handlers && r.current == s.current
    ensures s.log <= r.log && |r.log| <= |s.log| + 1
  {
    match s.errorCallback
    case None => s
    case Some(onError) => s.(log := s.log + [ErrorCalled(onError, err)])
  }

  /** Run: the tokens, then the terminating nil token that carries err. */
  function Run(s: DecoderState, tokens: seq<Token>, err: StreamError): (r: DecoderState)
    requires ValidState(s)
    ensures ValidState(r) && s.log <= r.log
  {
    Finish(RunTokens(s, tokens), err)
  }
}
