/**
 What the dispatcher of exml.go guarantees: where registrations land, which
 handler a start tag selects, when text is flushed and to whom, how end tags
 move the current handler, and how the run ends.
 */
module DispatchProperties {
  import opened Optional
  import opened Bytes
  import opened Attributes
  import opened Handlers
  import opened Dispatch
  import Paths

  // ---------------------------------------------------------------- registration

  /** Lookups only follow child links, so changing a callback does not affect them. */
  lemma {:induction false} LookupIgnoresCallbacks(hs: seq<Handler>, hs': seq<Handler>, h: NodeId, evs: seq<string>)
    requires ValidTree(hs) && ValidTree(hs') && h < |hs| && |hs| == |hs'|
    requires forall i :: 0 <= i < |hs| ==> hs'[i].subHandlers == hs[i].subHandlers
    ensures Lookup(hs', h, evs) == Lookup(hs, h, evs)
    decreases |evs|
  {
    if evs != [] && evs[0] in hs[h].subHandlers {
      LookupIgnoresCallbacks(hs, hs', hs[h].subHandlers[evs[0]], evs[1..]);
    }
  }

  /**
   installHandlers leaves the whole path leading, from where it started, to a
   newly allocated bare leaf whose parent is where the path without its last
   segment leads.
   */
  lemma InstallYieldsBareLeaf(s: DecoderState, path: string)
    requires ValidState(s)
    ensures var (hs, h) := InstallPath(s, path);
      var evs := Paths.Split(path);
      && Lookup(hs, s.current, evs) == Some(h)
      && |s.handlers| <= h
      && hs[h] == Handler(None, None, map[], Lookup(hs, s.current, evs[..|evs| - 1]), [])
  {
    var evs := Paths.Split(path);
    InstallResolves(s.handlers, s.current, evs);
    InstallLeaf(s.handlers, s.current, evs);
  }

  /**
   On(path, cb) from the handler current at the time: the whole path now leads,
   from that handler, to a newly allocated handler whose only callback is cb,
   which has no children, and whose parent is the handler the path leads to
   without its last segment.
   */
  lemma OnLandsUnderCurrent(s: DecoderState, path: string, onTag: Option<TagCallback>)
    requires ValidState(s)
    ensures var r := Register(s, On(path, onTag));
      var evs := Paths.Split(path);
      var t := Lookup(r.handlers, s.current, evs);
      && t.Some? && |s.handlers| <= t.value
      && r.handlers[t.value] == Handler(onTag, None, map[], Lookup(r.handlers, s.current, evs[..|evs| - 1]), [])
  {
    var evs := Paths.Split(path);
    var (hs, h) := InstallPath(s, path);
    InstallYieldsBareLeaf(s, path);
    var hs' := hs[h := hs[h].(tagCallback := onTag)];
    UpdateKeepsTree(hs, h, hs[h].(tagCallback := onTag));
    assert Register(s, On(path, onTag)).handlers == hs';
    LookupIgnoresCallbacks(hs, hs', s.current, evs);
    LookupIgnoresCallbacks(hs, hs', s.current, evs[..|evs| - 1]);
  }

  /** OnTextOf(path, cb): as On, but the new handler's only callback is the text callback cb. */
  lemma OnTextOfLandsUnderCurrent(s: DecoderState, path: string, onText: Option<TextCallback>)
    requires ValidState(s)
    ensures var r := Register(s, OnTextOf(path, onText));
      var evs := Paths.Split(path);
      var t := Lookup(r.handlers, s.current, evs);
      && t.Some? && |s.handlers| <= t.value
      && r.handlers[t.value] == Handler(None, onText, map[], Lookup(r.handlers, s.current, evs[..|evs| - 1]), [])
  {
    var evs := Paths.Split(path);
    var (hs, h) := InstallPath(s, path);
    InstallYieldsBareLeaf(s, path);
    var hs' := hs[h := hs[h].(textCallback := onText)];
    UpdateKeepsTree(hs, h, hs[h].(textCallback := onText));
    assert Register(s, OnTextOf(path, onText)).handlers == hs';
    LookupIgnoresCallbacks(hs, hs', s.current, evs);
    LookupIgnoresCallbacks(hs, hs', s.current, evs[..|evs| - 1]);
  }

  /**
   Registering a path keeps the handlers that already existed along it (all but
   the last segment) and changes nothing but child links and the new handler's
   callback.
   */
  lemma OnReusesExistingPrefix(s: DecoderState, path: string, onTag: Option<TagCallback>, k: nat)
    requires ValidState(s)
    requires k < |Paths.Split(path)| && Lookup(s.handlers, s.current, Paths.Split(path)[..k]).Some?
    ensures var r := Register(s, On(path, onTag));
      && Lookup(r.handlers, s.current, Paths.Split(path)[..k]) == Lookup(s.handlers, s.current, Paths.Split(path)[..k])
      && forall i :: 0 <= i < |s.handlers| ==> SameButChildren(s.handlers[i], r.handlers[i])
  {
    var evs := Paths.Split(path);
    var (hs, h) := Install(s.handlers, s.current, evs);
    var r := Register(s, On(path, onTag));
    InstallReuses(s.handlers, s.current, evs, k);
    InstallGrows(s.handlers, s.current, evs);
    LookupIgnoresCallbacks(hs, r.handlers, s.current, evs[..k]);
  }

  /**
   On(path, cb) and OnTextOf(path, cb) leave every old handler off the route
   installHandlers walks as it was, and change each old handler on the route
   only in the slot of its segment.
   */
  lemma PathRegistrationTouchesOnlyRoute(s: DecoderState, reg: Registration)
    requires ValidState(s) && (reg.On? || reg.OnTextOf?)
    ensures var r := Register(s, reg);
      var evs := Paths.Split(reg.path);
      var route := Route(s.handlers, s.current, evs);
      && (forall i :: 0 <= i < |s.handlers| && i !in route ==> r.handlers[i] == s.handlers[i])
      && (forall k :: 0 <= k < |evs| && route[k] < |s.handlers| ==>
            r.handlers[route[k]]
              == s.handlers[route[k]].(subHandlers := s.handlers[route[k]].subHandlers[evs[k] := NextOnRoute(s.handlers, s.current, evs, k)]))
  {
    var evs := Paths.Split(reg.path);
    var (hs, t) := Install(s.handlers, s.current, evs);
    assert forall i :: 0 <= i < |s.handlers| ==> Register(s, reg).handlers[i] == hs[i];
    InstallFrameOffRoute(s.handlers, s.current, evs);
    InstallWritesRoute(s.handlers, s.current, evs);
  }

  /** The route of a path registration is where the proper prefixes of the path lead afterwards. */
  lemma PathRegistrationRouteIsReached(s: DecoderState, reg: Registration, k: nat)
    requires ValidState(s) && (reg.On? || reg.OnTextOf?) && k < |Paths.Split(reg.path)|
    ensures var evs := Paths.Split(reg.path);
      Lookup(Register(s, reg).handlers, s.current, evs[..k]) == Some(Route(s.handlers, s.current, evs)[k])
  {
    var evs := Paths.Split(reg.path);
    var (hs, t) := Install(s.handlers, s.current, evs);
    var r := Register(s, reg);
    assert forall i :: 0 <= i < |hs| ==> r.handlers[i].subHandlers == hs[i].subHandlers;
    RouteIsReached(s.handlers, s.current, evs, k);
    LookupIgnoresCallbacks(hs, r.handlers, s.current, evs[..k]);
  }

  /**
   A path registration keeps every other name of the current handler bound as
   it was; away from the top it leaves topHandler, and so the global table,
   untouched.
   */
  lemma PathRegistrationKeepsOtherNames(s: DecoderState, reg: Registration, name: string)
    requires ValidState(s) && (reg.On? || reg.OnTextOf?) && name != Paths.Split(reg.path)[0]
    ensures var r := Register(s, reg);
      && (name in r.handlers[s.current].subHandlers <==> name in s.handlers[s.current].subHandlers)
      && (name in s.handlers[s.current].subHandlers ==>
            r.handlers[s.current].subHandlers[name] == s.handlers[s.current].subHandlers[name])
      && (s.current != TOP ==> r.handlers[TOP] == s.handlers[TOP])
  {
    var evs := Paths.Split(reg.path);
    var route := Route(s.handlers, s.current, evs);
    PathRegistrationTouchesOnlyRoute(s, reg);
    assert route[0] == s.current;
    assert s.current != TOP ==> TOP !in route;
  }

  // ---------------------------------------------------------------- start tags

  /** How a start tag's name is resolved: the global table first, the current handler's children second. */
  lemma ResolvePrecedence(s: DecoderState, name: string)
    requires ValidState(s)
    ensures name in s.handlers[TOP].subHandlers ==> Resolve(s, name) == Some(s.handlers[TOP].subHandlers[name])
    ensures name !in s.handlers[TOP].subHandlers && s.current != TOP && name in s.handlers[s.current].subHandlers ==>
      Resolve(s, name) == Some(s.handlers[s.current].subHandlers[name])
    ensures Resolve(s, name).None? <==>
      name !in s.handlers[TOP].subHandlers && (s.current == TOP || name !in s.handlers[s.current].subHandlers)
  {
  }

  /** A start tag nobody registered for changes nothing: no push, no re-parenting, no callback. */
  lemma HandleTagMiss(s: DecoderState, name: string, attrs: Attrs)
    requires ValidState(s)
    requires name !in s.handlers[TOP].subHandlers
    requires s.current == TOP || name !in s.handlers[s.current].subHandlers
    ensures HandleTag(s, name, attrs) == s
  {
  }

  /**
   A start tag that resolves to h: h becomes current with the old current as
   its parent, no other parent link moves, no pending text changes, and the
   log gains exactly one call of h's tag callback with the attributes as
   given, or nothing when h has no tag callback.
   */
  lemma HandleTagMatch(s: DecoderState, name: string, attrs: Attrs, h: NodeId)
    requires ValidState(s) && Resolve(s, name) == Some(h)
    ensures var r := HandleTag(s, name, attrs);
      && r.current == h
      && r.handlers[h].parentHandler == Some(s.current)
      && (forall i :: 0 <= i < |s.handlers| && i != h ==> r.handlers[i].parentHandler == s.handlers[i].parentHandler)
      && (forall i :: 0 <= i < |s.handlers| ==> r.handlers[i].text == s.handlers[i].text)
      && r.log == s.log + (match s.handlers[h].tagCallback
                           case None => []
                           case Some(onTag) => [TagCalled(onTag, attrs)])
  {
  }

  /**
   Registrations made by a tag callback land under the handler it belongs to:
   if h's callback calls On(path, cb), then after the start tag the path leads
   from h to a new handler carrying cb.
   */
  lemma CallbackRegistersUnderItsHandler(s: DecoderState, name: string, attrs: Attrs, h: NodeId,
                                         path: string, onTag: Option<TagCallback>)
    requires ValidState(s) && Resolve(s, name) == Some(h)
    requires s.handlers[h].tagCallback.Some? && s.handlers[h].tagCallback.value.script == [On(path, onTag)]
    ensures var r := HandleTag(s, name, attrs);
      var t := Lookup(r.handlers, h, Paths.Split(path));
      t.Some? && |s.handlers| <= t.value && r.handlers[t.value].tagCallback == onTag
  {
    var cb := s.handlers[h].tagCallback.value;
    UpdateKeepsTree(s.handlers, h, s.handlers[h].(parentHandler := Some(s.current)));
    var matched := s.(handlers := s.handlers[h := s.handlers[h].(parentHandler := Some(s.current))], current := h);
    var called := matched.(log := matched.log + [TagCalled(cb, attrs)]);
    assert HandleTag(s, name, attrs) == RunScript(called, [On(path, onTag)]);
    assert RunScript(called, [On(path, onTag)]) == Register(called, On(path, onTag)) by {
      assert [On(path, onTag)][1..] == [];
    }
    OnLandsUnderCurrent(called, path, onTag);
  }

  /**
   OnText(cb) gives the current handler the text callback cb and changes
   nothing else: no other handler, no child link, no pending text.
   */
  lemma OnTextSetsCurrentHandler(s: DecoderState, onText: Option<TextCallback>)
    requires ValidState(s)
    ensures var r := Register(s, OnText(onText));
      && |r.handlers| == |s.handlers| && r.errorCallback == s.errorCallback
      && r.handlers[s.current].textCallback == onText
      && SameButText(r.handlers[s.current], s.handlers[s.current])
      && forall i :: 0 <= i < |s.handlers| && i != s.current ==> r.handlers[i] == s.handlers[i]
  {
  }

  /** OnError(cb) replaces the error callback and changes nothing else. */
  lemma OnErrorSetsErrorCallback(s: DecoderState, onError: Option<ErrorCallback>)
    requires ValidState(s)
    ensures var r := Register(s, OnError(onError));
      r.errorCallback == onError && r.handlers == s.handlers && r.current == s.current && r.log == s.log
  {
  }

  /**
   A tag callback that calls OnText(cb) gives cb to its own element's handler,
   because that handler is current when the callback runs; the text of the
   element is then flushed to cb.
   */
  lemma CallbackOnTextLandsOnItsHandler(s: DecoderState, name: string, attrs: Attrs, h: NodeId,
                                        onText: Option<TextCallback>)
    requires ValidState(s) && Resolve(s, name) == Some(h)
    requires s.handlers[h].tagCallback.Some? && s.handlers[h].tagCallback.value.script == [OnText(onText)]
    ensures var r := HandleTag(s, name, attrs);
      r.current == h && r.handlers[h].textCallback == onText
  {
    var cb := s.handlers[h].tagCallback.value;
    UpdateKeepsTree(s.handlers, h, s.handlers[h].(parentHandler := Some(s.current)));
    var matched := s.(handlers := s.handlers[h := s.handlers[h].(parentHandler := Some(s.current))], current := h);
    var called := matched.(log := matched.log + [TagCalled(cb, attrs)]);
    assert HandleTag(s, name, attrs) == RunScript(called, [OnText(onText)]);
    assert RunScript(called, [OnText(onText)]) == Register(called, OnText(onText)) by {
      assert [OnText(onText)][1..] == [];
    }
  }

  /** The handlers agree on everything but their text callback. */
  predicate SameButText(a: Handler, b: Handler) {
    a.(textCallback := None) == b.(textCallback := None)
  }

  // ---------------------------------------------------------------- text

  /**
   handleText: the current handler's pending text is emptied, nothing else in
   the tree changes, and at most one event is logged: a call of the text
   callback, made exactly when there is one and the pending text is not all
   white space, with the text stripped of its surrounding white space.
   */
  lemma HandleTextFlushes(s: DecoderState)
    requires ValidState(s)
    ensures var r := HandleText(s);
      var h := s.handlers[s.current];
      && r.current == s.current
      && r.handlers == s.handlers[s.current := h.(text := [])]
      && s.log <= r.log && |r.log| <= |s.log| + 1
      && (|r.log| == |s.log| + 1 <==> h.textCallback.Some? && !AllSpace(h.text))
      && (|r.log| == |s.log| + 1 ==> r.log[|s.log|] == TextCalled(h.textCallback.value, TrimSpace(h.text)))
  {
  }

  /** Flushing a handler with no pending text changes nothing and calls nothing. */
  lemma FlushWithoutTextIsNoOp(s: DecoderState)
    requires ValidState(s) && s.handlers[s.current].text == []
    ensures HandleText(s) == s
  {
    assert TrimSpace([]) == [];
    assert s.handlers[s.current := s.handlers[s.current].(text := [])] == s.handlers;
  }

  /** Character data goes, verbatim and without a flush, onto the current handler's pending text. */
  lemma CharDataAppends(s: DecoderState, data: seq<byte>)
    requires ValidState(s)
    ensures var r := Step(s, CharData(data));
      && r.current == s.current && r.log == s.log && r.errorCallback == s.errorCallback
      && r.handlers[s.current].text == s.handlers[s.current].text + data
      && |r.handlers| == |s.handlers|
      && (forall i :: 0 <= i < |s.handlers| && i != s.current ==> r.handlers[i] == s.handlers[i])
      && r.handlers[s.current].(text := []) == s.handlers[s.current].(text := [])
  {
  }

  /** Consecutive character data tokens concatenate on the current handler. */
  lemma {:induction false} CharDataAccumulates(s: DecoderState, chunks: seq<seq<byte>>)
    requires ValidState(s)
    ensures var r := RunTokens(s, CharDataTokens(chunks));
      && r.current == s.current && r.log == s.log
      && r.handlers == s.handlers[s.current := s.handlers[s.current].(text := s.handlers[s.current].text + Concat(chunks))]
    decreases |chunks|
  {
    if chunks == [] {
      assert s.handlers[s.current].(text := s.handlers[s.current].text + []) == s.handlers[s.current];
    } else {
      var s1 := Step(s, CharData(chunks[0]));
      assert CharDataTokens(chunks)[1..] == CharDataTokens(chunks[1..]);
      CharDataAccumulates(s1, chunks[1..]);
      assert s.handlers[s.current].text + Concat(chunks)
          == s.handlers[s.current].text + chunks[0] + Concat(chunks[1..]);
    }
  }

  function CharDataTokens(chunks: seq<seq<byte>>): (ts: seq<Token>)
    ensures |ts| == |chunks|
    ensures forall k :: 0 <= k < |ts| ==> ts[k] == CharData(chunks[k])
  {
    if chunks == [] then [] else [CharData(chunks[0])] + CharDataTokens(chunks[1..])
  }

  function Concat(chunks: seq<seq<byte>>): seq<byte> {
    if chunks == [] then [] else chunks[0] + Concat(chunks[1..])
  }

  /**
   The text a text callback receives at an end tag is the trimmed
   concatenation of all character data since the last flush.
   */
  lemma EndTagDeliversTrimmedConcatenation(s: DecoderState, chunks: seq<seq<byte>>, name: Name)
    requires ValidState(s) && s.handlers[s.current].text == []
    requires s.handlers[s.current].textCallback.Some?
    requires !AllSpace(Concat(chunks))
    ensures var r := Step(RunTokens(s, CharDataTokens(chunks)), EndElement(name));
      r.log == s.log + [TextCalled(s.handlers[s.current].textCallback.value, TrimSpace(Concat(chunks)))]
  {
    CharDataAccumulates(s, chunks);
    assert [] + Concat(chunks) == Concat(chunks);
  }

  /**
   A start tag first flushes the pending text of the handler current before
   it, and only then resolves the name: the text event (if any) precedes the
   tag event (if any), that handler's pending text is empty afterwards, and
   the new current handler is the resolved one or, on a miss, the old one.
   */
  lemma StartTagFlushesFirst(s: DecoderState, name: Name, attrs: Attrs)
    requires ValidState(s)
    ensures var r := Step(s, StartElement(name, attrs));
      var flushed := s.log + Flushed(s.handlers[s.current]);
      && flushed <= r.log && |r.log| <= |flushed| + 1
      && r.handlers[s.current].text == []
      && r.current == (match Resolve(s, name.local) case Some(h) => h case None => s.current)
  {
    var f := HandleText(s);
    assert Resolve(f, name.local) == Resolve(s, name.local);
    match Resolve(s, name.local)
    case None =>
    case Some(h) => HandleTagMatch(f, name.local, attrs, h);
  }

  // ---------------------------------------------------------------- end tags and other tokens

  /**
   An end tag flushes the current handler and then, unless it is topHandler,
   makes its parent current; no parent link moves and the tag's name plays no
   part, so it pops even when its start tag matched nothing.
   */
  lemma EndTagPops(s: DecoderState, name: Name, other: Name)
    requires ValidState(s)
    ensures var r := Step(s, EndElement(name));
      && r.log == s.log + Flushed(s.handlers[s.current])
      && r.handlers[s.current].text == []
      && (forall i :: 0 <= i < |s.handlers| ==> r.handlers[i].parentHandler == s.handlers[i].parentHandler)
      && r.current == (if s.current == TOP then TOP else s.handlers[s.current].parentHandler.value)
      && r == Step(s, EndElement(other))
  {
  }

  /** Comments, processing instructions and directives change nothing. */
  lemma OtherTokensInert(s: DecoderState, t: Token)
    requires ValidState(s)
    requires t.Comment? || t.ProcInst? || t.Directive?
    ensures Step(s, t) == s
  {
  }

  // ---------------------------------------------------------------- the run

  /** Running two stretches of tokens is running the first, then the second from where it left off. */
  lemma {:induction false} RunTokensAppend(s: DecoderState, a: seq<Token>, b: seq<Token>)
    requires ValidState(s)
    ensures RunTokens(s, a + b) == RunTokens(RunTokens(s, a), b)
    decreases |a|
  {
    if a == [] {
      assert a + b == b;
    } else {
      assert (a + b)[0] == a[0] && (a + b)[1..] == a[1..] + b;
      RunTokensAppend(Step(s, a[0]), a[1..], b);
    }
  }

  predicate IsError(e: Event) {
    e.ErrorCalled?
  }

  function CountErrors(log: seq<Event>): nat {
    if log == [] then 0 else (if IsError(log[0]) then 1 else 0) + CountErrors(log[1..])
  }

  lemma {:induction false} CountErrorsAppend(a: seq<Event>, b: seq<Event>)
    ensures CountErrors(a + b) == CountErrors(a) + CountErrors(b)
    decreases |a|
  {
    if a == [] {
      assert a + b == b;
    } else {
      assert (a + b)[1..] == a[1..] + b;
      CountErrorsAppend(a[1..], b);
    }
  }

  /** One token only appends to the log, and never an error callback call. */
  lemma StepLogsNoError(s: DecoderState, t: Token)
    requires ValidState(s)
    ensures var r := Step(s, t);
      s.log <= r.log && CountErrors(r.log) == CountErrors(s.log)
  {
    var r := Step(s, t);
    match t {
      case StartElement(name, attrs) =>
        CountErrorsAppend(s.log, Flushed(s.handlers[s.current]));
        HandleTagLogsNoError(HandleText(s), name.local, attrs);
      case EndElement(_) =>
        CountErrorsAppend(s.log, Flushed(s.handlers[s.current]));
      case _ =>
    }
  }

  lemma HandleTagLogsNoError(s: DecoderState, name: string, attrs: Attrs)
    requires ValidState(s)
    ensures var r := HandleTag(s, name, attrs);
      s.log <= r.log && CountErrors(r.log) == CountErrors(s.log)
  {
    var r := HandleTag(s, name, attrs);
    if Resolve(s, name).Some? {
      HandleTagMatch(s, name, attrs, Resolve(s, name).value);
      CountErrorsAppend(s.log, r.log[|s.log|..]);
      assert s.log + r.log[|s.log|..] == r.log;
    }
  }

  /** The tokens before the nil one only append to the log, and never call the error callback. */
  lemma {:induction false} RunTokensLogsNoError(s: DecoderState, tokens: seq<Token>)
    requires ValidState(s)
    ensures var r := RunTokens(s, tokens);
      s.log <= r.log && CountErrors(r.log) == CountErrors(s.log)
    decreases |tokens|
  {
    if tokens != [] {
      StepLogsNoError(s, tokens[0]);
      RunTokensLogsNoError(Step(s, tokens[0]), tokens[1..]);
    }
  }

  /**
   Run stops at the nil token and calls the error callback exactly once, with
   that token's error, when one is registered by then; otherwise no callback
   at all is called at the end. currentHandler is valid throughout.
   */
  lemma ErrorReportedOnce(s: DecoderState, tokens: seq<Token>, err: StreamError)
    requires ValidState(s)
    ensures var m := RunTokens(s, tokens);
      var r := Run(s, tokens, err);
      && ValidState(r)
      && CountErrors(r.log) == CountErrors(s.log) + (if m.errorCallback.Some? then 1 else 0)
      && (m.errorCallback.Some? ==> r.log == m.log + [ErrorCalled(m.errorCallback.value, err)])
      && (m.errorCallback.None? ==> r.log == m.log)
  {
    var m := RunTokens(s, tokens);
    RunTokensLogsNoError(s, tokens);
    if m.errorCallback.Some? {
      CountErrorsAppend(m.log, [ErrorCalled(m.errorCallback.value, err)]);
    }
  }

  // ---------------------------------------------------------------- consequences of the shared parent link

  /**
   A global handler that matches while it is itself current becomes its own
   parent; from then on an end tag leaves it current instead of going back up.
   */
  lemma ReenteredGlobalIsItsOwnParent(s: DecoderState, name: Name, attrs: Attrs, end: Name)
    requires ValidState(s) && s.current != TOP
    requires name.local in s.handlers[TOP].subHandlers && s.handlers[TOP].subHandlers[name.local] == s.current
    ensures var r := Step(s, StartElement(name, attrs));
      && r.current == s.current
      && r.handlers[s.current].parentHandler == Some(s.current)
      && Step(r, EndElement(end)).current == s.current
  {
    var f := HandleText(s);
    HandleTagMatch(f, name.local, attrs, s.current);
  }

  // ---------------------------------------------------------------- the error callback stays put

  /** A registration that never calls OnError, directly or through a callback it installs. */
  predicate SetsNoErrorCallback(reg: Registration)
    decreases reg, 1
  {
    match reg
    case OnError(_) => false
    case On(_, onTag) => onTag.None? || CallbackSetsNoErrorCallback(onTag.value)
    case _ => true
  }

  /** A tag callback none of whose registrations ever calls OnError. */
  predicate CallbackSetsNoErrorCallback(cb: TagCallback)
    decreases cb, 0
  {
    forall i :: 0 <= i < |cb.script| ==> SetsNoErrorCallback(cb.script[i])
  }

  /** No tag callback installed in the tree can ever call OnError. */
  predicate NoErrorRegistration(s: DecoderState) {
    forall i :: 0 <= i < |s.handlers| && s.handlers[i].tagCallback.Some? ==>
      CallbackSetsNoErrorCallback(s.handlers[i].tagCallback.value)
  }

  /** installHandlers keeps every old tag callback and gives the new handlers none. */
  lemma InstallKeepsTagCallbacks(s: DecoderState, path: string)
    requires ValidState(s)
    ensures var hs := InstallPath(s, path).0;
      && (forall i :: 0 <= i < |s.handlers| ==> hs[i].tagCallback == s.handlers[i].tagCallback)
      && (forall i :: |s.handlers| <= i < |hs| ==> hs[i].tagCallback.None?)
  {
    var hs := InstallPath(s, path).0;
    InstallGrows(s.handlers, s.current, Paths.Split(path));
    InstallFreshlyLinks(s.handlers, s.current, Paths.Split(path));
    forall i | 0 <= i < |s.handlers| ensures hs[i].tagCallback == s.handlers[i].tagCallback {
      assert SameButChildren(s.handlers[i], hs[i]);
    }
  }

  /** A registration other than OnError keeps the error callback and installs no callback that sets it. */
  lemma RegisterKeepsErrorCallback(s: DecoderState, reg: Registration)
    requires ValidState(s) && NoErrorRegistration(s) && SetsNoErrorCallback(reg)
    ensures var r := Register(s, reg);
      r.errorCallback == s.errorCallback && NoErrorRegistration(r)
  {
    match reg {
      case On(path, onTag) =>
        InstallKeepsTagCallbacks(s, path);
      case OnTextOf(path, _) =>
        InstallKeepsTagCallbacks(s, path);
      case OnText(_) =>
      case OnError(_) =>
    }
  }

  lemma {:induction false} RunScriptKeepsErrorCallback(s: DecoderState, script: seq<Registration>)
    requires ValidState(s) && NoErrorRegistration(s)
    requires forall i :: 0 <= i < |script| ==> SetsNoErrorCallback(script[i])
    ensures var r := RunScript(s, script);
      r.errorCallback == s.errorCallback && NoErrorRegistration(r)
    decreases |script|
  {
    if script != [] {
      RegisterKeepsErrorCallback(s, script[0]);
      RunScriptKeepsErrorCallback(Register(s, script[0]), script[1..]);
    }
  }

  /** One token keeps the error callback when no installed callback can set it. */
  lemma StepKeepsErrorCallback(s: DecoderState, t: Token)
    requires ValidState(s) && NoErrorRegistration(s)
    ensures var r := Step(s, t);
      r.errorCallback == s.errorCallback && NoErrorRegistration(r)
  {
    if t.StartElement? {
      var f := HandleText(s);
      var name := t.name.local;
      assert NoErrorRegistration(f) by {
        assert forall i :: 0 <= i < |s.handlers| ==> f.handlers[i].tagCallback == s.handlers[i].tagCallback;
      }
      if Resolve(f, name).Some? {
        var h := Resolve(f, name).value;
        UpdateKeepsTree(f.handlers, h, f.handlers[h].(parentHandler := Some(f.current)));
        var matched := f.(handlers := f.handlers[h := f.handlers[h].(parentHandler := Some(f.current))], current := h);
        assert NoErrorRegistration(matched) by {
          assert forall i :: 0 <= i < |f.handlers| ==> matched.handlers[i].tagCallback == f.handlers[i].tagCallback;
        }
        if matched.handlers[h].tagCallback.Some? {
          var cb := matched.handlers[h].tagCallback.value;
          RunScriptKeepsErrorCallback(matched.(log := matched.log + [TagCalled(cb, t.attr)]), cb.script);
        }
      }
    }
  }

  /** The tokens before the nil one keep the error callback when no installed callback can set it. */
  lemma {:induction false} RunTokensKeepsErrorCallback(s: DecoderState, tokens: seq<Token>)
    requires ValidState(s) && NoErrorRegistration(s)
    ensures RunTokens(s, tokens).errorCallback == s.errorCallback
    decreases |tokens|
  {
    if tokens != [] {
      StepKeepsErrorCallback(s, tokens[0]);
      RunTokensKeepsErrorCallback(Step(s, tokens[0]), tokens[1..]);
    }
  }
}
