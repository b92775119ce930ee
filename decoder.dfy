/**
 The Decoder of exml.go as the object it is: its handler arena and current
 handler are fields that its methods update in place, following the Go code
 statement by statement. Each method is proved to do what the corresponding
 function of module Dispatch says.
 */
module Exml {
  import opened Optional
  import opened Bytes
  import opened Attributes
  import opened Handlers
  import Dispatch
  import Paths

  class Decoder {
    /** Every handler allocated so far; index TOP is topHandler. */
    var handlers: seq<Handler>
    var currentHandler: NodeId
    var errorCallback: Option<ErrorCallback>
    /** The calls made to user callbacks, in order. */
    var log: seq<Dispatch.Event>

    ghost function State(): Dispatch.DecoderState
      reads this
    {
      Dispatch.DecoderState(handlers, currentHandler, errorCallback, log)
    }

    ghost predicate Valid()
      reads this
    {
      Dispatch.ValidState(State())
    }

    /** NewCustomDecoder: a fresh topHandler, which is also the current handler. */
    constructor ()
      ensures Valid() && State() == Dispatch.Initial()
    {
      handlers := [Handler(None, None, map[], None, [])];
      currentHandler := TOP;
      errorCallback := None;
      log := [];
    }

    /** On: install the path and give its last handler the tag callback. */
    method On(path: string, callback: Option<TagCallback>)
      requires Valid()
      modifies this
      ensures Valid() && State() == Dispatch.Register(old(State()), Registration.On(path, callback))
    {
      var h := InstallHandlers(path);
      handlers := handlers[h := handlers[h].(tagCallback := callback)];
    }

    /** OnTextOf: install the path and give its last handler the text callback. */
    method OnTextOf(path: string, callback: Option<TextCallback>)
      requires Valid()
      modifies this
      ensures Valid() && State() == Dispatch.Register(old(State()), Registration.OnTextOf(path, callback))
    {
      var h := InstallHandlers(path);
      handlers := handlers[h := handlers[h].(textCallback := callback)];
    }

    /** OnText: the current handler gets the text callback. */
    method OnText(callback: Option<TextCallback>)
      requires Valid()
      modifies this
      ensures Valid() && State() == Dispatch.Register(old(State()), Registration.OnText(callback))
    {
      handlers := handlers[currentHandler := handlers[currentHandler].(textCallback := callback)];
    }

    /** OnError: the one error callback is replaced. */
    method OnError(callback: Option<ErrorCallback>)
      requires Valid()
      modifies this
      ensures Valid() && State() == Dispatch.Register(old(State()), Registration.OnError(callback))
    {
      errorCallback := callback;
    }

    /**
     installHandlers: walk the segments of the path from the current handler,
     reusing an existing child for every segment but the last, allocating a new
     handler otherwise and always for the last one, and storing it in the map.
     */
    method InstallHandlers(path: string) returns (sub: NodeId)
      requires Valid()
      modifies this`handlers
      ensures Valid()
      ensures (handlers, sub) == Dispatch.InstallPath(old(State()), path)
    {
      var events := Paths.Split(path);
      var depth := |events| - 1;
      var h: NodeId := currentHandler;
      sub := h;
      var i := 0;
      while i < |events|
        invariant 0 <= i <= |events|
        invariant ValidTree(handlers) && h < |handlers|
        invariant 0 < i ==> sub == h
        invariant Install(old(handlers), currentHandler, events)
               == if i < |events| then Install(handlers, h, events[i..]) else (handlers, h)
      {
        var ev := events[i];
        ghost var next := InstallOne(handlers, h, events, i);
        InstallStep(handlers, h, events, i);
        if i < depth && ev in handlers[h].subHandlers {
          sub := handlers[h].subHandlers[ev];
          StoreExisting(handlers, h, ev);
        } else {
          StoreFresh(handlers, h, ev);
          handlers := handlers + [Fresh(h)];
          sub := |handlers| - 1;
        }
        handlers := handlers[h := handlers[h].(subHandlers := handlers[h].subHandlers[ev := sub])];
        assert (handlers, sub) == next;
        h := sub;
        i := i + 1;
      }
    }

    /** Run: feed every token to the dispatcher, then report the terminal error. */
    method Run(tokens: seq<Dispatch.Token>, err: Dispatch.StreamError)
      requires Valid()
      modifies this
      ensures Valid() && State() == Dispatch.Run(old(State()), tokens, err)
    {
      var i := 0;
      while i < |tokens|
        invariant 0 <= i <= |tokens| && Valid()
        invariant Dispatch.RunTokens(State(), tokens[i..]) == Dispatch.RunTokens(old(State()), tokens)
      {
        assert tokens[i..][0] == tokens[i] && tokens[i..][1..] == tokens[i + 1..];
        Step(tokens[i]);
        i := i + 1;
      }
      if errorCallback.Some? {
        log := log + [Dispatch.ErrorCalled(errorCallback.value, err)];
      }
    }

    /** The body of Run's loop for one non-nil token. */
    method Step(t: Dispatch.Token)
      requires Valid()
      modifies this
      ensures Valid() && State() == Dispatch.Step(old(State()), t)
    {
      match t {
        case StartElement(name, attr) =>
          HandleText();
          HandleTag(name.local, attr);
        case CharData(data) =>
          var h := handlers[currentHandler];
          UpdateKeepsTree(handlers, currentHandler, h.(text := h.text + data));
          handlers := handlers[currentHandler := h.(text := h.text + data)];
        case EndElement(_) =>
          HandleText();
          if currentHandler != TOP {
            currentHandler := handlers[currentHandler].parentHandler.value;
          }
        case _ =>
      }
    }

    /**
     handleTag: look the name up among topHandler's children, then among the
     current handler's; on a match, re-parent the handler, make it current and
     call its tag callback.
     */
    method HandleTag(name: string, attrs: Attrs)
      requires Valid()
      modifies this
      ensures Valid() && State() == Dispatch.HandleTag(old(State()), name, attrs)
    {
      var h: Option<NodeId> := None;
      if name in handlers[TOP].subHandlers {
        h := Some(handlers[TOP].subHandlers[name]);
      }
      if h.None? && currentHandler != TOP && name in handlers[currentHandler].subHandlers {
        h := Some(handlers[currentHandler].subHandlers[name]);
      }
      assert h == Dispatch.Resolve(old(State()), name);
      if h.Some? {
        var n := h.value;
        handlers := handlers[n := handlers[n].(parentHandler := Some(currentHandler))];
        currentHandler := n;
        if handlers[n].tagCallback.Some? {
          CallTag(handlers[n].tagCallback.value, attrs);
        }
      }
    }

    /**
     A tag callback runs: it is logged with its attributes, then makes its
     registrations on this decoder, relative to the current handler.
     */
    method CallTag(callback: TagCallback, attrs: Attrs)
      requires Valid()
      modifies this
      ensures Valid()
      ensures State() == Dispatch.RunScript(old(State()).(log := old(log) + [Dispatch.TagCalled(callback, attrs)]), callback.script)
    {
      log := log + [Dispatch.TagCalled(callback, attrs)];
      var script := callback.script;
      var i := 0;
      while i < |script|
        invariant 0 <= i <= |script| && Valid()
        invariant Dispatch.RunScript(State(), script[i..])
               == Dispatch.RunScript(old(State()).(log := old(log) + [Dispatch.TagCalled(callback, attrs)]), script)
      {
        assert script[i..][0] == script[i] && script[i..][1..] == script[i + 1..];
        Apply(script[i]);
        i := i + 1;
      }
    }

    /** One call a tag callback makes on the decoder. */
    method Apply(reg: Registration)
      requires Valid()
      modifies this
      ensures Valid() && State() == Dispatch.Register(old(State()), reg)
    {
      match reg {
        case On(path, onTag) => On(path, onTag);
        case OnTextOf(path, onText) => OnTextOf(path, onText);
        case OnText(onText) => OnText(onText);
        case OnError(onError) => OnError(onError);
      }
    }

    /**
     handleText: trim the pending text, empty the buffer, and hand the trimmed
     text to the text callback when there is one and the text is not empty.
     */
    method HandleText()
      requires Valid()
      modifies this
      ensures Valid() && State() == Dispatch.HandleText(old(State()))
    {
      var h := handlers[currentHandler];
      var text := TrimSpace(h.text);
      handlers := handlers[currentHandler := h.(text := [])];
      if h.textCallback.Some? && |text| > 0 {
        log := log + [Dispatch.TextCalled(h.textCallback.value, text)];
      }
    }
  }
}
