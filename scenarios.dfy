/**
 Concrete documents run through the dispatcher: the behaviours the package's
 tests and example rely on, and one they do not exercise.
 */
module Scenarios {
  import opened Optional
  import opened Bytes
  import opened Attributes
  import opened Handlers
  import opened Dispatch
  import opened DispatchProperties
  import Paths

  function Tag(local: string): Name {
    Name("", local)
  }

  /** The decoder after On("root/b", cb) from the top: topHandler, then root, then b. */
  function RootB(cb: TagCallback): (s: DecoderState)
    ensures ValidState(s)
  {
    DecoderState([Handler(None, None, map["root" := 1], None, []),
                  Handler(None, None, map["b" := 2], Some(TOP), []),
                  Handler(Some(cb), None, map[], Some(1), [])], TOP, None, [])
  }

  /** On("root/b", cb) from the top allocates root as an intermediate and b as the leaf. */
  lemma RegisterRootB(cb: TagCallback)
    ensures Register(Initial(), On("root/b", Some(cb))) == RootB(cb)
  {
    RootBSplit();
  }

  /** With root open, a b start tag resolves to the handler registered for root/b. */
  lemma ScopedChildFires(cb: TagCallback)
    requires cb.script == []
    ensures Run(RootB(cb), [StartElement(Tag("root"), []), StartElement(Tag("b"), [])], EOF).log == [TagCalled(cb, [])]
  {
    var s := RootB(cb);
    FlushWithoutTextIsNoOp(s);
    assert Resolve(s, "root") == Some(1);
    var s1 := Step(s, StartElement(Tag("root"), []));
    assert s1 == s.(current := 1);
    FlushWithoutTextIsNoOp(s1);
    assert Resolve(s1, "b") == Some(2);
    var s2 := Step(s1, StartElement(Tag("b"), []));
    assert s2.log == [TagCalled(cb, [])];
    assert RunTokens(s1, [StartElement(Tag("b"), [])]) == RunTokens(s2, []);
  }

  /**
   The same document with an element nobody registered (x) before b: x's end
   tag pops root although x never pushed anything, so b no longer resolves
   and its callback never runs.
   */
  lemma UnmatchedSiblingEndsParentScope(cb: TagCallback)
    ensures Run(RootB(cb), [StartElement(Tag("root"), []), StartElement(Tag("x"), []), EndElement(Tag("x")),
                            StartElement(Tag("b"), [])], EOF).log == []
  {
    var ts := [StartElement(Tag("root"), []), StartElement(Tag("x"), []), EndElement(Tag("x")),
               StartElement(Tag("b"), [])];
    RootBOpenRoot(cb);
    RootBIgnoreX(cb);
    RootBCloseX(cb);
    RootBMissB(cb);
    assert ts[1..][1..][1..][1..] == [];
  }

  lemma RootBOpenRoot(cb: TagCallback)
    ensures Step(RootB(cb), StartElement(Tag("root"), [])) == RootB(cb).(current := 1)
  {
    FlushWithoutTextIsNoOp(RootB(cb));
    assert Resolve(RootB(cb), "root") == Some(1);
  }

  lemma RootBIgnoreX(cb: TagCallback)
    ensures Step(RootB(cb).(current := 1), StartElement(Tag("x"), [])) == RootB(cb).(current := 1)
  {
    FlushWithoutTextIsNoOp(RootB(cb).(current := 1));
    assert Resolve(RootB(cb).(current := 1), "x") == None;
  }

  lemma RootBCloseX(cb: TagCallback)
    ensures Step(RootB(cb).(current := 1), EndElement(Tag("x"))) == RootB(cb)
  {
    FlushWithoutTextIsNoOp(RootB(cb).(current := 1));
  }

  lemma RootBMissB(cb: TagCallback)
    ensures Step(RootB(cb), StartElement(Tag("b"), [])) == RootB(cb)
  {
    FlushWithoutTextIsNoOp(RootB(cb));
    assert Resolve(RootB(cb), "b") == None;
  }


  /**
   A decoder where p has a text callback and a registered child, with p's
   pending text, the current handler and the log as given.
   */
  function Mixed(onText: TextCallback, pText: seq<byte>, current: NodeId, log: seq<Event>): (s: DecoderState)
    requires current < 3
    ensures ValidState(s)
  {
    DecoderState([Handler(None, None, map["p" := 1], None, []),
                  Handler(None, Some(onText), map["child" := 2], Some(TOP), pText),
                  Handler(None, None, map[], Some(1), [])], current, None, log)
  }

  lemma MixedOpenP(onText: TextCallback)
    ensures Step(Mixed(onText, [], TOP, []), StartElement(Tag("p"), [])) == Mixed(onText, [], 1, [])
  {
    var s := Mixed(onText, [], TOP, []);
    FlushWithoutTextIsNoOp(s);
    assert Resolve(s, "p") == Some(1);
  }

  lemma MixedText(onText: TextCallback, log: seq<Event>, data: seq<byte>)
    ensures Step(Mixed(onText, [], 1, log), CharData(data)) == Mixed(onText, data, 1, log)
  {
    assert [] + data == data;
  }

  lemma MixedOpenChild(onText: TextCallback, a: seq<byte>)
    requires !AllSpace(a)
    ensures Step(Mixed(onText, a, 1, []), StartElement(Tag("child"), []))
         == Mixed(onText, [], 2, [TextCalled(onText, TrimSpace(a))])
  {
    var s := Mixed(onText, a, 1, []);
    assert Flushed(s.handlers[1]) == [TextCalled(onText, TrimSpace(a))];
    assert s.handlers[1 := s.handlers[1].(text := [])] == Mixed(onText, [], 1, []).handlers;
    assert HandleText(s) == Mixed(onText, [], 1, [TextCalled(onText, TrimSpace(a))]);
    assert Resolve(HandleText(s), "child") == Some(2);
  }

  lemma MixedCloseChild(onText: TextCallback, log: seq<Event>)
    ensures Step(Mixed(onText, [], 2, log), EndElement(Tag("child"))) == Mixed(onText, [], 1, log)
  {
    FlushWithoutTextIsNoOp(Mixed(onText, [], 2, log));
  }

  lemma MixedCloseP(onText: TextCallback, log: seq<Event>, b: seq<byte>)
    requires !AllSpace(b)
    ensures Step(Mixed(onText, b, 1, log), EndElement(Tag("p")))
         == Mixed(onText, [], TOP, log + [TextCalled(onText, TrimSpace(b))])
  {
  }

  /**
   Mixed content, as the trace of the document
   `<p>a<child></child>b</p>`: the text before p's child and the text after it
   reach p's text callback as two separate calls, each trimmed, in document
   order, and the run ends back at the top.
   */
  lemma MixedContentIsDeliveredInPieces(onText: TextCallback, a: seq<byte>, b: seq<byte>)
    requires !AllSpace(a) && !AllSpace(b)
    ensures var l := [TextCalled(onText, TrimSpace(a))];
      && Step(Mixed(onText, [], TOP, []), StartElement(Tag("p"), [])) == Mixed(onText, [], 1, [])
      && Step(Mixed(onText, [], 1, []), CharData(a)) == Mixed(onText, a, 1, [])
      && Step(Mixed(onText, a, 1, []), StartElement(Tag("child"), [])) == Mixed(onText, [], 2, l)
      && Step(Mixed(onText, [], 2, l), EndElement(Tag("child"))) == Mixed(onText, [], 1, l)
      && Step(Mixed(onText, [], 1, l), CharData(b)) == Mixed(onText, b, 1, l)
      && Step(Mixed(onText, b, 1, l), EndElement(Tag("p")))
         == Mixed(onText, [], TOP, [TextCalled(onText, TrimSpace(a)), TextCalled(onText, TrimSpace(b))])
  {
    MixedBeforeChild(onText, a);
    MixedAfterChild(onText, TextCalled(onText, TrimSpace(a)), b);
  }

  lemma MixedBeforeChild(onText: TextCallback, a: seq<byte>)
    requires !AllSpace(a)
    ensures && Step(Mixed(onText, [], TOP, []), StartElement(Tag("p"), [])) == Mixed(onText, [], 1, [])
            && Step(Mixed(onText, [], 1, []), CharData(a)) == Mixed(onText, a, 1, [])
            && Step(Mixed(onText, a, 1, []), StartElement(Tag("child"), []))
               == Mixed(onText, [], 2, [TextCalled(onText, TrimSpace(a))])
  {
    MixedOpenP(onText);
    MixedText(onText, [], a);
    MixedOpenChild(onText, a);
  }

  lemma MixedAfterChild(onText: TextCallback, first: Event, b: seq<byte>)
    requires !AllSpace(b)
    ensures && Step(Mixed(onText, [], 2, [first]), EndElement(Tag("child"))) == Mixed(onText, [], 1, [first])
            && Step(Mixed(onText, [], 1, [first]), CharData(b)) == Mixed(onText, b, 1, [first])
            && Step(Mixed(onText, b, 1, [first]), EndElement(Tag("p")))
               == Mixed(onText, [], TOP, [first, TextCalled(onText, TrimSpace(b))])
  {
    MixedCloseChild(onText, [first]);
    MixedText(onText, [first], b);
    MixedCloseP(onText, [first], b);
    assert [first] + [TextCalled(onText, TrimSpace(b))] == [first, TextCalled(onText, TrimSpace(b))];
  }

  /**
   The decoder of the package's nested test after its registration, with
   root's callback having registered node under root, the current handler
   and the log as given.
   */
  function Nested(onRoot: TagCallback, onNode: TagCallback, current: NodeId, log: seq<Event>): (s: DecoderState)
    requires current < 3
    ensures ValidState(s)
  {
    DecoderState([Handler(None, None, map["root" := 1], None, []),
                  Handler(Some(onRoot), None, map["node" := 2], Some(TOP), []),
                  Handler(Some(onNode), None, map[], Some(1), [])], current, None, log)
  }

  /** The decoder right after On("root", onRoot) from the top. */
  function RootOnly(onRoot: TagCallback): (s: DecoderState)
    ensures ValidState(s) && ValidState(s.(current := 1))
  {
    DecoderState([Handler(None, None, map["root" := 1], None, []),
                  Handler(Some(onRoot), None, map[], Some(TOP), [])], TOP, None, [])
  }

  lemma RegisterRoot(onRoot: TagCallback)
    ensures Register(Initial(), On("root", Some(onRoot))) == RootOnly(onRoot)
  {
    Paths.SplitSegment("root");
  }

  /** What root's callback registers, run with root current, adds node under root. */
  lemma RootScriptAddsNode(onRoot: TagCallback, onNode: TagCallback, ra: Attrs)
    ensures var called := RootOnly(onRoot).(current := 1, log := [TagCalled(onRoot, ra)]);
      RunScript(called, [On("node", Some(onNode))]) == Nested(onRoot, onNode, 1, [TagCalled(onRoot, ra)])
  {
    Paths.SplitSegment("node");
    var called := RootOnly(onRoot).(current := 1, log := [TagCalled(onRoot, ra)]);
    var hs := Attach(called.handlers, 1, "node");
    assert Install(called.handlers, 1, ["node"]) == (hs, 2);
    assert hs[2 := hs[2].(tagCallback := Some(onNode))] == Nested(onRoot, onNode, 1, []).handlers;
    assert [On("node", Some(onNode))][1..] == [];
    assert RunScript(called, [On("node", Some(onNode))]) == Register(called, On("node", Some(onNode)));
  }

  lemma NestedOpenRoot(onRoot: TagCallback, onNode: TagCallback, ra: Attrs)
    requires onRoot.script == [On("node", Some(onNode))]
    ensures Step(RootOnly(onRoot), StartElement(Tag("root"), ra)) == Nested(onRoot, onNode, 1, [TagCalled(onRoot, ra)])
  {
    var s := RootOnly(onRoot);
    FlushWithoutTextIsNoOp(s);
    assert Resolve(s, "root") == Some(1);
    assert s.handlers[1].(parentHandler := Some(TOP)) == s.handlers[1];
    UpdateSame(s.handlers, 1);
    var called := s.(current := 1, log := [TagCalled(onRoot, ra)]);
    assert s.log + [TagCalled(onRoot, ra)] == called.log;
    assert HandleTag(s, "root", ra) == RunScript(called, onRoot.script);
    RootScriptAddsNode(onRoot, onNode, ra);
  }

  lemma UpdateSame<T>(xs: seq<T>, i: nat)
    requires i < |xs|
    ensures xs[i := xs[i]] == xs
  {
  }

  lemma NestedOpenNode(onRoot: TagCallback, onNode: TagCallback, log: seq<Event>, attrs: Attrs)
    requires onNode.script == []
    ensures Step(Nested(onRoot, onNode, 1, log), StartElement(Tag("node"), attrs))
         == Nested(onRoot, onNode, 2, log + [TagCalled(onNode, attrs)])
  {
    var s := Nested(onRoot, onNode, 1, log);
    FlushWithoutTextIsNoOp(s);
    assert Resolve(s, "node") == Some(2);
  }

  lemma NestedClose(onRoot: TagCallback, onNode: TagCallback, current: NodeId, log: seq<Event>, name: Name)
    requires 0 < current < 3
    ensures Step(Nested(onRoot, onNode, current, log), EndElement(name)) == Nested(onRoot, onNode, current - 1, log)
  {
    FlushWithoutTextIsNoOp(Nested(onRoot, onNode, current, log));
  }

  /**
   The pattern of the package's nested test: root's callback registers a
   handler for node; that scoped handler then fires once per node element
   inside root, with each element's own attributes, in document order.
   */
  lemma ScopedHandlerFiresPerOccurrence(onRoot: TagCallback, onNode: TagCallback, ra: Attrs, a1: Attrs, a2: Attrs)
    requires onRoot.script == [On("node", Some(onNode))] && onNode.script == []
    ensures var s0 := Register(Initial(), On("root", Some(onRoot)));
      var s1 := Step(s0, StartElement(Tag("root"), ra));
      var s2 := Step(s1, StartElement(Tag("node"), a1));
      var s3 := Step(s2, EndElement(Tag("node")));
      var s4 := Step(s3, StartElement(Tag("node"), a2));
      var s5 := Step(s4, EndElement(Tag("node")));
      var s6 := Step(s5, EndElement(Tag("root")));
      s6.current == TOP && s6.log == [TagCalled(onRoot, ra), TagCalled(onNode, a1), TagCalled(onNode, a2)]
  {
    var l1 := [TagCalled(onRoot, ra)];
    var l2 := l1 + [TagCalled(onNode, a1)];
    var l3 := l2 + [TagCalled(onNode, a2)];
    var s0 := Register(Initial(), On("root", Some(onRoot)));
    var s1 := Step(s0, StartElement(Tag("root"), ra));
    assert s1 == Nested(onRoot, onNode, 1, l1) by {
      RegisterRoot(onRoot);
      NestedOpenRoot(onRoot, onNode, ra);
    }
    var s3 := Step(Step(s1, StartElement(Tag("node"), a1)), EndElement(Tag("node")));
    assert s3 == Nested(onRoot, onNode, 1, l2) by {
      NestedOpenNode(onRoot, onNode, l1, a1);
      NestedClose(onRoot, onNode, 2, l2, Tag("node"));
    }
    var s5 := Step(Step(s3, StartElement(Tag("node"), a2)), EndElement(Tag("node")));
    assert s5 == Nested(onRoot, onNode, 1, l3) by {
      NestedOpenNode(onRoot, onNode, l2, a2);
      NestedClose(onRoot, onNode, 2, l3, Tag("node"));
    }
    NestedClose(onRoot, onNode, 1, l3, Tag("root"));
    AppendTwice(TagCalled(onRoot, ra), TagCalled(onNode, a1), TagCalled(onNode, a2));
  }

  lemma AppendTwice<T>(a: T, b: T, c: T)
    ensures [a] + [b] + [c] == [a, b, c]
  {
  }

  lemma RootBSplit()
    ensures Paths.Split("root/b") == ["root", "b"]
  {
    Paths.SplitAfterSegment("root", "b");
    assert "root" + ['/'] + "b" == "root/b";
    Paths.SplitSegment("b");
  }

  /**
   A decoder whose only registration is OnError(cb) hands the stream's error
   to cb exactly once, after everything else, whatever the tokens were.
   */
  lemma ErrorCallbackSeesStreamError(cb: ErrorCallback, tokens: seq<Token>, err: StreamError)
    ensures var r := Run(Register(Initial(), OnError(Some(cb))), tokens, err);
      |r.log| > 0 && r.log[|r.log| - 1] == ErrorCalled(cb, err) && CountErrors(r.log) == 1
  {
    var s := Register(Initial(), OnError(Some(cb)));
    assert NoErrorRegistration(s);
    RunTokensKeepsErrorCallback(s, tokens);
    ErrorReportedOnce(s, tokens, err);
  }
}
