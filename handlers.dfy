/**
 The handler tree of exml.go. Every `handler` struct lives in an arena
 (`seq<Handler>`) and a `*handler` pointer is an index into it; index TOP is
 the decoder's topHandler. User callbacks are values: a tag callback carries
 the registrations its closure makes on the decoder when it runs.
 */
module Handlers {
  import opened Optional
  import opened Bytes

  type NodeId = nat

  /** The index of topHandler, the synthetic root created by NewCustomDecoder. */
  const TOP: NodeId := 0

  /** A TextCallback closure, known by its identity. */
  datatype TextCallback = TextCallback(id: nat)

  /** An ErrorCallback closure, known by its identity. */
  datatype ErrorCallback = ErrorCallback(id: nat)

  /**
   A TagCallback closure: its identity and the calls it makes on the decoder,
   in order, each time it runs.
   */
  datatype TagCallback = TagCallback(id: nat, script: seq<Registration>)

  /** A call to one of the decoder's registration methods; a callback may be nil. */
  datatype Registration =
    | On(path: string, onTag: Option<TagCallback>)
    | OnTextOf(path: string, onText: Option<TextCallback>)
    | OnText(onText: Option<TextCallback>)
    | OnError(onError: Option<ErrorCallback>)

  /** The `handler` struct. A nil subHandlers map is the empty map. */
  datatype Handler = Handler(
    tagCallback: Option<TagCallback>,
    textCallback: Option<TextCallback>,
    subHandlers: map<string, NodeId>,
    parentHandler: Option<NodeId>,
    text: seq<byte>)

  /** `&handler{parentHandler: parent}` */
  function Fresh(parent: NodeId): Handler {
    Handler(None, None, map[], Some(parent), [])
  }

  /**
   The shape every arena keeps: topHandler exists and has no parent, every
   other handler has a parent in the arena, and every child pointer goes to a
   handler allocated after its holder (so topHandler is nobody's child and the
   child links have no cycle).
   */
  predicate ValidTree(hs: seq<Handler>) {
    && |hs| >= 1
    && hs[TOP].parentHandler == None
    && (forall i :: 0 < i < |hs| ==> hs[i].parentHandler.Some? && hs[i].parentHandler.value < |hs|)
    && (forall i, ev :: 0 <= i < |hs| && ev in hs[i].subHandlers ==> i < hs[i].subHandlers[ev] < |hs|)
  }

  /**
   Replacing one handler by one with the same children and a parent the tree
   allows there keeps the tree shape.
   */
  lemma UpdateKeepsTree(hs: seq<Handler>, h: NodeId, hd: Handler)
    requires ValidTree(hs) && h < |hs| && hd.subHandlers == hs[h].subHandlers
    requires if h == TOP then hd.parentHandler == None else hd.parentHandler.Some? && hd.parentHandler.value < |hs|
    ensures ValidTree(hs[h := hd])
  {
    var hs' := hs[h := hd];
    forall i, ev | 0 <= i < |hs'| && ev in hs'[i].subHandlers
      ensures i < hs'[i].subHandlers[ev] < |hs'|
    {
      assert hs'[i].subHandlers == hs[i].subHandlers;
    }
  }

  /** The handler reached from h by following the names in evs through subHandlers. */
  function Lookup(hs: seq<Handler>, h: NodeId, evs: seq<string>): (r: Option<NodeId>)
    requires ValidTree(hs) && h < |hs|
    ensures r.Some? ==> h <= r.value < |hs|
    decreases |evs|
  {
    if evs == [] then Some(h)
    else if evs[0] in hs[h].subHandlers then Lookup(hs, hs[h].subHandlers[evs[0]], evs[1..])
    else None
  }

  /**
   installHandlers, walking the segments evs from h: every segment but the last
   reuses the child of that name when there is one and otherwise inserts a new
   handler; the last segment always inserts a new handler, replacing whatever
   that slot held. Returns the new arena and the handler of the last segment,
   which is the last one allocated.
   */
  function Install(hs: seq<Handler>, h: NodeId, evs: seq<string>): (r: (seq<Handler>, NodeId))
    requires ValidTree(hs) && h < |hs| && |evs| >= 1
    ensures ValidTree(r.0)
    ensures |hs| < |r.0| && r.1 == |r.0| - 1
    decreases |evs|
  {
    var ev := evs[0];
    if |evs| > 1 && ev in hs[h].subHandlers then
      Install(hs, hs[h].subHandlers[ev], evs[1..])
    else
      var n := |hs|;
      var hs1 := Attach(hs, h, ev);
      AttachValid(hs, h, ev);
      if |evs| == 1 then (hs1, n) else Install(hs1, n, evs[1..])
  }

  /** The arena after `h.subHandlers[ev] = &handler{parentHandler: h}`. */
  function Attach(hs: seq<Handler>, h: NodeId, ev: string): (r: seq<Handler>)
    requires h < |hs|
    ensures |r| == |hs| + 1 && r[|hs|] == Fresh(h)
    ensures ev in r[h].subHandlers && r[h].subHandlers[ev] == |hs|
  {
    hs[h := hs[h].(subHandlers := hs[h].subHandlers[ev := |hs|])] + [Fresh(h)]
  }

  /**
   Attaching a new handler keeps the tree shape, grows the arena, links the new
   handler back, and changes no old handler but h, and h only in the slot ev.
   */
  lemma AttachValid(hs: seq<Handler>, h: NodeId, ev: string)
    requires ValidTree(hs) && h < |hs|
    ensures ValidTree(Attach(hs, h, ev))
    ensures Grows(hs, Attach(hs, h, ev)) && FreshlyLinked(hs, Attach(hs, h, ev))
    ensures Attach(hs, h, ev)[h] == hs[h].(subHandlers := hs[h].subHandlers[ev := |hs|])
    ensures forall i :: 0 <= i < |hs| && i != h ==> Attach(hs, h, ev)[i] == hs[i]
  {
    var hs1 := Attach(hs, h, ev);
    assert forall i :: 0 <= i < |hs| && i != h ==> hs1[i] == hs[i];
    assert hs1[h].subHandlers == hs[h].subHandlers[ev := |hs|];
  }

  /**
   One pass of installHandlers' loop at segment i, from h: an intermediate
   segment that h already has a child for moves to that child; any other
   segment attaches a new handler under h.
   */
  function InstallOne(hs: seq<Handler>, h: NodeId, evs: seq<string>, i: nat): (r: (seq<Handler>, NodeId))
    requires ValidTree(hs) && h < |hs| && i < |evs|
    ensures ValidTree(r.0) && r.1 < |r.0|
  {
    var ev := evs[i];
    if i < |evs| - 1 && ev in hs[h].subHandlers then (hs, hs[h].subHandlers[ev])
    else
      AttachValid(hs, h, ev);
      (Attach(hs, h, ev), |hs|)
  }

  /**
   Which handler one pass picks: it is stored in h's slot for the segment; it
   is an old handler exactly when the segment is an intermediate one h already
   has a child for, and then nothing changes; otherwise it is a new bare
   handler whose parent is h.
   */
  lemma InstallOnePicks(hs: seq<Handler>, h: NodeId, evs: seq<string>, i: nat)
    requires ValidTree(hs) && h < |hs| && i < |evs|
    ensures var (hs', sub) := InstallOne(hs, h, evs, i);
      && |hs| <= |hs'|
      && evs[i] in hs'[h].subHandlers && hs'[h].subHandlers[evs[i]] == sub
      && (sub < |hs| <==> i < |evs| - 1 && evs[i] in hs[h].subHandlers)
      && (sub < |hs| ==> hs' == hs)
      && (|hs| <= sub ==> sub == |hs| && hs'[sub] == Fresh(h))
  {
  }

  /** The walk from segment i continues from the pass's child in the pass's arena. */
  lemma InstallStep(hs: seq<Handler>, h: NodeId, evs: seq<string>, i: nat)
    requires ValidTree(hs) && h < |hs| && i < |evs|
    ensures var (hs', sub) := InstallOne(hs, h, evs, i);
      Install(hs, h, evs[i..]) == if i + 1 < |evs| then Install(hs', sub, evs[i + 1..]) else (hs', sub)
  {
    assert evs[i..][0] == evs[i] && evs[i..][1..] == evs[i + 1..];
  }

  /** Storing a child back under the name it already has changes nothing. */
  lemma StoreExisting(hs: seq<Handler>, h: NodeId, ev: string)
    requires h < |hs| && ev in hs[h].subHandlers
    ensures hs[h := hs[h].(subHandlers := hs[h].subHandlers[ev := hs[h].subHandlers[ev]])] == hs
  {
    assert hs[h].subHandlers[ev := hs[h].subHandlers[ev]] == hs[h].subHandlers;
  }

  /** Appending a new handler and then storing it under ev is Attach. */
  lemma StoreFresh(hs: seq<Handler>, h: NodeId, ev: string)
    requires h < |hs|
    ensures var grown := hs + [Fresh(h)];
      grown[h := grown[h].(subHandlers := grown[h].subHandlers[ev := |hs|])] == Attach(hs, h, ev)
  {
  }

  /** The handlers agree on everything but their children. */
  predicate SameButChildren(a: Handler, b: Handler) {
    a.(subHandlers := map[]) == b.(subHandlers := map[])
  }

  /**
   hs' is hs with handlers appended, where the old handlers differ only in
   their children, keep every child name, and have no link to an old handler
   that they did not have before.
   */
  predicate Grows(hs: seq<Handler>, hs': seq<Handler>) {
    && |hs| <= |hs'|
    && (forall i :: 0 <= i < |hs| ==> SameButChildren(hs[i], hs'[i]))
    && (forall i, ev :: 0 <= i < |hs| && ev in hs[i].subHandlers ==> ev in hs'[i].subHandlers)
    && (forall i, ev :: 0 <= i < |hs| && ev in hs'[i].subHandlers && hs'[i].subHandlers[ev] < |hs| ==>
          ev in hs[i].subHandlers && hs[i].subHandlers[ev] == hs'[i].subHandlers[ev])
  }

  /**
   The handlers appended to hs are bare (no callback, no text) and each one's
   parentHandler is the handler whose map it was inserted in.
   */
  predicate FreshlyLinked(hs: seq<Handler>, hs': seq<Handler>)
    requires |hs| <= |hs'|
  {
    && (forall c :: |hs| <= c < |hs'| ==>
          hs'[c].tagCallback.None? && hs'[c].textCallback.None? && hs'[c].text == [])
    && (forall i, ev :: 0 <= i < |hs'| && ev in hs'[i].subHandlers && |hs| <= hs'[i].subHandlers[ev] < |hs'| ==>
          hs'[hs'[i].subHandlers[ev]].parentHandler == Some(i))
  }

  lemma GrowsTransitive(hs: seq<Handler>, hs1: seq<Handler>, hs2: seq<Handler>)
    requires Grows(hs, hs1) && Grows(hs1, hs2)
    ensures Grows(hs, hs2)
  {
    forall i | 0 <= i < |hs| ensures SameButChildren(hs[i], hs2[i]) {
      assert SameButChildren(hs1[i], hs2[i]);
    }
  }

  /** Installing changes nothing but child links, and adds only links to new handlers. */
  lemma {:induction false} InstallGrows(hs: seq<Handler>, h: NodeId, evs: seq<string>)
    requires ValidTree(hs) && h < |hs| && |evs| >= 1
    ensures Grows(hs, Install(hs, h, evs).0)
    decreases |evs|
  {
    var ev := evs[0];
    if |evs| > 1 && ev in hs[h].subHandlers {
      InstallGrows(hs, hs[h].subHandlers[ev], evs[1..]);
    } else {
      var n := |hs|;
      var hs1 := Attach(hs, h, ev);
      AttachValid(hs, h, ev);
      if |evs| > 1 {
        InstallGrows(hs1, n, evs[1..]);
        GrowsTransitive(hs, hs1, Install(hs1, n, evs[1..]).0);
      }
    }
  }

  /** Installing touches no handler allocated before the starting one. */
  lemma {:induction false} InstallFrame(hs: seq<Handler>, h: NodeId, evs: seq<string>)
    requires ValidTree(hs) && h < |hs| && |evs| >= 1
    ensures forall i :: 0 <= i < h ==> Install(hs, h, evs).0[i] == hs[i]
    decreases |evs|
  {
    var ev := evs[0];
    if |evs| > 1 && ev in hs[h].subHandlers {
      InstallFrame(hs, hs[h].subHandlers[ev], evs[1..]);
    } else if |evs| > 1 {
      var n := |hs|;
      var hs1 := Attach(hs, h, ev);
      AttachValid(hs, h, ev);
      InstallFrame(hs1, n, evs[1..]);
    }
  }

  /** The handlers installHandlers allocates are bare and point back at their holder. */
  lemma {:induction false} InstallFreshlyLinks(hs: seq<Handler>, h: NodeId, evs: seq<string>)
    requires ValidTree(hs) && h < |hs| && |evs| >= 1
    ensures FreshlyLinked(hs, Install(hs, h, evs).0)
    decreases |evs|
  {
    var ev := evs[0];
    if |evs| > 1 && ev in hs[h].subHandlers {
      InstallFreshlyLinks(hs, hs[h].subHandlers[ev], evs[1..]);
    } else {
      var n := |hs|;
      var hs1 := Attach(hs, h, ev);
      AttachValid(hs, h, ev);
      if |evs| > 1 {
        var hs' := Install(hs1, n, evs[1..]).0;
        InstallFreshlyLinks(hs1, n, evs[1..]);
        InstallGrows(hs1, n, evs[1..]);
        FreshlyLinkedTransitive(hs, hs1, hs');
      }
    }
  }

  lemma FreshlyLinkedTransitive(hs: seq<Handler>, hs1: seq<Handler>, hs2: seq<Handler>)
    requires |hs| <= |hs1| <= |hs2| && ValidTree(hs2)
    requires FreshlyLinked(hs, hs1) && FreshlyLinked(hs1, hs2) && Grows(hs1, hs2)
    ensures FreshlyLinked(hs, hs2)
  {
    forall c | |hs| <= c < |hs1|
      ensures hs2[c].tagCallback.None? && hs2[c].textCallback.None? && hs2[c].text == []
    {
      assert SameButChildren(hs1[c], hs2[c]);
    }
    forall i, e | 0 <= i < |hs2| && e in hs2[i].subHandlers && |hs| <= hs2[i].subHandlers[e] < |hs1|
      ensures hs2[hs2[i].subHandlers[e]].parentHandler == Some(i)
    {
      var c := hs2[i].subHandlers[e];
      assert i < c;
      assert hs1[i].subHandlers[e] == c;
      assert SameButChildren(hs1[c], hs2[c]);
    }
  }

  /**
   The handler installHandlers returns is reached from h by the whole path, and
   its parentHandler is the handler reached by the path without its last segment.
   */
  lemma InstallResolves(hs: seq<Handler>, h: NodeId, evs: seq<string>)
    requires ValidTree(hs) && h < |hs| && |evs| >= 1
    ensures var (hs', t) := Install(hs, h, evs);
      && Lookup(hs', h, evs) == Some(t)
      && Lookup(hs', h, evs[..|evs| - 1]).Some?
      && hs'[t].parentHandler == Lookup(hs', h, evs[..|evs| - 1])
  {
    InstallReaches(hs, h, evs);
    InstallParentIsPrefix(hs, h, evs);
  }

  lemma {:induction false} InstallReaches(hs: seq<Handler>, h: NodeId, evs: seq<string>)
    requires ValidTree(hs) && h < |hs| && |evs| >= 1
    ensures Lookup(Install(hs, h, evs).0, h, evs) == Some(Install(hs, h, evs).1)
    decreases |evs|
  {
    var ev := evs[0];
    if |evs| > 1 && ev in hs[h].subHandlers {
      var c := hs[h].subHandlers[ev];
      InstallReaches(hs, c, evs[1..]);
      InstallFrame(hs, c, evs[1..]);
    } else if |evs| > 1 {
      AttachValid(hs, h, ev);
      InstallReaches(Attach(hs, h, ev), |hs|, evs[1..]);
      InstallFrame(Attach(hs, h, ev), |hs|, evs[1..]);
    }
  }

  lemma {:induction false} InstallParentIsPrefix(hs: seq<Handler>, h: NodeId, evs: seq<string>)
    requires ValidTree(hs) && h < |hs| && |evs| >= 1
    ensures var (hs', t) := Install(hs, h, evs);
      hs'[t].parentHandler.Some? && Lookup(hs', h, evs[..|evs| - 1]) == hs'[t].parentHandler
    decreases |evs|
  {
    var ev := evs[0];
    if |evs| > 1 {
      assert evs[..|evs| - 1][0] == ev && evs[..|evs| - 1][1..] == evs[1..][..|evs| - 2];
      if ev in hs[h].subHandlers {
        var c := hs[h].subHandlers[ev];
        InstallParentIsPrefix(hs, c, evs[1..]);
        InstallFrame(hs, c, evs[1..]);
      } else {
        AttachValid(hs, h, ev);
        InstallParentIsPrefix(Attach(hs, h, ev), |hs|, evs[1..]);
        InstallFrame(Attach(hs, h, ev), |hs|, evs[1..]);
      }
    } else {
      assert evs[..0] == [];
    }
  }

  /** The handler installHandlers returns is a bare new handler, as `&handler{parentHandler: h}` makes it. */
  lemma {:induction false} InstallLeaf(hs: seq<Handler>, h: NodeId, evs: seq<string>)
    requires ValidTree(hs) && h < |hs| && |evs| >= 1
    ensures var (hs', t) := Install(hs, h, evs);
      hs'[t].parentHandler.Some? && hs'[t] == Fresh(hs'[t].parentHandler.value)
    decreases |evs|
  {
    var ev := evs[0];
    if |evs| > 1 && ev in hs[h].subHandlers {
      InstallLeaf(hs, hs[h].subHandlers[ev], evs[1..]);
    } else if |evs| > 1 {
      AttachValid(hs, h, ev);
      InstallLeaf(Attach(hs, h, ev), |hs|, evs[1..]);
    }
  }

  /**
   The intermediate handlers that already existed along the path are the ones
   the path still reaches afterwards: they are reused, not replaced.
   */
  lemma {:induction false} InstallReuses(hs: seq<Handler>, h: NodeId, evs: seq<string>, k: nat)
    requires ValidTree(hs) && h < |hs| && |evs| >= 1
    requires k < |evs| && Lookup(hs, h, evs[..k]).Some?
    ensures Lookup(Install(hs, h, evs).0, h, evs[..k]) == Lookup(hs, h, evs[..k])
    decreases |evs|
  {
    var hs' := Install(hs, h, evs).0;
    if k > 0 {
      var ev := evs[0];
      assert evs[..k][0] == ev && evs[..k][1..] == evs[1..][..k - 1];
      var c := hs[h].subHandlers[ev];
      InstallFrame(hs, c, evs[1..]);
      InstallReuses(hs, c, evs[1..], k - 1);
    }
  }

  /**
   The handlers whose maps installHandlers writes, in order: h for the first
   segment, then, for each later segment, the handler the previous one moved to.
   */
  function Route(hs: seq<Handler>, h: NodeId, evs: seq<string>): (r: seq<NodeId>)
    requires ValidTree(hs) && h < |hs| && |evs| >= 1
    ensures |r| == |evs| && r[0] == h
    ensures forall k :: 0 < k < |r| ==> h < r[k]
    decreases |evs|
  {
    var ev := evs[0];
    if |evs| == 1 then [h]
    else if ev in hs[h].subHandlers then [h] + Route(hs, hs[h].subHandlers[ev], evs[1..])
    else
      AttachValid(hs, h, ev);
      [h] + Route(Attach(hs, h, ev), |hs|, evs[1..])
  }

  /** What segment k's slot holds afterwards: the next handler on the route, or the returned handler for the last segment. */
  function NextOnRoute(hs: seq<Handler>, h: NodeId, evs: seq<string>, k: nat): NodeId
    requires ValidTree(hs) && h < |hs| && k < |evs|
  {
    if k + 1 < |evs| then Route(hs, h, evs)[k + 1] else Install(hs, h, evs).1
  }

  /** installHandlers leaves every handler off its route exactly as it was. */
  lemma {:induction false} InstallFrameOffRoute(hs: seq<Handler>, h: NodeId, evs: seq<string>)
    requires ValidTree(hs) && h < |hs| && |evs| >= 1
    ensures var hs' := Install(hs, h, evs).0;
      forall i :: 0 <= i < |hs| && i !in Route(hs, h, evs) ==> hs'[i] == hs[i]
    decreases |evs|
  {
    var ev := evs[0];
    if |evs| > 1 {
      if ev in hs[h].subHandlers {
        InstallFrameOffRoute(hs, hs[h].subHandlers[ev], evs[1..]);
      } else {
        AttachValid(hs, h, ev);
        InstallFrameOffRoute(Attach(hs, h, ev), |hs|, evs[1..]);
      }
    }
  }

  /**
   Each old handler on the route changes in one slot only: the slot of its
   segment, which now holds the next handler on the route, or the returned
   handler for the last segment.
   */
  lemma InstallWritesRoute(hs: seq<Handler>, h: NodeId, evs: seq<string>)
    requires ValidTree(hs) && h < |hs| && |evs| >= 1
    ensures forall k :: 0 <= k < |evs| && Route(hs, h, evs)[k] < |hs| ==>
      var n := Route(hs, h, evs)[k];
      Install(hs, h, evs).0[n] == hs[n].(subHandlers := hs[n].subHandlers[evs[k] := NextOnRoute(hs, h, evs, k)])
  {
    var hs', r := Install(hs, h, evs).0, Route(hs, h, evs);
    forall k | 0 <= k < |evs| && r[k] < |hs|
      ensures hs'[r[k]] == hs[r[k]].(subHandlers := hs[r[k]].subHandlers[evs[k] := NextOnRoute(hs, h, evs, k)])
    {
      InstallWritesRouteAt(hs, h, evs, k);
    }
  }

  lemma {:induction false} InstallWritesRouteAt(hs: seq<Handler>, h: NodeId, evs: seq<string>, k: nat)
    requires ValidTree(hs) && h < |hs| && k < |evs|
    ensures var hs' := Install(hs, h, evs).0;
      var r := Route(hs, h, evs);
      r[k] < |hs| ==>
        hs'[r[k]] == hs[r[k]].(subHandlers := hs[r[k]].subHandlers[evs[k] := NextOnRoute(hs, h, evs, k)])
    decreases |evs|
  {
    if k == 0 {
      InstallWritesHead(hs, h, evs);
    } else if evs[0] in hs[h].subHandlers {
      var c := hs[h].subHandlers[evs[0]];
      var r, rest := Route(hs, h, evs), Route(hs, c, evs[1..]);
      InstallWritesRouteAt(hs, c, evs[1..], k - 1);
      assert r[k] == rest[k - 1] && evs[k] == evs[1..][k - 1];
      assert k + 1 < |evs| ==> r[k + 1] == rest[k];
    }
  }

  /** The starting handler changes in the slot of the first segment only. */
  lemma InstallWritesHead(hs: seq<Handler>, h: NodeId, evs: seq<string>)
    requires ValidTree(hs) && h < |hs| && |evs| >= 1
    ensures Install(hs, h, evs).0[h]
         == hs[h].(subHandlers := hs[h].subHandlers[evs[0] := if 1 < |evs| then Route(hs, h, evs)[1] else Install(hs, h, evs).1])
  {
    var ev := evs[0];
    if |evs| > 1 {
      if ev in hs[h].subHandlers {
        var c := hs[h].subHandlers[ev];
        InstallFrameOffRoute(hs, c, evs[1..]);
        assert h !in Route(hs, c, evs[1..]);
        assert hs[h].subHandlers[ev := c] == hs[h].subHandlers;
      } else {
        AttachValid(hs, h, ev);
        InstallFrameOffRoute(Attach(hs, h, ev), |hs|, evs[1..]);
        assert h !in Route(Attach(hs, h, ev), |hs|, evs[1..]);
      }
    }
  }

  /** The route is where the proper prefixes of the path lead, in the arena installHandlers leaves. */
  lemma {:induction false} RouteIsReached(hs: seq<Handler>, h: NodeId, evs: seq<string>, k: nat)
    requires ValidTree(hs) && h < |hs| && k < |evs|
    ensures Lookup(Install(hs, h, evs).0, h, evs[..k]) == Some(Route(hs, h, evs)[k])
    decreases |evs|
  {
    if k > 0 {
      var ev := evs[0];
      assert evs[..k][0] == ev && evs[..k][1..] == evs[1..][..k - 1];
      InstallWritesHead(hs, h, evs);
      if ev in hs[h].subHandlers {
        RouteIsReached(hs, hs[h].subHandlers[ev], evs[1..], k - 1);
      } else {
        AttachValid(hs, h, ev);
        RouteIsReached(Attach(hs, h, ev), |hs|, evs[1..], k - 1);
      }
    }
  }
}
