# exml dispatcher in Dafny

A model of the event dispatcher at the heart of go-exml (`exml.go`), with the
properties it promises proved. go-exml puts a callback API over a stream of
XML tokens. Users register a tag or text callback for an element name or a
`/`-separated path. The decoder keeps a tree of handlers and a current
handler. For each start tag, end tag and piece of character data it moves the
current handler and fires the callbacks that apply.

The model has three layers:

- **Values** (`Optional`, `Bytes`, `Paths`, `Attributes`, `Handlers`,
  `Dispatch`). These are pure datatypes and functions.
  - The `handler` struct is a `Handler` value in an arena `seq<Handler>`.
  - A `*handler` pointer is an index into the arena, and index `TOP` (0) is
    `topHandler`.
  - A nil `subHandlers` map is the empty map.
  - `Dispatch.DecoderState` holds the decoder's fields plus a log of every
    callback invocation.
  - `Dispatch` gives each operation of the decoder as a function on that
    state.
- **The decoder object** (`Exml.Decoder`). This is a class whose fields are
  the source's fields. Its methods update them in place:
  - `installHandlers` walks the path in a `while` loop and stores into the
    maps.
  - `Run` loops over the tokens.
  - `handleTag` and `handleText` reassign `currentHandler`, `parentHandler`
    and `text`.

  Each method is proved to leave the decoder in exactly the state the
  corresponding `Dispatch` function gives.
- **Properties** (`DispatchProperties`, plus the lemmas in `Handlers`, `Bytes`,
  `Paths` and `Attributes`). These state what the package promises about those
  functions. The `Scenarios` lemmas run concrete documents through the
  dispatcher.

User callbacks are values:

- A tag callback carries the list of registrations (`On`, `OnTextOf`,
  `OnText`, `OnError`) that its closure makes each time it runs. This is how
  nested, scoped registration is expressed.
- Firing a callback appends a `TagCalled`, `TextCalled` or `ErrorCalled`
  event to the log.

The XML tokenizer is replaced by its output: a finite sequence of tokens,
followed by the error that comes with the first nil token.

The tree invariant is `Handlers.ValidTree`, with `Dispatch.ValidState` adding
that `currentHandler` is in the arena:

- topHandler has no parent.
- Every other handler has a parent in the arena.
- Every child link points to a handler allocated after its holder.

So topHandler is never anybody's child, and popping at an end tag never
reaches nil. Every operation on the decoder state states in its `ensures`
that it keeps this invariant. `Dispatch.Finish` does so by leaving the
handlers and the current handler as they are. `Handlers.Attach` does not
require the invariant itself; `Handlers.AttachValid` proves that it keeps it.

Three behaviours of the code are easy to misread, and the model follows the
code:

- **End tags pop unconditionally.** An end tag pops to `parentHandler`
  whenever the current handler is not topHandler, even when its start tag
  matched nothing (exml.go:125-129). A reader might expect an unmatched
  element to be transparent. In the code, the end tag of an unregistered
  element nested inside a registered one closes the registered one's scope
  early. `Scenarios.UnmatchedSiblingEndsParentScope` shows this.
- **`parentHandler` is a field, not a stack frame.** It is overwritten on
  every match (exml.go:141). A global handler that is re-entered while it is
  current becomes its own parent. The next end tag then leaves it current
  instead of returning to the enclosing handler; this lasts until it is
  matched again under another handler
  (`DispatchProperties.ReenteredGlobalIsItsOwnParent`).
- **`$text` is an ordinary name.** The tests and the example register
  `"$text"` paths through older callback APIs: the tests pass a two-argument
  function, the example a one-argument text function to `On`. In `exml.go` that name
  is an ordinary path segment with no special meaning, and it is modelled that
  way.

## Model

| member | source | states |
|---|---|---|
| Handlers.Install | exml.go:75-100 | installHandlers as a walk over the segments: the result keeps the tree invariant, grows the arena, and returns the last handler allocated |
| Handlers.InstallOne | exml.go:81-96 | one pass of the loop keeps the tree invariant and returns a handler of the arena it leaves |
| Handlers.InstallOnePicks | exml.go:81-96 | the handler one pass picks is stored in h's slot for the segment; it is an old handler exactly when the segment is an intermediate one that h already has a child for, and then the arena is unchanged; otherwise it is a new bare handler whose parent is h |
| Handlers.InstallStep | exml.go:81-96 | the rest of the walk continues from the handler that pass picked, in the arena that pass left |
| Handlers.Attach | exml.go:85-95 | the arena grows by one bare handler whose parent is h, and h's slot for the segment points at it |
| Handlers.AttachValid | exml.go:85-95 | storing a new `&handler{parentHandler: h}` under a name of h keeps the tree invariant and links the new handler back to h; h changes only in that slot and no other old handler changes |
| Handlers.InstallGrows | exml.go:81-97 | installing changes old handlers only in their children, keeps every child name, and adds links only to new handlers |
| Handlers.Route | exml.go:78-96 | the handlers whose maps the loop writes: one per segment, the first is the starting handler, and every later one was allocated after it |
| Handlers.InstallFrameOffRoute | exml.go:81-97 | every old handler off the route is left exactly as it was |
| Handlers.InstallWritesRoute | exml.go:91-96 | every old handler on the route changes in one slot only, its segment's, which now holds the next handler on the route, or the returned handler for the last segment |
| Handlers.InstallWritesRouteAt | exml.go:91-96 | the same for the handler at one position of the route |
| Handlers.InstallWritesHead | exml.go:91-96 | the starting handler changes only in the slot of the first segment |
| Handlers.RouteIsReached | exml.go:81-97 | the route is where the proper prefixes of the path lead in the new arena |
| Handlers.InstallFrame | exml.go:81-97 | handlers allocated before the starting handler are untouched |
| Handlers.InstallFreshlyLinks | exml.go:85-88 | every handler created is bare (no callbacks, no text), and its parent is the handler whose map it was stored in |
| Handlers.InstallResolves | exml.go:75-100 | the returned handler is reached from the start by the whole path, and its parent is the handler reached by the path minus its last segment |
| Handlers.InstallReaches | exml.go:75-100 | the whole path leads from the start to the returned handler |
| Handlers.InstallParentIsPrefix | exml.go:85-88 | the returned handler's parent is the handler the path without its last segment leads to |
| Handlers.InstallLeaf | exml.go:88 | the returned handler is bare: no callbacks, no children, no text, only its parent |
| Handlers.InstallReuses | exml.go:82-86 | intermediate handlers that already existed along the path are still the ones the path reaches afterwards |
| Dispatch.Initial | exml.go:48-55 | NewCustomDecoder: a single topHandler with no children, which is current; no error callback; the tree invariant holds; nothing logged |
| Dispatch.InstallPath | exml.go:75-78 | installHandlers from the current handler keeps the tree invariant, returns a new handler, and keeps every parent link and pending text |
| Dispatch.RunScript | exml.go:143-145 | the registrations a tag callback makes keep the invariant, the current handler, the log, parent links and pending text |
| Dispatch.Register | exml.go:58-73 | a registration never moves currentHandler, never logs, keeps the invariant, and never changes a parent link or pending text |
| Dispatch.Resolve | exml.go:134-138 | the handler a start tag resolves to is never topHandler and is in the arena |
| Dispatch.HandleTag | exml.go:134-147 | handleTag keeps the invariant, only extends the log, and leaves the resolved handler current, or the old one on a miss |
| Dispatch.Flushed | exml.go:150-154 | at most one event: a text call with the trimmed text, present exactly when there is a text callback and the buffer is not all whitespace |
| Dispatch.HandleText | exml.go:149-155 | handleText keeps the invariant and the current handler, empties its buffer, and adds at most one event to the log |
| Dispatch.Step | exml.go:119-130 | one pass of the run loop keeps the invariant and only extends the log |
| Dispatch.RunTokens | exml.go:110-131 | the loop over the non-nil tokens keeps the invariant and only extends the log |
| Dispatch.Finish | exml.go:112-116 | the nil token leaves the tree and the current handler alone and adds at most one event |
| Dispatch.Run | exml.go:109-132 | Run keeps the invariant and only extends the log |
| DispatchProperties.ResolvePrecedence | exml.go:135-138 | the global table wins; the current handler's children are consulted only when the global lookup misses and current is not topHandler; a miss happens exactly when both lookups fail |
| DispatchProperties.HandleTagMiss | exml.go:140-146 | a start tag that resolves to nothing leaves the whole decoder unchanged |
| DispatchProperties.HandleTagMatch | exml.go:140-146 | on a match h: h becomes current, h's parent becomes the previous current, no other parent link or text changes, and h's tag callback fires exactly once with the attributes as given |
| DispatchProperties.CallbackRegistersUnderItsHandler | exml.go:142-144 | a registration made by the tag callback lands under the matched handler, because current is set before the callback runs |
| DispatchProperties.OnTextSetsCurrentHandler | exml.go:71-73 | OnText(cb) makes cb the current handler's text callback and changes nothing else: no other handler, field or the error callback |
| DispatchProperties.OnErrorSetsErrorCallback | exml.go:104-106 | OnError(cb) makes cb the error callback and leaves the handlers, the current handler and the log alone |
| DispatchProperties.CallbackOnTextLandsOnItsHandler | exml.go:71-73 | a tag callback that calls OnText(cb) gives cb to its own element's handler, which is current when it runs (exml.go:142-144) |
| DispatchProperties.LookupIgnoresCallbacks | exml.go:26 | path lookup depends only on the children maps |
| DispatchProperties.InstallYieldsBareLeaf | exml.go:88 | the terminal node of a path is a fresh bare handler, reached by the path, whose parent is the node reached by the path's prefix; an older node in that slot is dropped |
| DispatchProperties.OnLandsUnderCurrent | exml.go:58-61 | On(path, cb) stores cb on a fresh leaf reached from the current handler by the path |
| DispatchProperties.OnTextOfLandsUnderCurrent | exml.go:65-68 | OnTextOf(path, cb) stores cb as the text callback of a fresh leaf reached from the current handler by the path |
| DispatchProperties.PathRegistrationTouchesOnlyRoute | exml.go:58-68 | On and OnTextOf leave every old handler off the route unchanged and change each old handler on it only in its segment's slot |
| DispatchProperties.PathRegistrationRouteIsReached | exml.go:58-68 | after On or OnTextOf, each proper prefix of the path leads to the handler of the route at that position |
| DispatchProperties.PathRegistrationKeepsOtherNames | exml.go:58-68 | On and OnTextOf keep every other name of the current handler bound as it was, and away from the top leave the global table untouched |
| DispatchProperties.OnReusesExistingPrefix | exml.go:82-86 | On keeps the existing handlers along the path and changes old handlers only in their children |
| DispatchProperties.HandleTextFlushes | exml.go:149-155 | a flush always empties the current buffer and logs at most one event; it logs exactly when a text callback exists and the buffer is not all whitespace, and then with the trimmed text |
| DispatchProperties.FlushWithoutTextIsNoOp | exml.go:149-155 | flushing an empty buffer changes nothing |
| DispatchProperties.CharDataAppends | exml.go:123-124 | character data is appended verbatim to the current buffer; no other handler, field of the current handler, the current handler itself or the error callback changes, and nothing is logged |
| DispatchProperties.CharDataAccumulates | exml.go:123-124 | a run of character data appends the concatenation of its pieces |
| DispatchProperties.EndTagDeliversTrimmedConcatenation | exml.go:123-129 | at the end tag, the text callback receives the trimmed concatenation of all character data since the last flush |
| DispatchProperties.StartTagFlushesFirst | exml.go:120-122 | a start tag flushes the handler current before the lookup, then moves to the resolved handler or stays |
| DispatchProperties.EndTagPops | exml.go:125-129 | an end tag flushes, then pops to parentHandler unless current is topHandler; no parent link changes; the end tag's name is irrelevant |
| DispatchProperties.OtherTokensInert | exml.go:119-130 | comments, processing instructions and directives change nothing |
| DispatchProperties.RunTokensAppend | exml.go:110-131 | running two stretches of tokens is running the first and then the second |
| DispatchProperties.CountErrorsAppend | exml.go:113-115 | error events in a concatenated log add up |
| DispatchProperties.StepLogsNoError | exml.go:119-130 | a token only extends the log and never logs an error |
| DispatchProperties.HandleTagLogsNoError | exml.go:134-147 | a start tag's dispatch only extends the log and never logs an error |
| DispatchProperties.RunTokensLogsNoError | exml.go:110-131 | the tokens before the nil one only extend the log and never log an error |
| DispatchProperties.ErrorReportedOnce | exml.go:111-117 | the nil token calls the error callback exactly once with its error when one is registered, and nothing otherwise |
| DispatchProperties.InstallKeepsTagCallbacks | exml.go:75-100 | installHandlers keeps every old tag callback and gives the new handlers none |
| DispatchProperties.RegisterKeepsErrorCallback | exml.go:58-73 | a registration other than OnError, whose callbacks never call OnError, keeps the error callback and installs no callback that sets it |
| DispatchProperties.RunScriptKeepsErrorCallback | exml.go:143-145 | the same for the registrations of a tag callback, in order |
| DispatchProperties.StepKeepsErrorCallback | exml.go:119-130 | no token changes the error callback while no installed tag callback can call OnError |
| DispatchProperties.RunTokensKeepsErrorCallback | exml.go:110-131 | the same for every token before the nil one |
| DispatchProperties.ReenteredGlobalIsItsOwnParent | exml.go:141 | a global handler re-entered while current becomes its own parent, and an end tag then leaves it current |
| Exml.Decoder.constructor | exml.go:48-55 | the new decoder is Dispatch.Initial |
| Exml.Decoder.On | exml.go:58-61 | the new state is Dispatch.Register of the old one with On |
| Exml.Decoder.OnTextOf | exml.go:65-68 | the new state is Dispatch.Register of the old one with OnTextOf |
| Exml.Decoder.OnText | exml.go:71-73 | the new state is Dispatch.Register of the old one with OnText |
| Exml.Decoder.OnError | exml.go:104-106 | the new state is Dispatch.Register of the old one with OnError |
| Exml.Decoder.InstallHandlers | exml.go:75-100 | the loop's arena and returned handler are those of Dispatch.InstallPath; only the arena changes |
| Exml.Decoder.Run | exml.go:109-132 | the final state is Dispatch.Run of the initial one: every token in turn, then the error callback |
| Exml.Decoder.Step | exml.go:119-130 | one pass of Run's loop leaves the state Dispatch.Step gives for that token |
| Exml.Decoder.HandleTag | exml.go:134-147 | the new state is Dispatch.HandleTag of the old one |
| Exml.Decoder.CallTag | exml.go:143-145 | the callback is logged with the attributes, then its registrations run in order |
| Exml.Decoder.Apply | exml.go:58-106 | one registration a tag callback makes leaves the state Dispatch.Register gives |
| Exml.Decoder.HandleText | exml.go:149-155 | the new state is Dispatch.HandleText of the old one |
| Bytes.FirstNonSpace | exml.go:150 | the position of the first non-whitespace byte: everything before it is whitespace |
| Bytes.EndOfNonSpace | exml.go:150 | the position after the last non-whitespace byte: everything after it is whitespace |
| Bytes.TrimSpace | exml.go:150 | the result is empty exactly when the input is all whitespace, and otherwise starts and ends with a non-whitespace byte |
| Bytes.TrimSpaceIsInnerSlice | exml.go:150 | the result is a slice of the input with only whitespace before and after it |
| Bytes.NonSpaceBounds | exml.go:150 | every non-whitespace byte of the input lies within the part that is kept |
| Bytes.TrimSpaceIdempotent | exml.go:150 | trimming twice is trimming once |
| Bytes.TrimSpaceIgnoresPadding | exml.go:150 | whitespace added around a buffer does not change what is delivered |
| Paths.Split | exml.go:76 | strings.Split on '/': one more part than separators, and no part contains '/' |
| Paths.JoinSplit | exml.go:76 | joining the parts with '/' gives back the path |
| Paths.SplitJoin | exml.go:76 | splitting a join of separator-free parts gives back the parts |
| Paths.SplitSegment | exml.go:76 | a path without '/' is one segment |
| Attributes.Get | exml.go:294-302 | true exactly when some attribute has the local name; then the value of the first such attribute, else the empty string |
| Attributes.GetString | exml.go:306-313 | the fallback when no attribute has the name, otherwise the first match's value |
| Attributes.GetAppend | exml.go:295-299 | a later attribute with the same name never shadows an earlier one |
| Attributes.FirstMatchUnique | exml.go:295-299 | the first match is unique |
| Scenarios.RegisterRootB | exml.go:75-100 | On("root/b", cb) from the top creates root as an intermediate and b as the leaf |
| Scenarios.ScopedChildFires | exml.go:134-146 | with root open, a b start tag fires the callback registered for root/b |
| Scenarios.UnmatchedSiblingEndsParentScope | exml.go:125-129 | the end tag of an unregistered element inside root pops root, so a later b no longer fires |
| Scenarios.MixedContentIsDeliveredInPieces | exml.go:121-129 | for any texts a and b that are not all whitespace, the run of `<p>a<child></child>b</p>` calls p's text callback with TrimSpace(a) when child opens and with TrimSpace(b) when p closes, and ends at the top |
| Scenarios.ErrorCallbackSeesStreamError | exml.go:109-117 | after OnError(cb) on a new decoder, whatever the tokens, the last call of the run is cb with the stream's error, and it is the only error call |
| Scenarios.ScopedHandlerFiresPerOccurrence | exml.go:140-146 | a handler registered inside root's callback fires once per node element inside root, with each element's attributes, in document order |

## Left out

- The `encoding/xml` tokenizer, `NewDecoder` and the `io.Reader` setup
  (exml.go:41-43, exml.go:111) are foreign library I/O. The run takes the
  token sequence and the terminating error as parameters instead.
- `GetBool`, `GetFloat`, `GetInt`, `GetUInt` and the `Assign*`/`Append*`
  closures (exml.go:157-287, exml.go:315-384) are thin wrappers over `strconv`
  parsing, some of it floating point. They are not part of this model.
- Bytes.TrimSpace: only ASCII whitespace (tab, newline, vertical tab, form
  feed, carriage return, space) is trimmed. `bytes.TrimSpace` also trims
  Unicode spaces in UTF-8 input, which would need a UTF-8 decoder.
- Delivered text is a value. In the source, the slice a text callback
  receives aliases the handler's buffer, which is truncated and later reused.
  A callback that keeps the slice can see it overwritten. The model does not
  capture this.
- User callbacks are arbitrary closures in the source. Here a tag callback is
  a fixed list of registrations, and only their invocations are recorded.
  Text and error callbacks make no registrations at all, although in Go they
  are closures that could call `On`, `OnText` or `OnError` too. A
  closure that calls `Run` again, or that behaves differently from one run to
  the next, is not modelled.
- Heap pointers become arena indices, and a nil map is the empty map. Node
  identity and the lazily created map are captured; a handler that is
  dropped from its map stays in the arena and can still be reached through a
  `parentHandler` link, so an end tag can make it current again.
- The tests, benchmarks and the example program use file I/O and printing,
  and an older callback API that does not compile against `exml.go`. They
  are not modelled, apart from the registration patterns in `Scenarios`.
