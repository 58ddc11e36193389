# hanjm/errors in Dafny

The Go package `hanjm/errors` annotates errors as they travel up the call stack.

- `Errorf` called on anything that is not already one of its nodes (a plain error, or nil) builds an **origin** node. The origin wraps that value and captures the call stack at that point.
- `Errorf` called on a node adds a **link** holding only a message.
- `Error()` walks the chain from the newest node back to the origin and collects one message per node. It then writes one record per frame of the origin's stack and pairs frame `i` with the `i`-th message counted from the origin. The result is cached on the node, and a node renders at most once.
- It drops frames that lie under GOROOT, and frames the configurable filter excludes (by default every frame whose file, after the `/src/` trim, starts with `github.com`).
- It shortens file paths after `/src/` and function names after their package path.

The repository holds two versions of this design:
- `errors.go` is the current one;
- `error.go` is older. It trims paths with a regular expression, has no filter, writes records of another shape, and has no `GetInnerMost`.

Each version is its own module here.

| module (file) | contents |
|---|---|
| `GoStrings` (`go_strings.dfy`) | the `strings`/`strconv` functions the renderers call: `Index`, `IndexByte`, `LastIndexByte`, `TrimPrefix`, `Itoa`, `ReplaceChar` (the one-character `strings.Replace` applied to GOROOT), and a reader `Atoi` for the round trip |
| `GoRuntime` (`go_runtime.dfy`) | program counters, the resolver that stands for `runtime.FuncForPC`, the 200-entry stack capture, and plain errors (`StdError`, compared by identity, as Go compares what `errors.New` returns) |
| `Frames` (`frames.dfy`) | what both versions share: the `stackFrame` record, the message pairing rule, the function-name rule, and the output shape (one record per stack index that is not dropped) |
| `Errors` (`errors.dfy`) | `errors.go`: the `Err` class, `Error()` with its cache, `Errorf`, `New`, `Prev`, `Inner`, `GetInnerMost`, the filter settings |
| `LegacyErrors` (`legacy_error.dfy`) | `error.go`, the same way |
| `Versions` (`versions.dfy`) | where the two path trims agree and where they differ; without a filter and for a GOROOT without `\`, both versions drop the same frames, and a `\` in GOROOT makes them part |
| `Scenarios` (`scenarios.dfy`) | the call patterns of `example.go` and `errors_test.go` |

How the model is built:
- A node is a `class Err`. Its `message`, `stdError`, `prevErr` and `stack` never change after construction, so they are `const`.
- `fullMessage: Option<string>` is the only mutable field. It stands for the pair `once` / `fullMessage`, with `None` meaning `once` has not yet fired.
- A ghost `depth` counts the links back to the origin. `Valid()` states that the chain is finite and acyclic, and that only the origin holds a stack or a wrapped error.
- `Error()` is the once guard. `Render` is the closure it runs. It walks the chain in a loop, then hands the origin's stack to `WriteFrames`.
- `WriteFrames` is the stack loop, with its `continue` skips, proved against the specification function `Trace`.
- `Trace` is defined frame by frame through `FrameAt` and `Record`. Lemmas about `Trace` state what the output consists of.

Runtime services are inputs:
- the stack above the frames `runtime.Callers(3, …)` skips, as `seq<PC>`;
- `runtime.FuncForPC(pc)` with `FileLine(pc - 1)` and `Name()` folded in, as `Resolver = PC -> Option<Location>`;
- the string `runtime.GOROOT()` returns. `InitialSettings` turns its `\` into `/` for errors.go; error.go uses it as is.

The package variables `goRoot` and `defaultFilterFunc` become a `Settings` value passed to `Error()`. `SetFilterFunc` is a function on it.

The record shape follows the code of `errors.go`, lines 124-134. A record is `"\n\t["`, a space, the file, `':'`, the line, a space, the function, `':'`, the message, `']'`. That gives `"\n\t[ file:line func:msg]"`. The commented-out `Fprintf` on line 123 would write `"\n\t[file:line:func:msg]"`.

## Model

| member | source | states |
|---|---|---|
| GoStrings.Index | errors.go:106 | -1 exactly when the pattern never occurs; otherwise an occurrence with none before it |
| GoStrings.LastIndexByte | errors.go:112 | -1 exactly when the byte is absent; otherwise an index holding it with none after it |
| GoStrings.IndexByte | errors.go:115 | -1 exactly when the byte is absent; otherwise an index holding it with none before it |
| GoStrings.TrimPrefix | errors.go:117 | the prefix followed by the result rebuilds the input when the prefix is present; otherwise the input is unchanged |
| GoStrings.Itoa | errors.go:129 | non-empty; a leading '-' exactly for a negative number, and digits only after it; no leading zero, so the shortest decimal form |
| GoStrings.ItoaRoundTrip | errors.go:129 | reading the decimal text back gives the original line number, so distinct lines print differently |
| GoRuntime.CapturedStack | errors.go:180-184 | the captured stack is a prefix of the callers, of length min(callers, 200) |
| Frames.MessageFor | errors.go:77-81 | raw index `i` takes `messages[len-1-i]`, and "" once `i` reaches the number of messages |
| Frames.ShortFuncName | errors.go:110-119 | the shortened name is never longer than the original |
| Frames.ShortFuncNameKeepsPlain | errors.go:112-113 | a name without '/' is kept as it is |
| Frames.ShortFuncNameKeepsSlash | errors.go:113-115 | with no '.' after the last '/', the name is kept from that '/' on |
| Frames.ShortFuncNameDropsPath | errors.go:113-118 | with a '.' after the last '/', the name is what follows the first such '.', and has no '/' left |
| Frames.QualifiedName | errors.go:111-118 | "path/pkg.rest" shortens to rest, so a closure keeps "Func.func1" |
| Frames.KeptIndices | errors.go:76-135 | the kept raw indices are increasing, at most the number of frames, and are exactly the non-dropped frames |
| Frames.PresentAtKept | errors.go:76-135 | the k-th record written is the record at the k-th kept index |
| Frames.EmittedIsPresentRecords | errors.go:76-135 | after n entries the buffer holds the records of the non-dropped ones among them, concatenated |
| Frames.OutputIsKeptRecords | errors.go:76-135 | the output is the records of the non-dropped frames, one per kept index, concatenated in stack order |
| Errors.DefaultFilterFunc | errors.go:17-22 | excludes a frame exactly when its file starts with "github.com" |
| GoStrings.ReplaceChar | errors.go:13 | the converted GOROOT has the same length as the runtime one; its characters are given by ReplaceCharAt |
| GoStrings.ReplaceCharAt | errors.go:13 | every `\` of the runtime GOROOT becomes `/`, and every other character is kept |
| GoStrings.ReplaceCharAbsent | errors.go:13 | a GOROOT without `\` is left as it is |
| GoStrings.ReplaceCharRemoves | errors.go:13 | no `\` is left in the converted GOROOT |
| Errors.InitialSettings | errors.go:13-22 | the program starts with goRoot set to the runtime GOROOT with `\` turned into `/` (unchanged when it has none) and the default filter installed |
| Errors.SetFilterFunc | errors.go:27-29 | replaces the filter, a nil one included, and leaves goRoot alone |
| Errors.Filtered | errors.go:120 | a frame is excluded exactly when a filter is set and it returns true for the normalised file and function name (the definition; DropRule states its effect) |
| Errors.FrameAt | errors.go:82-122 | per program counter: the placeholder frame when unresolved, dropped under goRoot or by the filter, else the trimmed file, line, shortened name and message (the definition; DropRule and UnresolvedFrameRecord state its consequences) |
| Errors.Record | errors.go:124-134 | the record bytes "\n\t[", space, file, ':', line, space, function, ':', message, ']' (the definition; PlaceholderRecord instantiates it) |
| Errors.TrimSrc | errors.go:105-108 | the path stays whole exactly when "/src/" does not occur or first occurs at 0; otherwise it is cut after the first occurrence |
| Errors.TraceIsRecordsOfKeptFrames | errors.go:76-135 | at most one record per stack entry, in stack order; a record is written exactly for the frames that are not dropped |
| Errors.DropRule | errors.go:100-134 | a frame is dropped exactly when it is resolved and either its raw file starts with goRoot or the filter excludes its normalised file and name; a kept resolved frame is written with its trimmed file, its line, its shortened function name and its paired message, so dropped frames still use up their index |
| Errors.UnresolvedFrameRecord | errors.go:82-98 | an unresolvable counter is never dropped and writes "\n\t[ ???:0 ???:" + message + "]" |
| Errors.PlaceholderRecord | errors.go:84-97 | the record of an unresolved frame is "\n\t[ ???:0 ???:" + message + "]" |
| Errors.EmptyRootKeepsOnlyUnresolved | errors.go:100-104 | with an empty goRoot every resolved frame is dropped |
| Errors.Err.Valid | errors.go:42-50 | the chain invariant: depth counts the links back to a node without predecessor, and only that origin holds a stack or a wrapped error (the definition; OnlyOriginCarriesStack states its consequence) |
| Errors.Err.Link | errors.go:168-172 | a link has the given message and predecessor, no stack, no wrapped error, and one more link to the origin |
| Errors.Err.NewErr | errors.go:179-186 | an origin holds the message, the wrapped error and the first 200 captured frames |
| Errors.Err.Prev | errors.go:141-144 | the predecessor; null exactly at the origin |
| Errors.Err.Inner | errors.go:146-149 | the wrapped error as is, nil when none; never a node; nil on every link |
| Errors.Err.Render | errors.go:61-137 | the rendering is the trace of the origin's stack under the chain's messages, newest first |
| Errors.Err.Error | errors.go:60-139 | the first call renders and caches; every later call returns the cached string, whatever the environment is then |
| Errors.WriteFrames | errors.go:75-135 | the stack loop writes exactly the trace of that stack and those messages |
| Errors.WriteFrame | errors.go:82-134 | one pass writes the record of the frame its counter resolves to, the placeholder for an unresolved counter, and nothing when the goRoot test or the filter drops the frame |
| Errors.Trace | errors.go:75-136 | the `buf.String()` the stack loop leaves: the records of the stack's frames, each paired with its message, in stack order, dropped frames writing nothing (the definition; TraceIsRecordsOfKeptFrames and DropRule state its consequences; Render, Error and WriteFrames are proved against it) |
| Errors.TraceStep | errors.go:76-134 | the trace of the first i+1 entries extends that of the first i by the record of entry i |
| Errors.Messages | errors.go:64-74 | the `messages` slice: one Display per node from this one back to the origin, newest first (the definition; MessagesAt and LinkExtendsChain state its consequences) |
| Errors.Origin | errors.go:67-68 | the node with no predecessor, reached after depth links; its stack is the one rendered |
| Errors.Display | errors.go:69-73 | a node's entry in the message list: its message, followed by " err:" and the wrapped error's text when it wraps one (the definition; MessagesAt states it per node) |
| Errors.MessagesAt | errors.go:67-74 | one message per node, the k-th from the k-th node back, with " err:" and the wrapped text where a node wraps an error |
| Errors.PairingRule | errors.go:76-81 | stack index `i` carries the message of the node `i` links after the origin, or "" past the newest node |
| Errors.OnlyOriginCarriesStack | errors.go:168-176 | every node but the origin has an empty stack and wraps nothing |
| Errors.LinkExtendsChain | errors.go:168-172 | a link shares its predecessor's origin and puts its own message in front |
| Errors.RenderedStackIsOrigins | errors.go:67-68 | every node of a chain renders the origin's stack |
| Errors.New | errors.go:152-154 | a fresh plain error with the given text, not a node |
| Errors.Errorf | errors.go:161-177 | the message is the format when there are no arguments; over a node it adds a link; over anything else, nil included, it builds an origin that wraps that value and keeps a prefix of at most 200 captured frames |
| Errors.GetInnerMost | errors.go:190-199 | for a node of any depth, what the origin wraps (nil included); any other value unchanged; never a node |
| LegacyErrors.Matches | error.go:13 | on a path without a line break, the pattern `.+?/src/(.+)` matches exactly when "/src/" occurs after at least one character with at least one after it (the definition; TrimSrc states its use) |
| LegacyErrors.FrameAt | error.go:56-83 | per program counter: the placeholder frame when unresolved, dropped under goRoot, else the trimmed file, line, shortened name and message (the definition; TraceIsRecordsOfKeptFrames states its consequences) |
| LegacyErrors.Record | error.go:61 | the record text "[file:line:func:msg]\n" that both Fprintf calls (lines 61 and 84) write (the definition; PlaceholderRecord instantiates it) |
| LegacyErrors.TrimSrc | error.go:69-72 | the path changes exactly when "/src/" occurs after at least one character with at least one after it; then it becomes what follows the first such occurrence |
| LegacyErrors.TraceIsRecordsOfKeptFrames | error.go:50-85 | at most one record per stack entry, in stack order; a frame is dropped exactly when it is resolved and its raw file starts with goRoot; a kept resolved frame is written with its trimmed file, line, shortened name and paired message |
| LegacyErrors.UnresolvedFrameRecord | error.go:56-62 | an unresolvable counter is never dropped and writes "[???:0:???:" + message + "]\n" |
| LegacyErrors.PlaceholderRecord | error.go:57-61 | the record of an unresolved frame is "[???:0:???:" + message + "]\n" |
| LegacyErrors.Err.Link | error.go:120-125 | a link has the given message and predecessor, no stack and no wrapped error |
| LegacyErrors.Err.NewErr | error.go:131-138 | an origin holds the message, the wrapped error and the first 200 captured frames |
| LegacyErrors.Err.Prev | error.go:92-94 | the predecessor; null exactly at the origin |
| LegacyErrors.Err.Inner | error.go:97-99 | the wrapped error as is, nil when none; never a node |
| LegacyErrors.Err.Render | error.go:35-87 | the rendering is the trace of the origin's stack under the chain's messages, newest first |
| LegacyErrors.Err.Error | error.go:34-89 | the first call renders and caches; every later call returns the cached string |
| LegacyErrors.Trace | error.go:49-86 | the `buf.String()` the stack loop leaves: the records of the stack's frames, each paired with its message, in stack order (the definition; TraceIsRecordsOfKeptFrames states its consequences; Render, Error and WriteFrames are proved against it) |
| LegacyErrors.TraceStep | error.go:50-84 | the trace of the first i+1 entries extends that of the first i by the record of entry i |
| LegacyErrors.WriteFrames | error.go:50-85 | the stack loop writes exactly the trace of that stack and those messages |
| LegacyErrors.WriteFrame | error.go:56-84 | one pass writes the record of the frame its counter resolves to, and nothing for a frame under goRoot |
| LegacyErrors.Err.Valid | error.go:16-24 | the chain invariant: depth counts the links back to a node without predecessor, and only that origin holds a stack or a wrapped error (the definition; OnlyOriginCarriesStack states its consequence) |
| LegacyErrors.Display | error.go:43-47 | a node's entry in the message list: its message, followed by " err:" and the wrapped error's text when it wraps one (the definition; MessagesAt states it per node) |
| LegacyErrors.Messages | error.go:37-48 | the `messages` slice: one Display per node from this one back to the origin, newest first (the definition; MessagesAt states its consequences) |
| LegacyErrors.Origin | error.go:41-42 | the node with no predecessor, reached after depth links; its stack is the one rendered |
| LegacyErrors.MessagesAt | error.go:41-48 | one message per node, the k-th from the k-th node back |
| LegacyErrors.PairingRule | error.go:50-55 | stack index `i` carries the message of the node `i` links after the origin, or "" past the newest node |
| LegacyErrors.OnlyOriginCarriesStack | error.go:120-128 | every node but the origin has an empty stack and wraps nothing |
| LegacyErrors.New | error.go:102-104 | a fresh plain error with the given text, not a node |
| LegacyErrors.Errorf | error.go:113-129 | a link over a node; otherwise an origin wrapping the value with at most 200 captured frames |
| Versions.TrimsAgree | errors.go:105-108 | when "/src/" first occurs after the start and something follows it, both versions cut the path at the same place |
| Versions.TrimsDifferAtLeadingSrc | error.go:69-72 | "/src/a/src/b" is kept whole by errors.go but becomes "b" under error.go |
| Versions.TrimsDifferAtTrailingSrc | errors.go:106-107 | "a/src/" becomes "" under errors.go but is kept by error.go |
| Versions.SameDropsWithoutFilter | errors.go:13 | started from a runtime GOROOT without `\` and with the filter set to nil, both versions drop exactly the same stack indices |
| Versions.DropsDifferOnBackslashRoot | error.go:14 | with GOROOT "\\" a frame in "/" is dropped by errors.go, which compares against the converted root "/", and kept by error.go |
| Scenarios.ExampleFunc1 | example.go:12-33 | an Errorf over nil and two over the chain give a two-link chain with messages newest first, the origin's captured stack, and GetInnerMost nil |
| Scenarios.ExampleFunc11 | example.go:43-70 | a wrapped sentinel is recovered by GetInnerMost on the origin itself (func22) and two links up (ExampleFunc11); the origin's entry in the chain's messages, its Display, carries " err:someUnexpected" |
| Scenarios.ErrorTwice | errors.go:136-138 | two Error() calls on a node return the same string, the first rendering |
| Scenarios.ClosureName | errors_test.go:11-13 | the closure "github.com/hanjm/errors.TestErrorf.func1" is shortened to "TestErrorf.func1" |

## Left out

- Runtime introspection is not modelled. `runtime.Callers`, `runtime.FuncForPC`, `FileLine`, `Name` and `runtime.GOROOT` are inputs: the stack, a resolver function and a string. `strings.Replace` on GOROOT (errors.go:13) is modelled only for the one-character replacement it is called with.
- `sync.Once` is modelled only as a write-once field for sequential callers. Its thread safety is not.
- `fmt.Sprintf` with arguments is a function parameter. Only the case with no arguments, where the format is the message, is modelled exactly. The `"%s err:%s"` message of a wrapping node is written out as concatenation.
- `errors.New` and other error types are a `StdError` class with its `Error()` text. What other error types do beyond that text is not modelled.
- A typed nil `*Err` passed as an error is not modelled: the error interface value is `Nil | Std | Chain`.
- Go's `newErr(msg)` followed by `newErr.stdError = err` is one constructor, `NewErr`, because a node's fields do not change once `Errorf` returns it.
- `bytes.Buffer` and its capacity are not modelled. `WriteFrames` appends each record as one string, the same bytes the source writes byte by byte and string by string.
- Strings are sequences of characters, not of bytes. Every delimiter searched for is ASCII, and an ASCII byte never occurs inside a multi-byte UTF-8 character, so the pieces cut out are the same.
- LegacyErrors.TrimSrc: Go's `.` in `.+?/src/(.+)` does not match a line break. The model reads the pattern as if the path has none.
- LegacyErrors.Matches: for the same reason, it holds on a path with a line break around "/src/" (such as "a\n/src/b"), where Go's pattern finds no match.
- `GetInner` is not part of either source file and is not modelled.
- example.go and errors_test.go only log. Their log output is not modelled, only the values they build.
