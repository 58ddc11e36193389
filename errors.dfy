/**
  errors.go: a chain of annotation nodes over an optional plain error, whose
  origin keeps the stack captured where the failure was first observed, and
  whose Error() renders chain and stack once into a cached diagnostic string.

  The runtime services are inputs: the stack (a `seq<PC>`), the resolver
  standing for runtime.FuncForPC, and the string runtime.GOROOT() returns;
  InitialSettings turns its `\` into `/`, as line 13 does at package
  initialisation.
*/
module Errors {
  import opened GoStrings
  import opened GoRuntime
  import opened Frames

  /** The frame filter (lines 31-34): true excludes the frame from the output. */
  type FilterFunc = (string, string) -> bool

  /** The package-level variables `goRoot` and `defaultFilterFunc`; None is a nil filter. */
  datatype Settings = Settings(goRoot: string, filter: Option<FilterFunc>)

  /** The marker after which a file path is kept. */
  const Src: string := "/src/"

  /** The default filter: it excludes frames whose (trimmed) file lies under "github.com". */
  function DefaultFilterFunc(fileName: string, funcName: string): (filtered: bool)
    ensures filtered <==> |fileName| >= 10 && fileName[..10] == "github.com"
  {
    "github.com" <= fileName
  }

  /**
    The settings a program starts with, given what runtime.GOROOT() returns:
    goRoot is that path with every `\` turned into `/`, and the default filter
    is installed.
  */
  function InitialSettings(runtimeGoRoot: string): (s: Settings)
    ensures s.goRoot == ReplaceChar(runtimeGoRoot, '\\', '/') && '\\' !in s.goRoot
    ensures '\\' !in runtimeGoRoot ==> s.goRoot == runtimeGoRoot
    ensures s.filter.Some?
    ensures forall file, funcName :: s.filter.value(file, funcName) == DefaultFilterFunc(file, funcName)
  {
    ReplaceCharRemoves(runtimeGoRoot, '\\', '/');
    ReplaceCharAbsent(runtimeGoRoot, '\\', '/');
    Settings(ReplaceChar(runtimeGoRoot, '\\', '/'), Some(DefaultFilterFunc))
  }

  /** SetFilterFunc: replaces the filter (a nil `f` switches filtering off) and nothing else. */
  function SetFilterFunc(s: Settings, f: Option<FilterFunc>): (r: Settings)
    ensures r.goRoot == s.goRoot && r.filter == f
  {
    s.(filter := f)
  }

  /** The settings' filter is set and excludes this frame. */
  predicate Filtered(s: Settings, file: string, funcName: string) {
    s.filter.Some? && s.filter.value(file, funcName)
  }

  /**
    The file-path normalisation: when "/src/" first occurs at an index above 0,
    the file becomes what follows it; otherwise (no occurrence, or the path
    starts with "/src/") it is kept whole.
  */
  function TrimSrc(file: string): (r: string)
    ensures r == file <==> (forall k :: !OccursAt(file, Src, k)) || OccursAt(file, Src, 0)
    ensures r != file ==>
              exists k :: 0 < k && OccursAt(file, Src, k) && (forall j :: 0 <= j < k ==> !OccursAt(file, Src, j))
                          && r == file[k + |Src|..]
  {
    var idx := Index(file, Src);
    if idx > 0 then file[idx + |Src|..] else file
  }

  /** The runtime resolver and the package settings a rendering uses. */
  datatype Env = Env(resolve: Resolver, settings: Settings)

  /**
    The frame written for program counter `pc` with `message`, or None when
    it is dropped. An unresolvable counter is never dropped and prints as
    "???", 0, "???". A resolved one is dropped when its raw file lies under
    goRoot, or when the filter, given the normalised file and function name,
    excludes it.
  */
  function FrameAt(env: Env, pc: PC, message: string): Option<Frame> {
    match env.resolve(pc)
    case None => Some(Frame("???", 0, "???", message))
    case Some(loc) =>
      if env.settings.goRoot <= loc.file then None
      else
        var file := TrimSrc(loc.file);
        var funcName := ShortFuncName(loc.funcName);
        if Filtered(env.settings, file, funcName) then None
        else Some(Frame(file, loc.line, funcName, message))
  }

  /** The record of a frame: "\n\t[", a space, file, ':', line, a space, function, ':', message, ']'. */
  function Record(f: Frame): string {
    "\n\t[" + " " + f.file + ":" + Itoa(f.line) + " " + f.funcName + ":" + f.message + "]"
  }

  /** The record of a frame, or None for a dropped one. */
  function Formatted(f: Option<Frame>): Option<string> {
    match f
    case None => None
    case Some(frame) => Some(Record(frame))
  }

  /** The record of every raw stack index, each frame paired with its message. */
  function RecordsOf(env: Env, stack: seq<PC>, messages: seq<string>): seq<Option<string>> {
    seq(|stack|, i requires 0 <= i < |stack| => Formatted(FrameAt(env, stack[i], MessageFor(messages, i))))
  }

  /** The diagnostic string for `stack` and the newest-first `messages`. */
  function Trace(env: Env, stack: seq<PC>, messages: seq<string>): string {
    Output(RecordsOf(env, stack, messages))
  }

  /**
    The output is the concatenation, in stack order, of one record per frame
    that is not dropped; so it holds at most |stack| records, and a dropped
    frame still uses up its raw index and so its message.
  */
  lemma TraceIsRecordsOfKeptFrames(env: Env, stack: seq<PC>, messages: seq<string>)
    ensures var rs := RecordsOf(env, stack, messages);
            var ks := Kept(rs, |rs|);
            && |ks| <= |stack|
            && (forall k, l :: 0 <= k < l < |ks| ==> ks[k] < ks[l])
            && (forall i :: 0 <= i < |stack| ==> (i in ks <==> FrameAt(env, stack[i], MessageFor(messages, i)).Some?))
            && |Present(rs, |rs|)| == |ks|
            && (forall k :: 0 <= k < |ks| ==> rs[ks[k]] == Some(Present(rs, |rs|)[k]))
            && Trace(env, stack, messages) == Join(Present(rs, |rs|))
  {
    OutputIsKeptRecords(RecordsOf(env, stack, messages));
  }

  /**
    Which frames are dropped: exactly the resolved ones whose raw file starts
    with goRoot or which the filter excludes after normalisation. A kept frame
    is written with its normalised file and function name, and the message its
    raw index is paired with.
  */
  lemma DropRule(env: Env, stack: seq<PC>, messages: seq<string>, i: nat)
    requires i < |stack|
    ensures var rs := RecordsOf(env, stack, messages);
            && (i !in Kept(rs, |rs|) <==>
                 match env.resolve(stack[i])
                 case None => false
                 case Some(loc) =>
                   env.settings.goRoot <= loc.file
                   || Filtered(env.settings, TrimSrc(loc.file), ShortFuncName(loc.funcName)))
            && (env.resolve(stack[i]).Some? && i in Kept(rs, |rs|) ==>
                 var loc := env.resolve(stack[i]).value;
                 rs[i] == Some(Record(Frame(TrimSrc(loc.file), loc.line, ShortFuncName(loc.funcName), MessageFor(messages, i)))))
  {
    KeptIndices(RecordsOf(env, stack, messages), |stack|);
  }

  /** An unresolvable program counter is never dropped and yields the placeholder record. */
  lemma UnresolvedFrameRecord(env: Env, stack: seq<PC>, messages: seq<string>, i: nat)
    requires i < |stack| && env.resolve(stack[i]).None?
    ensures var rs := RecordsOf(env, stack, messages);
            && i in Kept(rs, |rs|)
            && rs[i] == Some("\n\t[ ???:0 ???:" + MessageFor(messages, i) + "]")
  {
    KeptIndices(RecordsOf(env, stack, messages), |stack|);
    PlaceholderRecord(MessageFor(messages, i));
  }

  /** The record of an unresolved frame. */
  lemma PlaceholderRecord(m: string)
    ensures Record(Frame("???", 0, "???", m)) == "\n\t[ ???:0 ???:" + m + "]"
  {
    assert Itoa(0) == "0";
    assert "\n\t[" + " " + "???" + ":" + "0" + " " + "???" + ":" == "\n\t[ ???:0 ???:";
  }

  /** With an empty goRoot every resolved frame lies "under" it, so only placeholder records remain. */
  lemma EmptyRootKeepsOnlyUnresolved(env: Env, stack: seq<PC>, messages: seq<string>)
    requires env.settings.goRoot == ""
    ensures var rs := RecordsOf(env, stack, messages);
            forall i :: 0 <= i < |stack| && i in Kept(rs, |rs|) ==> env.resolve(stack[i]).None?
  {
    KeptIndices(RecordsOf(env, stack, messages), |stack|);
  }

  /** The error interface value: nil, a plain error, or a chain node. */
  datatype ErrorValue = Nil | Std(std: StdError) | Chain(err: Err)

  /** The `error` a `stdError` field holds. */
  function AsError(std: Option<StdError>): (r: ErrorValue)
    ensures !r.Chain?
  {
    match std
    case None => Nil
    case Some(s) => Std(s)
  }

  /** A chain node (lines 42-50). Only the cached rendering changes after construction. */
  class Err {
    const message: string
    const stdError: Option<StdError>
    const prevErr: Err?
    const stack: seq<PC>
    /** `fullMessage` together with `once`: None until Error() has run. */
    var fullMessage: Option<string>
    /** Number of links from this node to the origin; it makes chain walks terminate. */
    ghost const depth: nat

    /** The chain is finite and acyclic, and only the origin holds a stack or a wrapped error. */
    ghost predicate Valid()
      decreases depth
    {
      if prevErr == null then depth == 0
      else depth == prevErr.depth + 1 && stack == [] && stdError.None? && prevErr.Valid()
    }

    /** The link node Errorf builds over an existing node (lines 169-172). */
    constructor Link(msg: string, prev: Err)
      requires prev.Valid()
      ensures Valid() && depth == prev.depth + 1
      ensures message == msg && prevErr == prev && stdError.None? && stack == [] && fullMessage.None?
    {
      message := msg;
      stdError := None;
      prevErr := prev;
      stack := [];
      fullMessage := None;
      depth := prev.depth + 1;
    }

    /** newErr (lines 179-186), with the wrapped error Errorf then stores (line 175). */
    constructor NewErr(msg: string, std: Option<StdError>, callers: seq<PC>)
      ensures Valid() && depth == 0
      ensures message == msg && prevErr == null && stdError == std && fullMessage.None?
      ensures stack == CapturedStack(callers)
    {
      message := msg;
      stdError := std;
      prevErr := null;
      stack := CapturedStack(callers);
      fullMessage := None;
      depth := 0;
    }

    /** Prev: the node this one was built from; null exactly at the origin. */
    function Prev(): (p: Err?)
      requires Valid()
      ensures p == null <==> depth == 0
      ensures p != null ==> p.Valid() && p.depth + 1 == depth
    {
      prevErr
    }

    /** Inner: the wrapped error, never itself a chain node; nil except at an origin. */
    function Inner(): (r: ErrorValue)
      requires Valid()
      ensures !r.Chain?
      ensures depth > 0 ==> r.Nil?
      ensures stdError.Some? ==> r == Std(stdError.value)
      ensures stdError.None? ==> r == Nil
    {
      AsError(stdError)
    }

    /**
      The rendering Error() runs under its once guard (lines 62-136): the
      messages along the chain newest-first and the origin's stack, then one
      record per surviving frame.
    */
    method Render(resolve: Resolver, settings: Settings) returns (s: string)
      requires Valid()
      ensures s == Trace(Env(resolve, settings), Origin(this).stack, Messages(this))
    {
      var messages: seq<string> := [];
      var stack: seq<PC> := [];
      var prev: Err? := this;
      while prev != null
        invariant prev != null ==> prev.Valid() && Origin(prev) == Origin(this)
        invariant prev != null ==> messages + Messages(prev) == Messages(this)
        invariant prev == null ==> stack == Origin(this).stack && messages == Messages(this)
        decreases if prev == null then 0 else prev.depth + 1
      {
        stack := prev.stack;
        ghost var seen := messages;
        if prev.stdError.Some? {
          messages := messages + [prev.message + " err:" + prev.stdError.value.Error()];
        } else {
          messages := messages + [prev.message];
        }
        assert messages == seen + [Display(prev)];
        MessagesStep(prev, seen);
        prev := prev.prevErr;
      }
      s := WriteFrames(resolve, settings, stack, messages);
    }

    /**
      Error (lines 60-139): renders at most once per node; every later call
      returns the cached string whatever the resolver or settings then are.
    */
    method Error(resolve: Resolver, settings: Settings) returns (s: string)
      requires Valid()
      modifies this`fullMessage
      ensures old(fullMessage).Some? ==> s == old(fullMessage).value
      ensures old(fullMessage).None? ==> s == Trace(Env(resolve, settings), Origin(this).stack, Messages(this))
      ensures fullMessage == Some(s)
    {
      if fullMessage.None? {
        var rendered := Render(resolve, settings);
        fullMessage := Some(rendered);
      }
      s := fullMessage.value;
    }
  }

  /**
    The loop over the stack inside Error() (lines 75-135): each raw index
    takes its message and writes the record of its frame.
  */
  method WriteFrames(resolve: Resolver, settings: Settings, stack: seq<PC>, messages: seq<string>) returns (s: string)
    ensures s == Trace(Env(resolve, settings), stack, messages)
  {
    ghost var rs := RecordsOf(Env(resolve, settings), stack, messages);
    assert |rs| == |stack|;
    var buf := "";
    for i := 0 to |stack|
      invariant buf == Emitted(rs, i)
    {
      var message := "";
      var j := |messages| - 1 - i;
      if j > -1 {
        message := messages[j];
      }
      assert message == MessageFor(messages, i);
      var record := WriteFrame(resolve, settings, stack[i], message);
      TraceStep(Env(resolve, settings), stack, messages, i);
      buf := buf + record;
    }
    s := buf;
  }

  /** The trace of the first `i + 1` entries extends that of the first `i` by the record of entry `i`. */
  lemma TraceStep(env: Env, stack: seq<PC>, messages: seq<string>, i: nat)
    requires i < |stack|
    ensures Emitted(RecordsOf(env, stack, messages), i + 1) == Emitted(RecordsOf(env, stack, messages), i) + Written(Formatted(FrameAt(env, stack[i], MessageFor(messages, i))))
  {
  }

  /**
    One pass of that loop (lines 82-134): resolves the program counter and
    writes the frame's record: the placeholder for an unresolved counter
    (line 98 continues after writing it), and nothing when the goRoot test
    (line 103) or the filter (line 121) drops the frame.
  */
  method WriteFrame(resolve: Resolver, settings: Settings, pc: PC, message: string) returns (record: string)
    ensures record == Written(Formatted(FrameAt(Env(resolve, settings), pc, message)))
  {
    var funcForPc := resolve(pc);
    if funcForPc.None? {
      return Record(Frame("???", 0, "???", message));
    }
    var file, line := funcForPc.value.file, funcForPc.value.line;
    if settings.goRoot <= file {
      return "";
    }
    file := TrimSrc(file);
    var funcName := ShortFuncName(funcForPc.value.funcName);
    if settings.filter.Some? && settings.filter.value(file, funcName) {
      return "";
    }
    record := Record(Frame(file, line, funcName, message));
  }

  /** The node `k` links back from `e`. */
  function Ancestor(e: Err, k: nat): (a: Err)
    requires e.Valid() && k <= e.depth
    ensures a.Valid() && a.depth == e.depth - k
    decreases k
  {
    if k == 0 then e else Ancestor(e.prevErr, k - 1)
  }

  /** The origin of the chain ending at `e`: the node without a predecessor. */
  function Origin(e: Err): (o: Err)
    requires e.Valid()
    ensures o.Valid() && o.prevErr == null && o.depth == 0
    ensures o == Ancestor(e, e.depth)
    decreases e.depth
  {
    if e.prevErr == null then e else Origin(e.prevErr)
  }

  /** The message a node contributes: its own, followed by " err:" and the wrapped error's text when it has one. */
  function Display(n: Err): string {
    if n.stdError.Some? then n.message + " err:" + n.stdError.value.Error() else n.message
  }

  /** The messages along the chain from `e` back to its origin, newest first. */
  function Messages(e: Err): seq<string>
    requires e.Valid()
    decreases e.depth
  {
    [Display(e)] + if e.prevErr == null then [] else Messages(e.prevErr)
  }

  /** Taking one node's message off the front of the rest of the chain's messages. */
  lemma MessagesStep(e: Err, seen: seq<string>)
    requires e.Valid()
    ensures e.prevErr != null ==> (seen + [Display(e)]) + Messages(e.prevErr) == seen + Messages(e)
    ensures e.prevErr == null ==> seen + [Display(e)] == seen + Messages(e)
  {
    if e.prevErr != null {
      assert Messages(e) == [Display(e)] + Messages(e.prevErr);
    }
  }

  /** One message per node of the chain, the `k`-th from the `k`-th node back. */
  lemma {:induction false} MessagesAt(e: Err)
    requires e.Valid()
    ensures |Messages(e)| == e.depth + 1
    ensures forall k :: 0 <= k <= e.depth ==> Messages(e)[k] == Display(Ancestor(e, k))
    decreases e.depth
  {
    if e.prevErr != null {
      MessagesAt(e.prevErr);
      assert forall k :: 1 <= k <= e.depth ==> Ancestor(e, k) == Ancestor(e.prevErr, k - 1);
    }
  }

  /**
    The pairing rule: raw stack index `i` is paired with the node `i` links
    after the origin (index 0 with the origin itself), and with "" once `i`
    passes the newest node.
  */
  lemma PairingRule(e: Err, i: nat)
    requires e.Valid()
    ensures i <= e.depth ==> MessageFor(Messages(e), i) == Display(Ancestor(e, e.depth - i))
    ensures i > e.depth ==> MessageFor(Messages(e), i) == ""
  {
    MessagesAt(e);
  }

  /** Every node but the origin has an empty stack and no wrapped error. */
  lemma OnlyOriginCarriesStack(e: Err, k: nat)
    requires e.Valid() && k < e.depth
    ensures Ancestor(e, k).stack == [] && Ancestor(e, k).stdError.None?
    ensures Ancestor(e, k) != Origin(e)
  {
  }

  /** A link shares its predecessor's origin and adds its own message in front. */
  lemma LinkExtendsChain(l: Err)
    requires l.Valid() && l.prevErr != null
    ensures Origin(l) == Origin(l.prevErr)
    ensures Messages(l) == [Display(l)] + Messages(l.prevErr)
  {
  }

  /** The frames of the captured stack are rendered for every node of the chain. */
  lemma RenderedStackIsOrigins(e: Err, k: nat)
    requires e.Valid() && k <= e.depth
    ensures Origin(Ancestor(e, k)) == Origin(e)
    decreases k
  {
    if k > 0 {
      RenderedStackIsOrigins(e.prevErr, k - 1);
    }
  }

  /** New: a plain error with text `msg`, not a chain node. */
  method New(msg: string) returns (r: ErrorValue)
    ensures r.Std? && fresh(r.std) && r.std.Error() == msg
  {
    var std := new StdError(msg);
    r := Std(std);
  }

  /**
    Errorf (lines 161-177). The message is `format` itself when no arguments
    are given, else what `sprintf` makes of them. Over a chain node it adds a
    link; over anything else (nil included) it builds an origin that wraps
    that value and keeps the first 200 frames of `callers`, the stack above
    the three frames runtime.Callers skips.
  */
  method Errorf<A>(err: ErrorValue, format: string, a: seq<A>, sprintf: (string, seq<A>) -> string, callers: seq<PC>)
    returns (r: ErrorValue)
    requires err.Chain? ==> err.err.Valid()
    ensures r.Chain? && fresh(r.err) && r.err.Valid() && r.err.fullMessage.None?
    ensures r.err.message == if |a| == 0 then format else sprintf(format, a)
    ensures err.Chain? ==> r.err.prevErr == err.err && r.err.stack == [] && r.err.stdError.None?
    ensures !err.Chain? ==> r.err.prevErr == null && r.err.Inner() == err
    ensures !err.Chain? ==> r.err.stack <= callers && |r.err.stack| <= MaxStackDepth
    ensures !err.Chain? ==> r.err.stack == CapturedStack(callers)
  {
    var msg := if |a| == 0 then format else sprintf(format, a);
    if err.Chain? {
      var link := new Err.Link(msg, err.err);
      return Chain(link);
    }
    var std := if err.Std? then Some(err.std) else None;
    var origin := new Err.NewErr(msg, std, callers);
    return Chain(origin);
  }

  /**
    GetInnerMost (lines 190-199): for a chain node, the error its origin
    wraps (nil when the origin wrapped nil), however long the chain; any other
    value is returned unchanged.
  */
  method GetInnerMost(err: ErrorValue) returns (r: ErrorValue)
    requires err.Chain? ==> err.err.Valid()
    ensures err.Chain? ==> r == Origin(err.err).Inner()
    ensures !err.Chain? ==> r == err
    ensures !r.Chain?
  {
    if err.Chain? {
      var innerMost := Nil;
      var prev: Err? := err.err;
      while prev != null
        invariant prev != null ==> prev.Valid() && Origin(prev) == Origin(err.err)
        invariant prev == null ==> innerMost == Origin(err.err).Inner()
        decreases if prev == null then 0 else prev.depth + 1
      {
        innerMost := AsError(prev.stdError);
        prev := prev.prevErr;
      }
      return innerMost;
    }
    return err;
  }
}
