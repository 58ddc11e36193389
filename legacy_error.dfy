/**
  error.go: the older version of the same chain. It has the same nodes and
  the same message pairing, but it trims file paths with the regular
  expression `.+?/src/(.+)`, has no frame filter, writes "[..]\n" records,
  and offers no GetInnerMost.

  The runtime services are inputs: the stack, the resolver standing for
  runtime.FuncForPC, and runtime.GOROOT() as it is (line 14; no `\`
  replacement here).
*/
module LegacyErrors {
  import opened GoStrings
  import opened GoRuntime
  import opened Frames

  /** The literal part of the pattern on line 13 between the two groups of `.+`. */
  const Src: string := "/src/"

  /**
    The pattern `.+?/src/(.+)` matches: "/src/" occurs after at least one
    character and is followed by at least one. Go's `.` does not match a line
    break, so this is the pattern's reading on paths without one.
  */
  predicate Matches(file: string) {
    exists k :: 1 <= k && OccursAt(file, Src, k) && k + |Src| < |file|
  }

  /**
    The file-path normalisation (lines 69-72): on a match, the path becomes
    the capture group, i.e. what follows the first "/src/" at an index above 0
    (the lazy `.+?` stops there); otherwise it is kept whole.
  */
  function TrimSrc(file: string): (r: string)
    ensures r == file <==> !Matches(file)
    ensures r != file ==>
              exists k :: 1 <= k && OccursAt(file, Src, k) && k + |Src| < |file|
                          && (forall j :: 1 <= j < k ==> !OccursAt(file, Src, j))
                          && r == file[k + |Src|..]
  {
    if |file| == 0 then file
    else
      var k := IndexFrom(file, Src, 1);
      if k != -1 && k + |Src| < |file| then file[k + |Src|..] else file
  }

  /**
    The frame written for program counter `pc` with `message`, or None when it
    is dropped: only a resolved frame whose raw file starts with goRoot is
    dropped; an unresolvable counter prints as "???", 0, "???".
  */
  function FrameAt(resolve: Resolver, goRoot: string, pc: PC, message: string): Option<Frame> {
    match resolve(pc)
    case None => Some(Frame("???", 0, "???", message))
    case Some(loc) =>
      if goRoot <= loc.file then None
      else Some(Frame(TrimSrc(loc.file), loc.line, ShortFuncName(loc.funcName), message))
  }

  /** The record of a frame, as `fmt.Fprintf(buf, "[%s:%d:%s:%s]\n", ...)` writes it. */
  function Record(f: Frame): string {
    "[" + f.file + ":" + Itoa(f.line) + ":" + f.funcName + ":" + f.message + "]\n"
  }

  /** The record of a frame, or None for a dropped one. */
  function Formatted(f: Option<Frame>): Option<string> {
    match f
    case None => None
    case Some(frame) => Some(Record(frame))
  }

  /** The record of every raw stack index, each frame paired with its message. */
  function RecordsOf(resolve: Resolver, goRoot: string, stack: seq<PC>, messages: seq<string>): seq<Option<string>> {
    seq(|stack|, i requires 0 <= i < |stack| => Formatted(FrameAt(resolve, goRoot, stack[i], MessageFor(messages, i))))
  }

  /** The diagnostic string for `stack` and the newest-first `messages`. */
  function Trace(resolve: Resolver, goRoot: string, stack: seq<PC>, messages: seq<string>): string {
    Output(RecordsOf(resolve, goRoot, stack, messages))
  }

  /**
    The output is the concatenation, in stack order, of one record per frame
    that is not dropped, and the dropped frames are exactly the resolved ones
    under goRoot. A kept resolved frame is written with its normalised file
    and function name and the message its raw index is paired with.
  */
  lemma TraceIsRecordsOfKeptFrames(resolve: Resolver, goRoot: string, stack: seq<PC>, messages: seq<string>)
    ensures var rs := RecordsOf(resolve, goRoot, stack, messages);
            var ks := Kept(rs, |rs|);
            && |ks| <= |stack|
            && (forall k, l :: 0 <= k < l < |ks| ==> ks[k] < ks[l])
            && (forall i :: 0 <= i < |stack| ==>
                  (i !in ks <==> resolve(stack[i]).Some? && goRoot <= resolve(stack[i]).value.file))
            && (forall i :: 0 <= i < |stack| && resolve(stack[i]).Some? && i in ks ==>
                  var loc := resolve(stack[i]).value;
                  rs[i] == Some(Record(Frame(TrimSrc(loc.file), loc.line, ShortFuncName(loc.funcName), MessageFor(messages, i)))))
            && |Present(rs, |rs|)| == |ks|
            && (forall k :: 0 <= k < |ks| ==> rs[ks[k]] == Some(Present(rs, |rs|)[k]))
            && Trace(resolve, goRoot, stack, messages) == Join(Present(rs, |rs|))
  {
    var rs := RecordsOf(resolve, goRoot, stack, messages);
    assert |rs| == |stack|;
    OutputIsKeptRecords(rs);
  }

  /** An unresolvable program counter is never dropped and yields the placeholder record. */
  lemma UnresolvedFrameRecord(resolve: Resolver, goRoot: string, stack: seq<PC>, messages: seq<string>, i: nat)
    requires i < |stack| && resolve(stack[i]).None?
    ensures var rs := RecordsOf(resolve, goRoot, stack, messages);
            && i in Kept(rs, |rs|)
            && rs[i] == Some("[???:0:???:" + MessageFor(messages, i) + "]\n")
  {
    KeptIndices(RecordsOf(resolve, goRoot, stack, messages), |stack|);
    PlaceholderRecord(MessageFor(messages, i));
  }

  /** The record of an unresolved frame. */
  lemma PlaceholderRecord(m: string)
    ensures Record(Frame("???", 0, "???", m)) == "[???:0:???:" + m + "]\n"
  {
    assert Itoa(0) == "0";
    assert "[" + "???" + ":" + "0" + ":" + "???" + ":" == "[???:0:???:";
  }

  /** The error interface value: nil, a plain error, or a chain node. */
  datatype ErrorValue = Nil | Std(std: StdError) | Chain(err: Err)

  /** The `error` a `stdError` field holds. */
  function AsError(std: Option<StdError>): (r: ErrorValue)
    ensures !r.Chain?
  {
    match std
    case None => Nil
    case Some(s) => Std(s)
  }

  /** A chain node (lines 16-24). Only the cached rendering changes after construction. */
  class Err {
    const message: string
    const stdError: Option<StdError>
    const prevErr: Err?
    const stack: seq<PC>
    /** `fullMessage` together with `once`: None until Error() has run. */
    var fullMessage: Option<string>
    /** Number of links from this node to the origin; it makes chain walks terminate. */
    ghost const depth: nat

    /** The chain is finite and acyclic, and only the origin holds a stack or a wrapped error. */
    ghost predicate Valid()
      decreases depth
    {
      if prevErr == null then depth == 0
      else depth == prevErr.depth + 1 && stack == [] && stdError.None? && prevErr.Valid()
    }

    /** The link node Errorf builds over an existing node (lines 120-125). */
    constructor Link(msg: string, prev: Err)
      requires prev.Valid()
      ensures Valid() && depth == prev.depth + 1
      ensures message == msg && prevErr == prev && stdError.None? && stack == [] && fullMessage.None?
    {
      message := msg;
      stdError := None;
      prevErr := prev;
      stack := [];
      fullMessage := None;
      depth := prev.depth + 1;
    }

    /** new_ (lines 131-138), with the wrapped error Errorf then stores (line 127). */
    constructor NewErr(msg: string, std: Option<StdError>, callers: seq<PC>)
      ensures Valid() && depth == 0
      ensures message == msg && prevErr == null && stdError == std && fullMessage.None?
      ensures stack == CapturedStack(callers)
    {
      message := msg;
      stdError := std;
      prevErr := null;
      stack := CapturedStack(callers);
      fullMessage := None;
      depth := 0;
    }

    /** Prev: the node this one was built from; null exactly at the origin. */
    function Prev(): (p: Err?)
      requires Valid()
      ensures p == null <==> depth == 0
      ensures p != null ==> p.Valid() && p.depth + 1 == depth
    {
      prevErr
    }

    /** Inner: the wrapped error, never itself a chain node; nil except at an origin. */
    function Inner(): (r: ErrorValue)
      requires Valid()
      ensures !r.Chain?
      ensures depth > 0 ==> r.Nil?
      ensures stdError.Some? ==> r == Std(stdError.value)
      ensures stdError.None? ==> r == Nil
    {
      AsError(stdError)
    }

    /**
      The rendering Error() runs under its once guard (lines 35-87): the
      messages along the chain newest-first and the origin's stack, then one
      record per frame outside goRoot.
    */
    method Render(resolve: Resolver, goRoot: string) returns (s: string)
      requires Valid()
      ensures s == Trace(resolve, goRoot, Origin(this).stack, Messages(this))
    {
      var messages: seq<string> := [];
      var stack: seq<PC> := [];
      var prev: Err? := this;
      while prev != null
        invariant prev != null ==> prev.Valid() && Origin(prev) == Origin(this)
        invariant prev != null ==> messages + Messages(prev) == Messages(this)
        invariant prev == null ==> stack == Origin(this).stack && messages == Messages(this)
        decreases if prev == null then 0 else prev.depth + 1
      {
        stack := prev.stack;
        ghost var seen := messages;
        if prev.stdError.Some? {
          messages := messages + [prev.message + " err:" + prev.stdError.value.Error()];
        } else {
          messages := messages + [prev.message];
        }
        assert messages == seen + [Display(prev)];
        MessagesStep(prev, seen);
        prev := prev.prevErr;
      }
      s := WriteFrames(resolve, goRoot, stack, messages);
    }

    /**
      Error (lines 34-89): renders at most once per node; every later call
      returns the cached string whatever the resolver or goRoot then are.
    */
    method Error(resolve: Resolver, goRoot: string) returns (s: string)
      requires Valid()
      modifies this`fullMessage
      ensures old(fullMessage).Some? ==> s == old(fullMessage).value
      ensures old(fullMessage).None? ==> s == Trace(resolve, goRoot, Origin(this).stack, Messages(this))
      ensures fullMessage == Some(s)
    {
      if fullMessage.None? {
        var rendered := Render(resolve, goRoot);
        fullMessage := Some(rendered);
      }
      s := fullMessage.value;
    }
  }

  /**
    The loop over the stack inside Error() (lines 50-85): each raw index
    takes its message and writes the record of its frame.
  */
  method WriteFrames(resolve: Resolver, goRoot: string, stack: seq<PC>, messages: seq<string>) returns (s: string)
    ensures s == Trace(resolve, goRoot, stack, messages)
  {
    ghost var rs := RecordsOf(resolve, goRoot, stack, messages);
    assert |rs| == |stack|;
    var buf := "";
    for i := 0 to |stack|
      invariant buf == Emitted(rs, i)
    {
      var message := "";
      var j := |messages| - 1 - i;
      if j > -1 {
        message := messages[j];
      }
      assert message == MessageFor(messages, i);
      var record := WriteFrame(resolve, goRoot, stack[i], message);
      TraceStep(resolve, goRoot, stack, messages, i);
      buf := buf + record;
    }
    s := buf;
  }

  /** The trace of the first `i + 1` entries extends that of the first `i` by the record of entry `i`. */
  lemma TraceStep(resolve: Resolver, goRoot: string, stack: seq<PC>, messages: seq<string>, i: nat)
    requires i < |stack|
    ensures Emitted(RecordsOf(resolve, goRoot, stack, messages), i + 1)
            == Emitted(RecordsOf(resolve, goRoot, stack, messages), i)
               + Written(Formatted(FrameAt(resolve, goRoot, stack[i], MessageFor(messages, i))))
  {
  }

  /**
    One pass of that loop (lines 56-84): resolves the program counter and
    writes the frame's record, or nothing when the frame lies under goRoot.
  */
  method WriteFrame(resolve: Resolver, goRoot: string, pc: PC, message: string) returns (record: string)
    ensures record == Written(Formatted(FrameAt(resolve, goRoot, pc, message)))
  {
    var funcForPc := resolve(pc);
    if funcForPc.None? {
      return Record(Frame("???", 0, "???", message));
    }
    var file, line := funcForPc.value.file, funcForPc.value.line;
    if goRoot <= file {
      return "";
    }
    file := TrimSrc(file);
    var funcName := ShortFuncName(funcForPc.value.funcName);
    record := Record(Frame(file, line, funcName, message));
  }

  /** The node `k` links back from `e`. */
  function Ancestor(e: Err, k: nat): (a: Err)
    requires e.Valid() && k <= e.depth
    ensures a.Valid() && a.depth == e.depth - k
    decreases k
  {
    if k == 0 then e else Ancestor(e.prevErr, k - 1)
  }

  /** The origin of the chain ending at `e`: the node without a predecessor. */
  function Origin(e: Err): (o: Err)
    requires e.Valid()
    ensures o.Valid() && o.prevErr == null && o.depth == 0
    ensures o == Ancestor(e, e.depth)
    decreases e.depth
  {
    if e.prevErr == null then e else Origin(e.prevErr)
  }

  /** The message a node contributes: its own, followed by " err:" and the wrapped error's text when it has one. */
  function Display(n: Err): string {
    if n.stdError.Some? then n.message + " err:" + n.stdError.value.Error() else n.message
  }

  /** The messages along the chain from `e` back to its origin, newest first. */
  function Messages(e: Err): seq<string>
    requires e.Valid()
    decreases e.depth
  {
    [Display(e)] + if e.prevErr == null then [] else Messages(e.prevErr)
  }

  /** Taking one node's message off the front of the rest of the chain's messages. */
  lemma MessagesStep(e: Err, seen: seq<string>)
    requires e.Valid()
    ensures e.prevErr != null ==> (seen + [Display(e)]) + Messages(e.prevErr) == seen + Messages(e)
    ensures e.prevErr == null ==> seen + [Display(e)] == seen + Messages(e)
  {
    if e.prevErr != null {
      assert Messages(e) == [Display(e)] + Messages(e.prevErr);
    }
  }

  /** One message per node of the chain, the `k`-th from the `k`-th node back. */
  lemma {:induction false} MessagesAt(e: Err)
    requires e.Valid()
    ensures |Messages(e)| == e.depth + 1
    ensures forall k :: 0 <= k <= e.depth ==> Messages(e)[k] == Display(Ancestor(e, k))
    decreases e.depth
  {
    if e.prevErr != null {
      MessagesAt(e.prevErr);
      assert forall k :: 1 <= k <= e.depth ==> Ancestor(e, k) == Ancestor(e.prevErr, k - 1);
    }
  }

  /**
    The pairing rule: raw stack index `i` is paired with the node `i` links
    after the origin (index 0 with the origin itself), and with "" once `i`
    passes the newest node.
  */
  lemma PairingRule(e: Err, i: nat)
    requires e.Valid()
    ensures i <= e.depth ==> MessageFor(Messages(e), i) == Display(Ancestor(e, e.depth - i))
    ensures i > e.depth ==> MessageFor(Messages(e), i) == ""
  {
    MessagesAt(e);
  }

  /** Every node but the origin has an empty stack and no wrapped error. */
  lemma OnlyOriginCarriesStack(e: Err, k: nat)
    requires e.Valid() && k < e.depth
    ensures Ancestor(e, k).stack == [] && Ancestor(e, k).stdError.None?
    ensures Ancestor(e, k) != Origin(e)
  {
  }

  /** New: a plain error with text `msg`, not a chain node. */
  method New(msg: string) returns (r: ErrorValue)
    ensures r.Std? && fresh(r.std) && r.std.Error() == msg
  {
    var std := new StdError(msg);
    r := Std(std);
  }

  /**
    Errorf (lines 113-129). The message is `format` itself when no arguments
    are given, else what `sprintf` makes of them. Over a chain node it adds a
    link; over anything else (nil included) it builds an origin that wraps
    that value and keeps the first 200 frames of `callers`.
  */
  method Errorf<A>(err: ErrorValue, format: string, a: seq<A>, sprintf: (string, seq<A>) -> string, callers: seq<PC>)
    returns (r: ErrorValue)
    requires err.Chain? ==> err.err.Valid()
    ensures r.Chain? && fresh(r.err) && r.err.Valid() && r.err.fullMessage.None?
    ensures r.err.message == if |a| == 0 then format else sprintf(format, a)
    ensures err.Chain? ==> r.err.prevErr == err.err && r.err.stack == [] && r.err.stdError.None?
    ensures !err.Chain? ==> r.err.prevErr == null && r.err.Inner() == err
    ensures !err.Chain? ==> r.err.stack <= callers && |r.err.stack| <= MaxStackDepth
    ensures !err.Chain? ==> r.err.stack == CapturedStack(callers)
  {
    var msg := if |a| == 0 then format else sprintf(format, a);
    if err.Chain? {
      var link := new Err.Link(msg, err.err);
      return Chain(link);
    }
    var std := if err.Std? then Some(err.std) else None;
    var origin := new Err.NewErr(msg, std, callers);
    return Chain(origin);
  }
}
