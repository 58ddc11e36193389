/**
  The call patterns of example.go and errors_test.go, against the errors.go
  model: a chain built bottom-up by three Errorf calls, the sentinel-error
  pattern GetInnerMost serves, repeated Error() calls, and the closure names the
  function-name rule exists for.

  `sprintfS` and `sprintfI` stand for fmt.Sprintf with string and int
  arguments.
*/
module Scenarios {
  import opened GoRuntime
  import opened Frames
  import opened Errors

  /**
    ExampleFunc1 (example.go:12-33): func3 starts the chain over nil, func2
    and ExampleFunc1 each add a link. The rendering pairs the origin's
    message with the innermost frame, and the chain wraps no plain error.
  */
  method ExampleFunc1(sprintfS: (string, seq<string>) -> string, sprintfI: (string, seq<int>) -> string, callers: seq<PC>)
    returns (err: ErrorValue, innerMost: ErrorValue)
    ensures err.Chain? && err.err.Valid() && err.err.depth == 2
    ensures Messages(err.err) == [sprintfS("[%s] 123", ["1"]), sprintfI("i=%d", [3]), "unexpected param"]
    ensures Origin(err.err).stack == CapturedStack(callers)
    ensures innerMost == Nil
  {
    var e3 := Errorf(Nil, "unexpected param", [], sprintfI, callers);
    var e2 := Errorf(e3, "i=%d", [3], sprintfI, callers);
    err := Errorf(e2, "[%s] 123", ["1"], sprintfS, callers);
    LinkExtendsChain(err.err);
    LinkExtendsChain(e2.err);
    innerMost := GetInnerMost(err);
  }

  /**
    ExampleFunc11 (example.go:43-70): func33 wraps the sentinel built by New;
    GetInnerMost recovers that very sentinel both on the origin itself (func22)
    and two links up (ExampleFunc11). The origin's message stays "unexpected
    param"; its entry in Messages (its Display) carries the sentinel's text.
  */
  method ExampleFunc11(sprintfS: (string, seq<string>) -> string, sprintfI: (string, seq<int>) -> string, callers: seq<PC>)
    returns (sentinel: ErrorValue, err: ErrorValue, innerAtFunc22: ErrorValue, innerMost: ErrorValue)
    ensures sentinel.Std? && sentinel.std.Error() == "someUnexpected"
    ensures err.Chain? && err.err.Valid() && err.err.depth == 2
    ensures Messages(err.err) == [sprintfS("[%s] 123", ["11"]), sprintfI("i=%d", [3]), "unexpected param err:someUnexpected"]
    ensures innerAtFunc22 == sentinel && innerMost == sentinel
  {
    sentinel := New("someUnexpected");
    var e3 := Errorf(sentinel, "unexpected param", [], sprintfI, callers);
    assert e3.err.stdError == Some(sentinel.std);
    assert Display(e3.err) == "unexpected param err:someUnexpected";
    innerAtFunc22 := GetInnerMost(e3);
    var e2 := Errorf(e3, "i=%d", [3], sprintfI, callers);
    err := Errorf(e2, "[%s] 123", ["11"], sprintfS, callers);
    LinkExtendsChain(err.err);
    LinkExtendsChain(e2.err);
    innerMost := GetInnerMost(err);
  }

  /**
    Error() on the same node twice, with whatever resolver and settings:
    both calls return the same string, and it is the rendering made the
    first time the node was asked.
  */
  method ErrorTwice(e: Err, resolve1: Resolver, settings1: Settings, resolve2: Resolver, settings2: Settings)
    returns (first: string, second: string)
    requires e.Valid() && e.fullMessage.None?
    modifies e`fullMessage
    ensures first == second
    ensures first == Trace(Env(resolve1, settings1), Origin(e).stack, Messages(e))
    ensures e.fullMessage == Some(first)
  {
    first := e.Error(resolve1, settings1);
    second := e.Error(resolve2, settings2);
  }

  /** The closure in TestErrorf (errors_test.go:11-13) is named after its package path; the rule keeps "TestErrorf.func1". */
  lemma ClosureName()
    ensures ShortFuncName("github.com/hanjm" + "/" + "errors" + "." + "TestErrorf.func1") == "TestErrorf.func1"
  {
    QualifiedName("github.com/hanjm", "errors", "TestErrorf.func1");
  }
}
