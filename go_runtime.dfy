/**
  What the two renderers need from Go's runtime, as plain values: program
  counters, the resolver behind runtime.FuncForPC, the bound on a captured
  stack, and the plain (non-chain) error values that errors.New builds.
*/
module GoRuntime {

  datatype Option<+T> = None | Some(value: T)

  /** A raw return address, as runtime.Callers stores it (a uintptr). */
  type PC = nat

  /**
    What the runtime reports for a program counter it can map:
    FuncForPC(pc).FileLine(pc - 1) gives `file` and `line`, Name() gives `funcName`.
  */
  datatype Location = Location(file: string, line: int, funcName: string)

  /** runtime.FuncForPC with FileLine and Name folded in; None stands for a nil *Func. */
  type Resolver = PC -> Option<Location>

  /** Both newErr and new_ give runtime.Callers a buffer of this many entries. */
  const MaxStackDepth: nat := 200

  /**
    The stack an origin node keeps: runtime.Callers(3, pc) fills at most
    `len(pc)` entries of the caller's stack, so the node holds `pc[:length]`.
    `callers` is the whole stack above the three skipped frames.
  */
  function CapturedStack(callers: seq<PC>): (stack: seq<PC>)
    ensures stack <= callers
    ensures |stack| == if |callers| < MaxStackDepth then |callers| else MaxStackDepth
  {
    if |callers| < MaxStackDepth then callers else callers[..MaxStackDepth]
  }

  /**
    A non-chain error value: what errors.New returns, or any other error type;
    only its Error() text matters to the renderers. Being a class, it is compared
    by identity, as Go compares the *errorString values errors.New returns.
  */
  class StdError {
    const text: string

    constructor (text: string)
      ensures this.text == text
    {
      this.text := text;
    }

    function Error(): string {
      text
    }
  }
}
