// Function application in the bytecode machine (interp.c): APPLY, APPTERM,
// RETURN, RESTART and GRAB as steps on machine states, and what partial
// application by any grouping of the arguments comes to.

module Currying {
  type Pc = int

  /** Machine words; a closure has its code pointer in field 0. */
  datatype Value = Unit | Long(n: int) | Code(pc: Pc) | Closure(fields: seq<Value>)

  datatype Instr = RESTART | GRAB(required: nat) | OTHER

  /** The registers and the stack, top first. */
  datatype State = State(pc: Pc, stack: seq<Value>, accu: Value, env: Value, extraArgs: nat)

  /** What a call pushes below the arguments. */
  datatype Frame = Frame(pc: Pc, env: Value, extraArgs: nat)

  function Words(r: Frame): seq<Value> {
    [Code(r.pc), r.env, Long(r.extraArgs)]
  }

  predicate IsClosure(v: Value) {
    v.Closure? && |v.fields| >= 1 && v.fields[0].Code?
  }

  function CodeVal(v: Value): Pc
    requires IsClosure(v)
  {
    v.fields[0].pc
  }

  /** A return address, an environment and a number of arguments are on top of the stack. */
  predicate HasFrame(stack: seq<Value>) {
    |stack| >= 3 && stack[0].Code? && stack[2].Long? && stack[2].n >= 0
  }

  // ---------------------------------------------------------------- the steps

  /** RESTART: the saved arguments go back on the stack. */
  function Restart(s: State): State
    requires s.env.Closure? && |s.env.fields| >= 2
  {
    var f := s.env.fields;
    State(s.pc + 1, f[2..] + s.stack, s.accu, f[1], s.extraArgs + (|f| - 2))
  }

  /** The closure that GRAB at `g` makes of the arguments present. */
  function Partial(g: Pc, env: Value, args: seq<Value>): Value {
    Closure([Code(g - 1), env] + args)
  }

  /** GRAB: enough arguments, or return a closure that remembers them. */
  function Grab(s: State, required: nat): State
    requires s.extraArgs < required ==> |s.stack| >= 1 + s.extraArgs && HasFrame(s.stack[1 + s.extraArgs..])
  {
    if s.extraArgs >= required then State(s.pc + 2, s.stack, Unit, s.env, s.extraArgs - required)
    else
      var n := 1 + s.extraArgs;
      var below := s.stack[n..];
      State(below[0].pc, below[3..], Partial(s.pc, s.env, s.stack[..n]), below[1], below[2].n)
  }

  /** APPLY: the closure in the accumulator is entered with `n` arguments on the stack. */
  function Apply(s: State, n: nat): State
    requires IsClosure(s.accu) && n >= 1
  {
    State(CodeVal(s.accu), s.stack, Unit, s.accu, n - 1)
  }

  /** APPTERM: the top `nargs` words slide over the rest of a frame of `slot` words. */
  function Appterm(s: State, nargs: nat, slot: nat): State
    requires IsClosure(s.accu) && 1 <= nargs <= slot <= |s.stack|
  {
    State(CodeVal(s.accu), s.stack[..nargs] + s.stack[slot..], Unit, s.accu, s.extraArgs + (nargs - 1))
  }

  /** RETURN: surplus arguments go to the result, otherwise the caller goes on. */
  function Return(s: State, slot: nat): State
    requires slot <= |s.stack|
    requires if s.extraArgs > 0 then IsClosure(s.accu) else HasFrame(s.stack[slot..])
  {
    var below := s.stack[slot..];
    if s.extraArgs > 0 then State(CodeVal(s.accu), below, Unit, s.accu, s.extraArgs - 1)
    else State(below[0].pc, below[3..], s.accu, below[1], below[2].n)
  }

  // ---------------------------------------------------------------- calls

  /** The state in which closure `v` is entered with arguments `args`, to return to `r`. */
  function Entered(v: Value, args: seq<Value>, r: Frame, base: seq<Value>): State
    requires IsClosure(v) && args != []
  {
    State(CodeVal(v), args + Words(r) + base, Unit, v, |args| - 1)
  }

  /** The code of a function of `required + 1` arguments, entered at `g`. */
  ghost predicate Function(code: Pc -> Instr, g: Pc, required: nat) {
    code(g - 1) == RESTART && code(g) == GRAB(required)
  }

  /** `v` stands for closure `c` with arguments `saved` already supplied. */
  ghost predicate Holds(v: Value, g: Pc, c: Value, saved: seq<Value>) {
    && IsClosure(c) && CodeVal(c) == g
    && v == if saved == [] then c else Partial(g, c, saved)
  }

  /** The instruction at the program counter is RESTART or GRAB and finds what it needs. */
  ghost predicate Ready(code: Pc -> Instr, s: State) {
    match code(s.pc)
    case RESTART => s.env.Closure? && |s.env.fields| >= 2
    case GRAB(required) => s.extraArgs < required ==> |s.stack| >= 1 + s.extraArgs && HasFrame(s.stack[1 + s.extraArgs..])
    case OTHER => false
  }

  /** The instruction at the program counter. */
  ghost function Step(code: Pc -> Instr, s: State): State
    requires Ready(code, s)
  {
    match code(s.pc)
    case RESTART => Restart(s)
    case GRAB(required) => Grab(s, required)
    case OTHER => s
  }

  ghost predicate CanEnter(code: Pc -> Instr, s: State) {
    Ready(code, s) && (code(s.pc) == RESTART ==> Ready(code, Step(code, s)))
  }

  /** The entry of a function: RESTART, if the closure is a partial application, then GRAB. */
  ghost function Enter(code: Pc -> Instr, s: State): State
    requires CanEnter(code, s)
  {
    Step(code, if code(s.pc) == RESTART then Step(code, s) else s)
  }

  /** The state at the body of the function. */
  function AtBody(g: Pc, required: nat, c: Value, args: seq<Value>, r: Frame, base: seq<Value>): State
    requires |args| > required
  {
    State(g + 2, args + Words(r) + base, Unit, c, |args| - 1 - required)
  }

  lemma FrameAfter(args: seq<Value>, r: Frame, base: seq<Value>)
    ensures var s := args + Words(r) + base;
            && s[..|args|] == args && HasFrame(s[|args|..]) && s[|args|..][0].pc == r.pc
            && s[|args|..][1] == r.env && s[|args|..][2].n == r.extraArgs && s[|args|..][3..] == base
  {
    assert (args + Words(r) + base)[|args|..] == Words(r) + base;
  }

  /** Entering with saved arguments is entering the function itself with all of them. */
  lemma EnterSaved(g: Pc, v: Value, c: Value, saved: seq<Value>, args: seq<Value>, r: Frame, base: seq<Value>)
    requires Holds(v, g, c, saved) && args != []
    ensures IsClosure(v)
    ensures var s := Entered(v, args, r, base);
            && (s.pc == g || (s.pc == g - 1 && s.env.Closure? && |s.env.fields| >= 2))
            && (if s.pc == g then s else Restart(s)) == Entered(c, saved + args, r, base)
  {
    var s := Entered(v, args, r, base);
    if saved == [] {
      assert [] + args == args;
    } else {
      assert s.env.fields[2..] == saved;
      assert saved + (args + Words(r) + base) == saved + args + Words(r) + base;
    }
  }

  /** One more group of arguments: either the body is reached with all arguments so far, or the caller
      gets a closure that remembers them. */
  lemma OneGroup(code: Pc -> Instr, g: Pc, required: nat, v: Value, c: Value, saved: seq<Value>, args: seq<Value>,
      r: Frame, base: seq<Value>)
    requires Function(code, g, required) && Holds(v, g, c, saved) && args != []
    ensures IsClosure(v)
    ensures var s := Entered(v, args, r, base); var all := saved + args;
            && CanEnter(code, s)
            && if |all| > required then Enter(code, s) == AtBody(g, required, c, all, r, base)
               else Enter(code, s) == State(r.pc, base, Partial(g, c, all), r.env, r.extraArgs)
                    && Holds(Enter(code, s).accu, g, c, all)
  {
    EnterSaved(g, v, c, saved, args, r, base);
    FrameAfter(saved + args, r, base);
  }

  // ---------------------------------------------------------------- any grouping

  datatype Call = Call(args: seq<Value>, frame: Frame)

  ghost function AllArgs(calls: seq<Call>): seq<Value> {
    if calls == [] then [] else calls[0].args + AllArgs(calls[1..])
  }

  /** Supplying the groups one after the other: each call but the last returns a closure to which the
      next one is applied. */
  ghost function Supply(code: Pc -> Instr, g: Pc, required: nat, v: Value, c: Value, saved: seq<Value>,
      calls: seq<Call>, base: seq<Value>): State
    requires Function(code, g, required) && Holds(v, g, c, saved) && calls != []
    requires forall k :: 0 <= k < |calls| ==> calls[k].args != []
    decreases |calls|
  {
    OneGroup(code, g, required, v, c, saved, calls[0].args, calls[0].frame, base);
    var s := Enter(code, Entered(v, calls[0].args, calls[0].frame, base));
    if |calls| == 1 || |saved + calls[0].args| > required then s
    else Supply(code, g, required, s.accu, c, saved + calls[0].args, calls[1..], base)
  }

  /** Partial application is transparent: however the arguments are grouped, the body is reached with
      the same arguments on the stack, the same environment and the same number of surplus arguments as
      by one call with all of them. */
  lemma {:induction false} GroupingIsTransparent(code: Pc -> Instr, g: Pc, required: nat, v: Value, c: Value,
      saved: seq<Value>, calls: seq<Call>, base: seq<Value>)
    requires Function(code, g, required) && Holds(v, g, c, saved) && calls != []
    requires forall k :: 0 <= k < |calls| ==> calls[k].args != []
    requires |saved + AllArgs(calls[..|calls| - 1])| <= required < |saved + AllArgs(calls)|
    ensures Supply(code, g, required, v, c, saved, calls, base)
            == AtBody(g, required, c, saved + AllArgs(calls), calls[|calls| - 1].frame, base)
    decreases |calls|
  {
    var all := saved + calls[0].args;
    OneGroup(code, g, required, v, c, saved, calls[0].args, calls[0].frame, base);
    if |calls| == 1 {
      assert calls[1..] == [] && calls[0].args + [] == calls[0].args;
    } else {
      var front := calls[..|calls| - 1];
      assert front[0] == calls[0] && front[1..] == calls[1..][..|calls| - 2];
      assert saved + (calls[0].args + AllArgs(front[1..])) == all + AllArgs(front[1..]);
      assert saved + (calls[0].args + AllArgs(calls[1..])) == all + AllArgs(calls[1..]);
      var s := Enter(code, Entered(v, calls[0].args, calls[0].frame, base));
      GroupingIsTransparent(code, g, required, s.accu, c, all, calls[1..], base);
    }
  }

  /** One full application reaches the body directly. */
  lemma FullApplication(code: Pc -> Instr, g: Pc, required: nat, c: Value, args: seq<Value>, r: Frame, base: seq<Value>)
    requires Function(code, g, required) && Holds(c, g, c, []) && |args| > required
    ensures CanEnter(code, Entered(c, args, r, base))
            && Enter(code, Entered(c, args, r, base)) == AtBody(g, required, c, args, r, base)
  {
    OneGroup(code, g, required, c, c, [], args, r, base);
    assert [] + args == args;
  }

  /** When the body returns a closure with surplus arguments left, that closure is entered with them, to
      return where the whole application returns. */
  lemma SurplusGoesToResult(g: Pc, required: nat, c: Value, args: seq<Value>, r: Frame, base: seq<Value>,
      locals: seq<Value>, result: Value)
    requires |args| > required + 1 && IsClosure(result)
    ensures var s := AtBody(g, required, c, args, r, base);
            var atReturn := s.(stack := locals + s.stack, accu := result);
            Return(atReturn, |locals| + required + 1) == Entered(result, args[required + 1..], r, base)
  {
    var s := AtBody(g, required, c, args, r, base);
    assert (locals + s.stack)[|locals| + required + 1..] == args[required + 1..] + Words(r) + base;
  }

  /** Without surplus the caller goes on with its own environment and arguments. */
  lemma ReturnsToCaller(g: Pc, required: nat, c: Value, args: seq<Value>, r: Frame, base: seq<Value>,
      locals: seq<Value>, result: Value)
    requires |args| == required + 1
    ensures var s := AtBody(g, required, c, args, r, base);
            var atReturn := s.(stack := locals + s.stack, accu := result);
            && HasFrame(atReturn.stack[|locals| + required + 1..])
            && Return(atReturn, |locals| + required + 1) == State(r.pc, base, result, r.env, r.extraArgs)
  {
    var s := AtBody(g, required, c, args, r, base);
    assert (locals + s.stack)[|locals| + required + 1..] == Words(r) + base;
  }

  /** A tail call enters the closure with its arguments and the surplus ones of the caller. */
  lemma TailCallPassesSurplus(v: Value, args: seq<Value>, locals: seq<Value>, surplus: seq<Value>, r: Frame,
      base: seq<Value>, pc: Pc, env: Value)
    requires IsClosure(v) && args != []
    ensures var s := State(pc, args + locals + (surplus + Words(r) + base), v, env, |surplus|);
            Appterm(s, |args|, |args| + |locals|) == Entered(v, args + surplus, r, base)
  {
    var s := args + locals + (surplus + Words(r) + base);
    assert s[..|args|] == args && s[|args| + |locals|..] == surplus + Words(r) + base;
  }
}
