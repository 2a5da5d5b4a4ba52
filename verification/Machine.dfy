// The same steps on a stack in memory, in the interpreter (interp.c) and in the
// helpers that compiled code calls (jit_support.c).

module Machine {
  import C = Currying
  import opened Currying

  /** for (i = nargs - 1; i >= 0; i--) newsp[i] = sp[i]: the words move towards the top of the array, so
      none is overwritten before it has been copied. */
  method Slide(stack: array<Value>, sp: nat, newsp: nat, nargs: nat)
    requires sp <= newsp && newsp + nargs <= stack.Length
    modifies stack
    ensures stack[newsp..] == old(stack[sp..sp + nargs] + stack[newsp + nargs..])
  {
    var i: int := nargs - 1;
    while i >= 0
      invariant -1 <= i < nargs
      invariant forall j :: sp <= j <= sp + i ==> stack[j] == old(stack[j])
      invariant forall j :: newsp + i < j < newsp + nargs ==> stack[j] == old(stack[j - (newsp - sp)])
      invariant stack[newsp + nargs..] == old(stack[newsp + nargs..])
    {
      stack[newsp + i] := stack[sp + i];
      i := i - 1;
    }
    assert stack[newsp..newsp + nargs] == old(stack[sp..sp + nargs]);
    assert stack[newsp..] == stack[newsp..newsp + nargs] + stack[newsp + nargs..];
  }

  /** for (i = 0; i < n; i++) sp[i] = Field(env, i + 2), below the old top of the stack. */
  method Unpack(stack: array<Value>, sp: nat, fields: seq<Value>)
    requires |fields| >= 2 && |fields| - 2 <= sp <= stack.Length
    modifies stack
    ensures stack[sp - (|fields| - 2)..] == fields[2..] + old(stack[sp..])
  {
    var n := |fields| - 2;
    var i := 0;
    while i < n
      invariant 0 <= i <= n && stack[sp - n..sp - n + i] == fields[2..2 + i] && stack[sp..] == old(stack[sp..])
    {
      stack[sp - n + i] := fields[i + 2];
      assert stack[sp - n..sp - n + i + 1] == stack[sp - n..sp - n + i] + [stack[sp - n + i]];
      i := i + 1;
    }
    assert stack[sp - n..] == stack[sp - n..sp] + stack[sp..];
  }

  /** for (i = 0; i < n; i++) Field(accu, i + 2) = sp[i] */
  method Pack(stack: array<Value>, sp: nat, n: nat) returns (args: seq<Value>)
    requires sp + n <= stack.Length
    ensures args == stack[sp..sp + n]
  {
    args := [];
    var i := 0;
    while i < n
      invariant 0 <= i <= n && args == stack[sp..sp + i]
    {
      args := args + [stack[sp + i]];
      i := i + 1;
    }
  }

  /** sp[0] = words[0]; sp[1] = words[1]; and so on. */
  method StoreWords(stack: array<Value>, sp: nat, words: seq<Value>)
    requires sp + |words| <= stack.Length
    modifies stack
    ensures stack[sp..] == words + old(stack[sp + |words|..])
  {
    var i := 0;
    while i < |words|
      invariant 0 <= i <= |words| && stack[sp..sp + i] == words[..i]
      invariant stack[sp + |words|..] == old(stack[sp + |words|..])
    {
      stack[sp + i] := words[i];
      assert stack[sp..sp + i + 1] == stack[sp..sp + i] + [words[i]];
      i := i + 1;
    }
    assert stack[sp..] == stack[sp..sp + |words|] + stack[sp + |words|..];
  }

  class Interp {
    var stack: array<Value>
    var sp: nat
    var pc: Pc
    var accu: Value
    var env: Value
    var extraArgs: nat

    ghost predicate Valid()
      reads this
    {
      sp <= stack.Length
    }

    ghost function S(): State
      reads this, stack
      requires Valid()
    {
      State(pc, stack[sp..], accu, env, extraArgs)
    }

    constructor (size: nat)
      ensures Valid() && S() == State(0, [], Unit, Unit, 0) && fresh(stack) && sp == size
    {
      stack := new Value[size](_ => Unit);
      sp, pc, accu, env, extraArgs := size, 0, Unit, Unit, 0;
    }

    method Restart()
      requires Valid() && env.Closure? && |env.fields| >= 2 && sp >= |env.fields| - 2
      modifies this, stack
      ensures Valid() && stack == old(stack) && S() == C.Restart(old(S()))
    {
      var numArgs := |env.fields| - 2;
      Unpack(stack, sp, env.fields);
      sp := sp - numArgs;
      env := env.fields[1];
      extraArgs := extraArgs + numArgs;
      pc := pc + 1;
    }

    method Grab(required: nat)
      requires Valid() && (extraArgs < required ==> |S().stack| >= 1 + extraArgs && HasFrame(S().stack[1 + extraArgs..]))
      modifies this
      ensures Valid() && stack == old(stack) && S() == C.Grab(old(S()), required)
    {
      if extraArgs >= required {
        extraArgs := extraArgs - required;
        accu := Unit;
        pc := pc + 2;
      } else {
        GrabClosure(required);
      }
    }

    method GrabClosure(ghost required: nat)
      requires Valid() && extraArgs < required && |S().stack| >= 1 + extraArgs && HasFrame(S().stack[1 + extraArgs..])
      modifies this
      ensures Valid() && stack == old(stack) && S() == C.Grab(old(S()), required)
    {
      ghost var below := S().stack[1 + extraArgs..];
      var numArgs := 1 + extraArgs;
      var args := Pack(stack, sp, numArgs);
      assert args == S().stack[..numArgs] && below == stack[sp + numArgs..];
      accu := Closure([Code(pc - 1), env] + args);
      sp := sp + numArgs;
      assert stack[sp] == below[0] && stack[sp + 2] == below[2] && below[3..] == stack[sp + 3..];
      pc := stack[sp].pc;
      env := stack[sp + 1];
      extraArgs := stack[sp + 2].n;
      sp := sp + 3;
    }

    method Apply(n: nat)
      requires Valid() && IsClosure(accu) && n >= 1
      modifies this
      ensures Valid() && stack == old(stack) && S() == C.Apply(old(S()), n)
    {
      extraArgs := n - 1;
      pc := CodeVal(accu);
      env := accu;
      accu := Unit;
    }

    /** APPLY1, APPLY2, APPLY3: a frame to return to goes below the `n` arguments. */
    method ApplyN(n: nat)
      requires Valid() && IsClosure(accu) && 1 <= n <= 3 && 3 <= sp && sp + n <= stack.Length
      modifies this, stack
      ensures Valid() && stack == old(stack)
      ensures S() == Entered(old(accu), old(S().stack[..n]), Frame(old(pc), old(env), old(extraArgs)), old(S().stack[n..]))
    {
      var args := stack[sp..sp + n];
      assert args == S().stack[..n] && stack[sp + n..] == S().stack[n..];
      sp := sp - 3;
      StoreWords(stack, sp, args + [Code(pc), env, Long(extraArgs)]);
      pc := CodeVal(accu);
      env := accu;
      extraArgs := n - 1;
      accu := Unit;
    }

    method Appterm(nargs: nat, slot: nat)
      requires Valid() && IsClosure(accu) && 1 <= nargs <= slot && sp + slot <= stack.Length
      modifies this, stack
      ensures Valid() && stack == old(stack) && S() == C.Appterm(old(S()), nargs, slot)
    {
      var newsp := sp + slot - nargs;
      Slide(stack, sp, newsp, nargs);
      assert old(stack[sp..][..nargs] + stack[sp..][slot..]) == old(stack[sp..sp + nargs] + stack[newsp + nargs..]);
      sp := newsp;
      pc := CodeVal(accu);
      env := accu;
      extraArgs := extraArgs + (nargs - 1);
      accu := Unit;
    }

    method Return(slot: nat)
      requires Valid() && sp + slot <= stack.Length
      requires if extraArgs > 0 then IsClosure(accu) else HasFrame(S().stack[slot..])
      modifies this
      ensures Valid() && stack == old(stack) && S() == C.Return(old(S()), slot)
    {
      assert S().stack[slot..] == stack[sp + slot..];
      ghost var below := stack[sp + slot..];
      sp := sp + slot;
      if extraArgs > 0 {
        extraArgs := extraArgs - 1;
        pc := CodeVal(accu);
        env := accu;
        accu := Unit;
      } else {
        assert stack[sp] == below[0] && stack[sp + 2] == below[2] && below[3..] == stack[sp + 3..];
        pc := stack[sp].pc;
        env := stack[sp + 1];
        extraArgs := stack[sp + 2].n;
        sp := sp + 3;
      }
    }
  }

  /** struct jit_state: the registers that compiled code shares with its helpers. */
  class JitState {
    var stack: array<Value>
    var sp: nat
    var accu: Value
    var env: Value
    var extraArgs: nat

    ghost predicate Valid()
      reads this
    {
      sp <= stack.Length
    }

    /** As a state of the interpreter at code address `pc`. */
    ghost function S(pc: Pc): State
      reads this, stack
      requires Valid()
    {
      State(pc, stack[sp..], accu, env, extraArgs)
    }

    constructor (size: nat)
      ensures Valid() && S(0) == State(0, [], Unit, Unit, 0) && fresh(stack)
    {
      stack := new Value[size](_ => Unit);
      sp, accu, env, extraArgs := size, Unit, Unit, 0;
    }

    /** jit_support_restart: the moves of RESTART, with the recovered environment in the accumulator. */
    method SupportRestart()
      requires Valid() && env.Closure? && |env.fields| >= 2 && sp >= |env.fields| - 2
      modifies this, stack
      ensures Valid() && stack == old(stack)
      ensures forall pc: Pc :: var t := C.Restart(old(S(pc)));
                S(pc + 1) == t.(accu := t.env, env := old(env))
    {
      var numArgs := |env.fields| - 2;
      Unpack(stack, sp, env.fields);
      sp := sp - numArgs;
      accu := env.fields[1];
      extraArgs := extraArgs + numArgs;
    }

    /** jit_support_grab_closure: GRAB when arguments are missing. */
    method GrabClosure(restartCode: Pc) returns (nextPc: Pc)
      requires Valid() && |S(0).stack| >= 1 + extraArgs && HasFrame(S(0).stack[1 + extraArgs..])
      modifies this
      ensures Valid() && stack == old(stack)
      ensures S(nextPc) == C.Grab(old(S(restartCode + 1)), old(extraArgs) + 1)
    {
      ghost var below := S(0).stack[1 + extraArgs..];
      var numArgs := 1 + extraArgs;
      var args := Pack(stack, sp, numArgs);
      assert args == S(0).stack[..numArgs] && below == stack[sp + numArgs..];
      accu := Closure([Code(restartCode), env] + args);
      sp := sp + numArgs;
      assert stack[sp] == below[0] && stack[sp + 2] == below[2] && below[3..] == stack[sp + 3..];
      nextPc := stack[sp].pc;
      env := stack[sp + 1];
      extraArgs := stack[sp + 2].n;
      sp := sp + 3;
    }
  }

  /** jit_support_appterm_stacks: the stack of APPTERM. */
  method AppTermStacks(stack: array<Value>, nargs: nat, slotsize: nat, sp: nat) returns (newsp: nat)
    requires 1 <= nargs <= slotsize && sp + slotsize <= stack.Length
    modifies stack
    ensures newsp <= stack.Length
    ensures forall s: State :: s.stack == old(stack[sp..]) && IsClosure(s.accu) ==> stack[newsp..] == C.Appterm(s, nargs, slotsize).stack
  {
    newsp := sp + slotsize - nargs;
    Slide(stack, sp, newsp, nargs);
    assert old(stack[sp..][..nargs] + stack[sp..][slotsize..]) == old(stack[sp..sp + nargs] + stack[newsp + nargs..]);
  }
}
