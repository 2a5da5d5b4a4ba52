// The table-driven lexer engine (lexing.c): refills of the buffer do not matter,
// and the match is the longest one.

module Lexing {
  type byte = x: int | 0 <= x < 256

  const EOF_CHAR: int := 256

  datatype Tables = Tables(base: seq<int>, backtrk: seq<int>, dflt: seq<int>, trans: seq<int>, check: seq<int>)

  /** The tables of the generator: every state has entries, and transitions stay inside the tables. */
  ghost predicate Good(t: Tables) {
    && |t.backtrk| == |t.dflt| == |t.base| && |t.trans| == |t.check|
    && (forall s :: 0 <= s < |t.base| && t.base[s] >= 0 ==> t.base[s] + EOF_CHAR < |t.check|)
    && (forall s :: 0 <= s < |t.dflt| ==> t.dflt[s] < |t.base|)
    && (forall i :: 0 <= i < |t.trans| ==> t.trans[i] < |t.base|)
  }

  ghost predicate IsState(t: Tables, s: int) {
    0 <= s < |t.base|
  }

  /** The next state on character `c`, negative when there is none. */
  function Next(t: Tables, s: int, c: int): (n: int)
    requires Good(t) && IsState(t, s) && t.base[s] >= 0 && 0 <= c <= EOF_CHAR
    ensures n < |t.base|
  {
    if t.check[t.base[s] + c] == s then t.trans[t.base[s] + c] else t.dflt[s]
  }

  /** The tables hold the transitions `delta` with a default for each state: an entry that another state has taken,
      or nobody, is the default's, and an entry that the state has taken is its own. */
  ghost predicate Encodes(t: Tables, delta: map<(int, int), int>) {
    && Good(t)
    && forall s, c {:trigger (s, c)} :: IsState(t, s) && t.base[s] >= 0 && 0 <= c <= EOF_CHAR ==>
         && (s, c) in delta
         && (t.check[t.base[s] + c] == s ==> t.trans[t.base[s] + c] == delta[(s, c)])
         && (delta[(s, c)] != t.dflt[s] ==> t.check[t.base[s] + c] == s)
  }

  /** The engine follows exactly the transitions that the tables hold. */
  lemma NextDecodes(t: Tables, delta: map<(int, int), int>, s: int, c: int)
    requires Encodes(t, delta) && IsState(t, s) && t.base[s] >= 0 && 0 <= c <= EOF_CHAR
    ensures (s, c) in delta && Next(t, s, c) == delta[(s, c)]
  {
    assert (s, c) in delta;
  }

  /** The positions in the lexer buffer and the last accepting state seen. */
  datatype Pos = Pos(start: nat, curr: nat, last: nat, lastAction: int, eof: bool)

  datatype Outcome = Matched(action: int, p: Pos) | EmptyToken(p: Pos) | Refill(state: int, p: Pos)

  function Mark(t: Tables, s: int, p: Pos): Pos
    requires Good(t) && IsState(t, s)
  {
    if t.backtrk[s] >= 0 then p.(last := p.curr, lastAction := t.backtrk[s]) else p
  }

  function Backtrack(p: Pos): Outcome {
    var q := p.(curr := p.last);
    if p.lastAction == -1 then EmptyToken(q) else Matched(p.lastAction, q)
  }

  /** The engine on buffer `buf` from state `s`. */
  ghost function Engine(t: Tables, buf: seq<byte>, s: int, p0: Pos): Outcome
    requires Good(t) && IsState(t, s) && p0.curr <= |buf|
    decreases |buf| - p0.curr + if p0.eof then 1 else 0
  {
    if t.base[s] < 0 then Matched(-t.base[s] - 1, p0)
    else
      var p := Mark(t, s, p0);
      if p.curr >= |buf| then
        if !p.eof then Refill(s, p)
        else
          var n := Next(t, s, EOF_CHAR);
          if n < 0 then Backtrack(p) else Engine(t, buf, n, p.(eof := false))
      else
        var q, n := p.(curr := p.curr + 1), Next(t, s, buf[p.curr]);
        if n < 0 then Backtrack(q) else Engine(t, buf, n, q)
  }

  // ---------------------------------------------------------------- refills

  /** Outcomes that differ at most in the end-of-input flag. */
  ghost predicate SameToken(a: Outcome, b: Outcome) {
    a == match b
         case Matched(x, p) => Matched(x, p.(eof := a.p.eof))
         case EmptyToken(p) => EmptyToken(p.(eof := a.p.eof))
         case Refill(s, p) => Refill(s, p.(eof := a.p.eof))
  }

  /** More input behind the buffer changes nothing before it is needed, and a run that asked for a
      refill goes on as if the input had been there from the beginning. */
  lemma {:induction false} Resume(t: Tables, buf: seq<byte>, more: seq<byte>, s: int, p: Pos, eof: bool)
    requires Good(t) && IsState(t, s) && p.curr <= |buf| && !p.eof
    ensures var r := Engine(t, buf, s, p); var whole := Engine(t, buf + more, s, p.(eof := eof));
            if r.Refill? then IsState(t, r.state) && !r.p.eof && r.p.curr == |buf|
                              && whole == Engine(t, buf + more, r.state, r.p.(eof := eof))
            else SameToken(r, whole)
    decreases |buf| - p.curr
  {
    if t.base[s] >= 0 {
      var q := Mark(t, s, p);
      if q.curr < |buf| {
        var n := Next(t, s, buf[q.curr]);
        assert (buf + more)[q.curr] == buf[q.curr];
        if n >= 0 { Resume(t, buf, more, n, q.(curr := q.curr + 1), eof); }
      }
    }
  }

  function Concat(chunks: seq<seq<byte>>): seq<byte> {
    if chunks == [] then [] else chunks[0] + Concat(chunks[1..])
  }

  /** Running with the input arriving in chunks; after the last one the end of input is reported. */
  ghost function Chunked(t: Tables, buf: seq<byte>, chunks: seq<seq<byte>>, s: int, p: Pos): Outcome
    requires Good(t) && IsState(t, s) && p.curr <= |buf| && !p.eof
    decreases |chunks|
  {
    Resume(t, buf, [], s, p, false);
    var r := Engine(t, buf, s, p);
    if !r.Refill? then r
    else if chunks == [] then Engine(t, buf, r.state, r.p.(eof := true))
    else Chunked(t, buf + chunks[0], chunks[1..], r.state, r.p)
  }

  /** Refills do not matter: every way of cutting the input gives the token that the whole input, with
      its end already known, gives in one run. */
  lemma {:induction false} RefillsDoNotMatter(t: Tables, buf: seq<byte>, chunks: seq<seq<byte>>, s: int, p: Pos)
    requires Good(t) && IsState(t, s) && p.curr <= |buf| && !p.eof
    ensures SameToken(Chunked(t, buf, chunks, s, p), Engine(t, buf + Concat(chunks), s, p.(eof := true)))
    decreases |chunks|
  {
    var all := Concat(chunks);
    Resume(t, buf, [], s, p, false);
    Resume(t, buf, all, s, p, true);
    var r := Engine(t, buf, s, p);
    if r.Refill? {
      if chunks == [] {
        assert buf + [] == buf;
      } else {
        assert buf + (chunks[0] + Concat(chunks[1..])) == buf + chunks[0] + Concat(chunks[1..]);
        RefillsDoNotMatter(t, buf + chunks[0], chunks[1..], r.state, r.p);
      }
    }
  }

  // ---------------------------------------------------------------- the longest match

  /** What the automaton reads: the rest of the buffer, then the end of input if it is known. */
  ghost function Symbols(buf: seq<byte>, p: Pos): seq<int>
    requires p.curr <= |buf|
  {
    seq(|buf| - p.curr, i requires 0 <= i < |buf| - p.curr => buf[p.curr + i] as int) + (if p.eof then [EOF_CHAR] else [])
  }

  /** The position after `i` symbols. */
  function After(buf: seq<byte>, p: Pos, i: nat): nat {
    if p.curr + i <= |buf| then p.curr + i else |buf|
  }

  /** `states` are the states visited on the first symbols, none of them final. */
  ghost predicate Visited(t: Tables, buf: seq<byte>, p: Pos, states: seq<int>)
    requires Good(t) && p.curr <= |buf|
  {
    && states != [] && |states| <= |Symbols(buf, p)|
    && (forall i :: 0 <= i < |states| ==> IsState(t, states[i]) && t.base[states[i]] >= 0)
    && forall i :: 0 <= i < |states| - 1 ==> states[i + 1] == Next(t, states[i], Symbols(buf, p)[i])
  }

  ghost predicate Accepting(t: Tables, s: int) {
    IsState(t, s) && s < |t.backtrk| && t.backtrk[s] >= 0
  }

  /** `j` is the last accepting state visited. */
  ghost predicate LastAccepting(t: Tables, states: seq<int>, j: nat) {
    j < |states| && Accepting(t, states[j]) && forall i :: j < i < |states| ==> !Accepting(t, states[i])
  }

  ghost predicate Stuck(t: Tables, buf: seq<byte>, p: Pos, states: seq<int>)
    requires Good(t) && p.curr <= |buf|
  {
    Visited(t, buf, p, states) && Next(t, states[|states| - 1], Symbols(buf, p)[|states| - 1]) < 0
  }

  /** The position after the first symbol has been read in state `s`. */
  ghost function Read(t: Tables, buf: seq<byte>, s: int, p: Pos): Pos
    requires Good(t) && IsState(t, s)
  {
    var q := Mark(t, s, p);
    if p.curr < |buf| then q.(curr := p.curr + 1) else q.(eof := false)
  }

  lemma ReadFirst(t: Tables, buf: seq<byte>, p: Pos, states: seq<int>)
    requires Good(t) && p.curr <= |buf| && Stuck(t, buf, p, states) && |states| > 1
    ensures var p' := Read(t, buf, states[0], p);
            && p'.curr <= |buf| && Stuck(t, buf, p', states[1..])
            && Engine(t, buf, states[0], p) == Engine(t, buf, states[1], p')
  {
    var rest, p' := states[1..], Read(t, buf, states[0], p);
    assert Symbols(buf, p)[0] == if p.curr < |buf| then buf[p.curr] as int else EOF_CHAR;
    assert Symbols(buf, p') == Symbols(buf, p)[1..];
    forall i | 0 <= i < |rest| - 1 ensures rest[i + 1] == Next(t, rest[i], Symbols(buf, p')[i]) {
      assert rest[i] == states[i + 1] && rest[i + 1] == states[i + 2];
      assert states[(i + 1) + 1] == Next(t, states[i + 1], Symbols(buf, p)[i + 1]);
    }
  }

  /** Stuck without an accepting state: the engine goes back to what was recorded before. */
  lemma {:induction false} NothingNew(t: Tables, buf: seq<byte>, p: Pos, states: seq<int>)
    requires Good(t) && p.curr <= |buf| && Stuck(t, buf, p, states)
    requires forall j :: 0 <= j < |states| ==> !Accepting(t, states[j])
    ensures var r := Engine(t, buf, states[0], p);
            if p.lastAction == -1 then r.EmptyToken? else r.Matched? && r.action == p.lastAction && r.p.curr == p.last
    decreases |states|
  {
    assert !Accepting(t, states[0]);
    if |states| == 1 {
      assert Symbols(buf, p)[0] == if p.curr < |buf| then buf[p.curr] as int else EOF_CHAR;
    } else {
      ReadFirst(t, buf, p, states);
      NothingNew(t, buf, Read(t, buf, states[0], p), states[1..]);
    }
  }

  /** When the automaton gets stuck, the engine returns the action of the last accepting state visited
      and the position where it was visited. */
  lemma {:induction false} LongestMatch(t: Tables, buf: seq<byte>, p: Pos, states: seq<int>, j: nat)
    requires Good(t) && p.curr <= |buf| && Stuck(t, buf, p, states) && LastAccepting(t, states, j)
    ensures var r := Engine(t, buf, states[0], p);
            r.Matched? && r.action == t.backtrk[states[j]] && r.p.curr == After(buf, p, j)
    decreases |states|
  {
    if |states| == 1 {
      assert Symbols(buf, p)[0] == if p.curr < |buf| then buf[p.curr] as int else EOF_CHAR;
    } else {
      ReadFirst(t, buf, p, states);
      var p', rest := Read(t, buf, states[0], p), states[1..];
      if j > 0 {
        LongestMatch(t, buf, p', rest, j - 1);
      } else {
        NothingNew(t, buf, p', rest);
      }
    }
  }

  // ---------------------------------------------------------------- the engine

  class LexerBuffer {
    var buffer: seq<byte>
    var absPos: int
    var startPos: nat
    var currPos: nat
    var lastPos: nat
    var lastAction: int
    var eofReached: bool

    ghost function P(): Pos
      reads this
    {
      Pos(startPos, currPos, lastPos, lastAction, eofReached)
    }

    constructor (text: seq<byte>)
      ensures buffer == text && P() == Pos(0, 0, 0, -1, false)
    {
      buffer, absPos, startPos, currPos, lastPos, lastAction, eofReached := text, 0, 0, 0, 0, -1, false;
    }

    /** caml_lex_engine: the action of the token, or the encoded state in which it asks for a refill;
        `failed` where it raises Failure. */
    method CamlLexEngine(t: Tables, startState: int) returns (failed: bool, result: int)
      requires Good(t) && currPos <= |buffer| && lastPos <= |buffer|
      requires IsState(t, if startState >= 0 then startState else -startState - 1)
      modifies `startPos, `currPos, `lastPos, `lastAction, `eofReached
      ensures currPos <= |buffer| && lastPos <= |buffer|
      ensures var p := if startState >= 0 then Pos(old(currPos), old(currPos), old(currPos), -1, old(eofReached)) else old(P());
              match Engine(t, buffer, if startState >= 0 then startState else -startState - 1, p)
              case Matched(action, q) => !failed && result == action && P() == q
              case EmptyToken(q) => failed && P() == q
              case Refill(state, q) => !failed && result == -state - 1 && P() == q
    {
      var state := startState;
      if state >= 0 {
        startPos, lastPos := currPos, currPos;
        lastAction := -1;
      } else {
        state := -state - 1;
      }
      failed := false;
      ghost var outcome := Engine(t, buffer, state, P());
      while true
        invariant IsState(t, state) && currPos <= |buffer| && lastPos <= |buffer|
                  && outcome == Engine(t, buffer, state, P())
        decreases |buffer| - currPos + if eofReached then 1 else 0
      {
        var base := t.base[state];
        if base < 0 { return false, -base - 1; }
        var backtrk := t.backtrk[state];
        if backtrk >= 0 {
          lastPos := currPos;
          lastAction := backtrk;
        }
        var c: int := EOF_CHAR;
        if currPos >= |buffer| {
          if !eofReached { return false, -state - 1; }
        } else {
          c := buffer[currPos];
          currPos := currPos + 1;
        }
        state := if t.check[base + c] == state then t.trans[base + c] else t.dflt[state];
        if state < 0 {
          currPos := lastPos;
          if lastAction == -1 { return true, 0; }
          return false, lastAction;
        } else if c == EOF_CHAR {
          eofReached := false;
        }
      }
    }
  }
}
