/**
 * The work state that `gettoken` and `makepol` share and update, and `bqarr_in` on top.
 */
module QueryParser {
  import opened Machine
  import opened Options
  import opened BoolQuery
  import opened QueryText

  datatype ScanState = WaitOperand | WaitEndOperand | WaitOperator

  function Waits(st: ScanState): Waiting { if st == WaitOperator then Operator else Operand }

  datatype Polish = Finished | Failed(tooComplex: bool)

  class WorkState {
    const text: string
    var buf: nat
    var state: ScanState
    var count: int
    /** The postfix notation so far; the source keeps it as a list in reverse. */
    var str: seq<Node>

    constructor (text: string)
      ensures this.text == text && buf == 0 && state == WaitOperand && count == 0 && str == []
    {
      this.text := text;
      buf, state, count, str := 0, WaitOperand, 0, [];
    }

    ghost predicate Valid()
      reads this
    {
      buf <= |text| && count >= 0 && state != WaitEndOperand
    }

    ghost function Rest(): string
      reads this
      requires Valid()
    {
      text[buf..]
    }

    /** The tokens still to come. */
    ghost function Coming(): seq<Token>
      reads this
      requires Valid()
    {
      Stream(Rest(), Waits(state), count)
    }

    function Peek(): char
      reads this
    {
      if buf < |text| then text[buf] else '\0'
    }

    /** The scanner's loop: between tokens, or inside a number that began at `start`. */
    ghost predicate Scanning(goal: Lexed, start: nat, nnn: string)
      reads this
    {
      buf <= |text| && count >= 0 &&
      if state != WaitEndOperand then NextToken(text[buf..], Waits(state), count) == goal && nnn == []
      else
        && start < buf && nnn == text[start..buf]
        && NumberToken(text[start..], count) == goal
        && forall i | start < i < buf :: IsDigit(text[i])
    }

    ghost predicate Arrived(goal: Lexed, tok: Token)
      reads this
    {
      tok == goal.tok &&
      (tok != TErr ==> Valid() && Rest() == goal.rest && Waits(state) == goal.w && count == goal.count)
    }

    method GetToken() returns (tok: Token)
      requires Valid() && CString(text)
      modifies this
      ensures str == old(str)
      ensures Arrived(NextToken(old(Rest()), Waits(old(state)), old(count)), tok)
    {
      ghost var goal := NextToken(Rest(), Waits(state), count);
      var nnn: string := [];
      ghost var start: nat := buf;
      while true
        invariant Scanning(goal, start, nnn) && str == old(str)
        decreases |text| - buf
      {
        if |nnn| >= BUFFER {
          TooLong(text, start, buf);
          return TErr;
        }
        var t;
        match state
        case WaitOperand =>
          start := buf;
          t, nnn := AtOperand(goal, nnn);
          if t.Some? { return t.value; }
        case WaitEndOperand =>
          t, nnn := InNumber(goal, start, nnn);
          if t.Some? { return t.value; }
        case WaitOperator =>
          t := AtOperator(goal);
          if t.Some? { return t.value; }
      }
    }

    method AtOperand(ghost goal: Lexed, nnn: string) returns (t: Option<Token>, nnn': string)
      requires state == WaitOperand && CString(text) && Scanning(goal, buf, nnn)
      modifies this
      ensures str == old(str)
      ensures t.Some? ==> Arrived(goal, t.value)
      ensures t.None? ==> Scanning(goal, old(buf), nnn') && buf > old(buf)
    {
      ghost var s := text[buf..];
      nnn' := nnn;
      if IsDigit(Peek()) || Peek() == '-' {
        state := WaitEndOperand;
        nnn' := [Peek()];
      } else if Peek() == '!' {
        assert text[buf + 1..] == s[1..];
        buf := buf + 1;
        return Some(TOpr(Bang)), nnn;
      } else if Peek() == '(' {
        assert text[buf + 1..] == s[1..];
        count, buf := count + 1, buf + 1;
        return Some(TOpen), nnn;
      } else if Peek() != ' ' {
        return Some(TErr), nnn;
      } else {
        assert text[buf + 1..] == s[1..];
      }
      buf := buf + 1;
      t := None;
    }

    method InNumber(ghost goal: Lexed, ghost start: nat, nnn: string) returns (t: Option<Token>, nnn': string)
      requires state == WaitEndOperand && CString(text) && Scanning(goal, start, nnn) && |nnn| < BUFFER
      modifies this
      ensures str == old(str)
      ensures t.Some? ==> Arrived(goal, t.value)
      ensures t.None? ==> Scanning(goal, start, nnn') && buf > old(buf)
    {
      if IsDigit(Peek()) {
        assert nnn + [Peek()] == text[start..buf + 1];
        nnn' := nnn + [Peek()];
        buf := buf + 1;
        return None, nnn';
      }
      NumberEnds(text, start, buf);
      nnn' := nnn;
      var lval := Strtol(nnn);
      if !Int32(lval) { return Some(TErr), nnn; }
      state := WaitOperator;
      t := Some(if count > 0 && Peek() == '\0' then TErr else TVal(lval));
    }

    method AtOperator(ghost goal: Lexed) returns (t: Option<Token>)
      requires state == WaitOperator && CString(text) && Scanning(goal, buf, [])
      modifies this
      ensures str == old(str)
      ensures t.Some? ==> Arrived(goal, t.value)
      ensures t.None? ==> Scanning(goal, old(buf), []) && buf > old(buf)
    {
      ghost var s := text[buf..];
      if Peek() == '&' || Peek() == '|' {
        assert text[buf + 1..] == s[1..];
        state := WaitOperand;
        t := Some(TOpr(OperatorOf(Peek())));
        buf := buf + 1;
        return;
      } else if Peek() == ')' {
        assert text[buf + 1..] == s[1..];
        count, buf := count - 1, buf + 1;
        return Some(if count < 0 then TErr else TClose);
      } else if Peek() == '\0' {
        return Some(if count > 0 then TErr else TEnd);
      } else if Peek() != ' ' {
        return Some(TErr);
      }
      assert text[buf + 1..] == s[1..];
      buf := buf + 1;
      t := None;
    }

    /** Writes out `&` and `!` from the top of the stack. */
    method PopTight(stack: seq<Op>) returns (stack': seq<Op>)
      modifies this`str
      ensures stack' == Loose(stack) && str == old(str) + Popped(stack)
    {
      stack' := stack;
      while stack' != [] && (stack'[|stack'| - 1] == Amp || stack'[|stack'| - 1] == Bang)
        invariant Loose(stack') == Loose(stack) && str + Popped(stack') == old(str) + Popped(stack)
        decreases |stack'|
      {
        str := str + [NOpr(stack'[|stack'| - 1])];
        stack' := stack'[..|stack'| - 1];
      }
    }

    /** Writes out the whole stack from its top. */
    method Flush(stack: seq<Op>)
      modifies this`str
      ensures str == old(str) + Flushed(stack)
    {
      var stack' := stack;
      while stack' != []
        invariant str + Flushed(stack') == old(str) + Flushed(stack)
        decreases |stack'|
      {
        str := str + [NOpr(stack'[|stack'| - 1])];
        stack' := stack'[..|stack'| - 1];
      }
    }

    /** How a call of `makepol` ends, and where it leaves the scanner when it was nested. */
    ghost predicate Ends(p: Polish, goal: PolResult, level: int)
      reads this
    {
      match p
      case Finished =>
        && goal.Done? && str == goal.out
        && (level > 0 ==> Valid() && count == level - 1 && Coming() == goal.rest)
      case Failed(tooComplex) => goal == if tooComplex then TooComplex else SyntaxError
    }

    /** The loop of `makepol` has come to `stack`, with `goal` as what it is heading for. */
    ghost predicate Midway(stack: seq<Op>, goal: PolResult, level: int, from: nat)
      reads this
    {
      Valid() && count == level && buf >= from && |stack| <= STACKDEPTH && MakePol(Coming(), stack, str) == goal
    }

    method Polish() returns (p: Polish)
      requires Valid() && CString(text)
      modifies this
      ensures buf >= old(buf) || p.Failed?
      ensures Ends(p, MakePol(old(Coming()), [], old(str)), old(count))
      decreases |text| - buf, 1
    {
      ghost var goal := MakePol(Coming(), [], str);
      var stack: seq<Op> := [];
      while true
        invariant Midway(stack, goal, old(count), old(buf))
        decreases |text| - buf
      {
        var done;
        done, p, stack := PolishStep(stack, goal);
        if done { return; }
      }
    }

    /** One token of the loop of `makepol`. */
    method PolishStep(stack: seq<Op>, ghost goal: PolResult) returns (done: bool, p: Polish, stack': seq<Op>)
      requires CString(text) && Midway(stack, goal, count, buf)
      modifies this
      ensures done ==> (buf >= old(buf) || p.Failed?) && Ends(p, goal, old(count))
      ensures !done ==> buf > old(buf) && Midway(stack', goal, old(count), old(buf))
      decreases |text| - buf, 0
    {
      done, p, stack' := false, Finished, stack;
      ghost var ts := Coming();
      TokenStep(Rest(), Waits(state), count);
      var tok := GetToken();
      ghost var rest := if tok == TErr || tok == TEnd then [] else Coming();
      assert ts[0] == tok && ts[1..] == rest;
      match tok
      case TVal(v) =>
        str := str + [NVal(v)];
        stack' := PopTight(stack);
      case TOpr(op) =>
        if stack != [] && op == Bar {
          str := str + [NOpr(op)];
        } else if |stack| == STACKDEPTH {
          done, p := true, Failed(true);
        } else {
          stack' := stack + [op];
        }
      case TOpen =>
        p := Polish();
        if p.Failed? {
          done := true;
        } else {
          stack' := PopTight(stack);
        }
      case TClose =>
        Flush(stack);
        done := true;
      case TEnd =>
        Flush(stack);
        done := true;
      case TErr =>
        done, p := true, Failed(false);
    }
  }

  /** The scanner stops behind the digits of a number. */
  lemma NumberEnds(text: string, start: nat, buf: nat)
    requires start < buf <= |text| && forall i | start < i < buf :: IsDigit(text[i])
    requires buf < |text| ==> !IsDigit(text[buf])
    ensures NumberLength(text[start..]) == buf - start
    ensures text[start..][..buf - start] == text[start..buf] && text[start..][buf - start..] == text[buf..]
  {
    RunLength(text[start..][1..], buf - start - 1);
  }

  lemma TooLong(text: string, start: nat, buf: nat)
    requires start + BUFFER <= buf <= |text| && forall i | start < i < buf :: IsDigit(text[i])
    ensures NumberLength(text[start..]) >= BUFFER
  {
    var s := text[start..][1..];
    assert forall i | 0 <= i < buf - start - 1 :: IsDigit(s[i]);
    if DigitRun(s) < buf - start - 1 { assert false; }
  }
}
