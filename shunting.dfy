/**
 * Tokenizer and infix-to-postfix converter of other/shunting.py (Dijkstra's
 * shunting-yard algorithm).
 *
 * Operators are the characters of `MathOps`; an operator's precedence is its index
 * in that string, so `-` binds weakest and `^` strongest, and `+` binds more
 * strongly than `-`.
 */
module Shunting {
  import opened Wrappers

  const MathOps: string := "-+/x^"
  const Brackets: string := "()"

  /** A token: a non-negative integer literal or a one-character operator or bracket. */
  datatype Token = Num(value: nat) | Sym(symbol: char)

  /** A character of `DIGITS`. */
  predicate IsDigit(c: char) { '0' <= c <= '9' }

  /** A character of `MATHOPS`. */
  predicate IsOperator(c: char) { c == '-' || c == '+' || c == '/' || c == 'x' || c == '^' }

  /** A character of `BRACKETS`. */
  predicate IsBracket(c: char) { c == '(' || c == ')' }

  /** The two predicates name exactly the characters of `MATHOPS` and `BRACKETS`. */
  lemma CharacterClasses(c: char)
    ensures IsOperator(c) <==> c in MathOps
    ensures IsBracket(c) <==> c in Brackets
  {
    assert MathOps == ['-', '+', '/', 'x', '^'] && Brackets == ['(', ')'];
  }

  /** A character `tokenize` accepts once spaces are gone. */
  predicate Allowed(c: char) { IsDigit(c) || IsOperator(c) || IsBracket(c) }

  function DigitValue(c: char): (d: nat)
    requires IsDigit(c)
    ensures d < 10
  {
    c as int - '0' as int
  }

  function DigitChar(d: nat): (c: char)
    requires d < 10
    ensures IsDigit(c) && DigitValue(c) == d
  {
    ('0' as int + d) as char
  }

  /** `int(tok)` for a string of decimal digits, most significant first. */
  function DecimalValue(t: string): nat
    requires forall i :: 0 <= i < |t| ==> IsDigit(t[i])
  {
    if t == [] then 0 else DecimalValue(t[..|t| - 1]) * 10 + DigitValue(t[|t| - 1])
  }

  /** The shortest decimal spelling of `n`. */
  function Spelling(n: nat): (t: string)
    ensures |t| > 0 && forall i :: 0 <= i < |t| ==> IsDigit(t[i])
  {
    if n < 10 then [DigitChar(n)] else Spelling(n / 10) + [DigitChar(n % 10)]
  }

  /** Reading back the spelling of a number gives the number. */
  lemma {:induction false} SpellingRoundTrip(n: nat)
    ensures DecimalValue(Spelling(n)) == n
  {
    if n >= 10 {
      SpellingRoundTrip(n / 10);
      var t := Spelling(n);
      assert t[..|t| - 1] == Spelling(n / 10);
    }
  }

  /** `s.replace(' ', '')`. */
  function Strip(s: string): (r: string)
    ensures forall i :: 0 <= i < |r| ==> r[i] != ' '
    ensures |r| <= |s|
  {
    if s == [] then []
    else Strip(s[..|s| - 1]) + (if s[|s| - 1] == ' ' then [] else [s[|s| - 1]])
  }

  /** Removing spaces keeps every other character, as often as it occurs. */
  lemma {:induction false} StripKeeps(s: string)
    ensures multiset(Strip(s)) == multiset(s)[' ' := 0]
  {
    if s != [] {
      StripKeeps(s[..|s| - 1]);
      assert s == s[..|s| - 1] + [s[|s| - 1]];
    }
  }

  /** A string without spaces is left as it is. */
  lemma {:induction false} StripNoSpaces(s: string)
    requires forall i :: 0 <= i < |s| ==> s[i] != ' '
    ensures Strip(s) == s
  {
    if s != [] {
      StripNoSpaces(s[..|s| - 1]);
    }
  }

  /** Length of the run of digits at the start of `t`. */
  function DigitRun(t: string): (k: nat)
    ensures k <= |t|
    ensures forall i :: 0 <= i < k ==> IsDigit(t[i])
    ensures k < |t| ==> !IsDigit(t[k])
  {
    if t == [] || !IsDigit(t[0]) then 0 else 1 + DigitRun(t[1..])
  }

  /** A digit prefix of length `k` that is followed by a non-digit, or by nothing, is the whole run. */
  lemma {:induction false} DigitRunExact(t: string, k: nat)
    requires k <= |t| && (forall i :: 0 <= i < k ==> IsDigit(t[i])) && (k < |t| ==> !IsDigit(t[k]))
    ensures DigitRun(t) == k
  {
    if k > 0 {
      DigitRunExact(t[1..], k - 1);
    }
  }

  function Prepend(toks: seq<Token>, r: Result<seq<Token>, char>): Result<seq<Token>, char>
  {
    match r
    case Ok(rest) => Ok(toks + rest)
    case Err(c) => Err(c)
  }

  /**
   * What `tokenize` yields for a string without spaces: one `Num` per maximal run of
   * digits, one `Sym` per operator or bracket, in order; the first other character is
   * the `ValueError`.
   */
  function Lex(t: string): (r: Result<seq<Token>, char>)
    ensures r.Err? ==> r.error in t && !IsDigit(r.error) && !IsOperator(r.error) && !IsBracket(r.error)
    decreases |t|
  {
    if t == [] then Ok([])
    else if IsDigit(t[0]) then
      var k := DigitRun(t);
      Prepend([Num(DecimalValue(t[..k]))], Lex(t[k..]))
    else if IsOperator(t[0]) || IsBracket(t[0]) then Prepend([Sym(t[0])], Lex(t[1..]))
    else Err(t[0])
  }

  lemma PrependAppend(toks: seq<Token>, x: Token, r: Result<seq<Token>, char>)
    ensures Prepend(toks, Prepend([x], r)) == Prepend(toks + [x], r)
  {
    if r.Ok? {
      assert toks + ([x] + r.value) == (toks + [x]) + r.value;
    }
  }

  /** Tokenizing from a digit: the whole run becomes one number, then tokenizing resumes after it. */
  lemma LexDigits(t: string, idx: nat, next: nat)
    requires idx < next <= |t| && next - idx == DigitRun(t[idx..])
    ensures Lex(t[idx..]) == Prepend([Num(DecimalValue(t[idx..next]))], Lex(t[next..]))
  {
    var u := t[idx..];
    assert u[..next - idx] == t[idx..next] && u[next - idx..] == t[next..];
  }

  /** Tokenizing from an operator or a bracket: one symbol, then tokenizing resumes after it. */
  lemma LexSymbol(t: string, idx: nat)
    requires idx < |t| && !IsDigit(t[idx]) && (IsOperator(t[idx]) || IsBracket(t[idx]))
    ensures Lex(t[idx..]) == Prepend([Sym(t[idx])], Lex(t[idx + 1..]))
  {
    assert t[idx..][1..] == t[idx + 1..];
  }

  /** The inner `while` of `tokenize` (other/shunting.py:12-15): the digits from `idx` on. */
  method ReadDigits(t: string, idx: nat) returns (tok: string, next: nat)
    requires idx < |t| && IsDigit(t[idx])
    ensures idx < next <= |t| && tok == t[idx..next] && next - idx == DigitRun(t[idx..])
    ensures forall i :: 0 <= i < |tok| ==> IsDigit(tok[i])
  {
    tok, next := "", idx;
    while next < |t| && IsDigit(t[next])
      invariant idx <= next <= |t| && |tok| == next - idx
      invariant forall k :: 0 <= k < |tok| ==> tok[k] == t[idx + k] && IsDigit(tok[k])
    {
      tok := tok + [t[next]];
      next := next + 1;
    }
    assert tok == t[idx..next];
    assert next - idx == DigitRun(t[idx..]) by {
      DigitRunExact(t[idx..], next - idx);
    }
  }

  /** `tokenize(s)` (other/shunting.py:6-22); `Err(c)` is the `ValueError` naming character `c`. */
  method Tokenize(s: string) returns (r: Result<seq<Token>, char>)
    ensures r == Lex(Strip(s))
  {
    var t := Strip(s);
    var idx, n := 0, |t|;
    var toks: seq<Token> := [];
    assert Prepend(toks, Lex(t[idx..])) == Lex(t) by {
      assert t[idx..] == t;
      if Lex(t).Ok? { assert toks + Lex(t).value == Lex(t).value; }
    }
    while idx < n
      invariant 0 <= idx <= n
      invariant Lex(t) == Prepend(toks, Lex(t[idx..]))
    {
      if IsDigit(t[idx]) {
        var tok, next := ReadDigits(t, idx);
        LexDigits(t, idx, next);
        PrependAppend(toks, Num(DecimalValue(tok)), Lex(t[next..]));
        toks := toks + [Num(DecimalValue(tok))];
        idx := next;
      } else if IsOperator(t[idx]) || IsBracket(t[idx]) {
        LexSymbol(t, idx);
        PrependAppend(toks, Sym(t[idx]), Lex(t[idx + 1..]));
        toks := toks + [Sym(t[idx])];
        idx := idx + 1;
      } else {
        return Err(t[idx]);
      }
    }
    assert t[idx..] == [];
    assert toks + [] == toks;
    return Ok(toks);
  }

  predicate AllAllowed(t: string)
  {
    forall i :: 0 <= i < |t| ==> Allowed(t[i])
  }

  /** `c` is the first character of `t` that is not accepted. */
  predicate FirstRejected(t: string, c: char)
  {
    exists i :: 0 <= i < |t| && t[i] == c && !Allowed(t[i]) && forall j :: 0 <= j < i ==> Allowed(t[j])
  }

  lemma RejectedShift(t: string, k: nat)
    requires 0 < k <= |t| && forall j :: 0 <= j < k ==> Allowed(t[j])
    ensures AllAllowed(t[k..]) <==> AllAllowed(t)
    ensures forall c :: FirstRejected(t[k..], c) ==> FirstRejected(t, c)
  {
    var u := t[k..];
    forall c | FirstRejected(u, c) ensures FirstRejected(t, c) {
      var i :| 0 <= i < |u| && u[i] == c && !Allowed(u[i]) && forall j :: 0 <= j < i ==> Allowed(u[j]);
      assert forall j :: 0 <= j < k + i ==> Allowed(t[j]) by {
        forall j | 0 <= j < k + i ensures Allowed(t[j]) {
          if j >= k { assert t[j] == u[j - k]; }
        }
      }
      assert t[k + i] == u[i];
    }
    if AllAllowed(u) {
      forall j | 0 <= j < |t| ensures Allowed(t[j]) {
        if j >= k { assert t[j] == u[j - k]; }
      }
    }
  }

  /** Tokenizing succeeds exactly when every character is accepted; otherwise the error names the first rejected one. */
  lemma {:induction false} LexError(t: string)
    ensures Lex(t).Ok? <==> AllAllowed(t)
    ensures Lex(t).Err? ==> FirstRejected(t, Lex(t).error)
    decreases |t|
  {
    if t != [] {
      if Allowed(t[0]) {
        var k := if IsDigit(t[0]) then DigitRun(t) else 1;
        LexError(t[k..]);
        RejectedShift(t, k);
      } else {
        assert t[0] == Lex(t).error;
      }
    }
  }

  /**
   * A token sequence `tokenize` can produce: symbols are operators or brackets, and no
   * two numbers are adjacent (a run of digits is always read whole).
   */
  predicate WellSpaced(toks: seq<Token>)
  {
    (forall i :: 0 <= i < |toks| && toks[i].Sym? ==> IsOperator(toks[i].symbol) || IsBracket(toks[i].symbol)) &&
    (forall i :: 0 <= i < |toks| - 1 ==> !(toks[i].Num? && toks[i + 1].Num?))
  }

  /** Writing tokens back out: numbers in their shortest spelling, symbols as themselves. */
  function Render(toks: seq<Token>): string
  {
    if toks == [] then ""
    else (match toks[0] case Num(n) => Spelling(n) case Sym(c) => [c]) + Render(toks[1..])
  }

  /** Everything `tokenize` returns is well spaced. */
  lemma {:induction false} LexWellSpaced(t: string)
    requires Lex(t).Ok?
    ensures WellSpaced(Lex(t).value)
    decreases |t|
  {
    if t != [] {
      var k := if IsDigit(t[0]) then DigitRun(t) else 1;
      LexWellSpaced(t[k..]);
      var rest := Lex(t[k..]).value;
      if IsDigit(t[0]) && rest != [] {
        // The run stopped at a non-digit, which starts the next token as a symbol.
        assert t[k..][0] == t[k] && !IsDigit(t[k]);
        assert rest[0].Sym?;
      }
    }
  }

  /** Tokenizing what `Render` writes gives back the same tokens. */
  lemma {:induction false} LexRender(toks: seq<Token>)
    requires WellSpaced(toks)
    ensures Lex(Render(toks)) == Ok(toks)
    decreases |toks|
  {
    if toks != [] {
      var tail := toks[1..];
      assert WellSpaced(tail) by {
        forall i | 0 <= i < |tail| - 1 ensures !(tail[i].Num? && tail[i + 1].Num?) {
          assert tail[i] == toks[i + 1] && tail[i + 1] == toks[i + 2];
        }
      }
      LexRender(tail);
      assert toks == [toks[0]] + tail;
      match toks[0]
      case Num(n) =>
        if tail != [] {
          assert tail[0] == toks[1];
        }
        LexNumberThen(n, tail);
      case Sym(c) =>
        LexSymbolThen(c, tail);
    }
  }

  lemma LexNumberThen(n: nat, tail: seq<Token>)
    requires Lex(Render(tail)) == Ok(tail)
    requires tail != [] ==> tail[0].Sym? && (IsOperator(tail[0].symbol) || IsBracket(tail[0].symbol))
    ensures Lex(Spelling(n) + Render(tail)) == Ok([Num(n)] + tail)
  {
    var sp, r := Spelling(n), Render(tail);
    var u := sp + r;
    if tail != [] {
      assert u[|sp|] == r[0] == tail[0].symbol;
    }
    DigitRunExact(u, |sp|);
    assert u[..|sp|] == sp && u[|sp|..] == r;
    SpellingRoundTrip(n);
  }

  lemma LexSymbolThen(c: char, tail: seq<Token>)
    requires Lex(Render(tail)) == Ok(tail)
    requires IsOperator(c) || IsBracket(c)
    ensures Lex([c] + Render(tail)) == Ok([Sym(c)] + tail)
  {
    var u := [c] + Render(tail);
    assert u[0] == c && u[1..] == Render(tail);
  }

  /** Which popping the arriving operator does: as written, or stopping at an open bracket. */
  datatype Popping = AsWritten | StopAtBracket

  /** The operator stack (operators and `(`) and the output queue. */
  datatype State = State(stack: seq<char>, out: seq<Token>)

  /**
   * The `ValueError`s `rpn` raises: an unexpected character from `tokenize`, an operator
   * whose popping reaches `(` (`MATHOPS.index('(')`), and a `)` without its `(`.
   */
  datatype RpnError = Unexpected(c: char) | BracketNotOperator | UnmatchedClosing

  /** `MATHOPS.index(c)`: the precedence of operator `c`. */
  function OpIndex(c: char): (i: nat)
    requires IsOperator(c)
    ensures i < |MathOps| && MathOps[i] == c && forall j :: 0 <= j < i ==> MathOps[j] != c
  {
    if c == '-' then 0 else if c == '+' then 1 else if c == '/' then 2 else if c == 'x' then 3 else 4
  }

  function Top(stack: seq<char>): char
    requires stack != []
  {
    stack[|stack| - 1]
  }

  function Pop(st: State): State
    requires st.stack != []
  {
    State(st.stack[..|st.stack| - 1], st.out + [Sym(Top(st.stack))])
  }

  /**
   * The `while` of line 38: move stacked operators of higher precedence than `prio` to
   * the output. As written, meeting `(` evaluates `MATHOPS.index('(')`.
   */
  function PopGreater(how: Popping, prio: nat, st: State): Result<State, RpnError>
    decreases |st.stack|
  {
    if st.stack == [] then Ok(st)
    else if !IsOperator(Top(st.stack)) then (if how == AsWritten then Err(BracketNotOperator) else Ok(st))
    else if prio < OpIndex(Top(st.stack)) then PopGreater(how, prio, Pop(st))
    else Ok(st)
  }

  /** An arriving operator (other/shunting.py:35-40). */
  function PushOperator(how: Popping, c: char, st: State): Result<State, RpnError>
    requires IsOperator(c)
  {
    var popped := if st.stack != [] && IsOperator(Top(st.stack)) then PopGreater(how, OpIndex(c), st) else Ok(st);
    match popped
    case Ok(st') => Ok(State(st'.stack + [c], st'.out))
    case Err(e) => Err(e)
  }

  /** The `while` of line 45: move everything above the nearest `(` to the output. */
  function PopToOpen(st: State): State
    decreases |st.stack|
  {
    if st.stack == [] || Top(st.stack) == '(' then st else PopToOpen(Pop(st))
  }

  /** A closing bracket (other/shunting.py:44-50). */
  function CloseBracket(st: State): Result<State, RpnError>
  {
    var st' := PopToOpen(st);
    if st'.stack == [] || Top(st'.stack) != '(' then Err(UnmatchedClosing)
    else Ok(State(st'.stack[..|st'.stack| - 1], st'.out))
  }

  /** One token of the main loop (other/shunting.py:32-50). */
  function Step(how: Popping, st: State, tok: Token): Result<State, RpnError>
  {
    match tok
    case Num(_) => Ok(State(st.stack, st.out + [tok]))
    case Sym(c) =>
      if IsOperator(c) then PushOperator(how, c, st)
      else if IsBracket(c) then (if c == '(' then Ok(State(st.stack + ['('], st.out)) else CloseBracket(st))
      else Ok(st)
  }

  function Run(how: Popping, toks: seq<Token>, st: State): Result<State, RpnError>
    decreases |toks|
  {
    if toks == [] then Ok(st)
    else
      match Step(how, st, toks[0])
      case Ok(st') => Run(how, toks[1..], st')
      case Err(e) => Err(e)
  }

  /** The final `while` (other/shunting.py:51-52): the stack, top first, goes to the output. */
  function Flush(st: State): seq<Token>
    decreases |st.stack|
  {
    if st.stack == [] then st.out else Flush(Pop(st))
  }

  /** The output queue `rpn` returns for a token sequence. */
  function Convert(how: Popping, toks: seq<Token>): Result<seq<Token>, RpnError>
  {
    match Run(how, toks, State([], []))
    case Ok(st) => Ok(Flush(st))
    case Err(e) => Err(e)
  }

  /** `rpn(exp)` (other/shunting.py:25-53), with the popping of line 38 stopping at `(`. */
  method Rpn(exp: string) returns (r: Result<seq<Token>, RpnError>)
    ensures r == match Lex(Strip(exp)) case Err(c) => Err(Unexpected(c)) case Ok(toks) => Convert(StopAtBracket, toks)
  {
    var lexed := Tokenize(exp);
    if lexed.Err? {
      return Err(Unexpected(lexed.error));
    }
    var toks := lexed.value;
    var stack: seq<char>, out: seq<Token> := [], [];
    var i := 0;
    while i < |toks|
      invariant 0 <= i <= |toks|
      invariant Run(StopAtBracket, toks[i..], State(stack, out)) == Run(StopAtBracket, toks, State([], []))
    {
      var tok := toks[i];
      ghost var st := State(stack, out);
      assert toks[i..][0] == tok && toks[i..][1..] == toks[i + 1..];
      match tok {
        case Num(_) =>
          out := out + [tok];
        case Sym(c) =>
          if IsOperator(c) {
            var prio := OpIndex(c);
            if stack != [] && IsOperator(Top(stack)) {
              while stack != [] && IsOperator(Top(stack)) && prio < OpIndex(Top(stack))
                invariant PopGreater(StopAtBracket, prio, State(stack, out)) == PopGreater(StopAtBracket, prio, st)
                decreases |stack|
              {
                out := out + [Sym(Top(stack))];
                stack := stack[..|stack| - 1];
              }
            }
            stack := stack + [c];
          } else if IsBracket(c) {
            if c == '(' {
              stack := stack + ['('];
            } else {
              while stack != [] && Top(stack) != '('
                invariant PopToOpen(State(stack, out)) == PopToOpen(st)
                decreases |stack|
              {
                out := out + [Sym(Top(stack))];
                stack := stack[..|stack| - 1];
              }
              if stack == [] || Top(stack) != '(' {
                return Err(UnmatchedClosing);
              }
              stack := stack[..|stack| - 1];
            }
          }
      }
      i := i + 1;
    }
    ghost var last := State(stack, out);
    while stack != []
      invariant Flush(State(stack, out)) == Flush(last)
      decreases |stack|
    {
      out := out + [Sym(Top(stack))];
      stack := stack[..|stack| - 1];
    }
    return Ok(out);
  }

  function NumberOf(tok: Token): seq<nat>
  {
    match tok case Num(n) => [n] case Sym(_) => []
  }

  function OperatorOf(tok: Token): multiset<char>
  {
    match tok case Sym(c) => if IsOperator(c) then multiset{c} else multiset{} case Num(_) => multiset{}
  }

  /** The integers among the tokens, in order. */
  function Numbers(toks: seq<Token>): seq<nat>
  {
    if toks == [] then [] else Numbers(toks[..|toks| - 1]) + NumberOf(toks[|toks| - 1])
  }

  /** The operator characters among the tokens, counted with multiplicity. */
  function Operators(toks: seq<Token>): multiset<char>
  {
    if toks == [] then multiset{} else Operators(toks[..|toks| - 1]) + OperatorOf(toks[|toks| - 1])
  }

  /** The operator characters on a stack, counted with multiplicity. */
  function StackOperators(stack: seq<char>): multiset<char>
  {
    if stack == [] then multiset{}
    else StackOperators(stack[..|stack| - 1]) + (if IsOperator(Top(stack)) then multiset{Top(stack)} else multiset{})
  }

  function Total(st: State): multiset<char>
  {
    Operators(st.out) + StackOperators(st.stack)
  }

  predicate NoClose(st: State)
  {
    ')' !in st.stack && Sym(')') !in st.out
  }

  lemma {:induction false} NumbersAppend(a: seq<Token>, b: seq<Token>)
    ensures Numbers(a + b) == Numbers(a) + Numbers(b)
    decreases |b|
  {
    if b == [] {
      assert a + b == a;
    } else {
      var b' := b[..|b| - 1];
      var x := b[|b| - 1];
      assert (a + b)[..|a + b| - 1] == a + b' && (a + b)[|a + b| - 1] == x;
      calc {
        Numbers(a + b);
        Numbers(a + b') + NumberOf(x);
        { NumbersAppend(a, b'); }
        (Numbers(a) + Numbers(b')) + NumberOf(x);
        Numbers(a) + (Numbers(b') + NumberOf(x));
        Numbers(a) + Numbers(b);
      }
    }
  }

  lemma {:induction false} OperatorsAppend(a: seq<Token>, b: seq<Token>)
    ensures Operators(a + b) == Operators(a) + Operators(b)
    decreases |b|
  {
    if b == [] {
      assert a + b == a;
    } else {
      var b' := b[..|b| - 1];
      var x := b[|b| - 1];
      assert (a + b)[..|a + b| - 1] == a + b' && (a + b)[|a + b| - 1] == x;
      calc {
        Operators(a + b);
        Operators(a + b') + OperatorOf(x);
        { OperatorsAppend(a, b'); }
        (Operators(a) + Operators(b')) + OperatorOf(x);
        Operators(a) + (Operators(b') + OperatorOf(x));
        Operators(a) + Operators(b);
      }
    }
  }

  /** From `st` to `st'`, the tokens `toks` went in: their numbers in order, their operators, and no `)` came out. */
  ghost predicate Conserves(st: State, st': State, toks: seq<Token>)
  {
    Numbers(st'.out) == Numbers(st.out) + Numbers(toks) &&
    Total(st') == Total(st) + Operators(toks) &&
    (NoClose(st) ==> NoClose(st'))
  }

  lemma PopConserves(st: State)
    requires st.stack != []
    ensures Conserves(st, Pop(st), [])
  {
    var st' := Pop(st);
    assert st'.out[..|st'.out| - 1] == st.out;
    assert Numbers([]) == [] && Numbers(st.out) + [] == Numbers(st.out);
  }

  lemma {:induction false} PopGreaterConserves(how: Popping, prio: nat, st: State)
    requires PopGreater(how, prio, st).Ok?
    ensures Conserves(st, PopGreater(how, prio, st).value, [])
    decreases |st.stack|
  {
    if st.stack != [] && IsOperator(Top(st.stack)) && prio < OpIndex(Top(st.stack)) {
      PopConserves(st);
      PopGreaterConserves(how, prio, Pop(st));
    } else {
      assert Numbers(st.out) + Numbers([]) == Numbers(st.out);
    }
  }

  lemma {:induction false} PopToOpenConserves(st: State)
    ensures Conserves(st, PopToOpen(st), [])
    decreases |st.stack|
  {
    if st.stack == [] || Top(st.stack) == '(' {
      assert Numbers(st.out) + Numbers([]) == Numbers(st.out);
    } else {
      PopConserves(st);
      PopToOpenConserves(Pop(st));
    }
  }

  lemma PushConserves(st: State, st': State, c: char)
    requires IsOperator(c) && st' == State(st.stack + [c], st.out)
    ensures Conserves(st, st', [Sym(c)])
  {
    assert [Sym(c)][..0] == [];
    assert st'.stack[..|st'.stack| - 1] == st.stack;
  }

  lemma OperatorConserves(how: Popping, st: State, c: char)
    requires IsOperator(c) && PushOperator(how, c, st).Ok?
    ensures Conserves(st, PushOperator(how, c, st).value, [Sym(c)])
  {
    var st1 := if st.stack != [] && IsOperator(Top(st.stack)) then PopGreater(how, OpIndex(c), st).value else st;
    if st.stack != [] && IsOperator(Top(st.stack)) {
      PopGreaterConserves(how, OpIndex(c), st);
    } else {
      assert Numbers(st.out) + Numbers([]) == Numbers(st.out);
    }
    PushConserves(st1, PushOperator(how, c, st).value, c);
  }

  lemma OpenConserves(st: State)
    ensures Conserves(st, State(st.stack + ['('], st.out), [Sym('(')])
  {
    assert [Sym('(')][..0] == [];
    var st' := State(st.stack + ['('], st.out);
    assert st'.stack[..|st'.stack| - 1] == st.stack;
  }

  lemma CloseConserves(st: State)
    requires CloseBracket(st).Ok?
    ensures Conserves(st, CloseBracket(st).value, [Sym(')')])
  {
    var st1 := PopToOpen(st);
    var st' := CloseBracket(st).value;
    assert Conserves(st, st1, []) by { PopToOpenConserves(st); }
    assert st'.out == st1.out && st1.stack[..|st1.stack| - 1] == st'.stack && Top(st1.stack) == '(';
    assert Numbers([Sym(')')]) == [] && Operators([Sym(')')]) == multiset{} by {
      assert [Sym(')')][..0] == [];
    }
    DropOpen(st1.stack);
  }

  /** Removing the `(` on top of a stack removes no operator and no `)`. */
  lemma DropOpen(stack: seq<char>)
    requires stack != [] && Top(stack) == '('
    ensures StackOperators(stack[..|stack| - 1]) == StackOperators(stack)
    ensures ')' in stack[..|stack| - 1] ==> ')' in stack
  {
    assert !IsOperator('(');
  }

  lemma NumberConserves(st: State, n: nat)
    ensures Conserves(st, State(st.stack, st.out + [Num(n)]), [Num(n)])
  {
    assert [Num(n)][..0] == [];
    assert (st.out + [Num(n)])[..|st.out|] == st.out;
  }

  lemma OtherConserves(st: State, c: char)
    requires !IsOperator(c)
    ensures Conserves(st, st, [Sym(c)])
  {
    assert [Sym(c)][..0] == [];
    assert Numbers(st.out) + [] == Numbers(st.out);
  }

  lemma StepConserves(how: Popping, st: State, tok: Token)
    requires Step(how, st, tok).Ok?
    ensures Conserves(st, Step(how, st, tok).value, [tok])
  {
    match tok
    case Num(n) => NumberConserves(st, n);
    case Sym(c) =>
      if IsOperator(c) {
        OperatorConserves(how, st, c);
      } else if IsBracket(c) && c == '(' {
        OpenConserves(st);
      } else if IsBracket(c) {
        CloseConserves(st);
      } else {
        OtherConserves(st, c);
      }
  }

  lemma ConservesChain(st: State, st1: State, st2: State, tok: Token, rest: seq<Token>)
    requires Conserves(st, st1, [tok]) && Conserves(st1, st2, rest)
    ensures Conserves(st, st2, [tok] + rest)
  {
    NumbersChain(Numbers(st.out), Numbers(st1.out), Numbers(st2.out), tok, rest);
    OperatorsChain(Total(st), Total(st1), Total(st2), tok, rest);
  }

  lemma NumbersChain(a: seq<nat>, b: seq<nat>, c: seq<nat>, tok: Token, rest: seq<Token>)
    requires b == a + Numbers([tok]) && c == b + Numbers(rest)
    ensures c == a + Numbers([tok] + rest)
  {
    calc {
      c;
      (a + Numbers([tok])) + Numbers(rest);
      a + (Numbers([tok]) + Numbers(rest));
      { NumbersAppend([tok], rest); }
      a + Numbers([tok] + rest);
    }
  }

  lemma OperatorsChain(a: multiset<char>, b: multiset<char>, c: multiset<char>, tok: Token, rest: seq<Token>)
    requires b == a + Operators([tok]) && c == b + Operators(rest)
    ensures c == a + Operators([tok] + rest)
  {
    OperatorsAppend([tok], rest);
  }

  lemma {:induction false} RunConserves(how: Popping, toks: seq<Token>, st: State, st': State)
    requires Run(how, toks, st) == Ok(st')
    ensures Conserves(st, st', toks)
    decreases |toks|
  {
    if toks == [] {
      assert Numbers(st.out) + Numbers([]) == Numbers(st.out);
    } else {
      var st1 := Step(how, st, toks[0]).value;
      assert Conserves(st, st1, [toks[0]]) by {
        StepConserves(how, st, toks[0]);
      }
      assert Conserves(st1, st', toks[1..]) by {
        RunConserves(how, toks[1..], st1, st');
      }
      assert toks == [toks[0]] + toks[1..];
      ConservesChain(st, st1, st', toks[0], toks[1..]);
    }
  }

  lemma {:induction false} FlushConserves(st: State)
    ensures Numbers(Flush(st)) == Numbers(st.out) && Operators(Flush(st)) == Total(st)
    ensures NoClose(st) ==> Sym(')') !in Flush(st)
    decreases |st.stack|
  {
    if st.stack != [] {
      PopConserves(st);
      FlushConserves(Pop(st));
    }
  }

  /**
   * Whatever the conversion returns holds the input's integers in their input order and
   * each of its operators exactly once, and never a `)` (other/shunting.py:29-52).
   */
  lemma ConvertConserves(how: Popping, toks: seq<Token>)
    requires Convert(how, toks).Ok?
    ensures Numbers(Convert(how, toks).value) == Numbers(toks)
    ensures Operators(Convert(how, toks).value) == Operators(toks)
    ensures Sym(')') !in Convert(how, toks).value
  {
    var st := Run(how, toks, State([], [])).value;
    RunConserves(how, toks, State([], []), st);
    FlushConserves(st);
  }

  /** Only operators and open brackets are ever stacked. */
  predicate Shape(stack: seq<char>)
  {
    forall i :: 0 <= i < |stack| ==> IsOperator(stack[i]) || stack[i] == '('
  }

  function Opens(stack: seq<char>): nat
  {
    multiset(stack)['(']
  }

  function Delta(tok: Token): int
  {
    if tok == Sym('(') then 1 else if tok == Sym(')') then -1 else 0
  }

  /** Reading left to right from `depth` open brackets, no `)` arrives while none is open. */
  predicate ClosesMatched(toks: seq<Token>, depth: int)
    decreases |toks|
  {
    toks == [] ||
    ((toks[0] == Sym(')') ==> depth > 0) && ClosesMatched(toks[1..], depth + Delta(toks[0])))
  }

  lemma PopKeepsOpens(st: State)
    requires st.stack != [] && Top(st.stack) != '(' && Shape(st.stack)
    ensures Opens(Pop(st).stack) == Opens(st.stack) && Shape(Pop(st).stack)
  {
    assert st.stack == Pop(st).stack + [Top(st.stack)];
  }

  lemma {:induction false} PopGreaterStops(prio: nat, st: State)
    requires Shape(st.stack)
    ensures PopGreater(StopAtBracket, prio, st).Ok?
    ensures Opens(PopGreater(StopAtBracket, prio, st).value.stack) == Opens(st.stack)
    ensures Shape(PopGreater(StopAtBracket, prio, st).value.stack)
    decreases |st.stack|
  {
    if st.stack != [] && IsOperator(Top(st.stack)) && prio < OpIndex(Top(st.stack)) {
        PopKeepsOpens(st);
      PopGreaterStops(prio, Pop(st));
    }
  }

  lemma {:induction false} PopToOpenStops(st: State)
    requires Shape(st.stack)
    ensures Opens(PopToOpen(st).stack) == Opens(st.stack) && Shape(PopToOpen(st).stack)
    ensures PopToOpen(st).stack == [] || Top(PopToOpen(st).stack) == '('
    decreases |st.stack|
  {
    if st.stack != [] && Top(st.stack) != '(' {
      PopKeepsOpens(st);
      PopToOpenStops(Pop(st));
    }
  }

  lemma CloseBracketOk(st: State)
    requires Shape(st.stack)
    ensures CloseBracket(st).Ok? <==> Opens(st.stack) > 0
    ensures CloseBracket(st).Ok? ==>
      Shape(CloseBracket(st).value.stack) && Opens(CloseBracket(st).value.stack) == Opens(st.stack) - 1
  {
    var st1 := PopToOpen(st);
    PopToOpenStops(st);
    if st1.stack != [] {
      var rest := st1.stack[..|st1.stack| - 1];
      assert st1.stack == rest + ['('];
    }
  }

  lemma StepOk(st: State, tok: Token)
    requires Shape(st.stack)
    ensures Step(StopAtBracket, st, tok).Ok? <==> (tok == Sym(')') ==> Opens(st.stack) > 0)
    ensures Step(StopAtBracket, st, tok).Ok? ==>
      Shape(Step(StopAtBracket, st, tok).value.stack) &&
      Opens(Step(StopAtBracket, st, tok).value.stack) == Opens(st.stack) + Delta(tok)
  {
    match tok
    case Num(_) =>
    case Sym(c) =>
      if IsOperator(c) {
        OperatorStepOk(st, c);
      } else if c == ')' {
        CloseBracketOk(st);
      }
  }

  lemma OperatorStepOk(st: State, c: char)
    requires Shape(st.stack) && IsOperator(c)
    ensures PushOperator(StopAtBracket, c, st).Ok?
    ensures Shape(PushOperator(StopAtBracket, c, st).value.stack)
    ensures Opens(PushOperator(StopAtBracket, c, st).value.stack) == Opens(st.stack)
  {
    var st1 := st;
    if st.stack != [] && IsOperator(Top(st.stack)) {
      PopGreaterStops(OpIndex(c), st);
      st1 := PopGreater(StopAtBracket, OpIndex(c), st).value;
    }
    assert PushOperator(StopAtBracket, c, st) == Ok(State(st1.stack + [c], st1.out));
    assert multiset(st1.stack + [c]) == multiset(st1.stack) + multiset{c};
  }

  lemma {:induction false} RunOk(toks: seq<Token>, st: State)
    requires Shape(st.stack)
    ensures Run(StopAtBracket, toks, st).Ok? <==> ClosesMatched(toks, Opens(st.stack))
    decreases |toks|
  {
    if toks != [] {
      StepOk(st, toks[0]);
      if Step(StopAtBracket, st, toks[0]).Ok? {
        RunOk(toks[1..], Step(StopAtBracket, st, toks[0]).value);
      }
    }
  }

  /** With the popping stopping at `(`, the conversion fails exactly on a `)` that has no open `(`. */
  lemma ConvertOk(toks: seq<Token>)
    ensures Convert(StopAtBracket, toks).Ok? <==> ClosesMatched(toks, 0)
  {
    RunOk(toks, State([], []));
  }

  /** The popped operators, top of the stack first. */
  function Popped(part: seq<char>): seq<Token>
  {
    if part == [] then [] else [Sym(Top(part))] + Popped(part[..|part| - 1])
  }

  /**
   * An arriving operator of precedence `prio` pops exactly the stacked operators above
   * it of strictly greater precedence, and stops at one of equal or lower precedence,
   * at `(` or at the bottom (other/shunting.py:36-39).
   */
  lemma {:induction false} PopGreaterPops(prio: nat, st: State)
    requires PopGreater(StopAtBracket, prio, st).Ok?
    ensures var st' := PopGreater(StopAtBracket, prio, st).value;
      var m := |st'.stack|;
      m <= |st.stack| && st'.stack == st.stack[..m] && st'.out == st.out + Popped(st.stack[m..]) &&
      (forall j :: m <= j < |st.stack| ==> IsOperator(st.stack[j]) && prio < OpIndex(st.stack[j])) &&
      (m > 0 ==> !IsOperator(Top(st'.stack)) || OpIndex(Top(st'.stack)) <= prio)
    decreases |st.stack|
  {
    var n := |st.stack|;
    if st.stack != [] && IsOperator(Top(st.stack)) && prio < OpIndex(Top(st.stack)) {
      PopGreaterPops(prio, Pop(st));
      PopStep(prio, st, PopGreater(StopAtBracket, prio, st).value);
    } else {
      assert st.stack[..n] == st.stack && st.stack[n..] == [];
      assert st.out + [] == st.out;
    }
  }

  /** One popped operator followed by the rest of the popping. */
  lemma PopStep(prio: nat, st: State, st': State)
    requires st.stack != [] && IsOperator(Top(st.stack)) && prio < OpIndex(Top(st.stack))
    requires var below := Pop(st).stack; var m := |st'.stack|;
      m <= |below| && st'.stack == below[..m] && st'.out == Pop(st).out + Popped(below[m..]) &&
      forall j :: m <= j < |below| ==> IsOperator(below[j]) && prio < OpIndex(below[j])
    ensures var m := |st'.stack|;
      m <= |st.stack| && st'.stack == st.stack[..m] && st'.out == st.out + Popped(st.stack[m..]) &&
      forall j :: m <= j < |st.stack| ==> IsOperator(st.stack[j]) && prio < OpIndex(st.stack[j])
  {
    var n, m := |st.stack|, |st'.stack|;
    var below := st.stack[..n - 1];
    assert below[..m] == st.stack[..m];
    var part := st.stack[m..];
    assert Top(part) == Top(st.stack) && part[..|part| - 1] == below[m..];
    assert Popped(part) == [Sym(Top(st.stack))] + Popped(below[m..]);
    assert forall j :: m <= j < n - 1 ==> below[j] == st.stack[j];
  }

  lemma {:induction false} PopGreaterAgrees(prio: nat, st: State)
    requires PopGreater(AsWritten, prio, st).Ok?
    ensures PopGreater(AsWritten, prio, st) == PopGreater(StopAtBracket, prio, st)
    decreases |st.stack|
  {
    if st.stack != [] && IsOperator(Top(st.stack)) && prio < OpIndex(Top(st.stack)) {
      PopGreaterAgrees(prio, Pop(st));
    }
  }

  lemma {:induction false} RunAgrees(toks: seq<Token>, st: State)
    requires Run(AsWritten, toks, st).Ok?
    ensures Run(AsWritten, toks, st) == Run(StopAtBracket, toks, st)
    decreases |toks|
  {
    if toks != [] {
      var tok := toks[0];
      if tok.Sym? && IsOperator(tok.symbol) && st.stack != [] && IsOperator(Top(st.stack)) {
        PopGreaterAgrees(OpIndex(tok.symbol), st);
      }
      RunAgrees(toks[1..], Step(AsWritten, st, tok).value);
    }
  }

  /** Stopping at `(` changes nothing where the code as written returns: it only removes its crash. */
  lemma ConvertAgrees(toks: seq<Token>)
    requires Convert(AsWritten, toks).Ok?
    ensures Convert(AsWritten, toks) == Convert(StopAtBracket, toks)
  {
    RunAgrees(toks, State([], []));
  }

  /**
   * The corrected popping for precedence `prio` ends on a `(`: this is where the loop of
   * line 38, as written, goes on to evaluate `MATHOPS.index('(')`.
   */
  predicate PopsToOpen(prio: nat, st: State)
  {
    match PopGreater(StopAtBracket, prio, st)
    case Ok(st') => st'.stack != [] && !IsOperator(Top(st'.stack))
    case Err(_) => false
  }

  /** Some `(` on `stack` has above it only operators of greater precedence than `prio`. */
  predicate OpenBelowGreater(prio: nat, stack: seq<char>)
  {
    exists k :: 0 <= k < |stack| && !IsOperator(stack[k]) && GreaterAbove(prio, stack, k)
  }

  predicate GreaterAbove(prio: nat, stack: seq<char>, k: nat)
  {
    forall j :: k < j < |stack| ==> IsOperator(stack[j]) && prio < OpIndex(stack[j])
  }

  /** Popping reaches `(` exactly when some `(` has above it only operators of greater precedence. */
  lemma {:induction false} PopsToOpenExact(prio: nat, st: State)
    ensures PopsToOpen(prio, st) <==> OpenBelowGreater(prio, st.stack)
    decreases |st.stack|
  {
    var n := |st.stack|;
    if n > 0 && IsOperator(Top(st.stack)) {
      var below := Pop(st).stack;
      if prio < OpIndex(Top(st.stack)) {
        PopsToOpenExact(prio, Pop(st));
        assert PopsToOpen(prio, st) == PopsToOpen(prio, Pop(st));
        if OpenBelowGreater(prio, below) {
          var k :| 0 <= k < |below| && !IsOperator(below[k]) && GreaterAbove(prio, below, k);
          assert st.stack[k] == below[k];
          assert GreaterAbove(prio, st.stack, k);
        }
        if OpenBelowGreater(prio, st.stack) {
          var k :| 0 <= k < n && !IsOperator(st.stack[k]) && GreaterAbove(prio, st.stack, k);
          assert k < n - 1 && below[k] == st.stack[k];
          assert GreaterAbove(prio, below, k);
        }
      } else {
        forall k | 0 <= k < n && !IsOperator(st.stack[k])
          ensures !GreaterAbove(prio, st.stack, k)
        {
          assert k < n - 1 && !(prio < OpIndex(st.stack[n - 1]));
        }
      }
    } else if n > 0 {
      assert GreaterAbove(prio, st.stack, n - 1);
    }
  }

  /** Operator `tok` arrives over a stacked operator, and popping for it reaches `(`. */
  predicate StepCrashes(st: State, tok: Token)
  {
    tok.Sym? && IsOperator(tok.symbol) && st.stack != [] && IsOperator(Top(st.stack)) &&
    PopsToOpen(OpIndex(tok.symbol), st)
  }

  /** The corrected conversion of `toks` from `st` comes to a crashing operator before any error. */
  predicate CrashesOn(toks: seq<Token>, st: State)
    decreases |toks|
  {
    toks != [] &&
    (StepCrashes(st, toks[0]) ||
     match Step(StopAtBracket, st, toks[0])
     case Ok(st') => CrashesOn(toks[1..], st')
     case Err(_) => false)
  }

  /** The popping as written fails exactly where the corrected one stops at `(`, and otherwise agrees with it. */
  lemma {:induction false} PopGreaterExact(prio: nat, st: State)
    ensures PopGreater(AsWritten, prio, st) ==
      if PopsToOpen(prio, st) then Err(BracketNotOperator) else PopGreater(StopAtBracket, prio, st)
    decreases |st.stack|
  {
    if st.stack != [] && IsOperator(Top(st.stack)) && prio < OpIndex(Top(st.stack)) {
      PopGreaterExact(prio, Pop(st));
    }
  }

  /** One step as written: the crash of `StepCrashes`, or the corrected step. */
  lemma StepExact(st: State, tok: Token)
    ensures Step(AsWritten, st, tok) == if StepCrashes(st, tok) then Err(BracketNotOperator) else Step(StopAtBracket, st, tok)
  {
    if tok.Sym? && IsOperator(tok.symbol) && st.stack != [] && IsOperator(Top(st.stack)) {
      PopGreaterExact(OpIndex(tok.symbol), st);
    }
  }

  lemma {:induction false} RunExact(toks: seq<Token>, st: State)
    ensures Run(AsWritten, toks, st) == if CrashesOn(toks, st) then Err(BracketNotOperator) else Run(StopAtBracket, toks, st)
    decreases |toks|
  {
    if toks != [] {
      StepExact(st, toks[0]);
      if !StepCrashes(st, toks[0]) && Step(StopAtBracket, st, toks[0]).Ok? {
        RunExact(toks[1..], Step(StopAtBracket, st, toks[0]).value);
      }
    }
  }

  /**
   * `rpn` as written raises `ValueError` from `MATHOPS.index('(')` exactly when the
   * corrected conversion meets an operator whose popping runs down to a `(`, before any
   * unmatched `)`; on every other input the two return the same result.
   */
  lemma ConvertExact(toks: seq<Token>)
    ensures Convert(AsWritten, toks) ==
      if CrashesOn(toks, State([], [])) then Err(BracketNotOperator) else Convert(StopAtBracket, toks)
  {
    RunExact(toks, State([], []));
  }

  const Example: seq<Token> := [Sym('('), Num(2), Sym('^'), Num(3), Sym('-'), Num(1), Sym(')')]

  /** `tokenize('(2^3-1)')`. */
  lemma LexExample()
    ensures Lex("(2^3-1)") == Ok(Example)
  {
    RenderExample();
    LexRender(Example);
  }

  lemma RenderExampleTail()
    ensures Render(Example[3..]) == "3-1)"
  {
    assert Spelling(1) == "1" && Spelling(3) == "3";
    assert Render(Example[6..]) == ")";
    assert Render(Example[5..]) == "1)";
    assert Render(Example[4..]) == "-1)";
  }

  lemma RenderExample()
    ensures WellSpaced(Example) && Render(Example) == "(2^3-1)"
  {
    assert WellSpaced(Example);
    assert Spelling(1) == "1" && Spelling(2) == "2" && Spelling(3) == "3";
    RenderExampleTail();
    assert Render(Example[2..]) == "^3-1)";
    assert Render(Example[1..]) == "2^3-1)";
    assert Render(Example) == "(2^3-1)";
  }

  lemma RunFirst(how: Popping, toks: seq<Token>, st: State, st': State)
    requires toks != [] && Step(how, st, toks[0]) == Ok(st')
    ensures Run(how, toks, st) == Run(how, toks[1..], st')
  {
  }

  /** The first four tokens of the example, `( 2 ^ 3`, leave `( ^` stacked and `2 3` output. */
  lemma ExamplePrefix(how: Popping)
    ensures Run(how, Example, State([], [])) == Run(how, Example[4..], State(['(', '^'], [Num(2), Num(3)]))
  {
    var s0 := State([], []);
    var s1 := State(s0.stack + ['('], s0.out);
    var s2 := State(s1.stack, s1.out + [Num(2)]);
    var s3 := State(s2.stack + ['^'], s2.out);
    var s4 := State(s3.stack, s3.out + [Num(3)]);
    assert Example[0] == Sym('(') && Example[1] == Num(2) && Example[2] == Sym('^') && Example[3] == Num(3);
    RunFirst(how, Example, s0, s1);
    assert Example[1..][1..] == Example[2..] && Example[2..][1..] == Example[3..] && Example[3..][1..] == Example[4..];
    RunFirst(how, Example[1..], s1, s2);
    RunFirst(how, Example[2..], s2, s3);
    RunFirst(how, Example[3..], s3, s4);
    assert s4 == State(['(', '^'], [Num(2), Num(3)]);
  }

  /**
   * `(2^3-1)`: as written, `-` pops `^`, then evaluates `MATHOPS.index('(')` and raises
   * (other/shunting.py:38).
   */
  lemma BracketCrash()
    ensures Convert(AsWritten, Example) == Err(BracketNotOperator)
  {
    var s4 := State(['(', '^'], [Num(2), Num(3)]);
    ExamplePrefix(AsWritten);
    assert Example[4] == Sym('-');
    assert Top(s4.stack) == '^' && Pop(s4).stack == ['('];
    assert PopGreater(AsWritten, 0, s4) == Err(BracketNotOperator);
  }

  /** `-` arriving over `( ^` pops `^` and stops at `(`. */
  lemma MinusStep()
    ensures Step(StopAtBracket, State(['(', '^'], [Num(2), Num(3)]), Sym('-')) ==
      Ok(State(['(', '-'], [Num(2), Num(3), Sym('^')]))
  {
    var s4 := State(['(', '^'], [Num(2), Num(3)]);
    var p := Pop(s4);
    assert IsOperator('-') && OpIndex('-') == 0;
    assert Top(s4.stack) == '^' && IsOperator('^') && OpIndex('^') == 4;
    assert p.stack == ['('] && p.out == [Num(2), Num(3), Sym('^')];
    assert !IsOperator(Top(p.stack));
    assert PopGreater(StopAtBracket, 0, p) == Ok(p);
    assert PopGreater(StopAtBracket, 0, s4) == Ok(p);
    assert PushOperator(StopAtBracket, '-', s4) == Ok(State(p.stack + ['-'], p.out));
    assert p.stack + ['-'] == ['(', '-'];
  }

  /** `)` over `( -` pops `-` and discards `(`. */
  lemma CloseStep()
    ensures Step(StopAtBracket, State(['(', '-'], [Num(2), Num(3), Sym('^'), Num(1)]), Sym(')')) ==
      Ok(State([], [Num(2), Num(3), Sym('^'), Num(1), Sym('-')]))
  {
    var s6 := State(['(', '-'], [Num(2), Num(3), Sym('^'), Num(1)]);
    var p := Pop(s6);
    assert !IsOperator(')') && IsBracket(')');
    assert Top(s6.stack) == '-' && p.stack == ['('] && p.out == [Num(2), Num(3), Sym('^'), Num(1), Sym('-')];
    assert Top(p.stack) == '(' && PopToOpen(p) == p;
    assert PopToOpen(s6) == p;
    assert p.stack[..0] == [];
    assert CloseBracket(s6) == Ok(State([], p.out));
  }

  /** Stopping at `(` converts `(2^3-1)` to `2 3 ^ 1 -`. */
  lemma BracketFixed()
    ensures Convert(StopAtBracket, Example) == Ok([Num(2), Num(3), Sym('^'), Num(1), Sym('-')])
  {
    var s4 := State(['(', '^'], [Num(2), Num(3)]);
    var s5 := State(['(', '-'], [Num(2), Num(3), Sym('^')]);
    var s6 := State(['(', '-'], [Num(2), Num(3), Sym('^'), Num(1)]);
    var s7 := State([], [Num(2), Num(3), Sym('^'), Num(1), Sym('-')]);
    ExamplePrefix(StopAtBracket);
    assert Example[4..] == [Sym('-'), Num(1), Sym(')')];
    MinusStep();
    RunFirst(StopAtBracket, Example[4..], s4, s5);
    assert Example[4..][1..] == [Num(1), Sym(')')];
    assert s6 == State(s5.stack, s5.out + [Num(1)]);
    RunFirst(StopAtBracket, Example[4..][1..], s5, s6);
    assert Example[4..][1..][1..] == [Sym(')')];
    CloseStep();
    RunFirst(StopAtBracket, [Sym(')')], s6, s7);
    assert [Sym(')')][1..] == [];
  }
}
