/** The lexical level of ATAT's `lat.in` text as pyparsing reads it: number
    literals, words of letters and underscores, and the whitespace between
    them.

    The number regex `[-+]?[0-9]*\.?[0-9]+([eE][-+]?[0-9]+)?` is given twice:
    once as its finite automaton, which defines the language, and once as the
    scan Python's backtracking `re.match` performs, which defines what is
    matched at the start of a text. The two are connected in both directions.
 */
module NumberLiteral {
  import opened Outcomes

  predicate IsDigit(c: char) { '0' <= c <= '9' }
  predicate IsSign(c: char) { c == '+' || c == '-' }
  predicate IsExponentMark(c: char) { c == 'e' || c == 'E' }
  /** pyparsing's `alphas + '_'`. */
  predicate IsWordChar(c: char) { ('a' <= c <= 'z') || ('A' <= c <= 'Z') || c == '_' }
  /** pyparsing's default whitespace. */
  predicate IsWhite(c: char) { c == ' ' || c == '\t' || c == '\n' || c == '\r' }
  /** The whitespace an end-of-line element skips: everything but the newline. */
  predicate IsBlank(c: char) { c == ' ' || c == '\t' || c == '\r' }

  predicate AllDigits(t: string)
  {
    forall k :: 0 <= k < |t| ==> IsDigit(t[k])
  }

  predicate AllWhite(t: string)
  {
    forall k :: 0 <= k < |t| ==> IsWhite(t[k])
  }

  // ---------------------------------------------------------------------------
  // The language of the number regex `[-+]?[0-9]*\.?[0-9]+([eE][-+]?[0-9]+)?`,
  // as its finite automaton: one state per position in the regex.

  datatype NumState =
    | Begin       // nothing read
    | Signed      // the sign read
    | IntDigits   // digits read, no point yet (accepting)
    | Point       // the point read, a digit must follow
    | FracDigits  // digits after the point (accepting)
    | ExpMark     // `e` or `E` read
    | ExpSign     // the exponent's sign read
    | ExpDigits   // exponent digits (accepting)

  function Step(q: NumState, c: char): Option<NumState>
  {
    match q
    case Begin =>
      if IsSign(c) then Some(Signed) else if IsDigit(c) then Some(IntDigits) else if c == '.' then Some(Point) else None
    case Signed =>
      if IsDigit(c) then Some(IntDigits) else if c == '.' then Some(Point) else None
    case IntDigits =>
      if IsDigit(c) then Some(IntDigits) else if c == '.' then Some(Point) else if IsExponentMark(c) then Some(ExpMark) else None
    case Point =>
      if IsDigit(c) then Some(FracDigits) else None
    case FracDigits =>
      if IsDigit(c) then Some(FracDigits) else if IsExponentMark(c) then Some(ExpMark) else None
    case ExpMark =>
      if IsSign(c) then Some(ExpSign) else if IsDigit(c) then Some(ExpDigits) else None
    case ExpSign =>
      if IsDigit(c) then Some(ExpDigits) else None
    case ExpDigits =>
      if IsDigit(c) then Some(ExpDigits) else None
  }

  predicate Accepting(q: NumState)
  {
    q == IntDigits || q == FracDigits || q == ExpDigits
  }

  /** The automaton started in `q` reads all of `t` and stops in an accepting state. */
  predicate Runs(q: NumState, t: string)
    decreases |t|
  {
    if |t| == 0 then Accepting(q)
    else match Step(q, t[0])
      case None => false
      case Some(q') => Runs(q', t[1..])
  }

  /** `t` is a whole match of the number regex. */
  predicate IsFloatLiteral(t: string)
  {
    Runs(Begin, t)
  }

  predicate IsWord(t: string)
  {
    |t| > 0 && forall k :: 0 <= k < |t| ==> IsWordChar(t[k])
  }

  // ---------------------------------------------------------------------------
  // Scanning

  /** Length of the run of digits starting at `i`. */
  function DigitsEnd(s: string, i: nat): (j: nat)
    requires i <= |s|
    ensures i <= j <= |s|
    ensures j == |s| || !IsDigit(s[j])
    decreases |s| - i
  {
    if i < |s| && IsDigit(s[i]) then DigitsEnd(s, i + 1) else i
  }

  lemma {:induction false} DigitsRun(s: string, i: nat)
    requires i <= |s|
    ensures forall k :: i <= k < DigitsEnd(s, i) ==> IsDigit(s[k])
    decreases |s| - i
  {
    if i < |s| && IsDigit(s[i]) {
      DigitsRun(s, i + 1);
    }
  }

  /** End of the optional exponent starting at `m`: `[eE][-+]?[0-9]+` when it
      is there in full, otherwise nothing. */
  function ExponentEnd(s: string, m: nat): (j: nat)
    requires m <= |s|
    ensures m <= j <= |s|
  {
    if m < |s| && IsExponentMark(s[m]) then
      var b := if m + 1 < |s| && IsSign(s[m + 1]) then m + 2 else m + 1;
      var e := DigitsEnd(s, b);
      if e > b then e else m
    else m
  }

  /** Length of the match of the number regex at the start of `s`, in the
      order Python's backtracking `re.match` finds it: the sign if present,
      the digits, the point and its digits when a digit follows the point
      (otherwise the digits alone), then the exponent when complete. */
  function MatchNumber(s: string): Option<nat>
  {
    var a := if 0 < |s| && IsSign(s[0]) then 1 else 0;
    var d := DigitsEnd(s, a);
    var m := if d + 1 < |s| && s[d] == '.' && IsDigit(s[d + 1]) then DigitsEnd(s, d + 1) else d;
    if m == a then None else Some(ExponentEnd(s, m))
  }

  function DropWhite(s: string): (r: string)
    ensures |r| <= |s|
  {
    if |s| > 0 && IsWhite(s[0]) then DropWhite(s[1..]) else s
  }

  function DropBlank(s: string): (r: string)
    ensures |r| <= |s|
  {
    if |s| > 0 && IsBlank(s[0]) then DropBlank(s[1..]) else s
  }

  function WordEnd(s: string, i: nat): (j: nat)
    requires i <= |s|
    ensures i <= j <= |s|
    ensures j == |s| || !IsWordChar(s[j])
    decreases |s| - i
  {
    if i < |s| && IsWordChar(s[i]) then WordEnd(s, i + 1) else i
  }

  lemma {:induction false} WordRun(s: string, i: nat)
    requires i <= |s|
    ensures forall k :: i <= k < WordEnd(s, i) ==> IsWordChar(s[k])
    decreases |s| - i
  {
    if i < |s| && IsWordChar(s[i]) {
      WordRun(s, i + 1);
    }
  }
  // ---------------------------------------------------------------------------
  // The scan against the automaton

  /** One step of the automaton on a slice. */
  lemma RunsStep(q: NumState, s: string, i: nat, n: nat)
    requires i < n <= |s|
    ensures Runs(q, s[i..n]) == (Step(q, s[i]).Some? && Runs(Step(q, s[i]).value, s[i + 1..n]))
  {
    assert s[i..n][1..] == s[i + 1..n];
  }

  /** After a point, a literal needs a digit. */
  lemma PointRun(s: string, i: nat, n: nat)
    requires i <= n <= |s|
    ensures Runs(Point, s[i..n]) ==> i < n && IsDigit(s[i])
  {
    if i < n {
      RunsStep(Point, s, i, n);
    }
  }

  /** A digit-looping state reads a run of digits without moving. */
  lemma {:induction false} RunsDigits(q: NumState, s: string, i: nat, j: nat, n: nat)
    requires q == IntDigits || q == FracDigits || q == ExpDigits
    requires i <= j <= n <= |s|
    requires forall k :: i <= k < j ==> IsDigit(s[k])
    ensures Runs(q, s[i..n]) == Runs(q, s[j..n])
    decreases j - i
  {
    if i < j {
      RunsStep(q, s, i, n);
      RunsDigits(q, s, i + 1, j, n);
    }
  }

  lemma MatchNumberSound(s: string)
    requires MatchNumber(s).Some?
    ensures MatchNumber(s).value <= |s|
    ensures IsFloatLiteral(s[..MatchNumber(s).value])
  {
    var a := if 0 < |s| && IsSign(s[0]) then 1 else 0;
    var d := DigitsEnd(s, a);
    var dotted := d + 1 < |s| && s[d] == '.' && IsDigit(s[d + 1]);
    var m := if dotted then DigitsEnd(s, d + 1) else d;
    var n := ExponentEnd(s, m);
    // the state reached at `d`
    var q0 := if a == 1 then Signed else Begin;
    var qd := if d > a then IntDigits else q0;
    DigitsRun(s, a);
    if dotted {
      FractionSound(s, d, m, n, qd);
    } else {
      ExponentSound(s, m, n, IntDigits);
    }
    if d > a {
      RunsDigits(IntDigits, s, a + 1, d, n);
      RunsStep(q0, s, a, n);
    }
    if a == 1 {
      RunsStep(Begin, s, 0, n);
    }
    assert s[..n] == s[0..n];
  }

  /** A fraction `.digits` after the integer part, and the exponent after it,
      are read to acceptance from any state that admits the point. */
  lemma FractionSound(s: string, d: nat, m: nat, n: nat, q: NumState)
    requires d + 1 < |s| && s[d] == '.' && IsDigit(s[d + 1])
    requires m == DigitsEnd(s, d + 1) && n == ExponentEnd(s, m)
    requires q == Begin || q == Signed || q == IntDigits
    ensures Runs(q, s[d..n])
  {
    DigitsRun(s, d + 1);
    ExponentSound(s, m, n, FracDigits);
    RunsStep(Point, s, d + 1, n);
    RunsDigits(FracDigits, s, d + 2, m, n);
    RunsStep(q, s, d, n);
  }

  /** From an accepting state before the mantissa's end `m`, the exponent
      `ExponentEnd` finds is read to acceptance. */
  lemma ExponentSound(s: string, m: nat, n: nat, q: NumState)
    requires m <= |s| && n == ExponentEnd(s, m)
    requires q == IntDigits || q == FracDigits
    ensures Runs(q, s[m..n])
  {
    if n > m {
      var b := if m + 1 < |s| && IsSign(s[m + 1]) then m + 2 else m + 1;
      DigitsRun(s, b);
      RunsDigits(ExpDigits, s, b + 1, n, n);
      RunsStep(ExpDigits, s, b, n) by {
        assert b < n;
      }
      if b == m + 2 {
        RunsStep(ExpSign, s, m + 1, n);
        RunsStep(ExpMark, s, m + 1, n);
      } else {
        RunsStep(ExpMark, s, m + 1, n);
      }
      RunsStep(q, s, m, n);
    }
  }

  /** Completeness: a number literal that stands alone (followed by
      whitespace or by the end of the text) is matched exactly. */
  lemma MatchNumberComplete(s: string, j: nat)
    requires j <= |s|
    requires IsFloatLiteral(s[..j])
    requires j == |s| || IsWhite(s[j])
    ensures MatchNumber(s) == Some(j)
  {
    assert s[..j] == s[0..j];
    var a := if 0 < |s| && IsSign(s[0]) then 1 else 0;
    var q0 := if a == 1 then Signed else Begin;
    RunsStep(Begin, s, 0, j);
    if a == 1 {
      assert Runs(Signed, s[1..j]);
    }
    assert Runs(q0, s[a..j]);
    DigitsRun(s, a);
    if DigitsEnd(s, a) > a {
      CompleteAfterDigits(s, j, a, q0);
    } else {
      CompleteAfterPoint(s, j, a, q0);
    }
  }

  /** A literal with digits before any point: the integer digits, then the
      fraction or the exponent, are matched up to `j`. */
  lemma CompleteAfterDigits(s: string, j: nat, a: nat, q0: NumState)
    requires a <= j <= |s| && a == (if 0 < |s| && IsSign(s[0]) then 1 else 0)
    requires q0 == (if a == 1 then Signed else Begin)
    requires Runs(q0, s[a..j])
    requires j == |s| || IsWhite(s[j])
    requires DigitsEnd(s, a) > a
    ensures MatchNumber(s) == Some(j)
  {
    var d := DigitsEnd(s, a);
    DigitsRun(s, a);
    var dotted := d + 1 < |s| && s[d] == '.' && IsDigit(s[d + 1]);
    RunsStep(q0, s, a, j);
    RunsDigits(IntDigits, s, a + 1, d, j);
    assert Runs(IntDigits, s[d..j]);
    if dotted {
      RunsStep(IntDigits, s, d, j);
      CompleteFraction(s, d, j);
    } else {
      CompleteExponent(s, IntDigits, d, j);
    }
  }

  /** A literal starting with its point: the point and a digit follow the
      sign, then the fraction and the exponent are matched up to `j`. */
  lemma CompleteAfterPoint(s: string, j: nat, a: nat, q0: NumState)
    requires a <= j <= |s| && a == (if 0 < |s| && IsSign(s[0]) then 1 else 0)
    requires q0 == (if a == 1 then Signed else Begin)
    requires Runs(q0, s[a..j])
    requires j == |s| || IsWhite(s[j])
    requires DigitsEnd(s, a) == a
    ensures MatchNumber(s) == Some(j)
  {
    var d := DigitsEnd(s, a);
    assert a < j;
    RunsStep(q0, s, a, j);
    assert s[a] == '.';
    RunsStep(Point, s, a + 1, j);
    CompleteFraction(s, d, j);
  }

  /** After a point at `d` in a literal ending at `j`, the fraction digits
      and the exponent are matched up to `j`. */
  lemma CompleteFraction(s: string, d: nat, j: nat)
    requires d + 1 < j <= |s| && s[d] == '.'
    requires Runs(Point, s[d + 1..j])
    requires j == |s| || IsWhite(s[j])
    ensures IsDigit(s[d + 1])
    ensures DigitsEnd(s, d + 1) <= j
    ensures ExponentEnd(s, DigitsEnd(s, d + 1)) == j
  {
    RunsStep(Point, s, d + 1, j);
    var m := DigitsEnd(s, d + 1);
    DigitsRun(s, d + 1);
    assert m <= j;
    RunsDigits(FracDigits, s, d + 2, m, j);
    CompleteExponent(s, FracDigits, m, j);
  }

  /** From an accepting mantissa state at `m`, the rest of the literal up
      to `j` is exactly the exponent `ExponentEnd` finds. */
  lemma CompleteExponent(s: string, q: NumState, m: nat, j: nat)
    requires q == IntDigits || q == FracDigits
    requires m <= j <= |s|
    requires Runs(q, s[m..j])
    requires m == |s| || !IsDigit(s[m])
    requires q == IntDigits && m + 1 < |s| && s[m] == '.' ==> !IsDigit(s[m + 1])
    requires j == |s| || IsWhite(s[j])
    ensures ExponentEnd(s, m) == j
  {
    if m < j {
      RunsStep(q, s, m, j);
      PointRun(s, m + 1, j);
      assert s[m] != '.';
      assert IsExponentMark(s[m]);
      RunsStep(ExpMark, s, m + 1, j);
      var b := if m + 1 < |s| && IsSign(s[m + 1]) then m + 2 else m + 1;
      if b == m + 2 {
        RunsStep(ExpSign, s, m + 2, j);
      }
      RunsStep(ExpDigits, s, b, j);
      var e := DigitsEnd(s, b);
      DigitsRun(s, b);
      assert e <= j;
      RunsDigits(ExpDigits, s, b + 1, e, j);
      if e < j {
        RunsStep(ExpDigits, s, e, j);
      }
    }
  }

  lemma {:induction false} DropWhiteOf(ws: string, u: string)
    requires AllWhite(ws)
    requires |u| == 0 || !IsWhite(u[0])
    ensures DropWhite(ws + u) == u
  {
    if |ws| > 0 {
      assert (ws + u)[1..] == ws[1..] + u;
      DropWhiteOf(ws[1..], u);
    } else {
      assert ws + u == u;
    }
  }

  lemma {:induction false} WordEndOf(s: string, i: nat, j: nat)
    requires i <= j <= |s|
    requires forall k :: i <= k < j ==> IsWordChar(s[k])
    requires j == |s| || !IsWordChar(s[j])
    ensures WordEnd(s, i) == j
    decreases j - i
  {
    if i < j {
      WordEndOf(s, i + 1, j);
    }
  }
}
