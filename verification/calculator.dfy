/** Model of the calculator's expression buffer: the text typed so far, the
    last computed result, the editing keys, the input filter, and the guard
    and error steps around evaluation. The arithmetic itself is a parameter. */
module Calculator {
  import opened Wrappers

  /** Length at which the digit guard stops appending. */
  const MaxLength: nat := 30

  predicate IsOperator(c: char) {
    c == '+' || c == '-' || c == '*' || c == '/'
  }

  predicate IsDigit(c: char) {
    '0' <= c <= '9'
  }

  /** The characters the evaluation filter lets through. */
  predicate IsAllowed(c: char) {
    IsDigit(c) || c == '.' || IsOperator(c)
  }

  /** `lastResult` holds the text `String(result)` of the last successful
      evaluation: the source only ever reads it through that conversion. */
  datatype Calc = Calc(input: string, lastResult: Option<string>)

  const Initial: Calc := Calc("", None)

  predicate EndsWithOperator(s: string) {
    |s| > 0 && IsOperator(s[|s| - 1])
  }

  /** The operand being typed: the text after the last operator. */
  function LastSegment(s: string): (seg: string)
    ensures |seg| <= |s| && seg == s[|s| - |seg|..]
    ensures forall k :: 0 <= k < |seg| ==> !IsOperator(seg[k])
    ensures |seg| < |s| ==> IsOperator(s[|s| - |seg| - 1])
  {
    if s == [] || IsOperator(s[|s| - 1]) then []
    else LastSegment(s[..|s| - 1]) + [s[|s| - 1]]
  }

  /** The digit and decimal-point key. */
  function AppendDigit(c: Calc, d: char): (c': Calc)
    ensures c'.lastResult == c.lastResult
    ensures |c.input| <= |c'.input| && c'.input[..|c.input|] == c.input
    ensures d != '.' ==>
              c'.input == if |c.input| < MaxLength then c.input + [d] else c.input
    ensures d == '.' && '.' in LastSegment(c.input) ==> c' == c
    ensures d == '.' && '.' !in LastSegment(c.input) && LastSegment(c.input) == [] ==>
              c'.input == c.input + (if |c.input| + 1 < MaxLength then "0." else "0")
    ensures d == '.' && '.' !in LastSegment(c.input) && LastSegment(c.input) != [] ==>
              c'.input == if |c.input| < MaxLength then c.input + "." else c.input
  {
    var seg := LastSegment(c.input);
    // a trailing operator leaves the current operand empty
    assert EndsWithOperator(c.input) ==> seg == [];
    if c.input == "" && d == '0' then
      Calc("0", c.lastResult)
    else if d == '.' && '.' in seg then
      c
    else
      // a point that starts an operand gets a leading zero, before the length guard
      var s :=
        if d == '.' && (seg == "" || EndsWithOperator(c.input)) then c.input + "0"
        else c.input;
      if |s| >= MaxLength then Calc(s, c.lastResult)
      else Calc(s + [d], c.lastResult)
  }

  /** The text an operator is applied to: the last result when the buffer is
      empty and one exists, the buffer otherwise. */
  function OperatorBase(c: Calc): string {
    if c.input == "" && c.lastResult.Some? then c.lastResult.value else c.input
  }

  /** The operator key. */
  function AppendOperator(c: Calc, op: char): (c': Calc)
    ensures c'.lastResult == c.lastResult
    ensures c.input == "" && c.lastResult.None? ==> c'.input == ""
    ensures var s := OperatorBase(c);
      EndsWithOperator(s) ==> |c'.input| == |s| && c'.input[..|s| - 1] == s[..|s| - 1] && c'.input[|s| - 1] == op
    ensures var s := OperatorBase(c);
      !EndsWithOperator(s) && s != "" ==> c'.input == s + [op]
  {
    var s := OperatorBase(c);
    if EndsWithOperator(s) then Calc(s[..|s| - 1] + [op], c.lastResult)
    else if s != "" then Calc(s + [op], c.lastResult)
    else Calc(s, c.lastResult)
  }

  /** The backspace key. */
  function Backspace(c: Calc): (c': Calc)
    ensures c'.lastResult == c.lastResult
    ensures c.input == "" ==> c'.input == ""
    ensures c.input != "" ==> c'.input + [c.input[|c.input| - 1]] == c.input
  {
    if |c.input| > 0 then Calc(c.input[..|c.input| - 1], c.lastResult) else c
  }

  /** The whitelist filter applied before evaluation. */
  function Sanitize(s: string): (r: string)
    ensures |r| <= |s|
    ensures forall k :: 0 <= k < |r| ==> IsAllowed(r[k])
    ensures forall ch :: ch in r <==> ch in s && IsAllowed(ch)
    ensures (forall k :: 0 <= k < |s| ==> IsAllowed(s[k])) ==> r == s
  {
    if s == [] then []
    else (if IsAllowed(s[0]) then [s[0]] else []) + Sanitize(s[1..])
  }

  /** Filtering a concatenation filters each part: the kept characters stay
      in their original order. */
  lemma {:induction false} SanitizeAppend(a: string, b: string)
    ensures Sanitize(a + b) == Sanitize(a) + Sanitize(b)
    decreases |a|
  {
    if a == [] {
      assert a + b == b;
    } else {
      assert (a + b)[1..] == a[1..] + b;
      SanitizeAppend(a[1..], b);
    }
  }

  /** Filtering twice is filtering once. */
  lemma SanitizeIdempotent(s: string)
    ensures Sanitize(Sanitize(s)) == Sanitize(s)
  {
  }

  /** A character outside the whitelist is removed. */
  lemma SanitizeDropsOne(ch: char)
    requires !IsAllowed(ch)
    ensures Sanitize([ch]) == []
  {
    assert [ch][1..] == [];
  }

  /** A character outside the whitelist, placed between two texts the filter
      keeps whole, is dropped and the texts are joined. */
  lemma SanitizeDropsBetween(a: string, ch: char, b: string)
    requires Sanitize(a) == a && Sanitize(b) == b
    requires !IsAllowed(ch)
    ensures Sanitize(a + [ch] + b) == a + b
  {
    var one := [ch];
    var head := a + one;
    SanitizeDropsOne(ch);
    SanitizeAppend(a, one);
    assert Sanitize(head) == a + [] == a;
    SanitizeAppend(head, b);
    assert Sanitize(head + b) == a + b;
  }

  /** In particular the filter drops the `e` of an exponent-form result:
      "1e+21" reaches the evaluator as "1+21". */
  lemma ExponentDroppedBySanitize(mantissa: string, exponent: string)
    requires forall k :: 0 <= k < |mantissa| ==> IsAllowed(mantissa[k])
    requires forall k :: 0 <= k < |exponent| ==> IsAllowed(exponent[k])
    ensures Sanitize(mantissa + "e" + exponent) == mantissa + exponent
  {
    assert Sanitize(mantissa) == mantissa && Sanitize(exponent) == exponent;
    SanitizeDropsBetween(mantissa, 'e', exponent);
  }

  /** A slash, then a zero that no further digit follows, at position `i`. */
  ghost predicate ZeroDivisorAt(s: string, i: int) {
    0 <= i && i + 1 < |s| && s[i] == '/' && s[i + 1] == '0' && (i + 2 == |s| || !IsDigit(s[i + 2]))
  }

  ghost predicate HasZeroDivisor(s: string) {
    exists i :: ZeroDivisorAt(s, i)
  }

  /** The division-by-zero pattern test, scanning from position `i`. */
  function ZeroDivisorFrom(s: string, i: nat): (r: bool)
    requires i <= |s|
    decreases |s| - i
    ensures r <==> exists j :: i <= j && ZeroDivisorAt(s, j)
  {
    if i + 1 >= |s| then false
    else if s[i] == '/' && s[i + 1] == '0' && (i + 2 == |s| || !IsDigit(s[i + 2])) then
      assert ZeroDivisorAt(s, i);
      true
    else ZeroDivisorFrom(s, i + 1)
  }

  /** What the abstract evaluator makes of a sanitized expression: it throws
      (a syntax error), yields something that is not a finite number, or
      yields a finite number, given here as the text of its rounded value. */
  datatype EvalOutcome = Threw | NotFinite | Finite(text: string)

  datatype CalcError = DivisionByZero | InvalidExpression

  /** What the display shows after the equals key. */
  datatype Report = Unchanged | Failed(error: CalcError) | Shown(text: string)

  /** The equals key, over an evaluator `eval`. */
  function ComputeResult(c: Calc, eval: string -> EvalOutcome): (r: (Calc, Report))
    ensures c.input == "" ==> r == (c, Unchanged)
    ensures r.1.Failed? || r.1.Unchanged? ==> r.0 == c
    ensures c.input != "" && HasZeroDivisor(Sanitize(c.input)) ==> r.1 == Failed(DivisionByZero)
    ensures c.input != "" && !HasZeroDivisor(Sanitize(c.input)) ==>
              match eval(Sanitize(c.input))
              case Threw => r.1 == Failed(InvalidExpression)
              case NotFinite => r.1 == Failed(DivisionByZero)
              case Finite(t) => r == (Calc(t, Some(t)), Shown(t))
  {
    if c.input == "" then (c, Unchanged)
    else
      var sanitized := Sanitize(c.input);
      if ZeroDivisorFrom(sanitized, 0) then (c, Failed(DivisionByZero))
      else
        match eval(sanitized)
        case Threw => (c, Failed(InvalidExpression))
        case NotFinite => (c, Failed(DivisionByZero))
        case Finite(t) => (Calc(t, Some(t)), Shown(t))
  }

  /** The clear key. */
  function ClearAll(c: Calc): (c': Calc)
    ensures c'.input == "" && c'.lastResult.None?
  {
    Initial
  }

  /** The editing keys: everything but equals. */
  datatype Key = DigitKey(d: char) | OperatorKey(op: char) | BackspaceKey | ClearKey

  /** A key the buttons and the keyboard handler can produce. */
  predicate ValidKey(k: Key) {
    match k
    case DigitKey(d) => IsDigit(d) || d == '.'
    case OperatorKey(op) => IsOperator(op)
    case _ => true
  }

  function Press(c: Calc, k: Key): Calc {
    match k
    case DigitKey(d) => AppendDigit(c, d)
    case OperatorKey(op) => AppendOperator(c, op)
    case BackspaceKey => Backspace(c)
    case ClearKey => ClearAll(c)
  }

  function PressAll(c: Calc, keys: seq<Key>): Calc
    decreases |keys|
  {
    if keys == [] then c else PressAll(Press(c, keys[0]), keys[1..])
  }

  /** No operator directly follows another. */
  ghost predicate NoAdjacentOperators(s: string) {
    forall i :: 0 <= i && i + 1 < |s| ==> !(IsOperator(s[i]) && IsOperator(s[i + 1]))
  }

  ghost predicate OperatorBetween(s: string, i: int, j: int) {
    exists k :: i < k < j && 0 <= k < |s| && IsOperator(s[k])
  }

  /** No operand segment holds two decimal points: between any two points
      there is an operator. */
  ghost predicate OneDotPerSegment(s: string) {
    forall i, j :: 0 <= i < j < |s| && s[i] == '.' && s[j] == '.' ==> OperatorBetween(s, i, j)
  }

  ghost predicate WellFormed(s: string) {
    NoAdjacentOperators(s) && OneDotPerSegment(s)
  }

  /** Appending a character that is neither an operator nor a point keeps the
      buffer well formed. */
  lemma AppendPlainKeepsWellFormed(s: string, ch: char)
    requires WellFormed(s) && !IsOperator(ch) && ch != '.'
    ensures WellFormed(s + [ch])
  {
    var t := s + [ch];
    forall i, j | 0 <= i < j < |t| && t[i] == '.' && t[j] == '.'
      ensures OperatorBetween(t, i, j)
    {
      assert s[i] == '.' && s[j] == '.';
      var k :| i < k < j && 0 <= k < |s| && IsOperator(s[k]);
      assert t[k] == s[k];
    }
  }

  /** A point appended when the current operand has none keeps the buffer
      well formed. */
  lemma AppendPointKeepsWellFormed(s: string)
    requires WellFormed(s) && '.' !in LastSegment(s)
    ensures WellFormed(s + ".")
  {
    var t := s + ".";
    var seg := LastSegment(s);
    var start := |s| - |seg|;
    forall k | start <= k < |s|
      ensures s[k] != '.'
    {
      assert s[k] == seg[k - start];
    }
    forall i, j | 0 <= i < j < |t| && t[i] == '.' && t[j] == '.'
      ensures OperatorBetween(t, i, j)
    {
      if j < |s| {
        assert s[i] == '.' && s[j] == '.';
        var k :| i < k < j && 0 <= k < |s| && IsOperator(s[k]);
        assert t[k] == s[k];
      } else {
        assert s[i] == '.';
        assert i < start;
        var k := start - 1;
        assert IsOperator(s[k]);
        assert t[k] == s[k];
      }
    }
    assert OneDotPerSegment(t);
    assert NoAdjacentOperators(t) by {
      forall i | 0 <= i && i + 1 < |t|
        ensures !(IsOperator(t[i]) && IsOperator(t[i + 1]))
      {
        if i + 1 < |s| {
          assert t[i] == s[i] && t[i + 1] == s[i + 1];
        }
      }
    }
  }

  /** Appending an operator to a buffer that does not end in one keeps it well formed. */
  lemma OperatorSuffixKeepsWellFormed(s: string, op: char)
    requires WellFormed(s) && !EndsWithOperator(s) && IsOperator(op)
    ensures WellFormed(s + [op])
  {
    var t := s + [op];
    forall i, j | 0 <= i < j < |t| && t[i] == '.' && t[j] == '.'
      ensures OperatorBetween(t, i, j)
    {
      assert s[i] == '.' && s[j] == '.';
      var k :| i < k < j && 0 <= k < |s| && IsOperator(s[k]);
      assert t[k] == s[k];
    }
  }

  /** A prefix of a well-formed buffer is well formed. */
  lemma PrefixKeepsWellFormed(s: string, n: nat)
    requires WellFormed(s) && n <= |s|
    ensures WellFormed(s[..n])
  {
    var t := s[..n];
    forall i, j | 0 <= i < j < |t| && t[i] == '.' && t[j] == '.'
      ensures OperatorBetween(t, i, j)
    {
      assert s[i] == '.' && s[j] == '.';
      var k :| i < k < j && 0 <= k < |s| && IsOperator(s[k]);
      assert t[k] == s[k];
    }
  }

  /** The digit key keeps the buffer well formed. */
  lemma AppendDigitKeepsWellFormed(c: Calc, d: char)
    requires WellFormed(c.input) && (IsDigit(d) || d == '.')
    ensures WellFormed(AppendDigit(c, d).input)
  {
    var s := c.input;
    if d != '.' {
      if |s| < MaxLength {
        AppendPlainKeepsWellFormed(s, d);
      }
    } else if '.' !in LastSegment(s) {
      if LastSegment(s) == [] {
        AppendPlainKeepsWellFormed(s, '0');
        if |s| + 1 < MaxLength {
          assert LastSegment(s + "0") == "0";
          AppendPointKeepsWellFormed(s + "0");
          assert s + "0" + "." == s + "0.";
        }
      } else if |s| < MaxLength {
        AppendPointKeepsWellFormed(s);
      }
    }
  }

  /** The operator key keeps the buffer well formed when the text it starts
      from is. */
  lemma AppendOperatorKeepsWellFormed(c: Calc, op: char)
    requires WellFormed(OperatorBase(c)) && IsOperator(op)
    ensures WellFormed(AppendOperator(c, op).input)
  {
    var s := OperatorBase(c);
    if EndsWithOperator(s) {
      PrefixKeepsWellFormed(s, |s| - 1);
      var p := s[..|s| - 1];
      OperatorSuffixKeepsWellFormed(p, op);
      assert AppendOperator(c, op).input == p + [op];
    } else if s != "" {
      OperatorSuffixKeepsWellFormed(s, op);
    }
  }

  /** Every editing key keeps the buffer well formed while no result is stored. */
  lemma PressKeepsWellFormed(c: Calc, k: Key)
    requires WellFormed(c.input) && c.lastResult.None? && ValidKey(k)
    ensures WellFormed(Press(c, k).input) && Press(c, k).lastResult.None?
  {
    match k
    case DigitKey(d) => AppendDigitKeepsWellFormed(c, d);
    case OperatorKey(op) => AppendOperatorKeepsWellFormed(c, op);
    case BackspaceKey =>
      if c.input != "" {
        PrefixKeepsWellFormed(c.input, |c.input| - 1);
      }
    case ClearKey =>
  }

  /** Starting from an empty calculator, any sequence of editing keys leaves
      a buffer with no two adjacent operators and at most one point per
      operand segment. */
  lemma {:induction false} EditingKeepsWellFormed(c: Calc, keys: seq<Key>)
    requires WellFormed(c.input) && c.lastResult.None?
    requires forall i :: 0 <= i < |keys| ==> ValidKey(keys[i])
    ensures WellFormed(PressAll(c, keys).input)
    decreases |keys|
  {
    if keys != [] {
      PressKeepsWellFormed(c, keys[0]);
      EditingKeepsWellFormed(Press(c, keys[0]), keys[1..]);
    }
  }

  lemma ReachableBuffersWellFormed(keys: seq<Key>)
    requires forall i :: 0 <= i < |keys| ==> ValidKey(keys[i])
    ensures WellFormed(PressAll(Initial, keys).input)
  {
    EditingKeepsWellFormed(Initial, keys);
  }

  /** The length guard does not bound the buffer: a point typed after an
      operator at the limit still adds the leading zero. */
  lemma LengthGuardLeak()
    ensures var c := Calc(seq(29, _ => '1') + "+", None);
      |c.input| == MaxLength && |AppendDigit(c, '.').input| == MaxLength + 1
  {
    var c := Calc(seq(29, _ => '1') + "+", None);
    assert LastSegment(c.input) == [];
  }

  /** A leading zero is kept and later digits simply append. */
  lemma LeadingZeroExample()
    ensures AppendDigit(AppendDigit(Initial, '0'), '5').input == "05"
  {
  }

  /** Only the very first zero is special-cased: a second zero appends, so
      the buffer can start with "00". */
  lemma RepeatedZeroExample()
    ensures AppendDigit(AppendDigit(Initial, '0'), '0').input == "00"
  {
  }

  /** An operator key on an empty buffer with a stored result acts as it
      would on a buffer already holding the result's text. */
  lemma OperatorOnResultUsesItsText(t: string, op: char)
    ensures AppendOperator(Calc("", Some(t)), op) == AppendOperator(Calc(t, Some(t)), op)
  {
  }

  /** "5/0" is refused whatever the evaluator would say, and the buffer stays. */
  lemma DivisionByZeroExample(eval: string -> EvalOutcome)
    ensures ComputeResult(Calc("5/0", None), eval) == (Calc("5/0", None), Failed(DivisionByZero))
  {
    var s := "5/0";
    assert forall k :: 0 <= k < |s| ==> IsAllowed(s[k]);
    assert Sanitize(s) == s;
    assert ZeroDivisorAt(s, 1);
  }

  /** The pattern also refuses a zero followed by a point, as in "5/0.5". */
  lemma PointAfterZeroIsRefused(eval: string -> EvalOutcome)
    ensures ComputeResult(Calc("5/0.5", None), eval).1 == Failed(DivisionByZero)
  {
    var s := "5/0.5";
    assert forall k :: 0 <= k < |s| ==> IsAllowed(s[k]);
    assert Sanitize(s) == s;
    assert ZeroDivisorAt(s, 1);
  }
}
