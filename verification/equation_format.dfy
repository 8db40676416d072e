/**
  The rewriting of a user's ODE text into computer-algebra input
  (`formatear_ecuacion`): `y''` and `y'` are protected by placeholders, every
  standalone `y` not already applied becomes `y(x)`, and the placeholders are
  expanded into `Derivative(...)` terms.

  Besides the five-step pipeline as written, the module defines a one-pass
  reference (`Translate`: lex the derivative marks longest first, mark the
  standalone names, spell the tokens) and proves that the two agree on every
  text that contains no capital `Y` (the letter the placeholders are built on).
*/
module EquationFormat {

  const SecondMark: string := "y''"
  const FirstMark: string := "y'"
  const SecondHolder: string := "__Y2__"
  const FirstHolder: string := "__Y1__"
  const SecondDerivative: string := "Derivative(y(x), x, x)"
  const FirstDerivative: string := "Derivative(y(x), x)"
  const YOfX: string := "y(x)"

  /** A character matched by `\w` (ASCII letters, digits and the underscore). */
  predicate IsWordChar(c: char) {
    'a' <= c <= 'z' || 'A' <= c <= 'Z' || '0' <= c <= '9' || c == '_'
  }

  /** `pat` occurs somewhere in `s`. */
  predicate Occurs(pat: string, s: string)
    decreases |s|
  {
    pat <= s || (s != [] && Occurs(pat, s[1..]))
  }

  /** `str.replace`: a left-to-right scan replacing non-overlapping occurrences. */
  function ReplaceAll(s: string, pat: string, rep: string): string
    requires pat != []
    decreases |s|
  {
    if pat <= s then rep + ReplaceAll(s[|pat|..], pat, rep)
    else if s == [] then []
    else [s[0]] + ReplaceAll(s[1..], pat, rep)
  }

  /** The `y` at the head of `s` matches `\by\b(?!\()`, given whether the character before it is a word character. */
  predicate StandaloneHead(prevWord: bool, s: string)
    requires s != []
  {
    s[0] == 'y' && !prevWord && (|s| == 1 || (!IsWordChar(s[1]) && s[1] != '('))
  }

  /**
    `re.sub(r"\by\b(?!\()", "y(x)", s)` as a scan that carries whether the
    previous character was a word character and looks one character ahead.
  */
  function SubstituteY(prevWord: bool, s: string): (r: string)
    ensures |r| >= |s|
    decreases |s|
  {
    if s == [] then []
    else (if StandaloneHead(prevWord, s) then YOfX else [s[0]]) + SubstituteY(IsWordChar(s[0]), s[1..])
  }

  /** A text without a `y` passes step three unchanged. */
  lemma {:induction false} SubstituteYWithoutY(prevWord: bool, s: string)
    requires 'y' !in s
    ensures SubstituteY(prevWord, s) == s
    decreases |s|
  {
    if s != [] {
      assert s[0] in s;
      assert 'y' !in s[1..] by {
        forall i | 0 <= i < |s[1..]| ensures s[1..][i] != 'y' { assert s[1..][i] == s[i + 1] && s[i + 1] in s; }
      }
      SubstituteYWithoutY(IsWordChar(s[0]), s[1..]);
      assert s == [s[0]] + s[1..];
    }
  }

  /** `formatear_ecuacion`, step by step as written. */
  function FormatEquation(s: string): string {
    var protected2 := ReplaceAll(s, SecondMark, SecondHolder);
    var protected1 := ReplaceAll(protected2, FirstMark, FirstHolder);
    var named := SubstituteY(false, protected1);
    var expanded2 := ReplaceAll(named, SecondHolder, SecondDerivative);
    ReplaceAll(expanded2, FirstHolder, FirstDerivative)
  }

  lemma ConcatAssociates<T>(a: seq<T>, b: seq<T>, c: seq<T>)
    ensures a + (b + c) == (a + b) + c
  {}

  // ---------------------------------------------------------------------------
  // The regex rule, position by position

  /** Position `i` of `s` holds a `y` with a word boundary on both sides that is not followed by `(`. */
  predicate IsStandaloneY(s: string, i: int)
    requires 0 <= i < |s|
  {
    && s[i] == 'y'
    && (i == 0 || !IsWordChar(s[i - 1]))
    && (i + 1 == |s| || (!IsWordChar(s[i + 1]) && s[i + 1] != '('))
  }

  /** What position `k` of `s` and the positions after it become under the regex rule. */
  function RewriteFrom(s: string, k: nat): string
    requires k <= |s|
    decreases |s| - k
  {
    if k == |s| then []
    else (if IsStandaloneY(s, k) then YOfX else [s[k]]) + RewriteFrom(s, k + 1)
  }

  /** The scan rewrites exactly the standalone positions, each one independently of the others. */
  lemma {:induction false} SubstituteYByPosition(s: string, k: nat)
    requires k <= |s|
    ensures SubstituteY(k > 0 && IsWordChar(s[k - 1]), s[k..]) == RewriteFrom(s, k)
    decreases |s| - k
  {
    if k < |s| {
      var t := s[k..];
      assert t[1..] == s[k + 1..];
      assert t[0] == s[k];
      assert |t| > 1 ==> t[1] == s[k + 1];
      assert StandaloneHead(k > 0 && IsWordChar(s[k - 1]), t) == IsStandaloneY(s, k);
      SubstituteYByPosition(s, k + 1);
    }
  }

  lemma SubstituteYMatchesRegex(s: string)
    ensures SubstituteY(false, s) == RewriteFrom(s, 0)
  {
    SubstituteYByPosition(s, 0);
    assert s[0..] == s;
  }

  // ---------------------------------------------------------------------------
  // The one-pass reference

  /** A piece of the equation text: a plain character, `y'`, `y''`, or a `y` that names the unknown function. */
  datatype Token = Char(c: char) | Prime1 | Prime2 | Name

  /** Split the text into derivative marks (the longer mark first) and plain characters. */
  function Lex(s: string): seq<Token>
    decreases |s|
  {
    if s == [] then []
    else if SecondMark <= s then [Prime2] + Lex(s[3..])
    else if FirstMark <= s then [Prime1] + Lex(s[2..])
    else [Char(s[0])] + Lex(s[1..])
  }

  /** The first character a token is spelled with at a stage. */
  function Lead(t: Token, stage: nat): char {
    match t
    case Char(c) => c
    case Name => 'y'
    case Prime2 => if stage >= 1 then 'D' else '_'
    case Prime1 => if stage >= 2 then 'D' else '_'
  }

  /**
    Turn every standalone plain `y` into a `Name`. A derivative mark counts as
    a word character on either side, because its placeholder starts and ends
    with `_`.
  */
  function MarkNames(prevWord: bool, ts: seq<Token>): (r: seq<Token>)
    ensures |r| == |ts|
    decreases |ts|
  {
    if ts == [] then []
    else if ts[0] == Char('y') && !prevWord && (|ts| == 1 || (ts[1].Char? && !IsWordChar(ts[1].c) && ts[1].c != '('))
    then [Name] + MarkNames(true, ts[1..])
    else [ts[0]] + MarkNames(ts[0].Char? ==> IsWordChar(ts[0].c), ts[1..])
  }

  /**
    How a token is written at each stage of the pipeline: 0, both derivative
    marks are placeholders; 1, the second derivative is expanded; 2, both are.
  */
  function Spell(t: Token, stage: nat): (r: string)
    ensures r != [] && r[0] == Lead(t, stage)
  {
    match t
    case Char(c) => [c]
    case Name => YOfX
    case Prime2 => if stage >= 1 then SecondDerivative else SecondHolder
    case Prime1 => if stage >= 2 then FirstDerivative else FirstHolder
  }

  function Render(ts: seq<Token>, stage: nat): (r: string)
    ensures |r| >= |ts|
    ensures ts != [] ==> r[0] == Lead(ts[0], stage)
    decreases |ts|
  {
    if ts == [] then [] else Spell(ts[0], stage) + Render(ts[1..], stage)
  }

  /** The one-pass reference for `formatear_ecuacion`. */
  function Translate(s: string): string {
    Render(MarkNames(false, Lex(s)), 2)
  }

  // ---------------------------------------------------------------------------
  // The pipeline agrees with the reference

  /** A replacement leaves a prefix alone when no occurrence of the pattern starts inside it. */
  lemma {:induction false} ReplaceAfterPrefix(u: string, x: string, pat: string, rep: string)
    requires pat != []
    requires forall j :: 0 <= j < |u| ==> !(pat <= (u + x)[j..])
    ensures ReplaceAll(u + x, pat, rep) == u + ReplaceAll(x, pat, rep)
    decreases |u|
  {
    if u == [] {
      assert u + x == x;
    } else {
      assert !(pat <= (u + x)[0..]);
      assert (u + x)[0..] == u + x;
      assert (u + x)[1..] == u[1..] + x;
      forall j | 0 <= j < |u[1..]|
        ensures !(pat <= (u[1..] + x)[j..])
      {
        assert (u[1..] + x)[j..] == (u + x)[j + 1..];
      }
      ReplaceAfterPrefix(u[1..], x, pat, rep);
    }
  }

  /** No occurrence of a pattern starts inside a prefix that lacks the pattern's first character. */
  lemma NoStartInPrefix(u: string, x: string, pat: string)
    requires pat != [] && pat[0] !in u
    ensures forall j :: 0 <= j < |u| ==> !(pat <= (u + x)[j..])
  {
    forall j | 0 <= j < |u| ensures !(pat <= (u + x)[j..]) {
      assert (u + x)[j..][0] == u[j];
    }
  }

  /** A replacement starting on the pattern itself emits the replacement and carries on after it. */
  lemma ReplaceAtPattern(x: string, pat: string, rep: string)
    requires pat != []
    ensures ReplaceAll(pat + x, pat, rep) == rep + ReplaceAll(x, pat, rep)
  {
    assert pat <= pat + x;
    assert (pat + x)[|pat|..] == x;
  }

  /** Steps one and two of the pipeline produce the placeholder spelling of the lexed text. */
  lemma {:induction false} ProtectMarks(s: string)
    ensures ReplaceAll(ReplaceAll(s, SecondMark, SecondHolder), FirstMark, FirstHolder) == Render(Lex(s), 0)
    decreases |s|
  {
    var a := ReplaceAll(s, SecondMark, SecondHolder);
    if s == [] {
    } else if SecondMark <= s {
      var z := ReplaceAll(s[3..], SecondMark, SecondHolder);
      assert a == SecondHolder + z;
      NoStartInPrefix(SecondHolder, z, FirstMark);
      ReplaceAfterPrefix(SecondHolder, z, FirstMark, FirstHolder);
      ProtectMarks(s[3..]);
    } else if FirstMark <= s {
      var z := ReplaceAll(s[2..], SecondMark, SecondHolder);
      assert s[1..][1..] == s[2..];
      assert !(SecondMark <= s[1..]);
      assert ReplaceAll(s[1..], SecondMark, SecondHolder) == ['\''] + z;
      assert a == FirstMark + z;
      ReplaceAtPattern(z, FirstMark, FirstHolder);
      ProtectMarks(s[2..]);
    } else {
      var z := ReplaceAll(s[1..], SecondMark, SecondHolder);
      assert a == [s[0]] + z;
      if s[0] == 'y' {
        assert |s| == 1 || s[1] != '\'';
        assert z != [] ==> s[1..] != [] && z[0] == (if SecondMark <= s[1..] then '_' else s[1]);
      }
      assert !(FirstMark <= [s[0]] + z);
      ReplaceAfterPrefix([s[0]], z, FirstMark, FirstHolder);
      ProtectMarks(s[1..]);
    }
  }

  /** Every token of `ts` is unmarked. */
  predicate Unmarked(ts: seq<Token>) {
    forall i :: 0 <= i < |ts| ==> !ts[i].Name?
  }

  /** Marking only ever turns a plain `y` into a name. */
  lemma {:induction false} MarkNamesOnlyNames(prevWord: bool, ts: seq<Token>)
    ensures var r := MarkNames(prevWord, ts);
      forall i :: 0 <= i < |ts| ==> r[i] == ts[i] || (ts[i] == Char('y') && r[i] == Name)
    decreases |ts|
  {
    if ts != [] {
      var r := MarkNames(prevWord, ts);
      var next := if r[0] == Name then true else After(ts[0]);
      MarkNamesOnlyNames(next, ts[1..]);
      assert r[1..] == MarkNames(next, ts[1..]);
      forall i | 1 <= i < |ts|
        ensures r[i] == ts[i] || (ts[i] == Char('y') && r[i] == Name)
      {
        assert r[i] == r[1..][i - 1] && ts[i] == ts[1..][i - 1];
      }
    }
  }

  /** The scan state after a token: whether its spelling ends in a word character. */
  function After(t: Token): bool {
    t.Char? ==> IsWordChar(t.c)
  }

  /** Marking the first token leaves the scan state `After` it for the rest. */
  lemma MarkNamesTail(prevWord: bool, ts: seq<Token>)
    requires ts != []
    ensures MarkNames(prevWord, ts)[1..] == MarkNames(After(ts[0]), ts[1..])
  {}

  /** Step three on a plain character followed by the spelling of the rest. */
  lemma NameHeadChar(prevWord: bool, ts: seq<Token>)
    requires ts != [] && ts[0].Char?
    ensures SubstituteY(prevWord, [ts[0].c] + Render(ts[1..], 0))
      == Spell(MarkNames(prevWord, ts)[0], 0) + SubstituteY(After(ts[0]), Render(ts[1..], 0))
  {
    var c, x := ts[0].c, Render(ts[1..], 0);
    var w := [c] + x;
    assert w[1..] == x;
    assert x == [] <==> ts[1..] == [];
    assert StandaloneHead(prevWord, w) == (c == 'y' && !prevWord && (|ts| == 1 || (ts[1].Char? && !IsWordChar(ts[1].c) && ts[1].c != '(')));
  }

  /** Step three on the spelling of the first token, given how the rest is spelled. */
  lemma NameHead(prevWord: bool, ts: seq<Token>)
    requires ts != [] && !ts[0].Name?
    ensures MarkNames(prevWord, ts)[1..] == MarkNames(After(ts[0]), ts[1..])
    ensures SubstituteY(prevWord, Spell(ts[0], 0) + Render(ts[1..], 0))
      == Spell(MarkNames(prevWord, ts)[0], 0) + SubstituteY(After(ts[0]), Render(ts[1..], 0))
  {
    MarkNamesTail(prevWord, ts);
    var x := Render(ts[1..], 0);
    match ts[0]
    case Char(c) =>
      NameHeadChar(prevWord, ts);
    case Prime1 =>
      HolderKeepsName(prevWord, FirstHolder, x);
    case Prime2 =>
      HolderKeepsName(prevWord, SecondHolder, x);
  }

  /** Step three acts on the placeholder spelling exactly as `MarkNames` acts on the tokens. */
  lemma {:induction false} NameTokens(prevWord: bool, ts: seq<Token>)
    requires Unmarked(ts)
    ensures SubstituteY(prevWord, Render(ts, 0)) == Render(MarkNames(prevWord, ts), 0)
    decreases |ts|
  {
    if ts != [] {
      assert Unmarked(ts[1..]) by {
        forall i | 0 <= i < |ts[1..]| ensures !ts[1..][i].Name? { assert ts[1..][i] == ts[i + 1]; }
      }
      NameTokens(After(ts[0]), ts[1..]);
      NameHead(prevWord, ts);
      var m := MarkNames(prevWord, ts);
      assert Render(m, 0) == Spell(m[0], 0) + Render(m[1..], 0);
    }
  }

  /** Step three passes over a placeholder unchanged and leaves the scan after a word character. */
  lemma {:induction false} HolderKeepsName(prevWord: bool, u: string, x: string)
    requires u != [] && IsWordChar(u[|u| - 1])
    requires forall i :: 0 <= i < |u| ==> u[i] != 'y'
    ensures SubstituteY(prevWord, u + x) == u + SubstituteY(true, x)
    decreases |u|
  {
    var w, v := u + x, u[1..];
    assert w[0] == u[0] && w[1..] == v + x;
    assert !StandaloneHead(prevWord, w);
    assert SubstituteY(prevWord, w) == [u[0]] + SubstituteY(IsWordChar(u[0]), v + x);
    if v == [] {
      assert v + x == x;
    } else {
      assert forall i :: 0 <= i < |v| ==> v[i] == u[i + 1];
      HolderKeepsName(IsWordChar(u[0]), v, x);
    }
    assert u == [u[0]] + v;
    ConcatAssociates([u[0]], v, SubstituteY(true, x));
  }

  /** No token of `ts` is a plain capital `Y`. */
  predicate NoCapitalY(ts: seq<Token>) {
    forall i :: 0 <= i < |ts| ==> ts[i] != Char('Y')
  }

  /** Lexing never produces a name token: names are only marked afterwards. */
  lemma {:induction false} LexUnmarked(s: string)
    ensures Unmarked(Lex(s))
    decreases |s|
  {
    if s != [] {
      var k := if SecondMark <= s then 3 else if FirstMark <= s then 2 else 1;
      LexUnmarked(s[k..]);
      var ts := Lex(s);
      assert ts[1..] == Lex(s[k..]);
      forall i | 0 <= i < |ts| ensures !ts[i].Name? {
        if i > 0 { assert ts[i] == ts[1..][i - 1]; }
      }
    }
  }

  /** Lexing a text without a capital `Y` yields no capital `Y` token. */
  lemma {:induction false} LexKeepsCapitalYOut(s: string)
    requires 'Y' !in s
    ensures NoCapitalY(Lex(s))
    decreases |s|
  {
    if s != [] {
      var k := if SecondMark <= s then 3 else if FirstMark <= s then 2 else 1;
      assert 'Y' !in s[k..] by {
        forall i | 0 <= i < |s[k..]| ensures s[k..][i] != 'Y' { assert s[k..][i] == s[i + k]; }
      }
      LexKeepsCapitalYOut(s[k..]);
      var ts := Lex(s);
      assert ts[1..] == Lex(s[k..]);
      forall i | 0 <= i < |ts| ensures ts[i] != Char('Y') {
        if i > 0 { assert ts[i] == ts[1..][i - 1]; }
      }
    }
  }

  /** The first two characters of a spelling are never a capital `Y`. */
  predicate HeadFreeOfY(x: string) {
    (|x| > 0 ==> x[0] != 'Y') && (|x| > 1 ==> x[1] != 'Y')
  }

  lemma HeadFreeOfYRender(ts: seq<Token>, stage: nat)
    requires NoCapitalY(ts)
    ensures HeadFreeOfY(Render(ts, stage))
  {
    if ts != [] {
      var x := Render(ts[1..], stage);
      assert Render(ts, stage) == Spell(ts[0], stage) + x;
      if ts[0].Char? && |ts| > 1 {
        assert ts[1..][0] == ts[1];
      }
    }
  }

  lemma NoCapitalYTail(ts: seq<Token>)
    requires ts != [] && NoCapitalY(ts)
    ensures NoCapitalY(ts[1..])
  {
    forall i | 0 <= i < |ts[1..]| ensures ts[1..][i] != Char('Y') { assert ts[1..][i] == ts[i + 1]; }
  }

  /** A placeholder cannot start at a plain character: its third character would be a `Y`. */
  lemma CharStartsNoHolder(c: char, x: string, pat: string)
    requires c != 'Y' && HeadFreeOfY(x)
    requires pat == SecondHolder || pat == FirstHolder
    ensures forall j :: 0 <= j < |[c]| ==> !(pat <= ([c] + x)[j..])
  {
    assert ([c] + x)[0..] == [c] + x;
    assert |x| >= 2 ==> ([c] + x)[2] == x[1];
  }

  /** The second-derivative placeholder does not start anywhere inside the first-derivative one. */
  lemma FirstHolderHidesSecond(x: string)
    requires HeadFreeOfY(x)
    ensures forall j :: 0 <= j < |FirstHolder| ==> !(SecondHolder <= (FirstHolder + x)[j..])
  {
    var w := FirstHolder + x;
    assert w[0..][3] == '1';
    assert w[1..][1] == 'Y';
    assert w[2..][0] == 'Y';
    assert w[3..][0] == '1';
    assert |x| > 0 ==> w[4..][2] == x[0];
    assert |x| > 1 ==> w[5..][1] == x[0] && w[5..][2] == x[1];
  }

  /** Step four expands exactly the second-derivative placeholders. */
  lemma {:induction false} ExpandSecond(ts: seq<Token>)
    requires NoCapitalY(ts)
    ensures ReplaceAll(Render(ts, 0), SecondHolder, SecondDerivative) == Render(ts, 1)
    decreases |ts|
  {
    if ts != [] {
      NoCapitalYTail(ts);
      var x := Render(ts[1..], 0);
      HeadFreeOfYRender(ts[1..], 0);
      ExpandSecond(ts[1..]);
      var u := Spell(ts[0], 0);
      assert Render(ts, 0) == u + x;
      assert Render(ts, 1) == Spell(ts[0], 1) + Render(ts[1..], 1);
      match ts[0]
      case Prime2 =>
        ReplaceAtPattern(x, SecondHolder, SecondDerivative);
      case Prime1 =>
        FirstHolderHidesSecond(x);
        ReplaceAfterPrefix(u, x, SecondHolder, SecondDerivative);
      case Name =>
        NoStartInPrefix(u, x, SecondHolder);
        ReplaceAfterPrefix(u, x, SecondHolder, SecondDerivative);
      case Char(c) =>
        CharStartsNoHolder(c, x, SecondHolder);
        ReplaceAfterPrefix(u, x, SecondHolder, SecondDerivative);
    }
  }

  /** Step five expands exactly the first-derivative placeholders. */
  lemma {:induction false} ExpandFirst(ts: seq<Token>)
    requires NoCapitalY(ts)
    ensures ReplaceAll(Render(ts, 1), FirstHolder, FirstDerivative) == Render(ts, 2)
    decreases |ts|
  {
    if ts != [] {
      NoCapitalYTail(ts);
      var x := Render(ts[1..], 1);
      HeadFreeOfYRender(ts[1..], 1);
      ExpandFirst(ts[1..]);
      var u := Spell(ts[0], 1);
      assert Render(ts, 1) == u + x;
      assert Render(ts, 2) == Spell(ts[0], 2) + Render(ts[1..], 2);
      match ts[0]
      case Prime1 =>
        ReplaceAtPattern(x, FirstHolder, FirstDerivative);
      case Prime2 =>
        NoStartInPrefix(u, x, FirstHolder);
        ReplaceAfterPrefix(u, x, FirstHolder, FirstDerivative);
      case Name =>
        NoStartInPrefix(u, x, FirstHolder);
        ReplaceAfterPrefix(u, x, FirstHolder, FirstDerivative);
      case Char(c) =>
        CharStartsNoHolder(c, x, FirstHolder);
        ReplaceAfterPrefix(u, x, FirstHolder, FirstDerivative);
    }
  }

  /**
    On every text without a capital `Y`, `formatear_ecuacion` is the one-pass
    reference: `y''` is always read as a second derivative, `y'` as a first
    derivative, and only standalone names become `y(x)`.
  */
  lemma FormatEquationIsTranslate(s: string)
    requires 'Y' !in s
    ensures FormatEquation(s) == Translate(s)
  {
    var ts := Lex(s);
    LexUnmarked(s);
    ProtectMarks(s);
    NameTokens(false, ts);
    var marked := MarkNames(false, ts);
    LexKeepsCapitalYOut(s);
    MarkNamesOnlyNames(false, ts);
    assert NoCapitalY(marked);
    ExpandSecond(marked);
    ExpandFirst(marked);
  }

  // ---------------------------------------------------------------------------
  // Consequences

  /** A replacement of a pattern that does not occur changes nothing. */
  lemma {:induction false} ReplaceAbsent(s: string, pat: string, rep: string)
    requires pat != [] && !Occurs(pat, s)
    ensures ReplaceAll(s, pat, rep) == s
    decreases |s|
  {
    if s != [] {
      ReplaceAbsent(s[1..], pat, rep);
    }
  }

  /** A text with no `y` and no placeholder comes back unchanged. */
  lemma FormatEquationUnchanged(s: string)
    requires 'y' !in s
    requires !Occurs(SecondHolder, s) && !Occurs(FirstHolder, s)
    ensures FormatEquation(s) == s
  {
    NoLowerYNoMark(s, SecondMark);
    NoLowerYNoMark(s, FirstMark);
    ReplaceAbsent(s, SecondMark, SecondHolder);
    ReplaceAbsent(s, FirstMark, FirstHolder);
    SubstituteYWithoutY(false, s);
    ReplaceAbsent(s, SecondHolder, SecondDerivative);
    ReplaceAbsent(s, FirstHolder, FirstDerivative);
  }

  lemma {:induction false} NoLowerYNoMark(s: string, mark: string)
    requires 'y' !in s && mark != [] && mark[0] == 'y'
    ensures !Occurs(mark, s)
    decreases |s|
  {
    if s != [] {
      NoLowerYNoMark(s[1..], mark);
    }
  }

  /** A mark made of `y` and primes that does not start `u` does not start `u + v` either, when `v` does not open with a prime. */
  lemma MarkNotAcross(mark: string, u: string, v: string)
    requires mark == SecondMark || mark == FirstMark
    requires u != [] && !(mark <= u)
    requires v == [] || v[0] != '\''
    ensures !(mark <= u + v)
  {
    if |mark| <= |u| {
      assert (u + v)[..|mark|] == u[..|mark|];
    } else {
      assert |v| > 0 ==> (u + v)[|u|] == v[0];
      assert mark[|u|] == '\'';
    }
  }

  /**
    Lexing never joins across a boundary that is not followed by a prime:
    every derivative mark lies within one side.
  */
  lemma {:induction false} LexConcat(u: string, v: string)
    requires v == [] || v[0] != '\''
    ensures Lex(u + v) == Lex(u) + Lex(v)
    decreases |u|
  {
    if u == [] {
      assert u + v == v;
      assert Lex(u) == [];
    } else {
      var k := if SecondMark <= u then 3 else if FirstMark <= u then 2 else 1;
      LexHeadAcross(u, v, k);
      var rest := u[k..];
      LexConcat(rest, v);
      var head, tail, right := [Lex(u)[0]], Lex(rest), Lex(v);
      assert Lex(u + v) == head + (tail + right);
      ConcatAssociates(head, tail, right);
    }
  }

  /** The first token of `u + v` is the first token of `u`, when `v` does not open with a prime. */
  lemma LexHeadAcross(u: string, v: string, k: nat)
    requires u != [] && (v == [] || v[0] != '\'')
    requires k == if SecondMark <= u then 3 else if FirstMark <= u then 2 else 1
    ensures k <= |u| && (u + v)[k..] == u[k..] + v
    ensures Lex(u) == [Lex(u)[0]] + Lex(u[k..])
    ensures Lex(u + v) == [Lex(u)[0]] + Lex((u + v)[k..])
  {
    var w := u + v;
    if k == 3 {
      assert SecondMark <= w;
    } else if k == 2 {
      MarkNotAcross(SecondMark, u, v);
      assert FirstMark <= w;
    } else {
      MarkNotAcross(SecondMark, u, v);
      MarkNotAcross(FirstMark, u, v);
      assert w[0] == u[0];
    }
  }

  /** Wherever `y''` appears, it is read as one second-derivative token. */
  lemma SecondMarkIsOneToken(u: string, t: string)
    ensures Lex(u + SecondMark + t) == Lex(u) + [Prime2] + Lex(t)
  {
    LexConcat(u, SecondMark + t);
    assert (SecondMark + t)[3..] == t;
    assert u + SecondMark + t == u + (SecondMark + t);
  }

  /** Every `y''` of the input becomes `Derivative(y(x), x, x)` in the output, never a first derivative and a stray prime. */
  lemma SecondMarkBecomesSecondDerivative(u: string, t: string)
    requires 'Y' !in u && 'Y' !in t
    ensures Lex(u + SecondMark + t) == Lex(u) + [Prime2] + Lex(t)
    ensures var s := u + SecondMark + t;
      var r := MarkNames(false, Lex(s));
      FormatEquation(s) == Render(r, 2) && r[|Lex(u)|] == Prime2 && Spell(r[|Lex(u)|], 2) == SecondDerivative
  {
    var s := u + SecondMark + t;
    assert 'Y' !in s by {
      forall i | 0 <= i < |s| ensures s[i] != 'Y' {
        if i >= |u| + 3 { assert s[i] == t[i - |u| - 3]; }
        else if i < |u| { assert s[i] == u[i]; }
      }
    }
    FormatEquationIsTranslate(s);
    SecondMarkIsOneToken(u, t);
    assert Lex(s)[|Lex(u)|] == Prime2;
    MarkNamesOnlyNames(false, Lex(s));
  }
}
