/** Where lexemes end: numerals, names, strings and blanks in terms of the
    characters of the text. */
module FormulaLexemes {
  import opened Wrappers
  import opened Decimal
  import opened FormulaLexer

  // ---- blanks and symbols ----

  /** A round without a token moves over exactly one blank. */
  lemma BlankIsSkipped(s: string, i: nat, sep: char)
    requires i < |s| && !IsDigit(sep)
    ensures LexemeAt(s, i, sep).Lexeme? && LexemeAt(s, i, sep).token.None? <==> s[i] == ' '
    ensures s[i] == ' ' ==> LexemeAt(s, i, sep).end == i + 1
  {
  }

  /** The symbols, and where they stand in a string the operators they are. */
  const SYMBOLS := "&()*+-/<=>^{}"
  const OPERATORS := [Concat, Open, Close, Multiply, Plus, Minus, Divide, Less, Equal, Greater, Exponent, ArrayOpen,
                      ArrayClose]

  /** Every symbol is an operator by itself; whatever no other lexeme begins
      with begins a name. */
  lemma SymbolLexeme(s: string, i: nat, sep: char)
    requires i < |s| && !IsDigit(sep)
    ensures |SYMBOLS| == |OPERATORS|
    ensures forall j :: 0 <= j < |SYMBOLS| && s[i] == SYMBOLS[j] ==>
      LexemeAt(s, i, sep) == Lexeme(Some(Operator(OPERATORS[j])), i + 1)
    ensures s[i] == sep && sep !in SYMBOLS + " \"#" ==> LexemeAt(s, i, sep) == Lexeme(Some(Operator(Sep)), i + 1)
    ensures s[i] == ';' && sep != ';' ==> LexemeAt(s, i, sep) == Lexeme(Some(Operator(ArrayRowSep)), i + 1)
    ensures !IsDigit(s[i]) && s[i] !in SYMBOLS + " \"#;" + [sep] ==> LexemeAt(s, i, sep) == NameAt(s, i, sep)
  {
  }

  /** The tokens of the text 1 + 2. */
  lemma BlanksBetween()
    ensures TokensFrom("1 + 2", 0, ',') == Some([Numeral("1"), Operator(Plus), Numeral("2")])
  {
    var s := "1 + 2";
    assert s[0..1] == "1" && s[4..5] == "2";
    assert LexemeAt(s, 0, ',') == Lexeme(Some(Numeral("1")), 1);
    assert LexemeAt(s, 4, ',') == Lexeme(Some(Numeral("2")), 5);
    var two, rest := [Numeral("2")], [Operator(Plus), Numeral("2")];
    assert two + [] == two && [] + two == two && [] + rest == rest && [Operator(Plus)] + two == rest;
    assert [Numeral("1")] + rest == [Numeral("1"), Operator(Plus), Numeral("2")];
    assert TokensFrom(s, 5, ',') == Some([]);
    assert TokensFrom(s, 4, ',') == Some(two);
    assert TokensFrom(s, 3, ',') == Some(two);
    assert TokensFrom(s, 2, ',') == Some(rest);
    assert TokensFrom(s, 1, ',') == Some(rest);
    assert TokensFrom(s, 0, ',') == Some([Numeral("1")] + rest);
  }

  // ---- strings ----

  predicate NoQuote(s: string, i: nat, k: nat)
    requires k <= |s|
  {
    forall j :: i <= j < k ==> s[j] != '"'
  }

  lemma {:induction false} StringEndsAtQuote(s: string, i: nat, k: nat)
    requires i <= k <= |s| && NoQuote(s, i, k) && (k < |s| ==> s[k] == '"')
    ensures StringEnd(s, i) == k
    decreases k - i
  {
    if i < k {
      StringEndsAtQuote(s, i + 1, k);
    }
  }

  /** A string has all characters up to the next quote, or up to the end of the
      text if there is none. */
  lemma StringLexeme(s: string, i: nat, k: nat, sep: char)
    requires i < k <= |s| && !IsDigit(sep)
    requires s[i] == '"' && NoQuote(s, i + 1, k) && (k < |s| ==> s[k] == '"')
    ensures LexemeAt(s, i, sep) == Lexeme(Some(Quoted(s[i + 1..k])), if k < |s| then k + 1 else k)
  {
    StringEndsAtQuote(s, i + 1, k);
  }

  // ---- numerals ----

  predicate InNumeral(c: char) {
    IsDigit(c) || c == '.'
  }

  /** The longest run of digits and decimal separators from i on ends at k. */
  predicate IsRun(s: string, i: nat, k: nat) {
    i <= k <= |s| && (forall j :: i <= j < k ==> InNumeral(s[j])) && (k < |s| ==> !InNumeral(s[k]))
  }

  predicate OneSeparator(s: string, i: nat, k: nat)
    requires k <= |s|
  {
    forall j, l :: i <= j < k && i <= l < k && s[j] == '.' && s[l] == '.' ==> j == l
  }

  lemma {:induction false} RunIsNumeral(s: string, i: nat, k: nat, seps: nat)
    requires IsRun(s, i, k) && (seps > 0 ==> forall j :: i <= j < k ==> s[j] != '.')
    requires OneSeparator(s, i, k) && seps <= 1
    ensures NumeralEnd(s, i, seps) == if k < |s| && s[k] == ':' then None else Some(k)
    decreases k - i
  {
    if i < k {
      RunIsNumeral(s, i + 1, k, if s[i] == '.' then 1 else seps);
    }
  }

  lemma {:induction false} TwoSeparators(s: string, i: nat, k: nat, seps: nat)
    requires IsRun(s, i, k) && seps <= 1
    requires if seps == 0 then !OneSeparator(s, i, k) else exists j :: i <= j < k && s[j] == '.'
    ensures NumeralEnd(s, i, seps) == None
    decreases k - i
  {
    if s[i] == '.' && seps == 0 {
      assert exists j :: i + 1 <= j < k && s[j] == '.';
      TwoSeparators(s, i + 1, k, 1);
    } else if s[i] != '.' {
      TwoSeparators(s, i + 1, k, seps);
    }
  }

  /** A run of digits and separators is a numeral as a whole, unless it has two
      separators or a colon comes next; then a name starts with it. */
  lemma NumeralLexeme(s: string, i: nat, k: nat, sep: char)
    requires i < |s| && IsDigit(s[i]) && !IsDigit(sep) && IsRun(s, i, k)
    ensures LexemeAt(s, i, sep) ==
      if OneSeparator(s, i, k) && !(k < |s| && s[k] == ':') then Lexeme(Some(Numeral(s[i..k])), k)
      else NameAt(s, i, sep)
  {
    if OneSeparator(s, i, k) {
      RunIsNumeral(s, i + 1, k, 0);
    } else {
      TwoSeparators(s, i + 1, k, 0);
    }
  }

  // ---- names ----

  /** The characters of a name, and its parts in brackets and quotes. */
  datatype NamePart = Char(c: char) | Scope(quote: bool, inner: seq<NamePart>)

  function Opening(quote: bool): char {
    if quote then '\'' else '['
  }

  function Closing(quote: bool): char {
    if quote then '\'' else ']'
  }

  function PartText(p: NamePart): string {
    match p
    case Char(c) => [c]
    case Scope(quote, inner) => [Opening(quote)] + PartsText(inner) + [Closing(quote)]
  }

  function PartsText(ps: seq<NamePart>): string {
    if ps == [] then [] else PartText(ps[0]) + PartsText(ps[1..])
  }

  /** The characters that end a name outside of scopes. */
  predicate EndsName(c: char, sep: char) {
    c in SYMBOLS || c == ' ' || c == '"' || c == sep
  }

  lemma EndsNameIs(c: char, sep: char)
    ensures EndsName(c, sep) <==> IsOp(c, sep)
  {
    if IsOp(c, sep) {
      assert OpcodeOf(c).Some? ==> exists j :: 0 <= j < |SYMBOLS| && SYMBOLS[j] == c by {
        assert SYMBOLS[0] == '&' && SYMBOLS[1] == '(' && SYMBOLS[2] == ')' && SYMBOLS[3] == '*' && SYMBOLS[4] == '+';
        assert SYMBOLS[5] == '-' && SYMBOLS[6] == '/' && SYMBOLS[7] == '<' && SYMBOLS[8] == '=' && SYMBOLS[9] == '>';
        assert SYMBOLS[10] == '^' && SYMBOLS[11] == '{' && SYMBOLS[12] == '}';
      }
    }
  }

  /** Outside of scopes no operator may stand; inside one any character may,
      but the one that closes it; the others open scopes. */
  predicate PartFits(p: NamePart, close: Option<char>, sep: char) {
    match p
    case Char(c) => c != '[' && c != '\'' && if close.Some? then c != close.value else !EndsName(c, sep)
    case Scope(quote, inner) => close != Some(Opening(quote)) && PartsFit(inner, Some(Closing(quote)), sep)
  }

  predicate PartsFit(ps: seq<NamePart>, close: Option<char>, sep: char) {
    ps == [] || (PartFits(ps[0], close, sep) && PartsFit(ps[1..], close, sep))
  }

  /** The text t stands in s at i. */
  predicate StandsAt(s: string, i: nat, t: string) {
    i + |t| <= |s| && s[i..i + |t|] == t
  }

  lemma StandsInParts(s: string, i: nat, x: string, y: string)
    requires StandsAt(s, i, x + y)
    ensures StandsAt(s, i, x) && StandsAt(s, i + |x|, y)
  {
    var t := s[i..i + |x + y|];
    assert t[..|x|] == x && t[|x|..] == y;
  }

  lemma CharStands(s: string, i: nat, c: char)
    requires StandsAt(s, i, [c])
    ensures s[i] == c
  {
    assert s[i] == s[i..i + 1][0];
  }

  function Innermost(scopes: seq<char>): Option<char> {
    if scopes == [] then None else Some(scopes[|scopes| - 1])
  }

  /** Reading passes over parts that fit. */
  lemma {:induction false} PartsPassed(s: string, i: nat, ps: seq<NamePart>, scopes: seq<char>, sep: char)
    requires StandsAt(s, i, PartsText(ps)) && PartsFit(ps, Innermost(scopes), sep)
    ensures NameEnd(s, i, scopes, sep) == NameEnd(s, i + |PartsText(ps)|, scopes, sep)
    decreases ps
  {
    if ps != [] {
      StandsInParts(s, i, PartText(ps[0]), PartsText(ps[1..]));
      PartPassed(s, i, ps[0], scopes, sep);
      PartsPassed(s, i + |PartText(ps[0])|, ps[1..], scopes, sep);
    }
  }

  lemma {:induction false} PartPassed(s: string, i: nat, p: NamePart, scopes: seq<char>, sep: char)
    requires StandsAt(s, i, PartText(p)) && PartFits(p, Innermost(scopes), sep)
    ensures NameEnd(s, i, scopes, sep) == NameEnd(s, i + |PartText(p)|, scopes, sep)
    decreases p
  {
    match p
    case Char(c) =>
      CharStands(s, i, c);
      EndsNameIs(c, sep);
      assert ScopesAfter(scopes, c, sep) == Some(scopes);
    case Scope(quote, inner) =>
      var open, close, k := Opening(quote), Closing(quote), i + 1 + |PartsText(inner)|;
      assert PartText(p) == [open] + (PartsText(inner) + [close]);
      StandsInParts(s, i, [open], PartsText(inner) + [close]);
      StandsInParts(s, i + 1, PartsText(inner), [close]);
      CharStands(s, i, open);
      CharStands(s, k, close);
      ScopeOpens(s, i, scopes, quote, sep);
      PartsPassed(s, i + 1, inner, scopes + [close], sep);
      ScopeCloses(s, k, scopes, quote, sep);
  }

  lemma ScopeOpens(s: string, i: nat, scopes: seq<char>, quote: bool, sep: char)
    requires i < |s| && s[i] == Opening(quote) && Innermost(scopes) != Some(Opening(quote))
    ensures NameEnd(s, i, scopes, sep) == NameEnd(s, i + 1, scopes + [Closing(quote)], sep)
  {
  }

  lemma ScopeCloses(s: string, i: nat, scopes: seq<char>, quote: bool, sep: char)
    requires i < |s| && s[i] == Closing(quote)
    ensures NameEnd(s, i, scopes + [Closing(quote)], sep) == NameEnd(s, i + 1, scopes, sep)
  {
    assert (scopes + [Closing(quote)])[..|scopes|] == scopes;
  }

  /** A name reaches up to the next operator outside of brackets and quotes, or
      up to the end of the text. */
  lemma NameLexeme(s: string, i: nat, ps: seq<NamePart>, sep: char)
    requires !IsDigit(sep) && StandsAt(s, i, PartsText(ps)) && PartsFit(ps, None, sep)
    requires var k := i + |PartsText(ps)|; k < |s| ==> EndsName(s[k], sep) && s[k] != '[' && s[k] != '\''
    ensures NameAt(s, i, sep) == Lexeme(Some(Identifier(PartsText(ps))), i + |PartsText(ps)|)
  {
    var k := i + |PartsText(ps)|;
    PartsPassed(s, i, ps, [], sep);
    if k < |s| {
      EndsNameIs(s[k], sep);
      assert ScopesAfter([], s[k], sep) == None;
    }
    assert s[i..k] == PartsText(ps);
  }

  lemma OpenScopePassed(s: string, k: nat, quote: bool, inner: seq<NamePart>, sep: char)
    requires PartsFit(inner, Some(Closing(quote)), sep)
    requires k < |s| && s[k] == Opening(quote) && StandsAt(s, k + 1, PartsText(inner))
    requires k + 1 + |PartsText(inner)| == |s|
    ensures NameEnd(s, k, [], sep).0 == |s|
  {
    var scopes := [Closing(quote)];
    ScopeOpens(s, k, [], quote, sep);
    assert [] + scopes == scopes;
    assert Innermost(scopes) == Some(Closing(quote));
    PartsPassed(s, k + 1, inner, scopes, sep);
    EndReached(s, scopes, sep);
  }

  lemma EndReached(s: string, scopes: seq<char>, sep: char)
    ensures NameEnd(s, |s|, scopes, sep) == (|s|, scopes)
  {
  }

  /** With a bracket or quote that is not closed it reaches up to the end. */
  lemma OpenNameLexeme(s: string, i: nat, ps: seq<NamePart>, quote: bool, inner: seq<NamePart>, sep: char)
    requires !IsDigit(sep) && PartsFit(ps, None, sep) && PartsFit(inner, Some(Closing(quote)), sep)
    requires StandsAt(s, i, PartsText(ps))
    requires var k := i + |PartsText(ps)|;
      k < |s| && s[k] == Opening(quote) && StandsAt(s, k + 1, PartsText(inner)) && k + 1 + |PartsText(inner)| == |s|
    ensures NameAt(s, i, sep) == Lexeme(Some(Identifier(s[i..|s|])), |s|)
  {
    PartsPassed(s, i, ps, [], sep);
    OpenScopePassed(s, i + |PartsText(ps)|, quote, inner, sep);
  }
}
