/** What the tokenizer makes of any text: its tokens spell the text. */
module FormulaSpelling {
  import opened Wrappers
  import opened Decimal
  import opened Recalculation
  import opened FormulaParser
  import opened FormulaPrinter
  import Lex = FormulaLexer

  function OpcodeText(op: Lex.Opcode, cfg: Config): string {
    Piece(Primitive(op), cfg)
  }

  /** How a lexer token is written. */
  function LexemeText(x: Lex.LexerToken, cfg: Config): string {
    match x
    case Operator(op) => OpcodeText(op, cfg)
    case Numeral(text) => text
    case Identifier(text) => text
    case Quoted(text) => "\"" + text + "\""
    case ErrorValue(e) => ErrorText(e)
  }

  function Spelled(xs: seq<Lex.LexerToken>, cfg: Config): string {
    if xs == [] then [] else LexemeText(xs[0], cfg) + Spelled(xs[1..], cfg)
  }

  /** The text from i on without the blanks between its lexemes. */
  function WithoutBlanks(s: string, i: nat, sep: char): string
    requires i <= |s| && !IsDigit(sep)
    decreases |s| - i
  {
    if i == |s| then [] else
      match Lex.LexemeAt(s, i, sep)
      case Throws => []
      case Lexeme(token, end) => (if token.Some? then s[i..end] else []) + WithoutBlanks(s, end, sep)
  }

  /** The last lexeme is a string that is never closed. */
  predicate OpenString(s: string, i: nat, sep: char)
    requires i <= |s| && !IsDigit(sep)
    decreases |s| - i
  {
    i < |s| &&
    match Lex.LexemeAt(s, i, sep)
    case Throws => false
    case Lexeme(token, end) =>
      if end == |s| then s[i] == '"' && Lex.StringEnd(s, i + 1) == |s| else OpenString(s, end, sep)
  }

  lemma {:induction false} ErrorSpells(s: string, i: nat, path: string)
    requires i <= |s| && Lex.ErrorFrom(s, i, path).Some?
    ensures var (e, end) := Lex.ErrorFrom(s, i, path).value; ErrorText(e) == ['#'] + (path + s[i..end]) && Readable(e)
    decreases |s| - i
  {
    var next := path + [s[i]];
    var (e, end) := Lex.ErrorFrom(s, i, path).value;
    assert path + s[i..end] == next + s[i + 1..end];
    if Lex.ErrorNamed(next).Some? {
      NamedErrorText(next);
      assert s[i + 1..end] == [];
    } else {
      ErrorSpells(s, i + 1, next);
    }
  }

  lemma NamedErrorText(name: string)
    requires Lex.ErrorNamed(name).Some?
    ensures ErrorText(Lex.ErrorNamed(name).value) == ['#'] + name
  {
    var m :| 0 <= m < |Lex.ERROR_NAMES| && Lex.ERROR_NAMES[m] == name;
    var e := Lex.ErrorNamed(name).value;
    NameOfError(e, NameIndex(e));
    ErrorNamesDiffer(m, NameIndex(e));
  }

  lemma ErrorNamesDiffer(m: nat, n: nat)
    requires m < |Lex.ERROR_NAMES| && n < |Lex.ERROR_NAMES|
    requires Lex.ErrorNamed(Lex.ERROR_NAMES[m]).Some? &&
      Lex.ErrorNamed(Lex.ERROR_NAMES[m]) == Lex.ErrorNamed(Lex.ERROR_NAMES[n])
    ensures m == n
  {
  }

  /** What is added to a lexeme that is a string without closing quote. */
  function Closing(s: string, i: nat): string
    requires i < |s|
  {
    if s[i] == '"' && Lex.StringEnd(s, i + 1) == |s| then "\"" else ""
  }

  /** The lexeme at i is written as it stands in the text. */
  predicate SpellsLexeme(s: string, i: nat, cfg: Config)
    requires Standard(cfg) && i < |s|
  {
    var x := Lex.LexemeAt(s, i, cfg.sepArg);
    x.Lexeme? && x.token.Some? ==> LexemeText(x.token.value, cfg) == s[i..x.end] + Closing(s, i)
  }

  lemma LexemeSpells(s: string, i: nat, cfg: Config)
    requires Standard(cfg) && i < |s|
    ensures SpellsLexeme(s, i, cfg)
  {
    if s[i] == '"' {
      StringSpells(s, i, cfg);
    } else if s[i] == '#' {
      HashSpells(s, i, cfg);
    } else if SymbolOf(s[i], cfg.sepArg).Some? {
      OperatorSpells(s, i, cfg);
    } else if IsDigit(s[i]) {
      NumeralSpells(s, i, cfg);
    } else {
      NameSpells(s, i, cfg);
    }
  }

  lemma OperatorSpells(s: string, i: nat, cfg: Config)
    requires Standard(cfg) && i < |s| && SymbolOf(s[i], cfg.sepArg).Some?
    ensures SpellsLexeme(s, i, cfg)
  {
    assert s[i..i + 1] == [s[i]];
  }

  lemma NumeralSpells(s: string, i: nat, cfg: Config)
    requires Standard(cfg) && i < |s| && IsDigit(s[i])
    ensures SpellsLexeme(s, i, cfg)
  {
  }

  lemma NameSpells(s: string, i: nat, cfg: Config)
    requires Standard(cfg) && i < |s| && !IsDigit(s[i]) && SymbolOf(s[i], cfg.sepArg).None? && s[i] != '"' &&
      s[i] != '#'
    ensures SpellsLexeme(s, i, cfg)
  {
  }

  lemma HashSpells(s: string, i: nat, cfg: Config)
    requires Standard(cfg) && i < |s| && s[i] == '#'
    ensures SpellsLexeme(s, i, cfg)
  {
    if Lex.ErrorFrom(s, i + 1, []).Some? {
      ErrorSpells(s, i + 1, []);
      var (e, end) := Lex.ErrorFrom(s, i + 1, []).value;
      ErrorRound(s, i, e, end, cfg);
      SignThenName(s, i, end);
    } else {
      assert Lex.LexemeAt(s, i, cfg.sepArg).Throws?;
    }
  }

  /** A number sign is an error whose name follows, and where none follows the
      tokenizer throws. */
  lemma HashLexeme(s: string, i: nat, cfg: Config)
    requires Standard(cfg) && i < |s| && s[i] == '#'
    ensures var x := Lex.LexemeAt(s, i, cfg.sepArg);
      if x.Throws? then forall e :: Readable(e) ==> !StandsAt(s, i, ErrorText(e))
      else exists e :: Readable(e) && StandsAt(s, i, ErrorText(e)) &&
             x == Lex.Lexeme(Some(Lex.ErrorValue(e)), i + |ErrorText(e)|)
  {
    forall e | Readable(e) && StandsAt(s, i, ErrorText(e))
      ensures Lex.ErrorFrom(s, i + 1, []).Some?
    {
      NameIsFound(s, i, e);
    }
    if Lex.ErrorFrom(s, i + 1, []).Some? {
      FoundStands(s, i, cfg);
    }
  }

  lemma NameIsFound(s: string, i: nat, e: FormulaError)
    requires Readable(e) && StandsAt(s, i, ErrorText(e))
    ensures Lex.ErrorFrom(s, i + 1, []).Some?
  {
    var m := NameIndex(e);
    NameOfError(e, m);
    assert forall k :: 0 <= k < |Lex.ERROR_NAMES[m]| ==> Lex.ERROR_NAMES[m][k] == ErrorText(e)[k + 1];
    NamedErrorRead(s, i + 1, e, m);
  }

  lemma FoundStands(s: string, i: nat, cfg: Config)
    requires Standard(cfg) && i < |s| && s[i] == '#' && Lex.ErrorFrom(s, i + 1, []).Some?
    ensures exists e :: Readable(e) && StandsAt(s, i, ErrorText(e)) &&
              Lex.LexemeAt(s, i, cfg.sepArg) == Lex.Lexeme(Some(Lex.ErrorValue(e)), i + |ErrorText(e)|)
  {
    ErrorSpells(s, i + 1, []);
    var (e, end) := Lex.ErrorFrom(s, i + 1, []).value;
    ErrorRound(s, i, e, end, cfg);
    SignThenName(s, i, end);
    assert ErrorText(e) == s[i..end];
    assert Readable(e) && StandsAt(s, i, ErrorText(e));
  }

  predicate Readable(e: FormulaError) {
    !e.NoError? && !e.StackError? && !e.GeneralError?
  }

  lemma SignThenName(s: string, i: nat, end: nat)
    requires i < end <= |s| && s[i] == '#'
    ensures ['#'] + ([] + s[i + 1..end]) == s[i..end] + ""
  {
  }

  lemma StringSpells(s: string, i: nat, cfg: Config)
    requires Standard(cfg) && i < |s| && s[i] == '"'
    ensures SpellsLexeme(s, i, cfg)
  {
    var end := Lex.StringEnd(s, i + 1);
    assert s[i..end] == ['"'] + s[i + 1..end];
    assert end < |s| ==> s[i..end + 1] == s[i..end] + ['"'];
  }

  function QuoteIf(open: bool): string {
    if open then "\"" else ""
  }

  lemma SpelledFront(x: Option<Lex.LexerToken>, xs: seq<Lex.LexerToken>, cfg: Config)
    ensures Spelled((if x.Some? then [x.value] else []) + xs, cfg) ==
      (if x.Some? then LexemeText(x.value, cfg) else "") + Spelled(xs, cfg)
  {
    assert x.None? ==> [] + xs == xs;
    assert x.Some? ==> ([x.value] + xs)[1..] == xs;
  }

  /** Only the last lexeme can lack its quote. */
  lemma ClosingLast(s: string, i: nat, cfg: Config)
    requires Standard(cfg) && i < |s| && Lex.LexemeAt(s, i, cfg.sepArg).Lexeme?
    ensures var x := Lex.LexemeAt(s, i, cfg.sepArg);
      if x.end < |s| then Closing(s, i) == "" && (OpenString(s, i, cfg.sepArg) <==> OpenString(s, x.end, cfg.sepArg))
      else Closing(s, i) == QuoteIf(OpenString(s, i, cfg.sepArg)) && !OpenString(s, x.end, cfg.sepArg)
    ensures var x := Lex.LexemeAt(s, i, cfg.sepArg); x.token.None? ==> Closing(s, i) == ""
  {
  }

  lemma TokensStep(s: string, i: nat, token: Option<Lex.LexerToken>, end: nat, sep: char)
    requires i < |s| && !IsDigit(sep) && Lex.LexemeAt(s, i, sep) == Lex.Lexeme(token, end)
    ensures Lex.TokensFrom(s, i, sep) ==
      Lex.After(if token.Some? then [token.value] else [], Lex.TokensFrom(s, end, sep))
    ensures WithoutBlanks(s, i, sep) == (if token.Some? then s[i..end] else []) + WithoutBlanks(s, end, sep)
  {
  }

  /** The text of one lexeme before that of the others. */
  lemma Joined(here: string, closing: string, more: string, quote: string)
    requires closing == "" || (more == "" && quote == "")
    ensures (here + closing) + (more + quote) == (here + more) + (closing + quote)
  {
    if closing == "" {
      assert here + closing == here && closing + quote == quote;
      assert here + (more + quote) == (here + more) + quote;
    } else {
      assert more + quote == "" && here + more == here && closing + quote == closing;
      assert (here + closing) + "" == here + closing;
    }
  }

  /** Whatever the text, its tokens written one after another are the text
      without the blanks between lexemes, with a missing quote added. */
  lemma {:induction false} TokensSpellText(s: string, i: nat, cfg: Config)
    requires Standard(cfg) && i <= |s| && Lex.TokensFrom(s, i, cfg.sepArg).Some?
    ensures Spelled(Lex.TokensFrom(s, i, cfg.sepArg).value, cfg) ==
      WithoutBlanks(s, i, cfg.sepArg) + QuoteIf(OpenString(s, i, cfg.sepArg))
    decreases |s| - i
  {
    if i == |s| {
    } else {
      var x := Lex.LexemeAt(s, i, cfg.sepArg);
      TokensStep(s, i, x.token, x.end, cfg.sepArg);
      TokensSpellText(s, x.end, cfg);
      SpelledFront(x.token, Lex.TokensFrom(s, x.end, cfg.sepArg).value, cfg);
      OneMoreLexeme(s, i, x.token, x.end, cfg);
    }
  }

  lemma OneMoreLexeme(s: string, i: nat, token: Option<Lex.LexerToken>, end: nat, cfg: Config)
    requires Standard(cfg) && i < |s| && Lex.LexemeAt(s, i, cfg.sepArg) == Lex.Lexeme(token, end)
    ensures end <= |s|
    ensures (if token.Some? then LexemeText(token.value, cfg) else "")
          + (WithoutBlanks(s, end, cfg.sepArg) + QuoteIf(OpenString(s, end, cfg.sepArg)))
         == ((if token.Some? then s[i..end] else []) + WithoutBlanks(s, end, cfg.sepArg)) +
           QuoteIf(OpenString(s, i, cfg.sepArg))
  {
    LexemeSpells(s, i, cfg);
    ClosingLast(s, i, cfg);
    var here, more := if token.Some? then s[i..end] else [], WithoutBlanks(s, end, cfg.sepArg);
    assert end == |s| ==> more == [];
    Joined(here, Closing(s, i), more, QuoteIf(OpenString(s, end, cfg.sepArg)));
    assert token.None? ==> here + Closing(s, i) == "";
    assert Closing(s, i) + QuoteIf(OpenString(s, end, cfg.sepArg)) == QuoteIf(OpenString(s, i, cfg.sepArg));
  }

  // ---- the text without blanks ----

  /** All characters but blanks. */
  function NonBlank(s: string): string {
    if s == [] then [] else (if s[0] == ' ' then [] else [s[0]]) + NonBlank(s[1..])
  }

  lemma {:induction false} NonBlankParts(x: string, y: string)
    ensures NonBlank(x + y) == NonBlank(x) + NonBlank(y)
    decreases |x|
  {
    if x == [] {
      assert x + y == y;
    } else {
      assert (x + y)[1..] == x[1..] + y;
      NonBlankParts(x[1..], y);
    }
  }

  lemma {:induction false} OnlyBlanksDropped(s: string, i: nat, sep: char)
    requires i <= |s| && !IsDigit(sep) && Lex.TokensFrom(s, i, sep).Some?
    ensures NonBlank(WithoutBlanks(s, i, sep)) == NonBlank(s[i..])
    decreases |s| - i
  {
    if i < |s| {
      var x := Lex.LexemeAt(s, i, sep);
      TokensStep(s, i, x.token, x.end, sep);
      OnlyBlanksDropped(s, x.end, sep);
      assert s[i..] == s[i..x.end] + s[x.end..];
      NonBlankParts(s[i..x.end], s[x.end..]);
      NonBlankParts(if x.token.Some? then s[i..x.end] else [], WithoutBlanks(s, x.end, sep));
      if x.token.None? {
        assert s[i..x.end] == " ";
        assert NonBlank(" ") == [];
      }
    }
  }

  /** Whatever the text, its tokens written one after another have all its
      characters but blanks, in order, and the quote that may be missing. */
  lemma NothingButBlanksLost(s: string, cfg: Config)
    requires Standard(cfg) && Lex.TokensFrom(s, 0, cfg.sepArg).Some?
    ensures NonBlank(Spelled(Lex.TokensFrom(s, 0, cfg.sepArg).value, cfg)) ==
      NonBlank(s) + QuoteIf(OpenString(s, 0, cfg.sepArg))
  {
    TokensSpellText(s, 0, cfg);
    OnlyBlanksDropped(s, 0, cfg.sepArg);
    NonBlankParts(WithoutBlanks(s, 0, cfg.sepArg), QuoteIf(OpenString(s, 0, cfg.sepArg)));
    assert s[0..] == s;
  }
}
