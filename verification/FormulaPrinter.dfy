/** Printing formula tokens, and when tokenizing and parsing the printed text
    gives the same tokens back. */
module FormulaPrinter {
  import opened Wrappers
  import opened Decimal
  import opened Recalculation
  import opened FormulaParser
  import G = ExpressionGrammar
  import Lex = FormulaLexer

  /** The separators of function arguments and of matrix rows. */
  datatype Config = Config(sepArg: char, sepRow: char)

  function ErrorText(e: FormulaError): string {
    match e
    case NoError => ""
    case RefResultNotAvailable => "#REF!"
    case DivisionByZero => "#DIV/0!"
    case InvalidExpression => "#NUM!"
    case NameNotFound => "#NAME?"
    case NoRangeIntersection => "#NULL!"
    case InvalidValueType => "#VALUE!"
    case NoValueAvailable => "#N/A"
    case _ => "#ERR!"
  }

  function Piece(t: FormulaToken, cfg: Config): string {
    match t
    case Relation(e) =>
      (match e
       case Plus => "+"
       case Minus => "-"
       case Equal => "="
       case NotEqual => "<>"
       case Less => "<"
       case Greater => ">"
       case LessEqual => "<="
       case GreaterEqual => ">=")
    case Joining(o) =>
      (match o case Multiply => "*" case Exponent => "^" case Concat => "&" case Divide => "/")
    case Open => "("
    case Close => ")"
    case Sep => [cfg.sepArg]
    case ArrayOpen => "{"
    case ArrayClose => "}"
    case ArrayRowSep => [cfg.sepRow]
    case Value(text) => text
    case Name(text) => text
    case Literal(text) => "\"" + text + "\""
    case ErrorToken(e) => ErrorText(e)
  }

  function Print(ts: seq<FormulaToken>, cfg: Config): string {
    if ts == [] then [] else Piece(ts[0], cfg) + Print(ts[1..], cfg)
  }

  lemma PrintedOnward(os: string, ts: seq<FormulaToken>, i: nat, cfg: Config)
    requires i < |ts|
    ensures os + Print(ts[i..], cfg) == os + Piece(ts[i], cfg) + Print(ts[i + 1..], cfg)
  {
    assert ts[i..][1..] == ts[i + 1..];
    JoinedFromLeft(os, Piece(ts[i], cfg), Print(ts[i + 1..], cfg));
  }

  lemma JoinedFromLeft(a: string, b: string, c: string)
    ensures a + (b + c) == a + b + c
  {
  }

  method PrintFormulaTokens(ts: seq<FormulaToken>, cfg: Config) returns (os: string)
    ensures os == Print(ts, cfg)
  {
    os := [];
    for i := 0 to |ts|
      invariant Print(ts, cfg) == os + Print(ts[i..], cfg)
    {
      PrintedOnward(os, ts, i, cfg);
      os := os + Piece(ts[i], cfg);
    }
    assert ts[|ts|..] == [];
  }

  // ---- what survives ----

  /** Separators that are read as such: neither is one of the other characters
      with a meaning of its own. */
  predicate Standard(cfg: Config) {
    && !IsDigit(cfg.sepArg) && Lex.OpcodeOf(cfg.sepArg).None?
    && cfg.sepArg !in {' ', '"', '#', '[', '\'', '.', ':', ';'}
    && cfg.sepRow == ';'
  }

  /** A token that can be written: a name is a lexeme of its own, a numeral is
      one, a string has no quote, an error has a name the tokenizer knows. */
  predicate Writable(t: FormulaToken, cfg: Config, resolves: Resolver) {
    match t
    case Name(text) =>
      && text != [] && !IsDigit(text[0]) && !Lex.IsOp(text[0], cfg.sepArg) && text[0] != '#' && text[0] != ';'
      && Lex.NameEnd(text, 0, [], cfg.sepArg) == (|text|, []) && resolves(text)
    case Value(text) => text != [] && IsDigit(text[0]) && Lex.NumeralEnd(text, 1, 0) == Some(|text|)
    case Literal(text) => '"' !in text
    case ErrorToken(e) => !e.NoError? && !e.StackError? && !e.GeneralError?
    case _ => true
  }

  predicate AllWritable(ts: seq<FormulaToken>, cfg: Config, resolves: Resolver) {
    forall i :: 0 <= i < |ts| ==> Writable(ts[i], cfg, resolves)
  }

  /** The first token runs on into the second: a name into whatever could be
      part of a name, a numeral into what could be part of one. */
  predicate RunsOn(t: FormulaToken, u: FormulaToken) {
    || (t.Name? && (u.Name? || u.Value? || u.ErrorToken? || u.ArrayRowSep?))
    || (t.Value? && (u.Value? || (u.Name? && u.text != [] && (u.text[0] == '.' || u.text[0] == ':'))))
  }

  /** The two are read as one relational operator, or as part of one. */
  predicate Fuses(t: FormulaToken, u: FormulaToken) {
    || (t == Relation(G.Less) && u in {Relation(G.Equal), Relation(G.Greater), Relation(G.GreaterEqual)})
    || (t == Relation(G.Greater) && u == Relation(G.Equal))
  }

  /** No two neighbours clash. */
  predicate NoClash(ts: seq<FormulaToken>, clash: (FormulaToken, FormulaToken) -> bool) {
    forall i :: 0 <= i < |ts| - 1 ==> !clash(ts[i], ts[i + 1])
  }

  predicate NoneRunsOn(ts: seq<FormulaToken>) {
    NoClash(ts, RunsOn)
  }

  predicate NoneFuses(ts: seq<FormulaToken>) {
    NoClash(ts, Fuses)
  }

  /** Printed, tokenized and parsed again. */
  function ReadBack(ts: seq<FormulaToken>, cfg: Config, resolves: Resolver): Option<seq<FormulaToken>>
    requires !IsDigit(cfg.sepArg)
  {
    var lexed := Lex.TokensFrom(Print(ts, cfg), 0, cfg.sepArg);
    if lexed.None? then None else ParsedFrom(lexed.value, 0, resolves)
  }

  // ---- tokenizing what was printed ----

  /** A text that stands inside a longer one. */
  predicate StandsAt(s: string, i: nat, t: string) {
    i + |t| <= |s| && forall k :: 0 <= k < |t| ==> s[i + k] == t[k]
  }

  /** The token ends where its text ends. */
  predicate EndsAt(t: FormulaToken, s: string, j: nat, sep: char)
    requires j <= |s|
  {
    j == |s| ||
    match t
    case Name(_) => Lex.IsOp(s[j], sep)
    case Value(_) => !IsDigit(s[j]) && s[j] != '.' && s[j] != ':'
    case _ => true
  }

  lemma {:induction false} NameInside(s: string, i: nat, t: string, k: nat, scopes: seq<char>, sep: char)
    requires StandsAt(s, i, t) && k <= |t| && Lex.NameEnd(t, k, scopes, sep) == (|t|, [])
    ensures Lex.NameEnd(s, i + k, scopes, sep) == Lex.NameEnd(s, i + |t|, [], sep)
    decreases |t| - k
  {
    if k == |t| {
    } else {
      match Lex.ScopesAfter(scopes, t[k], sep)
      case None =>
      case Some(next) => NameInside(s, i, t, k + 1, next, sep);
    }
  }

  /** A numeral inside a text ends with its own text unless more may follow. */
  lemma {:induction false} NumeralInside(s: string, i: nat, t: string, k: nat, seps: nat)
    requires StandsAt(s, i, t) && k <= |t| && Lex.NumeralEnd(t, k, seps) == Some(|t|)
    ensures EndsAt(Value(t), s, i + |t|, ',') ==> Lex.NumeralEnd(s, i + k, seps) == Some(i + |t|)
    ensures !EndsAt(Value(t), s, i + |t|, ',') ==> Lex.NumeralEnd(s, i + k, seps) != Some(i + |t|)
    decreases |t| - k
  {
    if k == |t| {
    } else {
      NumeralInside(s, i, t, k + 1, if t[k] == '.' then 1 else seps);
    }
  }

  lemma {:induction false} StringInside(s: string, i: nat, t: string, k: nat)
    requires StandsAt(s, i, t + "\"") && k <= |t| && '"' !in t
    ensures Lex.StringEnd(s, i + k) == i + |t|
    decreases |t| - k
  {
    assert (t + "\"")[k] == if k < |t| then t[k] else '"';
    if k < |t| {
      assert t[k] in t;
      StringInside(s, i, t, k + 1);
    }
  }

  lemma NoNameBeginsAnother(m: nat, n: nat)
    requires m < |Lex.ERROR_NAMES| && n < |Lex.ERROR_NAMES| && Lex.ERROR_NAMES[n] <= Lex.ERROR_NAMES[m]
    ensures m == n
  {
    var x, y := Lex.ERROR_NAMES[n], Lex.ERROR_NAMES[m];
    assert |x| >= 3 && x[0] == y[0] && x[1] == y[1] && x[2] == y[2];
  }

  /** Reading one more character goes one node down. */
  lemma NodeBelow(m: nat, k: nat)
    requires m < |Lex.ERROR_NAMES| && k < |Lex.ERROR_NAMES[m]|
    ensures var name, path := Lex.ERROR_NAMES[m], Lex.ERROR_NAMES[m][..k + 1];
      && name[..k] + [name[k]] == path && Lex.IsNode(path)
      && if path == name then Lex.ErrorNamed(path).Some? else Lex.ErrorNamed(path).None?
  {
    var name, path := Lex.ERROR_NAMES[m], Lex.ERROR_NAMES[m][..k + 1];
    assert path <= name;
    if Lex.ErrorNamed(path).Some? && path != name {
      var n :| 0 <= n < |Lex.ERROR_NAMES| && Lex.ERROR_NAMES[n] == path;
      NoNameBeginsAnother(m, n);
      assert false;
    }
  }

  lemma {:induction false} ErrorInside(s: string, i: nat, m: nat, k: nat)
    requires m < |Lex.ERROR_NAMES| && k < |Lex.ERROR_NAMES[m]| && StandsAt(s, i, Lex.ERROR_NAMES[m])
    ensures var name := Lex.ERROR_NAMES[m];
      && Lex.ErrorNamed(name).Some?
      && Lex.ErrorFrom(s, i + k, name[..k]) == Some((Lex.ErrorNamed(name).value, i + |name|))
    decreases |Lex.ERROR_NAMES[m]| - k
  {
    var name := Lex.ERROR_NAMES[m];
    NodeBelow(m, k);
    assert s[i + k] == name[k];
    if k + 1 < |name| {
      ErrorInside(s, i, m, k + 1);
    } else {
      assert name[..k + 1] == name;
    }
  }

  /** The text at i is read as the token, and reading goes on at j. */
  predicate ReadAs(s: string, i: nat, t: FormulaToken, j: nat, sep: char)
    requires i <= |s| && j <= |s| && !IsDigit(sep)
  {
    Lex.TokensFrom(s, i, sep) == Lex.After(Unlexed(t), Lex.TokensFrom(s, j, sep))
  }

  predicate ReadOtherwise(s: string, i: nat, t: FormulaToken, sep: char)
    requires i <= |s| && !IsDigit(sep)
  {
    var r := Lex.TokensFrom(s, i, sep);
    r.Some? ==> |r.value| > 0 && r.value[0] != Unlexed(t)[0]
  }

  /** One round that yields a token. */
  lemma RoundRead(s: string, i: nat, x: Lex.LexerToken, end: nat, sep: char)
    requires i < |s| && !IsDigit(sep) && Lex.LexemeAt(s, i, sep) == Lex.Lexeme(Some(x), end)
    ensures Lex.TokensFrom(s, i, sep) == Lex.After([x], Lex.TokensFrom(s, end, sep))
  {
  }

  lemma RoundSame(s: string, i: nat, t: FormulaToken, x: Lex.LexerToken, end: nat, sep: char)
    requires i < |s| && !IsDigit(sep) && Lex.LexemeAt(s, i, sep) == Lex.Lexeme(Some(x), end) && Unlexed(t) == [x]
    ensures ReadAs(s, i, t, end, sep)
  {
    RoundRead(s, i, x, end, sep);
  }

  lemma RoundDiffers(s: string, i: nat, t: FormulaToken, x: Lex.LexerToken, end: nat, sep: char)
    requires i < |s| && !IsDigit(sep) && Lex.LexemeAt(s, i, sep) == Lex.Lexeme(Some(x), end) && Unlexed(t)[0] != x
    ensures ReadOtherwise(s, i, t, sep)
  {
    RoundRead(s, i, x, end, sep);
  }

  lemma NameRead(s: string, i: nat, t: FormulaToken, cfg: Config, resolves: Resolver)
    requires t.Name? && Standard(cfg) && Writable(t, cfg, resolves) && StandsAt(s, i, t.text)
    ensures var j := i + |t.text|;
      if EndsAt(t, s, j, cfg.sepArg) then ReadAs(s, i, t, j, cfg.sepArg) else ReadOtherwise(s, i, t, cfg.sepArg)
  {
    var end := NameLexeme(s, i, t, cfg, resolves);
    NameReadUpTo(s, i, t, end, cfg.sepArg);
  }

  /** The name lexeme at i and what its extent says. */
  lemma NameLexeme(s: string, i: nat, t: FormulaToken, cfg: Config, resolves: Resolver) returns (end: nat)
    requires t.Name? && Standard(cfg) && Writable(t, cfg, resolves) && StandsAt(s, i, t.text)
    ensures i < |s| && i + |t.text| <= end <= |s|
    ensures Lex.LexemeAt(s, i, cfg.sepArg) == Lex.Lexeme(Some(Lex.Identifier(s[i..end])), end)
    ensures if EndsAt(t, s, i + |t.text|, cfg.sepArg) then s[i..end] == t.text else |s[i..end]| > |t.text|
  {
    end := NameExtent(s, i, t, cfg.sepArg);
    NameRound(s, i, t.text, end, cfg);
    NameStops(s, i, t, end, cfg.sepArg);
  }

  lemma NameReadUpTo(s: string, i: nat, t: FormulaToken, end: nat, sep: char)
    requires t.Name? && !IsDigit(sep) && StandsAt(s, i, t.text) && i + |t.text| <= end <= |s| && i < |s|
    requires Lex.LexemeAt(s, i, sep) == Lex.Lexeme(Some(Lex.Identifier(s[i..end])), end)
    requires if EndsAt(t, s, i + |t.text|, sep) then s[i..end] == t.text else |s[i..end]| > |t.text|
    ensures var j := i + |t.text|;
      if EndsAt(t, s, j, sep) then ReadAs(s, i, t, j, sep) else ReadOtherwise(s, i, t, sep)
  {
    if EndsAt(t, s, i + |t.text|, sep) {
      assert |s[i..end]| == end - i;
      RoundSame(s, i, t, Lex.Identifier(s[i..end]), end, sep);
    } else {
      RoundDiffers(s, i, t, Lex.Identifier(s[i..end]), end, sep);
    }
  }

  lemma NameStops(s: string, i: nat, t: FormulaToken, end: nat, sep: char)
    requires t.Name? && StandsAt(s, i, t.text) && i + |t.text| <= end <= |s|
    requires EndsAt(t, s, i + |t.text|, sep) <==> end == i + |t.text|
    ensures if EndsAt(t, s, i + |t.text|, sep) then s[i..end] == t.text else |s[i..end]| > |t.text|
  {
    if EndsAt(t, s, i + |t.text|, sep) {
      StandsSliced(s, i, t.text);
    } else {
      SliceLength(s, i, end);
    }
  }

  /** A name inside a text goes on as far as it may. */
  lemma NameExtent(s: string, i: nat, t: FormulaToken, sep: char) returns (end: nat)
    requires t.Name? && StandsAt(s, i, t.text) && sep != '[' && sep != '\''
    requires Lex.NameEnd(t.text, 0, [], sep) == (|t.text|, [])
    ensures i + |t.text| <= end <= |s| && end == Lex.NameEnd(s, i, [], sep).0
    ensures EndsAt(t, s, i + |t.text|, sep) <==> end == i + |t.text|
  {
    NameInside(s, i, t.text, 0, [], sep);
    NameGoesOn(s, i + |t.text|, t, sep);
    end := Lex.NameEnd(s, i + |t.text|, [], sep).0;
  }

  lemma SliceLength(s: string, i: nat, j: nat)
    requires i <= j <= |s|
    ensures |s[i..j]| == j - i
  {
  }

  lemma NameGoesOn(s: string, j: nat, t: FormulaToken, sep: char)
    requires t.Name? && j <= |s| && sep != '[' && sep != '\''
    ensures if EndsAt(t, s, j, sep) then Lex.NameEnd(s, j, [], sep).0 == j else Lex.NameEnd(s, j, [], sep).0 > j
  {
  }

  lemma StandsSliced(s: string, i: nat, text: string)
    requires StandsAt(s, i, text)
    ensures s[i..i + |text|] == text
  {
  }

  lemma NameRound(s: string, i: nat, text: string, end: nat, cfg: Config)
    requires i <= |s| && end == Lex.NameEnd(s, i, [], cfg.sepArg).0
    requires Standard(cfg) && text != [] && StandsAt(s, i, text)
    requires !IsDigit(text[0]) && !Lex.IsOp(text[0], cfg.sepArg) && text[0] != '#' && text[0] != ';'
    ensures i < |s|
    ensures Lex.LexemeAt(s, i, cfg.sepArg) == Lex.Lexeme(Some(Lex.Identifier(s[i..end])), end)
  {
    assert s[i] == text[0];
  }

  lemma ValueRead(s: string, i: nat, t: FormulaToken, cfg: Config, resolves: Resolver)
    requires t.Value? && Standard(cfg) && Writable(t, cfg, resolves) && StandsAt(s, i, t.text)
    ensures var j := i + |t.text|;
      if EndsAt(t, s, j, cfg.sepArg) then ReadAs(s, i, t, j, cfg.sepArg) else ReadOtherwise(s, i, t, cfg.sepArg)
  {
    var j := i + |t.text|;
    assert s[i] == t.text[0];
    NumeralInside(s, i, t.text, 1, 0);
    var end := Lex.NumeralEnd(s, i + 1, 0);
    if end.Some? {
      NumeralRound(s, i, end.value, cfg.sepArg);
      assert end.value == j ==> s[i..j] == t.text;
      assert end.value != j ==> |s[i..end.value]| != |t.text|;
      if end.value == j {
        RoundSame(s, i, t, Lex.Numeral(s[i..j]), j, cfg.sepArg);
      } else {
        RoundDiffers(s, i, t, Lex.Numeral(s[i..end.value]), end.value, cfg.sepArg);
      }
    } else {
      var name := Lex.NameEnd(s, i, [], cfg.sepArg).0;
      RoundDiffers(s, i, t, Lex.Identifier(s[i..name]), name, cfg.sepArg);
    }
  }

  lemma NumeralRound(s: string, i: nat, end: nat, sep: char)
    requires i < |s| && IsDigit(s[i]) && Lex.NumeralEnd(s, i + 1, 0) == Some(end) && !IsDigit(sep)
    ensures Lex.LexemeAt(s, i, sep) == Lex.Lexeme(Some(Lex.Numeral(s[i..end])), end)
  {
  }

  lemma StringRound(s: string, i: nat, text: string, cfg: Config)
    requires Standard(cfg) && StandsAt(s, i + 1, text) && i + |text| + 2 <= |s|
    requires s[i] == '"' && Lex.StringEnd(s, i + 1) == i + 1 + |text|
    ensures Lex.LexemeAt(s, i, cfg.sepArg) == Lex.Lexeme(Some(Lex.Quoted(text)), i + |text| + 2)
  {
    assert s[i + 1..i + 1 + |text|] == text;
  }

  lemma ErrorRound(s: string, i: nat, e: FormulaError, end: nat, cfg: Config)
    requires Standard(cfg) && i < |s| && s[i] == '#' && Lex.ErrorFrom(s, i + 1, []) == Some((e, end))
    ensures Lex.LexemeAt(s, i, cfg.sepArg) == Lex.Lexeme(Some(Lex.ErrorValue(e)), end)
  {
  }

  lemma HashRead(s: string, i: nat, e: FormulaError, end: nat, cfg: Config)
    requires Standard(cfg) && i < |s| && s[i] == '#' && Lex.ErrorFrom(s, i + 1, []) == Some((e, end))
    ensures Lex.TokensFrom(s, i, cfg.sepArg) == Lex.After([Lex.ErrorValue(e)], Lex.TokensFrom(s, end, cfg.sepArg))
  {
    ErrorRound(s, i, e, end, cfg);
    RoundRead(s, i, Lex.ErrorValue(e), end, cfg.sepArg);
  }

  /** A text with something before it, inside a longer text. */
  lemma PartsStand(s: string, i: nat, c: char, t: string, piece: string)
    requires piece == [c] + t && StandsAt(s, i, piece)
    ensures s[i] == c && StandsAt(s, i + 1, t) && |piece| == |t| + 1
  {
    assert s[i] == piece[0];
    assert forall k :: 0 <= k < |t| ==> t[k] == piece[k + 1] == s[i + (k + 1)];
  }

  lemma LiteralRead(s: string, i: nat, t: FormulaToken, cfg: Config)
    requires t.Literal? && '"' !in t.text && Standard(cfg) && StandsAt(s, i, Piece(t, cfg))
    ensures ReadAs(s, i, t, i + |Piece(t, cfg)|, cfg.sepArg)
  {
    LiteralPiece(t, cfg);
    PartsStand(s, i, '"', t.text + "\"", Piece(t, cfg));
    QuotedRead(s, i, t, cfg);
  }

  lemma LiteralPiece(t: FormulaToken, cfg: Config)
    requires t.Literal?
    ensures Piece(t, cfg) == ['"'] + (t.text + "\"") && |Piece(t, cfg)| == |t.text| + 2
  {
  }

  lemma QuotedRead(s: string, i: nat, t: FormulaToken, cfg: Config)
    requires t.Literal? && '"' !in t.text && Standard(cfg)
    requires i < |s| && s[i] == '"' && StandsAt(s, i + 1, t.text + "\"")
    ensures i + |t.text| + 2 <= |s| && ReadAs(s, i, t, i + |t.text| + 2, cfg.sepArg)
  {
    QuotedStands(s, i + 1, t.text);
    StringRound(s, i, t.text, cfg);
    RoundSame(s, i, t, Lex.Quoted(t.text), i + |t.text| + 2, cfg.sepArg);
  }

  lemma QuotedStands(s: string, i: nat, text: string)
    requires StandsAt(s, i, text + "\"") && '"' !in text
    ensures StandsAt(s, i, text) && i + |text| < |s| && Lex.StringEnd(s, i) == i + |text|
  {
    assert forall k :: 0 <= k < |text| ==> text[k] == (text + "\"")[k] == s[i + k];
    StringInside(s, i, text, 0);
  }

  /** How operators and errors are written. */
  lemma WrittenForms(cfg: Config)
    ensures Piece(Relation(G.Plus), cfg) == "+" && Piece(Relation(G.Minus), cfg) == "-"
    ensures Piece(Relation(G.Equal), cfg) == "=" && Piece(Relation(G.NotEqual), cfg) == "<>"
    ensures Piece(Relation(G.Less), cfg) == "<" && Piece(Relation(G.LessEqual), cfg) == "<="
    ensures Piece(Relation(G.Greater), cfg) == ">" && Piece(Relation(G.GreaterEqual), cfg) == ">="
    ensures Piece(Joining(G.Multiply), cfg) == "*" && Piece(Joining(G.Divide), cfg) == "/"
    ensures Piece(Joining(G.Exponent), cfg) == "^" && Piece(Joining(G.Concat), cfg) == "&"
    ensures ErrorText(DivisionByZero) == "#DIV/0!" && ErrorText(NoValueAvailable) == "#N/A"
    ensures ErrorText(NameNotFound) == "#NAME?" && ErrorText(NoRangeIntersection) == "#NULL!"
    ensures ErrorText(InvalidExpression) == "#NUM!" && ErrorText(RefResultNotAvailable) == "#REF!"
    ensures ErrorText(InvalidValueType) == "#VALUE!"
  {
  }

  lemma ErrorRead(s: string, i: nat, t: FormulaToken, cfg: Config)
    requires t.ErrorToken? && !t.error.NoError? && !t.error.StackError? && !t.error.GeneralError?
    requires Standard(cfg) && StandsAt(s, i, Piece(t, cfg))
    ensures ReadAs(s, i, t, i + |Piece(t, cfg)|, cfg.sepArg)
  {
    var m := NameIndex(t.error);
    var name := Lex.ERROR_NAMES[m];
    NameOfError(t.error, m);
    PartsStand(s, i, '#', name, Piece(t, cfg));
    NamedErrorRead(s, i + 1, t.error, m);
    HashRead(s, i, t.error, i + |Piece(t, cfg)|, cfg);
  }

  function NameIndex(e: FormulaError): (m: nat)
    requires !e.NoError? && !e.StackError? && !e.GeneralError?
    ensures m < |Lex.ERROR_NAMES| && ErrorText(e) == ['#'] + Lex.ERROR_NAMES[m]
  {
    match e
    case DivisionByZero => 0
    case NoValueAvailable => 1
    case NameNotFound => 2
    case NoRangeIntersection => 3
    case InvalidExpression => 4
    case RefResultNotAvailable => 5
    case InvalidValueType => 6
  }

  lemma NamedErrorRead(s: string, i: nat, e: FormulaError, m: nat)
    requires m < |Lex.ERROR_NAMES| && Lex.ErrorNamed(Lex.ERROR_NAMES[m]) == Some(e) &&
      StandsAt(s, i, Lex.ERROR_NAMES[m])
    ensures Lex.ErrorFrom(s, i, []) == Some((e, i + |Lex.ERROR_NAMES[m]|))
  {
    ErrorInside(s, i, m, 0);
    assert Lex.ERROR_NAMES[m][..0] == [];
  }

  lemma NameOfError(e: FormulaError, m: nat)
    requires m < |Lex.ERROR_NAMES| && ErrorText(e) == ['#'] + Lex.ERROR_NAMES[m]
    ensures Lex.ErrorNamed(Lex.ERROR_NAMES[m]) == Some(e)
  {
    assert ErrorText(e)[1..] == Lex.ERROR_NAMES[m];
    assert |ErrorText(e)| >= 4;
    var c1, c2, c3 := ErrorText(e)[1], ErrorText(e)[2], ErrorText(e)[3];
    var x := Lex.ERROR_NAMES[m];
    assert c1 == x[0] && c2 == x[1] && c3 == x[2];
  }

  predicate IsSymbol(t: FormulaToken) {
    !t.Name? && !t.Value? && !t.Literal? && !t.ErrorToken?
  }

  /** The operator a character stands for. */
  function SymbolOf(c: char, sep: char): Option<Lex.LexerToken> {
    if Lex.OpcodeOf(c).Some? then Some(Lex.Operator(Lex.OpcodeOf(c).value))
    else if c == sep then Some(Lex.Operator(Lex.Sep))
    else if c == ';' then Some(Lex.Operator(Lex.ArrayRowSep))
    else None
  }

  lemma CharRead(s: string, i: nat, cfg: Config)
    requires i < |s| && Standard(cfg) && SymbolOf(s[i], cfg.sepArg).Some?
    ensures Lex.TokensFrom(s, i, cfg.sepArg) ==
      Lex.After([SymbolOf(s[i], cfg.sepArg).value], Lex.TokensFrom(s, i + 1, cfg.sepArg))
  {
  }

  /** One or two characters and the operators they stand for. */
  predicate StandFor(piece: string, ops: seq<Lex.LexerToken>, cfg: Config) {
    1 <= |piece| <= 2 && |piece| == |ops| && forall k :: 0 <= k < |piece| ==>
      SymbolOf(piece[k], cfg.sepArg) == Some(ops[k])
  }

  lemma SymbolPieces(t: FormulaToken, cfg: Config)
    requires IsSymbol(t) && Standard(cfg)
    ensures StandFor(Piece(t, cfg), Unlexed(t), cfg)
  {
    match t {
      case Relation(e) => match e { case _ => }
      case Joining(o) => match o { case _ => }
      case _ =>
    }
  }

  lemma SymbolRead(s: string, i: nat, t: FormulaToken, cfg: Config)
    requires IsSymbol(t) && Standard(cfg) && StandsAt(s, i, Piece(t, cfg))
    ensures ReadAs(s, i, t, i + |Piece(t, cfg)|, cfg.sepArg)
  {
    SymbolPieces(t, cfg);
    CharsRead(s, i, Piece(t, cfg), Unlexed(t), cfg);
  }

  lemma CharsRead(s: string, i: nat, piece: string, ops: seq<Lex.LexerToken>, cfg: Config)
    requires Standard(cfg) && StandsAt(s, i, piece) && StandFor(piece, ops, cfg)
    ensures Lex.TokensFrom(s, i, cfg.sepArg) == Lex.After(ops, Lex.TokensFrom(s, i + |piece|, cfg.sepArg))
  {
    assert s[i] == piece[0];
    CharRead(s, i, cfg);
    if |piece| == 2 {
      SecondRead(s, i, piece, ops, cfg);
    } else {
      assert ops == [ops[0]];
    }
  }

  lemma SecondRead(s: string, i: nat, piece: string, ops: seq<Lex.LexerToken>, cfg: Config)
    requires Standard(cfg) && StandsAt(s, i, piece) && StandFor(piece, ops, cfg) && |piece| == 2
    ensures Lex.After([ops[0]], Lex.TokensFrom(s, i + 1, cfg.sepArg)) ==
      Lex.After(ops, Lex.TokensFrom(s, i + 2, cfg.sepArg))
  {
    assert s[i + 1] == piece[1];
    CharRead(s, i + 1, cfg);
    TwoAfter(ops, Lex.TokensFrom(s, i + 2, cfg.sepArg));
  }

  lemma TwoAfter(ops: seq<Lex.LexerToken>, more: Option<seq<Lex.LexerToken>>)
    requires |ops| == 2
    ensures Lex.After([ops[0]], Lex.After([ops[1]], more)) == Lex.After(ops, more)
  {
    Lex.AfterAfter([ops[0]], [ops[1]], more);
    assert ops == [ops[0]] + [ops[1]];
  }

  lemma TokenRead(s: string, i: nat, t: FormulaToken, cfg: Config, resolves: Resolver)
    requires Standard(cfg) && Writable(t, cfg, resolves) && StandsAt(s, i, Piece(t, cfg))
    ensures var j := i + |Piece(t, cfg)|;
      if EndsAt(t, s, j, cfg.sepArg) then ReadAs(s, i, t, j, cfg.sepArg) else ReadOtherwise(s, i, t, cfg.sepArg)
  {
    match t {
      case Name(_) => NameRead(s, i, t, cfg, resolves);
      case Value(_) => ValueRead(s, i, t, cfg, resolves);
      case Literal(_) => LiteralRead(s, i, t, cfg);
      case ErrorToken(_) => ErrorRead(s, i, t, cfg);
      case _ => SymbolRead(s, i, t, cfg);
    }
  }

  /** Whether a token ends before another one depends on how that one begins. */
  lemma FollowerDecides(s: string, j: nat, t: FormulaToken, u: FormulaToken, cfg: Config, resolves: Resolver)
    requires Standard(cfg) && Writable(u, cfg, resolves) && StandsAt(s, j, Piece(u, cfg))
    ensures |Piece(u, cfg)| > 0
    ensures EndsAt(t, s, j, cfg.sepArg) <==> !RunsOn(t, u)
  {
    FirstCharacter(u, cfg, resolves);
    assert s[j] == Piece(u, cfg)[0];
  }

  lemma FirstCharacter(u: FormulaToken, cfg: Config, resolves: Resolver)
    requires Standard(cfg) && Writable(u, cfg, resolves)
    ensures |Piece(u, cfg)| > 0
    ensures var c := Piece(u, cfg)[0];
      && (Lex.IsOp(c, cfg.sepArg) <==> !RunsOn(Name(""), u))
      && (IsDigit(c) || c == '.' || c == ':' <==> RunsOn(Value(""), u))
  {
    match u {
      case Name(text) => assert Piece(u, cfg)[0] == text[0];
      case Value(text) => assert Piece(u, cfg)[0] == text[0];
      case Literal(text) => assert Piece(u, cfg) == ['"'] + (text + "\"");
      case ErrorToken(e) => var m := NameIndex(e);
      case _ => SymbolPieces(u, cfg);
    }
  }

  lemma SplitsOff(s: string, i: nat, a: string, b: string)
    requires i <= |s| && s[i..] == a + b
    ensures StandsAt(s, i, a) && s[i + |a|..] == b
  {
    assert |s| == i + |a| + |b|;
    assert forall k :: 0 <= k < |a| ==> s[i + k] == s[i..][k];
    assert s[i + |a|..] == s[i..][|a|..];
  }

  lemma NoClashFront(ts: seq<FormulaToken>, clash: (FormulaToken, FormulaToken) -> bool)
    requires ts != []
    ensures NoClash(ts, clash) <==> (|ts| > 1 ==> !clash(ts[0], ts[1])) && NoClash(ts[1..], clash)
  {
    if NoClash(ts[1..], clash) && (|ts| > 1 ==> !clash(ts[0], ts[1])) {
      forall i | 0 <= i < |ts| - 1
        ensures !clash(ts[i], ts[i + 1])
      {
        assert i > 0 ==> ts[1..][i - 1] == ts[i] && ts[1..][i - 1 + 1] == ts[i + 1];
      }
    }
    if NoClash(ts, clash) {
      forall i | 0 <= i < |ts[1..]| - 1
        ensures !clash(ts[1..][i], ts[1..][i + 1])
      {
        assert ts[1..][i] == ts[i + 1] && ts[1..][i + 1] == ts[i + 1 + 1];
      }
    }
  }

  lemma ReadBefore(s: string, i: nat, t: FormulaToken, u: FormulaToken, cfg: Config, resolves: Resolver)
    requires Standard(cfg) && Writable(t, cfg, resolves) && Writable(u, cfg, resolves)
    requires StandsAt(s, i, Piece(t, cfg)) && StandsAt(s, i + |Piece(t, cfg)|, Piece(u, cfg))
    ensures if RunsOn(t, u) then ReadOtherwise(s, i, t, cfg.sepArg)
            else ReadAs(s, i, t, i + |Piece(t, cfg)|, cfg.sepArg)
  {
    TokenRead(s, i, t, cfg, resolves);
    FollowerDecides(s, i + |Piece(t, cfg)|, t, u, cfg, resolves);
  }

  lemma ReadLast(s: string, i: nat, t: FormulaToken, cfg: Config, resolves: Resolver)
    requires Standard(cfg) && Writable(t, cfg, resolves) && StandsAt(s, i, Piece(t, cfg)) && i + |Piece(t, cfg)| == |s|
    ensures ReadAs(s, i, t, |s|, cfg.sepArg)
  {
    TokenRead(s, i, t, cfg, resolves);
  }

  /** Where the first two of the printed tokens stand. */
  lemma FrontStands(s: string, i: nat, ts: seq<FormulaToken>, cfg: Config)
    requires i <= |s| && s[i..] == Print(ts, cfg) && ts != []
    ensures StandsAt(s, i, Piece(ts[0], cfg))
    ensures var j := i + |Piece(ts[0], cfg)|;
      && s[j..] == Print(ts[1..], cfg)
      && if |ts| == 1 then j == |s| else StandsAt(s, j, Piece(ts[1], cfg))
  {
    var first, rest := Piece(ts[0], cfg), ts[1..];
    SplitsOff(s, i, first, Print(rest, cfg));
    if rest != [] {
      SplitsOff(s, i + |first|, Piece(rest[0], cfg), Print(rest[1..], cfg));
    } else {
      assert |s[i + |first|..]| == 0;
    }
  }

  /** The first of the printed tokens is read as itself unless it runs on. */
  lemma FirstRead(s: string, i: nat, ts: seq<FormulaToken>, j: nat, cfg: Config, resolves: Resolver)
    requires Standard(cfg) && ts != [] && Writable(ts[0], cfg, resolves) &&
      (|ts| > 1 ==> Writable(ts[1], cfg, resolves))
    requires i <= j <= |s| && j == i + |Piece(ts[0], cfg)| && StandsAt(s, i, Piece(ts[0], cfg))
    requires if |ts| == 1 then j == |s| else StandsAt(s, j, Piece(ts[1], cfg))
    ensures if |ts| > 1 && RunsOn(ts[0], ts[1]) then ReadOtherwise(s, i, ts[0], cfg.sepArg)
      else ReadAs(s, i, ts[0], j, cfg.sepArg)
  {
    if |ts| > 1 {
      ReadBefore(s, i, ts[0], ts[1], cfg, resolves);
    } else {
      ReadLast(s, i, ts[0], cfg, resolves);
    }
  }

  /** The printed text is tokenized into the lexer tokens of its tokens exactly
      when no token runs on into the next one. */
  lemma {:induction false} PrintedTokenizes(s: string, i: nat, ts: seq<FormulaToken>, cfg: Config, resolves: Resolver)
    requires Standard(cfg) && AllWritable(ts, cfg, resolves) && i <= |s| && s[i..] == Print(ts, cfg)
    ensures Lex.TokensFrom(s, i, cfg.sepArg) == Some(AllUnlexed(ts)) <==> NoneRunsOn(ts)
    decreases |ts|
  {
    if ts == [] {
    } else {
      var j := i + |Piece(ts[0], cfg)|;
      FrontStands(s, i, ts, cfg);
      FirstRead(s, i, ts, j, cfg, resolves);
      PrintedTokenizes(s, j, ts[1..], cfg, resolves);
      NoClashFront(ts, RunsOn);
      if ReadAs(s, i, ts[0], j, cfg.sepArg) {
        AfterCancels(Unlexed(ts[0]), Lex.TokensFrom(s, j, cfg.sepArg), AllUnlexed(ts[1..]));
      }
    }
  }

  lemma AfterCancels(a: seq<Lex.LexerToken>, more: Option<seq<Lex.LexerToken>>, b: seq<Lex.LexerToken>)
    ensures Lex.After(a, more) == Some(a + b) <==> more == Some(b)
  {
    if more.Some? {
      assert (a + b)[|a|..] == b && (a + more.value)[|a|..] == more.value;
    }
  }

  /** The names among the tokens are known to the resolver. */
  predicate AllResolved(ts: seq<FormulaToken>, resolves: Resolver) {
    forall i :: 0 <= i < |ts| && ts[i].Name? ==> resolves(ts[i].text)
  }

  predicate ParsesTo(l: seq<Lex.LexerToken>, i: nat, ts: seq<FormulaToken>, resolves: Resolver)
    requires i <= |l|
  {
    ParsedFrom(l, i, resolves) == Some(ts)
  }

  /** The lexer tokens from position i on are those of the formula tokens. */
  predicate UnlexedAt(l: seq<Lex.LexerToken>, i: nat, ts: seq<FormulaToken>) {
    i <= |l| && l[i..] == AllUnlexed(ts)
  }

  predicate FirstFuses(ts: seq<FormulaToken>) {
    |ts| > 1 && Fuses(ts[0], ts[1])
  }

  predicate StartsWith(l: seq<Lex.LexerToken>, i: nat, t: FormulaToken, resolves: Resolver)
    requires i < |l|
  {
    FirstToken(l, i, resolves) == Some(t)
  }

  /** The lexer tokens of formula tokens are parsed into them exactly when no
      two neighbours make up another relational operator. */
  lemma {:induction false} UnlexedParses(l: seq<Lex.LexerToken>, i: nat, ts: seq<FormulaToken>, resolves: Resolver)
    requires AllResolved(ts, resolves) && UnlexedAt(l, i, ts)
    ensures ParsesTo(l, i, ts, resolves) <==> NoneFuses(ts)
    decreases |ts|
  {
    if ts == [] {
      NothingParses(l, i, resolves);
    } else {
      var j := FirstParses(l, i, ts, resolves);
      UnlexedParses(l, j, ts[1..], resolves);
      FusesFront(ts);
    }
  }

  lemma NothingParses(l: seq<Lex.LexerToken>, i: nat, resolves: Resolver)
    requires UnlexedAt(l, i, [])
    ensures ParsesTo(l, i, [], resolves) && NoneFuses([])
  {
  }

  lemma FusesFront(ts: seq<FormulaToken>)
    requires ts != []
    ensures NoneFuses(ts) <==> !FirstFuses(ts) && NoneFuses(ts[1..])
  {
    NoClashFront(ts, Fuses);
  }

  lemma FirstParses(l: seq<Lex.LexerToken>, i: nat, ts: seq<FormulaToken>, resolves: Resolver) returns (j: nat)
    requires AllResolved(ts, resolves) && UnlexedAt(l, i, ts) && ts != []
    ensures i < j && UnlexedAt(l, j, ts[1..]) && AllResolved(ts[1..], resolves)
    ensures ParsesTo(l, i, ts, resolves) <==> !FirstFuses(ts) && ParsesTo(l, j, ts[1..], resolves)
  {
    FirstStands(l, i, ts, resolves);
    j := i + |Unlexed(ts[0])|;
    ParsedStep(l, i, ts, j, resolves);
  }

  lemma FirstStands(l: seq<Lex.LexerToken>, i: nat, ts: seq<FormulaToken>, resolves: Resolver)
    requires AllResolved(ts, resolves) && UnlexedAt(l, i, ts) && ts != []
    ensures var j := i + |Unlexed(ts[0])|;
      && i < j && UnlexedAt(l, j, ts[1..]) && AllResolved(ts[1..], resolves)
      && (StartsWith(l, i, ts[0], resolves) <==> !FirstFuses(ts))
      && (StartsWith(l, i, ts[0], resolves) ==> FirstEnd(l, i) == j)
  {
    UnlexedStands(l, i, ts);
    FirstUnlexed(l, i, ts[0], if |ts| == 1 then None else Some(ts[1]), resolves);
  }

  /** The whole is parsed as expected when its first token and the rest are. */
  lemma ParsedStep(l: seq<Lex.LexerToken>, i: nat, ts: seq<FormulaToken>, j: nat, resolves: Resolver)
    requires i < j <= |l| && ts != [] && (StartsWith(l, i, ts[0], resolves) ==> FirstEnd(l, i) == j)
    ensures ParsesTo(l, i, ts, resolves) <==> StartsWith(l, i, ts[0], resolves) && ParsesTo(l, j, ts[1..], resolves)
  {
    assert ts == [ts[0]] + ts[1..];
    var more := ParsedFrom(l, FirstEnd(l, i), resolves);
    assert more.Some? ==> forall t :: ([t] + more.value)[1..] == more.value;
  }

  /** Where the lexer tokens of the first two stand. */
  lemma UnlexedStands(l: seq<Lex.LexerToken>, i: nat, ts: seq<FormulaToken>)
    requires UnlexedAt(l, i, ts) && ts != []
    ensures var j := i + |Unlexed(ts[0])|;
      && UnlexedAt(l, j, ts[1..])
      && (forall k :: 0 <= k < |Unlexed(ts[0])| ==> l[i + k] == Unlexed(ts[0])[k])
      && if |ts| == 1 then j == |l| else j < |l| && l[j] == Unlexed(ts[1])[0]
  {
    var first, rest := Unlexed(ts[0]), AllUnlexed(ts[1..]);
    assert |l| == i + |first| + |rest|;
    assert forall k :: 0 <= k < |first| ==> l[i + k] == l[i..][k];
    assert l[i + |first|..] == l[i..][|first|..];
    assert |ts| > 1 ==> l[i + |first|] == l[i + |first|..][0];
  }

  lemma FirstUnlexed(l: seq<Lex.LexerToken>, i: nat, t: FormulaToken, next: Option<FormulaToken>, resolves: Resolver)
    requires i + |Unlexed(t)| <= |l| && forall k :: 0 <= k < |Unlexed(t)| ==> l[i + k] == Unlexed(t)[k]
    requires t.Name? ==> resolves(t.text)
    requires if next.None? then i + |Unlexed(t)| == |l|
             else i + |Unlexed(t)| < |l| && l[i + |Unlexed(t)|] == Unlexed(next.value)[0]
    ensures if next.Some? && Fuses(t, next.value) then FirstToken(l, i, resolves) != Some(t)
            else FirstToken(l, i, resolves) == Some(t) && FirstEnd(l, i) == i + |Unlexed(t)|
  {
    assert l[i] == l[i + 0] == Unlexed(t)[0];
    assert |Unlexed(t)| == 2 ==> l[i + 1] == Unlexed(t)[1];
  }

  /** Printing, tokenizing and parsing gives the same tokens back exactly when
      no token runs on into the next and no two neighbours are read as one
      relational operator. */
  lemma PrintedReadsBackExactly(ts: seq<FormulaToken>, cfg: Config, resolves: Resolver)
    requires Standard(cfg) && AllWritable(ts, cfg, resolves)
    ensures ReadBack(ts, cfg, resolves) == Some(ts) <==> NoneRunsOn(ts) && NoneFuses(ts)
  {
    var s, l := Print(ts, cfg), AllUnlexed(ts);
    assert s[0..] == s && l[0..] == l;
    PrintedTokenizes(s, 0, ts, cfg, resolves);
    UnlexedParses(l, 0, ts, resolves);
    var lexed := Lex.TokensFrom(s, 0, cfg.sepArg);
    if ReadBack(ts, cfg, resolves) == Some(ts) {
      ParsingKeepsTokens(lexed.value, 0, resolves);
      assert lexed.value[0..] == lexed.value;
    }
  }

  lemma PrintOne(t: FormulaToken, cfg: Config)
    ensures Print([t], cfg) == Piece(t, cfg)
  {
    assert [t][1..] == [];
    assert Piece(t, cfg) + [] == Piece(t, cfg);
  }

  lemma PrintTwo(t: FormulaToken, u: FormulaToken, cfg: Config)
    ensures Print([t, u], cfg) == Piece(t, cfg) + Piece(u, cfg)
  {
    assert [t, u][1..] == [u];
    PrintOne(u, cfg);
  }

  /** A less-than sign before an equals sign is read back as one operator. */
  lemma LessEqualFuses(cfg: Config, resolves: Resolver)
    requires Standard(cfg)
    ensures ReadBack([Relation(G.Less), Relation(G.Equal)], cfg, resolves) == Some([Relation(G.LessEqual)])
  {
    PrintTwo(Relation(G.Less), Relation(G.Equal), cfg);
    PrintOne(Relation(G.LessEqual), cfg);
    assert "<" + "=" == "<=";
    PrintedReadsBackExactly([Relation(G.LessEqual)], cfg, resolves);
  }

  /** A name before a number is read back as a longer name: two tokens become one. */
  lemma NameSwallowsNumber(name: string, text: string, cfg: Config, resolves: Resolver)
    requires Standard(cfg) && Writable(Name(name), cfg, resolves) && Writable(Value(text), cfg, resolves)
    ensures ReadBack([Name(name), Value(text)], cfg, resolves) != Some([Name(name), Value(text)])
  {
    var ts := [Name(name), Value(text)];
    assert RunsOn(ts[0], ts[0 + 1]);
    PrintedReadsBackExactly(ts, cfg, resolves);
  }
}
