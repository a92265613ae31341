/** The tokenizer: from the characters of a formula to lexer tokens. */
module FormulaLexer {
  import opened Wrappers
  import opened Decimal
  import opened Recalculation

  datatype Opcode =
    | Plus | Minus | Divide | Multiply | Exponent | Concat | Equal | Less | Greater
    | Open | Close | ArrayOpen | ArrayClose | Sep | ArrayRowSep

  /** A numeral keeps its text. */
  datatype LexerToken =
    | Operator(op: Opcode) | Numeral(text: string) | Identifier(text: string) | Quoted(text: string)
    | ErrorValue(e: FormulaError)

  function OpcodeOf(c: char): Option<Opcode> {
    match c
    case '&' => Some(Concat)
    case '(' => Some(Open)
    case ')' => Some(Close)
    case '*' => Some(Multiply)
    case '+' => Some(Plus)
    case '-' => Some(Minus)
    case '/' => Some(Divide)
    case '<' => Some(Less)
    case '=' => Some(Equal)
    case '>' => Some(Greater)
    case '^' => Some(Exponent)
    case '{' => Some(ArrayOpen)
    case '}' => Some(ArrayClose)
    case _ => None
  }

  /** The characters that end a name. */
  predicate IsOp(c: char, sep: char) {
    c == sep || OpcodeOf(c).Some? || c == ' ' || c == '"'
  }

  // ---- lexemes ----

  /** Where a numeral read up to i ends, after some decimal separators; None
      when it turns out to be a name. */
  function NumeralEnd(s: string, i: nat, seps: nat): (end: Option<nat>)
    requires i <= |s|
    ensures end.Some? ==> i <= end.value <= |s|
    decreases |s| - i
  {
    if i == |s| then Some(i)
    else if s[i] == ':' then None
    else if IsDigit(s[i]) then NumeralEnd(s, i + 1, seps)
    else if s[i] == '.' then (if seps == 0 then NumeralEnd(s, i + 1, 1) else None)
    else Some(i)
  }

  /** The scopes open after one more character of a name; None when the name
      ends before it. */
  function ScopesAfter(scopes: seq<char>, c: char, sep: char): (next: Option<seq<char>>)
    ensures next.None? ==> scopes == []
  {
    if scopes != [] && scopes[|scopes| - 1] == c then Some(scopes[..|scopes| - 1])
    else if c == '[' then Some(scopes + [']'])
    else if c == '\'' then Some(scopes + ['\''])
    else if scopes == [] && IsOp(c, sep) then None
    else Some(scopes)
  }

  /** Where a name read up to i ends, and the scopes left open there. */
  function NameEnd(s: string, i: nat, scopes: seq<char>, sep: char): (r: (nat, seq<char>))
    requires i <= |s|
    ensures i <= r.0 <= |s| && (i < |s| && !IsOp(s[i], sep) ==> i < r.0)
    ensures r.0 < |s| ==> r.1 == []
    decreases |s| - i, 1
  {
    if i == |s| then (i, scopes) else NameFrom(s, i, scopes, sep)
  }

  /** The same, where there is one more character. */
  function NameFrom(s: string, i: nat, scopes: seq<char>, sep: char): (r: (nat, seq<char>))
    requires i < |s|
    ensures i <= r.0 <= |s| && (!IsOp(s[i], sep) ==> i < r.0)
    ensures r.0 < |s| ==> r.1 == []
    decreases |s| - i, 0
  {
    match ScopesAfter(scopes, s[i], sep)
    case None => (i, scopes)
    case Some(next) => NameEnd(s, i + 1, next, sep)
  }

  function StringEnd(s: string, i: nat): (end: nat)
    requires i <= |s|
    ensures i <= end <= |s| && (end < |s| ==> s[end] == '"')
    decreases |s| - i
  {
    if i == |s| || s[i] == '"' then i else StringEnd(s, i + 1)
  }

  /** The search tree of error names, without their number sign. */
  const ERROR_NAMES: seq<string> := ["DIV/0!", "N/A", "NAME?", "NULL!", "NUM!", "REF!", "VALUE!"]

  function ErrorNamed(name: string): (e: Option<FormulaError>)
    ensures e.Some? ==> name in ERROR_NAMES
  {
    if name == ERROR_NAMES[0] then Some(DivisionByZero)
    else if name == ERROR_NAMES[1] then Some(NoValueAvailable)
    else if name == ERROR_NAMES[2] then Some(NameNotFound)
    else if name == ERROR_NAMES[3] then Some(NoRangeIntersection)
    else if name == ERROR_NAMES[4] then Some(InvalidExpression)
    else if name == ERROR_NAMES[5] then Some(RefResultNotAvailable)
    else if name == ERROR_NAMES[6] then Some(InvalidValueType)
    else None
  }

  predicate IsNode(path: string) {
    exists k :: 0 <= k < |ERROR_NAMES| && path <= ERROR_NAMES[k]
  }

  /** The error whose name is met on the way down the tree, and where it ends. */
  function ErrorFrom(s: string, i: nat, path: string): (r: Option<(FormulaError, nat)>)
    requires i <= |s|
    ensures r.Some? ==> i < r.value.1 <= |s|
    decreases |s| - i, 0
  {
    if i == |s| then None else ErrorBelow(s, i + 1, path + [s[i]])
  }

  /** The same, with the character before i just read. */
  function ErrorBelow(s: string, i: nat, path: string): (r: Option<(FormulaError, nat)>)
    requires i <= |s|
    ensures r.Some? ==> i <= r.value.1 <= |s|
    decreases |s| - i, 1
  {
    if !IsNode(path) then None
    else
      match ErrorNamed(path)
      case Some(e) => Some((e, i))
      case None => ErrorFrom(s, i, path)
  }

  /** One round of the tokenizer: at most one token, and where to go on. */
  datatype Lexeme = Lexeme(token: Option<LexerToken>, end: nat) | Throws

  function NameAt(s: string, i: nat, sep: char): Lexeme
    requires i <= |s|
  {
    var end := NameEnd(s, i, [], sep).0;
    Lexeme(Some(Identifier(s[i..end])), end)
  }

  function LexemeAt(s: string, i: nat, sep: char): (x: Lexeme)
    requires i < |s| && !IsDigit(sep)
    ensures x.Lexeme? ==> i < x.end <= |s|
  {
    if IsDigit(s[i]) then
      (match NumeralEnd(s, i + 1, 0)
       case Some(end) => Lexeme(Some(Numeral(s[i..end])), end)
       case None => NameAt(s, i, sep))
    else if OpcodeOf(s[i]).Some? then Lexeme(Some(Operator(OpcodeOf(s[i]).value)), i + 1)
    else if s[i] == ' ' then Lexeme(None, i + 1)
    else if s[i] == '"' then
      var end := StringEnd(s, i + 1);
      Lexeme(Some(Quoted(s[i + 1..end])), if end < |s| then end + 1 else end)
    else if s[i] == '#' then
      (match ErrorFrom(s, i + 1, [])
       case Some((e, end)) => Lexeme(Some(ErrorValue(e)), end)
       case None => Throws)
    else if s[i] == sep then Lexeme(Some(Operator(Sep)), i + 1)
    else if s[i] == ';' then Lexeme(Some(Operator(ArrayRowSep)), i + 1)
    else NameAt(s, i, sep)
  }

  function After(ts: seq<LexerToken>, more: Option<seq<LexerToken>>): Option<seq<LexerToken>> {
    if more.Some? then Some(ts + more.value) else None
  }

  /** The tokens from position i on; None when the tokenizer throws. */
  function TokensFrom(s: string, i: nat, sep: char): Option<seq<LexerToken>>
    requires i <= |s| && !IsDigit(sep)
    decreases |s| - i
  {
    if i == |s| then Some([])
    else
      match LexemeAt(s, i, sep)
      case Throws => None
      case Lexeme(token, end) => After(if token.Some? then [token.value] else [], TokensFrom(s, end, sep))
  }

  lemma AfterAfter(ts: seq<LexerToken>, us: seq<LexerToken>, more: Option<seq<LexerToken>>)
    ensures After(ts, After(us, more)) == After(ts + us, more)
  {
    if more.Some? {
      assert ts + (us + more.value) == ts + us + more.value;
    }
  }

  // ---- the tokenizer ----

  class Tokenizer {
    const text: string
    const sepArg: char
    var pos: nat
    var tokens: seq<LexerToken>

    ghost predicate Valid()
      reads this
    {
      pos <= |text| && !IsDigit(sepArg)
    }

    /** The handlers below are called on a character of their kind. */
    ghost predicate At(c: char)
      reads this
    {
      Valid() && pos < |text| && text[pos] == c
    }

    constructor (text: string, sepArg: char)
      requires !IsDigit(sepArg)
      ensures Valid() && this.text == text && this.sepArg == sepArg && pos == 0 && tokens == []
    {
      this.text, this.sepArg := text, sepArg;
      pos, tokens := 0, [];
    }

    /** True unless it throws. */
    method Run() returns (ok: bool)
      requires Valid() && tokens == []
      modifies this
      ensures Valid()
      ensures TokensFrom(text, 0, sepArg) == if ok then Some(tokens) else None
    {
      pos, ok := 0, true;
      assert After([], TokensFrom(text, 0, sepArg)) == TokensFrom(text, 0, sepArg) by {
        var all := TokensFrom(text, 0, sepArg);
        assert all.Some? ==> [] + all.value == all.value;
      }
      while pos < |text|
        invariant Valid()
        invariant TokensFrom(text, 0, sepArg) == After(tokens, TokensFrom(text, pos, sepArg))
        decreases |text| - pos
      {
        ghost var start, before := pos, tokens;
        ok := Round();
        if !ok {
          return;
        }
        AfterAfter(before, tokens[|before|..], TokensFrom(text, pos, sepArg));
      }
      assert tokens + [] == tokens;
    }

    method Round() returns (ok: bool)
      requires Valid() && pos < |text|
      modifies this
      ensures Valid()
      ensures match LexemeAt(text, old(pos), sepArg)
        case Throws => !ok
        case Lexeme(token, end) =>
          ok && pos == end && tokens == old(tokens) + if token.Some? then [token.value] else []
      ensures ok && tokens == old(tokens) ==> pos == old(pos) + 1 && text[old(pos)] == ' '
    {
      ok := true;
      var c := text[pos];
      if IsDigit(c) {
        ReadNumeral();
      } else if OpcodeOf(c).Some? {
        ReadOperator(OpcodeOf(c).value);
      } else if c == ' ' {
        pos := pos + 1;
      } else if c == '"' {
        ReadString();
      } else if c == '#' {
        ok := ReadError();
      } else if c == sepArg {
        ReadOperator(Sep);
      } else if c == ';' {
        ReadOperator(ArrayRowSep);
      } else {
        ReadName();
      }
    }

    method ReadOperator(op: Opcode)
      requires Valid() && pos < |text|
      modifies this
      ensures Valid() && pos == old(pos) + 1 && tokens == old(tokens) + [Operator(op)]
    {
      tokens := tokens + [Operator(op)];
      pos := pos + 1;
    }

    method ReadNumeral()
      requires Valid() && pos < |text| && IsDigit(text[pos])
      modifies this
      ensures Valid()
      ensures var x := LexemeAt(text, old(pos), sepArg);
        x.Lexeme? && x.token.Some? && pos == x.end && tokens == old(tokens) + [x.token.value]
    {
      var start, sepCount := pos, 0;
      pos := pos + 1;
      while pos < |text|
        invariant start < pos <= |text| && sepCount <= 1 && tokens == old(tokens)
        invariant NumeralEnd(text, start + 1, 0) == NumeralEnd(text, pos, sepCount)
        decreases |text| - pos
      {
        if text[pos] == ':' {
          pos := start;
          ReadName();
          return;
        }
        if !IsDigit(text[pos]) {
          if text[pos] != '.' {
            break;
          }
          sepCount := sepCount + 1;
          if sepCount > 1 {
            break;
          }
        }
        pos := pos + 1;
      }
      if sepCount > 1 {
        pos := start;
        ReadName();
        return;
      }
      tokens := tokens + [Numeral(text[start..pos])];
    }

    method ReadName()
      requires Valid() && pos < |text|
      modifies this
      ensures Valid()
      ensures var x := NameAt(text, old(pos), sepArg);
        x.Lexeme? && x.token.Some? && pos == x.end && tokens == old(tokens) + [x.token.value]
    {
      var start := pos;
      var scopes: seq<char> := [];
      while pos < |text|
        invariant start <= pos <= |text| && tokens == old(tokens)
        invariant NameEnd(text, start, [], sepArg) == NameEnd(text, pos, scopes, sepArg)
        decreases |text| - pos
      {
        var c := text[pos];
        ghost var before := scopes;
        if scopes != [] && scopes[|scopes| - 1] == c {
          scopes := scopes[..|scopes| - 1];
        } else if c == '[' {
          scopes := scopes + [']'];
        } else if c == '\'' {
          scopes := scopes + ['\''];
        } else if scopes == [] && IsOp(c, sepArg) {
          break;
        }
        assert ScopesAfter(before, c, sepArg) == Some(scopes);
        pos := pos + 1;
      }
      tokens := tokens + [Identifier(text[start..pos])];
    }

    /** The closing quote may be missing. */
    method ReadString()
      requires At('"')
      modifies this
      ensures Valid()
      ensures var end := StringEnd(text, old(pos) + 1);
        && tokens == old(tokens) + [Quoted(text[old(pos) + 1..end])]
        && pos == if end < |text| then end + 1 else end
    {
      pos := pos + 1;
      var start := pos;
      while pos < |text| && text[pos] != '"'
        invariant start <= pos <= |text| && tokens == old(tokens)
        invariant StringEnd(text, start) == StringEnd(text, pos)
        decreases |text| - pos
      {
        pos := pos + 1;
      }
      tokens := tokens + [Quoted(text[start..pos])];
      if pos < |text| {
        pos := pos + 1;
      }
    }

    method ReadError() returns (ok: bool)
      requires At('#')
      modifies this
      ensures Valid()
      ensures match ErrorFrom(text, old(pos) + 1, [])
        case None => !ok
        case Some((e, end)) => ok && pos == end && tokens == old(tokens) + [ErrorValue(e)]
    {
      pos := pos + 1;
      var path: string := [];
      var error: Option<FormulaError> := None;
      while error.None? && pos < |text|
        invariant Valid() && tokens == old(tokens)
        invariant error.None? ==> ErrorFrom(text, old(pos) + 1, []) == ErrorFrom(text, pos, path)
        invariant error.Some? ==> ErrorFrom(text, old(pos) + 1, []) == Some((error.value, pos))
        decreases |text| - pos
      {
        path := path + [text[pos]];
        if !IsNode(path) {
          break;
        }
        error := ErrorNamed(path);
        pos := pos + 1;
      }
      ok := error.Some?;
      if ok {
        tokens := tokens + [ErrorValue(error.value)];
      }
    }
  }
}
