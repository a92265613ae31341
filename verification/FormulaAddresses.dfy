/** Formulas with cell references in A1 notation, printed and read back. */
module FormulaAddresses {
  import opened Wrappers
  import opened Address
  import opened Decimal
  import opened AddressA1
  import opened FormulaParser
  import opened FormulaPrinter
  import Lex = FormulaLexer

  /** A character that neither ends a name nor opens a scope in it. */
  predicate Plain(c: char, sep: char) {
    !Lex.IsOp(c, sep) && c != '[' && c != '\''
  }

  lemma {:induction false} PlainToTheEnd(s: string, i: nat, sep: char)
    requires i <= |s| && forall k :: i <= k < |s| ==> Plain(s[k], sep)
    ensures Lex.NameEnd(s, i, [], sep) == (|s|, [])
    decreases |s| - i
  {
    if i < |s| {
      assert Plain(s[i], sep);
      PlainToTheEnd(s, i + 1, sep);
    }
  }

  /** The separator is no part of an address. */
  predicate Separates(cfg: Config) {
    Standard(cfg) && cfg.sepArg != '$' && !IsUpperLetter(cfg.sepArg)
  }

  predicate AddressChar(c: char) {
    c == '$' || IsUpperLetter(c) || IsDigit(c)
  }

  lemma AddressCharIsPlain(c: char, cfg: Config)
    requires Separates(cfg) && AddressChar(c)
    ensures Plain(c, cfg.sepArg) && c != '#' && c != ';'
  {
  }

  lemma PrintedIsPlain(a: RefAddress, pos: AbsAddress)
    requires AbsoluteColumn(a, pos) >= 0 && AbsoluteRow(a, pos) >= 0
    ensures var text := PrintAddressA1(a, pos);
      text != [] && !IsDigit(text[0]) && forall k :: 0 <= k < |text| ==> AddressChar(text[k])
  {
    var col, row := ColumnName(AbsoluteColumn(a, pos)), Digits(AbsoluteRow(a, pos) + 1);
    assert PrintAddressA1(a, pos) == Dollar(a.absColumn) + col + Dollar(a.absRow) + row;
    assert PrintAddressA1(a, pos)[0] == if a.absColumn then '$' else col[0];
  }

  /** A printed address is a lexeme of its own, a name. */
  lemma AddressIsWritable(a: RefAddress, pos: AbsAddress, cfg: Config, resolves: Resolver)
    requires Separates(cfg) && AbsoluteColumn(a, pos) >= 0 && AbsoluteRow(a, pos) >= 0
    requires resolves(PrintAddressA1(a, pos))
    ensures Writable(Name(PrintAddressA1(a, pos)), cfg, resolves)
  {
    var text := PrintAddressA1(a, pos);
    PrintedIsPlain(a, pos);
    forall k | 0 <= k < |text|
      ensures Plain(text[k], cfg.sepArg) && text[k] != '#' && text[k] != ';'
    {
      AddressCharIsPlain(text[k], cfg);
    }
    PlainToTheEnd(text, 0, cfg.sepArg);
  }

  predicate InBounds(a: RefAddress, pos: AbsAddress) {
    0 <= AbsoluteColumn(a, pos) < COLUMN_UPPER_BOUND && 0 <= AbsoluteRow(a, pos) <= ROW_UPPER_BOUND
  }

  /** Printing and reading back a formula some of whose tokens are references:
      it gives the same tokens exactly when no token runs on into the next and
      no two fuse, and the text of each reference is read as that reference. */
  lemma ReferencesReadBackExactly(ts: seq<FormulaToken>, refs: map<nat, RefAddress>, pos: AbsAddress, cfg: Config,
          resolves: Resolver)
    requires Separates(cfg)
    requires forall i :: 0 <= i < |ts| ==>
      if i in refs then InBounds(refs[i], pos) && ts[i] == Name(PrintAddressA1(refs[i], pos)) && resolves(ts[i].text)
      else Writable(ts[i], cfg, resolves)
    ensures ReadBack(ts, cfg, resolves) == Some(ts) <==> NoneRunsOn(ts) && NoneFuses(ts)
    ensures forall i :: 0 <= i < |ts| && i in refs ==>
      var r := ParseFrom(ts[i].text, 0, START);
      r.ValidAddress? && ToRelative(r.a, pos) == refs[i]
  {
    forall i | 0 <= i < |ts|
      ensures Writable(ts[i], cfg, resolves)
    {
      if i in refs {
        AddressIsWritable(refs[i], pos, cfg, resolves);
      }
    }
    PrintedReadsBackExactly(ts, cfg, resolves);
    forall i | 0 <= i < |ts| && i in refs
      ensures var r := ParseFrom(ts[i].text, 0, START);
        r.ValidAddress? && ToRelative(r.a, pos) == refs[i]
    {
      A1RoundTripExactly(refs[i], pos);
    }
  }
}
