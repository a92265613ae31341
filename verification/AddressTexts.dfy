/** The texts that the parsers take for addresses, in either notation. */
module AddressTexts {
  import opened Wrappers
  import opened Address
  import opened Decimal
  import opened AddressA1
  import opened AddressR1C1

  predicate AllDigits(s: string) {
    forall i :: 0 <= i < |s| ==> IsDigit(s[i])
  }

  predicate AllDollars(s: string) {
    forall i :: 0 <= i < |s| ==> s[i] == '$'
  }

  /** The row after the letters: digits that start with no 0, or after letters a
      $ and any digits. */
  predicate IsRow(s: string, letters: bool, a: RefAddress) {
    && s != "" && a.absRow == (letters && s[0] == '$')
    && (!a.absRow ==> s[0] != '0')
    && SpellsRow(if a.absRow then s[1..] else s, a.row)
  }

  predicate SpellsRow(digits: string, row: int) {
    digits != "" && AllDigits(digits) && 0 < ReadDigits(0, digits) <= INT32_MAX && row == ReadDigits(0, digits) - 1
  }

  /** $ signs up to k, letters up to l and a row, of which the letters or the
      row may be missing. */
  predicate HasForm(s: string, k: nat, l: nat, a: RefAddress)
    requires k <= l <= |s|
  {
    && AllDollars(s[..k]) && a.absColumn == (k > 0)
    && AllLetters(s[k..l]) && ColumnNumber(0, s[k..l]) <= COLUMN_UPPER_BOUND
    && a.column == (if k < l then ColumnNumber(0, s[k..l]) - 1 else COLUMN_UNSET)
    && if l == |s| then k < l && a.row == ROW_UNSET && !a.absRow else IsRow(s[l..], k < l, a)
  }

  ghost predicate IsAddressA1(s: string, a: RefAddress) {
    exists k, l :: 0 <= k <= l <= |s| && HasForm(s, k, l, a)
  }

  // ---- reading on ----

  lemma {:induction false} DollarsRead(s: string, i: nat, k: nat)
    requires i <= k <= |s| && AllDollars(s[..k])
    ensures ParseFrom(s, i, START.(absColumn := i > 0)) == ParseFrom(s, k, START.(absColumn := k > 0))
    decreases k - i
  {
    if i < k {
      assert s[i] == s[..k][i];
      DollarsRead(s, i + 1, k);
    }
  }

  /** In row mode, digits are all that may follow. */
  lemma {:induction false} DigitsRead(s: string, i: nat, sc: Scan, a: RefAddress)
    requires i <= |s| && sc.mode.RowMode? && 0 <= sc.row <= INT32_MAX
    ensures ParseFrom(s, i, sc) == ValidAddress(a) <==>
      && AllDigits(s[i..]) && 0 < ReadDigits(sc.row, s[i..]) <= INT32_MAX
      && Completed(sc.(row := ReadDigits(sc.row, s[i..]))) == Some(a)
    decreases |s| - i
  {
    if i == |s| {
      assert s[i..] == [];
    } else {
      var rest := s[i..];
      assert rest[0] == s[i] && rest[1..] == s[i + 1..];
      if IsDigit(s[i]) {
        var next := sc.row * 10 + DigitValue(s[i]);
        assert AllDigits(rest) <==> AllDigits(rest[1..]);
        if next <= INT32_MAX {
          DigitsRead(s, i + 1, sc.(row := next), a);
        } else if AllDigits(rest) {
          AtLeast(next, rest[1..]);
        }
      }
    }
  }

  lemma RowSpelled(s: string, i: nat, sc: Scan, a: RefAddress)
    requires i <= |s| && sc.mode.RowMode? && sc.row == 0
    ensures ParseFrom(s, i, sc) == ValidAddress(a) <==>
      && SpellsRow(s[i..], a.row) && a.absRow == sc.absRow && a.absColumn == sc.absColumn
      && a.column == if sc.column > 0 then sc.column - 1 else COLUMN_UNSET
  {
    DigitsRead(s, i, sc, a);
  }

  lemma RowRead(s: string, l: nat, sc: Scan, a: RefAddress)
    requires l < |s| && sc.mode.ColumnMode? && sc.row == 0 && !sc.absRow && sc.column <= COLUMN_UPPER_BOUND
    requires !IsLetter(s[l]) && (sc.column == 0 ==> s[l] != '$')
    ensures ParseFrom(s, l, sc) == ValidAddress(a) <==>
      && IsRow(s[l..], sc.column > 0, a) && a.absColumn == sc.absColumn
      && a.column == if sc.column > 0 then sc.column - 1 else COLUMN_UNSET
  {
    var rest := s[l..];
    assert rest[0] == s[l] && rest[1..] == s[l + 1..];
    if s[l] == '$' {
      RowSpelled(s, l + 1, sc.(mode := RowMode, absRow := true), a);
    } else if IsDigit(s[l]) {
      RowSpelled(s, l, sc.(mode := RowMode), a);
    }
  }

  // ---- the texts ----

  function DollarsEnd(s: string, i: nat): (k: nat)
    requires i <= |s|
    ensures i <= k <= |s| && (forall j :: i <= j < k ==> s[j] == '$') && (k < |s| ==> s[k] != '$')
    decreases |s| - i
  {
    if i < |s| && s[i] == '$' then DollarsEnd(s, i + 1) else i
  }

  function LettersEnd(s: string, i: nat): (l: nat)
    requires i <= |s|
    ensures i <= l <= |s| && (forall j :: i <= j < l ==> IsLetter(s[j])) && (l < |s| ==> !IsLetter(s[l]))
    decreases |s| - i
  {
    if i < |s| && IsLetter(s[i]) then LettersEnd(s, i + 1) else i
  }

  /** After the $ signs and the letters. */
  lemma FormRead(s: string, k: nat, l: nat, a: RefAddress)
    requires k <= l <= |s| && AllDollars(s[..k]) && AllLetters(s[k..l])
    requires l < |s| ==> !IsLetter(s[l]) && (k == l ==> s[l] != '$')
    ensures ParseFrom(s, 0, START) == ValidAddress(a) <==> HasForm(s, k, l, a)
  {
    var n := ColumnNumber(0, s[k..l]);
    DollarsRead(s, 0, k);
    ScanLetters(s, k, l, START.(absColumn := k > 0));
    if k < l {
      NumberHasName(s[k..l]);
    } else {
      assert s[k..l] == [];
    }
    if n <= COLUMN_UPPER_BOUND && l < |s| {
      RowRead(s, l, START.(absColumn := k > 0, column := n), a);
    }
  }

  /** A text is accepted as an address exactly when it has this form. */
  lemma AcceptedExactly(s: string, a: RefAddress)
    ensures ParseFrom(s, 0, START) == ValidAddress(a) <==> IsAddressA1(s, a)
  {
    var k := DollarsEnd(s, 0);
    var l := LettersEnd(s, k);
    FormRead(s, k, l, a);
    if k', l' :| 0 <= k' <= l' <= |s| && HasForm(s, k', l', a) {
      if l' < |s| {
        FormEnds(s, k', l', a);
      }
      FormRead(s, k', l', a);
    }
  }

  lemma FormEnds(s: string, k: nat, l: nat, a: RefAddress)
    requires k <= l < |s| && HasForm(s, k, l, a)
    ensures !IsLetter(s[l]) && (k == l ==> s[l] != '$')
  {
    var rest := s[l..];
    assert rest[0] == s[l];
    assert IsDigit(rest[0]) || rest[0] == '$';
  }

  // ---- R1C1 notation ----

  /** An optional sign and digits; a sign alone counts as 0. */
  predicate IsNumberText(u: string, n: int) {
    && u != ""
    && if !IsPlusMinus(u[0]) then AllDigits(u) && n == ReadDigits(0, u)
       else AllDigits(u[1..]) && n == if u[0] == '-' then -ReadDigits(0, u[1..]) else ReadDigits(0, u[1..])
  }

  /** The row or the column: the letter alone, the letter and a relative number
      in brackets, or the letter and a number from 1 on.  Only where the text
      ends is the closing bracket looked at. */
  predicate IsPart(t: string, letter: char, n: int, abs: bool, closed: bool) {
    && t != "" && Upper(t[0]) == letter
    && (|| (|t| == 1 && n == 0 && !abs)
        || (&& |t| > 3 && t[1] == '[' && IsNumberText(t[2..|t| - 1], n) && Fits(n) && !abs
            && if closed then t[|t| - 1] == ']' else !IsDigit(t[|t| - 1]))
        || (|t| > 1 && AllDigits(t[1..]) && abs && n == ReadDigits(0, t[1..]) - 1 && 0 <= n < INT32_MAX))
  }

  /** A row part up to k, and a column part, of which one may be missing.  The
      letter R alone is refused, and so is C alone where no other row is given. */
  predicate HasParts(s: string, k: nat, a: RefAddress)
    requires k <= |s|
  {
    && (if k == 0 then a.row == ROW_UNSET && !a.absRow else IsPart(s[..k], 'R', a.row, a.absRow, k == |s|))
    && (if k == |s| then |s| > 1 && a.column == COLUMN_UNSET && !a.absColumn else ColumnGiven(s[k..], a))
  }

  predicate ColumnGiven(t: string, a: RefAddress) {
    && IsPart(t, 'C', a.column, a.absColumn, true)
    && (|t| == 1 ==> a.row != ROW_UNSET && (a.absRow || a.row != 0))
  }

  lemma NumberTextRead(s: string, i: nat, q: nat, n: int)
    requires i < q <= |s| && IsNumberText(s[i..q], n) && (q < |s| ==> !IsDigit(s[q]))
    ensures NumberAt(s, i) == (n, q)
  {
    var u := s[i..q];
    assert u[0] == s[i] && u[1..] == s[i + 1..q];
    var p := if IsPlusMinus(s[i]) then i + 1 else i;
    forall j | p <= j < q
      ensures IsDigit(s[j])
    {
      assert s[j] == s[p..q][j - p];
    }
    DigitsEndAt(s, p, q);
  }

  lemma NumberIsText(s: string, i: nat)
    requires i < |s| && (IsDigit(s[i]) || IsPlusMinus(s[i]))
    ensures var (n, q) := NumberAt(s, i); i < q <= |s| && IsNumberText(s[i..q], n) && (q < |s| ==> !IsDigit(s[q]))
    ensures IsDigit(s[i]) ==> var (n, q) := NumberAt(s, i); AllDigits(s[i..q]) && n == ReadDigits(0, s[i..q])
  {
    var (n, q) := NumberAt(s, i);
    var u := s[i..q];
    assert i < q;
    assert u[0] == s[i] && u[1..] == s[i + 1..q];
  }

  lemma DigitsAreNumber(u: string)
    requires u != "" && AllDigits(u)
    ensures IsNumberText(u, ReadDigits(0, u))
  {
    assert IsDigit(u[0]);
  }

  lemma PrefixSlice(s: string, k: nat, i: nat, j: nat)
    requires i <= j < k <= |s|
    ensures s[..k][i..j] == s[i..j] && s[..k][j] == s[j]
  {
  }

  lemma SuffixSlice(s: string, p: nat, i: nat, j: nat)
    requires p <= |s| && i <= j < |s| - p
    ensures s[p..][i..j] == s[p + i..p + j] && s[p..][j] == s[p + j]
  {
  }

  /** The column part, from p on. */
  lemma ColumnPartExactly(s: string, p: nat, row: int, absRow: bool, a: RefAddress)
    requires p < |s|
    ensures ParseColumn(s, p, row, absRow) == Accepted(a) <==>
      a.row == row && a.absRow == absRow && ColumnGiven(s[p..], a)
  {
    var t := s[p..];
    assert t[0] == s[p] && (|t| > 1 ==> t[1] == s[p + 1]);
    if IsC(s[p]) && |t| > 1 {
      if t[1] == '[' {
        BracketedColumn(s, p, row, absRow, a);
      } else {
        CountedColumn(s, p, row, absRow, a);
      }
    }
  }

  lemma BracketedColumn(s: string, p: nat, row: int, absRow: bool, a: RefAddress)
    requires p + 1 < |s| && IsC(s[p]) && s[p + 1] == '['
    ensures ParseColumn(s, p, row, absRow) == Accepted(a) <==>
      a.row == row && a.absRow == absRow && ColumnGiven(s[p..], a)
  {
    if ParseColumn(s, p, row, absRow) == Accepted(a) {
      BracketedColumnGiven(s, p, row, absRow, a);
    }
    if a.row == row && a.absRow == absRow && ColumnGiven(s[p..], a) {
      BracketedColumnAccepted(s, p, row, absRow, a);
    }
  }

  lemma BracketedColumnGiven(s: string, p: nat, row: int, absRow: bool, a: RefAddress)
    requires p + 1 < |s| && IsC(s[p]) && s[p + 1] == '[' && ParseColumn(s, p, row, absRow) == Accepted(a)
    ensures a.row == row && a.absRow == absRow && ColumnGiven(s[p..], a)
  {
    var t := s[p..];
    assert t[0] == s[p] && t[1] == s[p + 1];
    NumberIsText(s, p + 2);
    SuffixSlice(s, p, 2, |t| - 1);
  }

  lemma BracketedColumnAccepted(s: string, p: nat, row: int, absRow: bool, a: RefAddress)
    requires p + 1 < |s| && IsC(s[p]) && s[p + 1] == '[' && ColumnGiven(s[p..], a)
    requires a.row == row && a.absRow == absRow
    ensures ParseColumn(s, p, row, absRow) == Accepted(a)
  {
    var t, q := s[p..], |s| - 1;
    assert t[0] == s[p] && t[1] == s[p + 1];
    SuffixSlice(s, p, 2, |t| - 1);
    assert s[p + 2] == s[p + 2..q][0];
    NumberTextRead(s, p + 2, q, a.column);
  }

  lemma CountedColumn(s: string, p: nat, row: int, absRow: bool, a: RefAddress)
    requires p + 1 < |s| && IsC(s[p]) && s[p + 1] != '['
    ensures ParseColumn(s, p, row, absRow) == Accepted(a) <==>
      a.row == row && a.absRow == absRow && ColumnGiven(s[p..], a)
  {
    var t := s[p..];
    assert t[0] == s[p] && t[1] == s[p + 1] && t[1..] == s[p + 1..|s|];
    if ParseColumn(s, p, row, absRow) == Accepted(a) {
      NumberIsText(s, p + 1);
    }
    if ColumnGiven(t, a) {
      DigitsAreNumber(t[1..]);
      assert IsDigit(t[1..][0]);
      NumberTextRead(s, p + 1, |s|, a.column + 1);
    }
  }

  /** The row part before a C at k. */
  lemma RowBeforeColumn(s: string, k: nat, row: int, absRow: bool)
    requires 0 < k < |s| && IsC(s[k])
    ensures ParseRow(s) == GoOn(k, row, absRow) <==> IsPart(s[..k], 'R', row, absRow, false)
  {
    var t := s[..k];
    assert t[0] == s[0] && (k > 1 ==> t[1] == s[1]);
    if IsR(s[0]) && k > 1 {
      if s[1] == '[' {
        BracketedRow(s, k, row, absRow);
      } else {
        CountedRow(s, k, row, absRow);
      }
    }
  }

  lemma BracketedRow(s: string, k: nat, row: int, absRow: bool)
    requires 1 < k < |s| && IsC(s[k]) && IsR(s[0]) && s[1] == '['
    ensures ParseRow(s) == GoOn(k, row, absRow) <==> IsPart(s[..k], 'R', row, absRow, false)
  {
    var t := s[..k];
    assert t[0] == s[0] && t[1] == s[1];
    if ParseRow(s) == GoOn(k, row, absRow) {
      NumberIsText(s, 2);
      var (n, q) := NumberAt(s, 2);
      PrefixSlice(s, k, 2, k - 1);
    }
    if IsPart(t, 'R', row, absRow, false) {
      var q := k - 1;
      PrefixSlice(s, k, 2, k - 1);
      assert s[2] == s[2..q][0];
      NumberTextRead(s, 2, q, row);
    }
  }

  lemma CountedRow(s: string, k: nat, row: int, absRow: bool)
    requires 1 < k < |s| && IsC(s[k]) && IsR(s[0]) && s[1] != '['
    ensures ParseRow(s) == GoOn(k, row, absRow) <==> IsPart(s[..k], 'R', row, absRow, false)
  {
    var t := s[..k];
    assert t[0] == s[0] && t[1] == s[1] && t[1..] == s[1..k];
    if ParseRow(s) == GoOn(k, row, absRow) {
      NumberIsText(s, 1);
    }
    if IsPart(t, 'R', row, absRow, false) {
      DigitsAreNumber(t[1..]);
      assert IsDigit(t[1..][0]);
      NumberTextRead(s, 1, k, row + 1);
    }
  }

  /** A row part that is all of the text. */
  lemma RowAlone(s: string, a: RefAddress)
    requires s != ""
    ensures ParseRow(s) == Settled(Accepted(a)) <==>
      |s| > 1 && IsPart(s, 'R', a.row, a.absRow, true) && a.column == COLUMN_UNSET && !a.absColumn
  {
    if IsR(s[0]) && |s| > 1 {
      if s[1] == '[' {
        BracketedRowAlone(s, a);
      } else {
        CountedRowAlone(s, a);
      }
    }
  }

  lemma BracketedRowAlone(s: string, a: RefAddress)
    requires |s| > 1 && IsR(s[0]) && s[1] == '['
    ensures ParseRow(s) == Settled(Accepted(a)) <==>
      IsPart(s, 'R', a.row, a.absRow, true) && a.column == COLUMN_UNSET && !a.absColumn
  {
    if ParseRow(s) == Settled(Accepted(a)) {
      NumberIsText(s, 2);
    }
    if IsPart(s, 'R', a.row, a.absRow, true) {
      assert s[2] == s[2..|s| - 1][0];
      NumberTextRead(s, 2, |s| - 1, a.row);
    }
  }

  lemma CountedRowAlone(s: string, a: RefAddress)
    requires |s| > 1 && IsR(s[0]) && s[1] != '['
    ensures ParseRow(s) == Settled(Accepted(a)) <==>
      IsPart(s, 'R', a.row, a.absRow, true) && a.column == COLUMN_UNSET && !a.absColumn
  {
    assert s[1..] == s[1..|s|];
    if ParseRow(s) == Settled(Accepted(a)) {
      NumberIsText(s, 1);
    }
    if IsPart(s, 'R', a.row, a.absRow, true) {
      DigitsAreNumber(s[1..]);
      assert IsDigit(s[1..][0]);
      NumberTextRead(s, 1, |s|, a.row + 1);
    }
  }

  /** A text is accepted as an address exactly when it has these parts. */
  lemma AcceptedR1C1Exactly(s: string, a: RefAddress)
    requires s != ""
    ensures ParseR1C1(s) == Accepted(a) <==> exists k :: 0 <= k <= |s| && HasParts(s, k, a)
  {
    RowAlone(s, a);
    assert s[..|s|] == s;
    if ParseR1C1(s) == Accepted(a) {
      match ParseRow(s)
      case Settled(_) =>
        assert HasParts(s, |s|, a);
      case GoOn(p, row, absRow) =>
        ColumnPartExactly(s, p, row, absRow, a);
        assert s[p..][0] == s[p];
        if p > 0 {
          RowBeforeColumn(s, p, row, absRow);
        }
        assert HasParts(s, p, a);
    }
    if k :| 0 <= k <= |s| && HasParts(s, k, a) && k < |s| {
      assert s[k..][0] == s[k];
      ColumnPartExactly(s, k, a.row, a.absRow, a);
      if k > 0 {
        RowBeforeColumn(s, k, a.row, a.absRow);
      }
    }
  }
}
