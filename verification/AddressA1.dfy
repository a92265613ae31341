/** Cell addresses in A1 notation: column names, printing and parsing. */
module AddressA1 {
  import opened Wrappers
  import opened Address
  import opened Decimal

  /** Row and column of an address, each relative or absolute. */
  datatype RefAddress = RefAddress(row: int, column: int, absRow: bool, absColumn: bool)

  predicate IsUpperLetter(c: char) {
    'A' <= c <= 'Z'
  }

  predicate IsLetter(c: char) {
    IsUpperLetter(c) || 'a' <= c <= 'z'
  }

  function Upper(c: char): char {
    if 'a' <= c <= 'z' then (c as int - 32) as char else c
  }

  function UpperCase(s: string): (t: string)
    ensures |t| == |s|
  {
    seq(|s|, i requires 0 <= i < |s| => Upper(s[i]))
  }

  function Letter(k: int): char
    requires 0 <= k < 26
  {
    ('A' as int + k) as char
  }

  // ---- column names ----

  /** The name of a 0-based column. */
  function ColumnName(col: nat): (s: string)
    ensures |s| > 0 && forall i :: 0 <= i < |s| ==> IsUpperLetter(s[i])
  {
    if col < 26 then [Letter(col)] else ColumnName(col / 26 - 1) + [Letter(col % 26)]
  }

  function LetterValue(c: char): (v: nat)
    requires IsLetter(c)
    ensures 1 <= v <= 26 && Letter(v - 1) == Upper(c)
  {
    Upper(c) as int - 'A' as int + 1
  }

  predicate AllLetters(s: string) {
    forall i :: 0 <= i < |s| ==> IsLetter(s[i])
  }

  /** The 1-based column number spelled by letters, read left to right. */
  function ColumnNumber(acc: nat, s: string): nat
    requires AllLetters(s)
    decreases |s|
  {
    if s == [] then acc else ColumnNumber(acc * 26 + LetterValue(s[0]), s[1..])
  }

  function Reversed(s: string): string {
    if s == [] then [] else Reversed(s[1..]) + [s[0]]
  }

  lemma {:induction false} ReversedAppend(s: string, c: char)
    ensures Reversed(s + [c]) == [c] + Reversed(s)
    decreases |s|
  {
    if s == [] {
      assert ([] + [c])[1..] == [];
    } else {
      assert (s + [c])[1..] == s[1..] + [c];
      ReversedAppend(s[1..], c);
    }
  }

  method AppendColumnNameA1(os: string, column: nat) returns (out: string)
    ensures out == os + ColumnName(column)
  {
    var col := column;
    var colName: string := [];
    while true
      invariant col >= 0
      invariant ColumnName(column) == ColumnName(col) + Reversed(colName)
      decreases col
    {
      var rem := col % 26;
      ReversedAppend(colName, Letter(rem));
      colName := colName + [Letter(rem)];
      if col < 26 {
        break;
      }
      assert (col - rem) / 26 - 1 == col / 26 - 1;
      assert ColumnName(col) + Reversed(colName[..|colName| - 1]) == ColumnName(col / 26 - 1) + Reversed(colName) by {
        assert colName[..|colName| - 1] + [Letter(rem)] == colName;
      }
      col := (col - rem) / 26 - 1;
    }
    out := os + Reversed(colName);
  }

  lemma {:induction false} ColumnNumberAppend(acc: nat, s: string, c: char)
    requires IsLetter(c) && AllLetters(s)
    ensures ColumnNumber(acc, s + [c]) == ColumnNumber(acc, s) * 26 + LetterValue(c)
    decreases |s|
  {
    if s == [] {
      assert ([] + [c])[1..] == [];
    } else {
      assert (s + [c])[1..] == s[1..] + [c];
      ColumnNumberAppend(acc * 26 + LetterValue(s[0]), s[1..], c);
    }
  }

  /** The printed name of a column spells its number. */
  lemma {:induction false} NameSpellsNumber(col: nat)
    ensures ColumnNumber(0, ColumnName(col)) == col + 1
    decreases col
  {
    if col < 26 {
      assert [Letter(col)][1..] == [];
    } else {
      NameSpellsNumber(col / 26 - 1);
      ColumnNumberAppend(0, ColumnName(col / 26 - 1), Letter(col % 26));
    }
  }

  /** Letters spell a number whose name is their upper case. */
  lemma {:induction false} NumberHasName(s: string)
    requires s != [] && AllLetters(s)
    ensures ColumnNumber(0, s) > 0 && ColumnName(ColumnNumber(0, s) - 1) == UpperCase(s)
    decreases |s|
  {
    var n := |s| - 1;
    var before, c := s[..n], s[n];
    assert s == before + [c];
    ColumnNumberAppend(0, before, c);
    var k := LetterValue(c) - 1;
    if n == 0 {
      assert ColumnNumber(0, s) == k + 1;
      assert UpperCase(s) == [Upper(c)];
    } else {
      NumberHasName(before);
      var m := ColumnNumber(0, before);
      var col := m * 26 + k;
      assert col / 26 == m && col % 26 == k;
      assert UpperCase(s) == UpperCase(before) + [Upper(c)];
    }
  }

  lemma {:induction false} ColumnNumberGrows(acc: nat, s: string, k: nat)
    requires k <= |s| && AllLetters(s)
    ensures acc <= ColumnNumber(acc, s[..k]) <= ColumnNumber(acc, s)
    decreases |s|
  {
    if s == [] {
    } else {
      var next := acc * 26 + LetterValue(s[0]);
      if k == 0 {
        ColumnNumberGrows(next, s[1..], 0);
      } else {
        assert s[..k][1..] == s[1..][..k - 1];
        ColumnNumberGrows(next, s[1..], k - 1);
      }
    }
  }

  // ---- whole addresses ----

  datatype Mode = ColumnMode | RowMode

  /** What has been read so far; 0 stands for a part not yet given. */
  datatype Scan = Scan(mode: Mode, row: int, column: nat, absRow: bool, absColumn: bool)

  /** Overflow stands for a row number beyond 32 bits. */
  datatype ParseResult = Invalid | ValidAddress(a: RefAddress) | RangeExpected(a: RefAddress) | Overflow

  const START := Scan(ColumnMode, 0, 0, false, false)

  /** From 1-based to 0-based; what is not given is unset. */
  function Completed(sc: Scan): Option<RefAddress> {
    if sc.mode.RowMode? then
      if sc.row == 0 then None
      else Some(RefAddress(sc.row - 1, if sc.column > 0 then sc.column - 1 else COLUMN_UNSET, sc.absRow, sc.absColumn))
    else
      if sc.column == 0 then None
      else Some(RefAddress(ROW_UNSET, sc.column - 1, sc.absRow, sc.absColumn))
  }

  datatype Step = More(sc: Scan) | Stop(r: ParseResult)

  /** One character of an address. */
  function ReadChar(sc: Scan, c: char): Step {
    if IsLetter(c) then
      if sc.mode.RowMode? || sc.column * 26 + LetterValue(c) > COLUMN_UPPER_BOUND then Stop(Invalid)
      else More(sc.(column := sc.column * 26 + LetterValue(c)))
    else if IsDigit(c) then
      if sc.mode.ColumnMode? && c == '0' then Stop(Invalid)
      else if sc.row * 10 + DigitValue(c) > INT32_MAX then Stop(Overflow)
      else More(sc.(mode := RowMode, row := sc.row * 10 + DigitValue(c)))
    else if c == ':' then
      (match Completed(sc)
       case None => Stop(Invalid)
       case Some(a) => Stop(RangeExpected(a)))
    else if c == '$' && sc.mode.ColumnMode? then
      if sc.column > 0 then More(sc.(mode := RowMode, absRow := true)) else More(sc.(absColumn := true))
    else Stop(Invalid)
  }

  function ParseFrom(s: string, i: nat, sc: Scan): ParseResult
    requires i <= |s|
    decreases |s| - i
  {
    if i == |s| then
      (match Completed(sc)
       case None => Invalid
       case Some(a) => ValidAddress(a))
    else
      match ReadChar(sc, s[i])
      case Stop(r) => r
      case More(next) => ParseFrom(s, i + 1, next)
  }

  predicate NoColon(s: string, i: int, k: int) {
    forall j :: 0 <= i <= j < k <= |s| ==> s[j] != ':'
  }

  /** The parser proper; the column accumulator stays within 32 bits on every
      input.  The cursor p stands at the colon where a range is expected. */
  method ParseAddressA1(s: string) returns (r: ParseResult, p: nat)
    ensures r == ParseFrom(s, 0, START)
    ensures r.RangeExpected? ==> p < |s| && s[p] == ':' && NoColon(s, 0, p)
  {
    var mode, row, column, absRow, absColumn := ColumnMode, 0, 0, false, false;
    p := 0;
    while p < |s|
      invariant p <= |s| && NoColon(s, 0, p) && 0 <= column <= COLUMN_UPPER_BOUND && row >= 0
      invariant ParseFrom(s, 0, START) == ParseFrom(s, p, Scan(mode, row, column, absRow, absColumn))
    {
      var c := Upper(s[p]);
      if IsUpperLetter(c) {
        if mode != ColumnMode {
          return Invalid, p;
        }
        column := column * 26 + (c as int - 'A' as int + 1);
        assert column <= INT32_MAX;
        if column > COLUMN_UPPER_BOUND {
          return Invalid, p;
        }
      } else if IsDigit(c) {
        if mode == ColumnMode {
          if c == '0' {
            return Invalid, p;
          }
          mode := RowMode;
        }
        row := row * 10 + DigitValue(c);
        if row > INT32_MAX {
          return Overflow, p;
        }
      } else if c == ':' {
        var done := CompleteAddress(mode, row, column, absRow, absColumn);
        return (if done.None? then Invalid else RangeExpected(done.value)), p;
      } else if c == '$' {
        if mode != ColumnMode {
          return Invalid, p;
        }
        if column > 0 {
          mode, absRow := RowMode, true;
        } else {
          absColumn := true;
        }
      } else {
        return Invalid, p;
      }
      p := p + 1;
    }
    var done := CompleteAddress(mode, row, column, absRow, absColumn);
    return (if done.None? then Invalid else ValidAddress(done.value)), p;
  }

  /** To 0-based indices, at a colon or at the end. */
  method CompleteAddress(mode: Mode, row: nat, column: nat, absRow: bool, absColumn: bool)
          returns (a: Option<RefAddress>)
    ensures a == Completed(Scan(mode, row, column, absRow, absColumn))
  {
    if mode == RowMode {
      if row == 0 {
        return None;
      }
      return Some(RefAddress(row - 1, if column > 0 then column - 1 else COLUMN_UNSET, absRow, absColumn));
    }
    if column == 0 {
      return None;
    }
    return Some(RefAddress(ROW_UNSET, column - 1, absRow, absColumn));
  }

  function AbsoluteRow(a: RefAddress, pos: AbsAddress): int {
    if a.absRow then a.row else a.row + pos.row
  }

  function AbsoluteColumn(a: RefAddress, pos: AbsAddress): int {
    if a.absColumn then a.column else a.column + pos.column
  }

  function Dollar(abs: bool): string {
    if abs then "$" else ""
  }

  /** append_address_a1 without a sheet name */
  function PrintAddressA1(a: RefAddress, pos: AbsAddress): string
    requires AbsoluteColumn(a, pos) >= 0
  {
    Dollar(a.absColumn) + ColumnName(AbsoluteColumn(a, pos)) + Dollar(a.absRow) + Printed(AbsoluteRow(a, pos) + 1)
  }

  function ToRelative(a: RefAddress, pos: AbsAddress): RefAddress {
    a.(row := if !a.absRow && a.row <= ROW_UPPER_BOUND then a.row - pos.row else a.row,
       column := if !a.absColumn && a.column <= COLUMN_UPPER_BOUND then a.column - pos.column else a.column)
  }

  lemma {:induction false} ScanLetters(s: string, i: nat, k: nat, sc: Scan)
    requires i <= k <= |s| && AllLetters(s[i..k]) && sc.mode.ColumnMode? && sc.column <= COLUMN_UPPER_BOUND
    ensures var n := ColumnNumber(sc.column, s[i..k]);
      ParseFrom(s, i, sc) == if n <= COLUMN_UPPER_BOUND then ParseFrom(s, k, sc.(column := n)) else Invalid
    decreases k - i
  {
    if i < k {
      assert s[i..k][0] == s[i] && s[i..k][1..] == s[i + 1..k];
      var next := sc.column * 26 + LetterValue(s[i]);
      if next <= COLUMN_UPPER_BOUND {
        ScanLetters(s, i + 1, k, sc.(column := next));
      } else {
        ColumnNumberGrows(next, s[i + 1..k], 0);
      }
    } else {
      assert s[i..k] == [];
    }
  }

  lemma {:induction false} ScanDigits(s: string, i: nat, k: nat, sc: Scan)
    requires i < k <= |s| && (forall j :: i <= j < k ==> IsDigit(s[j])) && sc.row >= 0
    requires sc.mode.ColumnMode? ==> s[i] != '0'
    requires ReadDigits(sc.row, s[i..k]) <= INT32_MAX
    ensures ParseFrom(s, i, sc) == ParseFrom(s, k, sc.(mode := RowMode, row := ReadDigits(sc.row, s[i..k])))
    decreases k - i
  {
    assert s[i..k][0] == s[i] && s[i..k][1..] == s[i + 1..k];
    var next := sc.row * 10 + DigitValue(s[i]);
    AtLeast(next, s[i + 1..k]);
    if i + 1 < k {
      ScanDigits(s, i + 1, k, sc.(mode := RowMode, row := next));
    } else {
      assert s[i + 1..k] == [];
    }
  }

  lemma PartsStand(w: string, x: string, y: string, z: string)
    ensures var s, i, j, k := w + x + y + z, |w|, |w| + |x|, |w| + |x| + |y|;
      && |s| == k + |z| && s[..i] == w && s[i..j] == x && s[j..k] == y && s[k..] == z
  {
  }

  lemma ScanDollar(s: string, i: nat, abs: bool, sc: Scan)
    requires i + |Dollar(abs)| <= |s| && s[i..i + |Dollar(abs)|] == Dollar(abs) && sc.mode.ColumnMode?
    ensures ParseFrom(s, i, sc) ==
      ParseFrom(s, i + |Dollar(abs)|,
                if !abs then sc
                else if sc.column > 0 then sc.(mode := RowMode, absRow := true)
                else sc.(absColumn := true))
  {
    if abs {
      assert s[i] == s[i..i + 1][0];
    }
  }

  lemma ScanRow(s: string, k: nat, row: nat, sc: Scan)
    requires k <= |s| && s[k..] == Digits(row) && 0 < row <= INT32_MAX && sc.row == 0
    ensures ParseFrom(s, k, sc) == ParseFrom(s, |s|, sc.(mode := RowMode, row := row))
  {
    ReadPrinted(row);
    assert s[k..|s|] == s[k..];
    assert s[k] == s[k..][0];
    forall m | k <= m < |s|
      ensures IsDigit(s[m])
    {
      assert s[m] == s[k..][m - k];
    }
    ScanDigits(s, k, |s|, sc);
  }

  /** The column part, up to position j. */
  lemma ScanColumn(s: string, col: nat, abs: bool, j: nat)
    requires j == |Dollar(abs)| + |ColumnName(col)| <= |s|
    requires s[..|Dollar(abs)|] == Dollar(abs) && s[|Dollar(abs)|..j] == ColumnName(col)
    ensures ParseFrom(s, 0, START) ==
      if col + 1 <= COLUMN_UPPER_BOUND then ParseFrom(s, j, START.(absColumn := abs, column := col + 1)) else Invalid
  {
    assert s[0..|Dollar(abs)|] == Dollar(abs);
    ScanDollar(s, 0, abs, START);
    NameSpellsNumber(col);
    ScanLetters(s, |Dollar(abs)|, j, START.(absColumn := abs));
  }

  /** The row part, from position j on. */
  lemma ScanRowPart(s: string, j: nat, row: nat, abs: bool, sc: Scan)
    requires j + |Dollar(abs)| <= |s| && s[j..j + |Dollar(abs)|] == Dollar(abs) &&
      s[j + |Dollar(abs)|..] == Digits(row + 1)
    requires row <= ROW_UPPER_BOUND && sc.mode.ColumnMode? && sc.column > 0 && sc.row == 0 && !sc.absRow
    ensures ParseFrom(s, j, sc) == ValidAddress(RefAddress(row, sc.column - 1, abs, sc.absColumn))
  {
    ScanDollar(s, j, abs, sc);
    ScanRow(s, j + |Dollar(abs)|, row + 1, if abs then sc.(mode := RowMode, absRow := true) else sc);
  }

  lemma PartsParse(s: string, col: nat, absCol: bool, j: nat, row: nat, absRow: bool)
    requires j == |Dollar(absCol)| + |ColumnName(col)| && j + |Dollar(absRow)| <= |s| && row <= ROW_UPPER_BOUND
    requires s[..|Dollar(absCol)|] == Dollar(absCol) && s[|Dollar(absCol)|..j] == ColumnName(col)
    requires s[j..j + |Dollar(absRow)|] == Dollar(absRow) && s[j + |Dollar(absRow)|..] == Digits(row + 1)
    ensures ParseFrom(s, 0, START) ==
      if col + 1 <= COLUMN_UPPER_BOUND then ValidAddress(RefAddress(row, col, absRow, absCol)) else Invalid
  {
    ScanColumn(s, col, absCol, j);
    if col + 1 <= COLUMN_UPPER_BOUND {
      ScanRowPart(s, j, row, absRow, START.(absColumn := absCol, column := col + 1));
    }
  }

  /** The text of an address is read part by part. */
  lemma ParsePrinted(a: RefAddress, pos: AbsAddress)
    requires AbsoluteColumn(a, pos) >= 0 && 0 <= AbsoluteRow(a, pos) <= ROW_UPPER_BOUND
    ensures ParseFrom(PrintAddressA1(a, pos), 0, START) ==
      if AbsoluteColumn(a, pos) + 1 <= COLUMN_UPPER_BOUND
      then ValidAddress(RefAddress(AbsoluteRow(a, pos), AbsoluteColumn(a, pos), a.absRow, a.absColumn))
      else Invalid
  {
    var s, col, row := PrintAddressA1(a, pos), AbsoluteColumn(a, pos), AbsoluteRow(a, pos);
    var j := |Dollar(a.absColumn)| + |ColumnName(col)|;
    PartsStand(Dollar(a.absColumn), ColumnName(col), Dollar(a.absRow), Digits(row + 1));
    PartsParse(s, col, a.absColumn, j, row, a.absRow);
  }

  /** Printing and parsing an address gives it back exactly when its column is
      within the bound of the parser. */
  lemma A1RoundTripExactly(a: RefAddress, pos: AbsAddress)
    requires AbsoluteColumn(a, pos) >= 0 && 0 <= AbsoluteRow(a, pos) <= ROW_UPPER_BOUND
    ensures var r := ParseFrom(PrintAddressA1(a, pos), 0, START);
      r.ValidAddress? && ToRelative(r.a, pos) == a <==> AbsoluteColumn(a, pos) + 1 <= COLUMN_UPPER_BOUND
  {
    ParsePrinted(a, pos);
  }

  /** A column alone: letters within the bound are read as the column whose
      printed name is their upper case, and other letter strings are refused. */
  lemma LettersRoundTrip(s: string)
    requires s != [] && AllLetters(s)
    ensures ParseFrom(s, 0, START) ==
      if ColumnNumber(0, s) <= COLUMN_UPPER_BOUND
      then ValidAddress(RefAddress(ROW_UNSET, ColumnNumber(0, s) - 1, false, false))
      else Invalid
    ensures ColumnNumber(0, s) > 0 && ColumnName(ColumnNumber(0, s) - 1) == UpperCase(s)
  {
    NumberHasName(s);
    assert s[0..|s|] == s;
    ScanLetters(s, 0, |s|, START);
  }

  /** What is accepted has a row that fits and a column within the bound. */
  lemma {:induction false} AcceptedInBounds(s: string, i: nat, sc: Scan)
    requires i <= |s| && 0 <= sc.row <= INT32_MAX && sc.column <= COLUMN_UPPER_BOUND &&
      ParseFrom(s, i, sc).ValidAddress?
    ensures var a := ParseFrom(s, i, sc).a;
      && 0 <= a.row < INT32_MAX && 0 <= a.column
      && (a.column == COLUMN_UNSET || a.column < COLUMN_UPPER_BOUND)
    decreases |s| - i
  {
    if i == |s| {
    } else {
      AcceptedInBounds(s, i + 1, ReadChar(sc, s[i]).sc);
    }
  }

  /** Every text accepted with both a row and a column, in whatever case and
      with whatever $ signs, denotes an address that is read back from its
      printed form. */
  lemma AcceptedReadsBack(s: string, a: RefAddress)
    requires ParseFrom(s, 0, START) == ValidAddress(a) && a.row <= ROW_UPPER_BOUND && a.column <= COLUMN_UPPER_BOUND
    ensures a.row >= 0 && a.column >= 0
    ensures ParseFrom(PrintAddressA1(a, AbsAddress(0, 0, 0)), 0, START) == ValidAddress(a)
  {
    AcceptedInBounds(s, 0, START);
    ParsePrinted(a, AbsAddress(0, 0, 0));
  }

  /** The first column that is printed but not read back. */
  lemma ColumnBeyondBound(row: nat, pos: AbsAddress)
    requires row <= ROW_UPPER_BOUND
    ensures ParseFrom(PrintAddressA1(RefAddress(row, COLUMN_UPPER_BOUND, true, true), pos), 0, START) == Invalid
  {
    ParsePrinted(RefAddress(row, COLUMN_UPPER_BOUND, true, true), pos);
  }
}
