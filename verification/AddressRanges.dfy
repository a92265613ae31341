/** Ranges of cells written as two corners around a colon, in both notations,
    without sheet names. */
module AddressRanges {
  import opened Wrappers
  import opened Address
  import opened Decimal
  import opened AddressA1
  import opened AddressR1C1

  // ---- A1 notation ----

  function AtColon(r: ParseResult): ParseResult {
    if r.ValidAddress? then RangeExpected(r.a) else r
  }

  /** What a text is read as before a colon. */
  lemma {:induction false} UpToColon(s: string, t: string, i: nat, sc: Scan)
    requires i <= |s| && NoColon(s, i, |s|)
    ensures ParseFrom(s + ":" + t, i, sc) == AtColon(ParseFrom(s, i, sc))
    decreases |s| - i
  {
    var u := s + ":" + t;
    if i < |s| {
      assert u[i] == s[i] && s[i] != ':';
      if ReadChar(sc, s[i]).More? {
        UpToColon(s, t, i + 1, ReadChar(sc, s[i]).sc);
      }
    } else {
      assert u[i] == ':';
    }
  }

  /** Before a colon a text is read as the address that it is read as alone. */
  lemma FirstCornerExactly(s: string, t: string, a: RefAddress)
    requires NoColon(s, 0, |s|)
    ensures ParseFrom(s + ":" + t, 0, START) == RangeExpected(a) <==> ParseFrom(s, 0, START) == ValidAddress(a)
  {
    UpToColon(s, t, 0, START);
    NeverExpectsRange(s, 0, START);
  }

  lemma {:induction false} NeverExpectsRange(s: string, i: nat, sc: Scan)
    requires i <= |s| && NoColon(s, i, |s|)
    ensures !ParseFrom(s, i, sc).RangeExpected?
    decreases |s| - i
  {
    if i < |s| {
      assert s[i] != ':';
      if ReadChar(sc, s[i]).More? {
        NeverExpectsRange(s, i + 1, ReadChar(sc, s[i]).sc);
      }
    }
  }

  lemma {:induction false} ValidHasNoColon(s: string, i: nat, sc: Scan)
    requires i <= |s| && ParseFrom(s, i, sc).ValidAddress?
    ensures NoColon(s, i, |s|)
    decreases |s| - i
  {
    if i < |s| {
      ValidHasNoColon(s, i + 1, ReadChar(sc, s[i]).sc);
    }
  }

  /** The text is two addresses around the colon at k, which are taken relative
      to pos. */
  predicate SplitsAt(s: string, k: nat, pos: AbsAddress, first: RefAddress, last: RefAddress)
    requires k < |s|
  {
    var x, y := ParseFrom(s[..k], 0, START), ParseFrom(s[k + 1..], 0, START);
    s[k] == ':' && x.ValidAddress? && y.ValidAddress? && first == ToRelative(x.a, pos) && last == ToRelative(y.a, pos)
  }

  ghost predicate IsRangeA1(s: string, pos: AbsAddress, first: RefAddress, last: RefAddress) {
    exists k :: 0 <= k < |s| && SplitsAt(s, k, pos, first, last)
  }

  lemma FirstColonSplits(s: string, k: nat, m: nat, pos: AbsAddress, first: RefAddress, last: RefAddress)
    requires k < |s| && m < |s| && s[k] == ':' && NoColon(s, 0, k) && SplitsAt(s, m, pos, first, last)
    ensures m == k
  {
    ValidHasNoColon(s[..m], 0, START);
    NoColonBefore(s, m);
  }

  lemma NoColonBefore(s: string, m: nat)
    requires m <= |s| && NoColon(s[..m], 0, m)
    ensures NoColon(s, 0, m)
  {
    forall j | 0 <= j < m
      ensures s[j] != ':'
    {
      assert s[..m][j] == s[j];
    }
  }

  /** A reference to a range, as the resolver of Excel A1 reads it. */
  method ReadRangeA1(s: string, pos: AbsAddress) returns (r: Option<(RefAddress, RefAddress)>)
    ensures r.Some? ==> IsRangeA1(s, pos, r.value.0, r.value.1)
    ensures r.None? ==> forall first, last :: !IsRangeA1(s, pos, first, last)
  {
    var x, p := ParseAddressA1(s);
    if !x.RangeExpected? {
      NoSplit(s, pos);
      return None;
    }
    var left, right := s[..p], s[p + 1..];
    assert s == left + ":" + right;
    FirstCornerExactly(left, right, x.a);
    forall first, last, m | 0 <= m < |s| && SplitsAt(s, m, pos, first, last)
      ensures m == p
    {
      FirstColonSplits(s, p, m, pos, first, last);
    }
    if p + 1 == |s| {
      assert ParseFrom(right, 0, START) == Invalid;
      return None;
    }
    var y, q := ParseAddressA1(right);
    if !y.ValidAddress? {
      return None;
    }
    r := Some((ToRelative(x.a, pos), ToRelative(y.a, pos)));
    assert SplitsAt(s, p, pos, r.value.0, r.value.1);
  }

  lemma NoSplit(s: string, pos: AbsAddress)
    requires !ParseFrom(s, 0, START).RangeExpected?
    ensures forall first, last :: !IsRangeA1(s, pos, first, last)
  {
    forall first, last, k | 0 <= k < |s| && SplitsAt(s, k, pos, first, last)
      ensures false
    {
      assert s == s[..k] + ":" + s[k + 1..];
      ValidHasNoColon(s[..k], 0, START);
      FirstCornerExactly(s[..k], s[k + 1..], ParseFrom(s[..k], 0, START).a);
    }
  }

  /** A corner as it is printed: an unset column or row is left out. */
  function CornerText(a: RefAddress, pos: AbsAddress): string
    requires a.column != COLUMN_UNSET ==> AbsoluteColumn(a, pos) >= 0
  {
    (if a.column == COLUMN_UNSET then "" else Dollar(a.absColumn) + ColumnName(AbsoluteColumn(a, pos)))
    + (if a.row == ROW_UNSET then "" else Dollar(a.absRow) + Printed(AbsoluteRow(a, pos) + 1))
  }

  predicate OnSheet(a: RefAddress, pos: AbsAddress) {
    && (a.column != COLUMN_UNSET ==> AbsoluteColumn(a, pos) >= 0)
    && (a.row != ROW_UNSET ==> 0 <= AbsoluteRow(a, pos) <= ROW_UPPER_BOUND)
  }

  lemma CornerHasNoColon(a: RefAddress, pos: AbsAddress)
    requires OnSheet(a, pos)
    ensures NoColon(CornerText(a, pos), 0, |CornerText(a, pos)|)
  {
  }

  /** A column has to be within the bound of the parser; the $ of a whole row is
      taken for that of the column. */
  predicate CornerReadsBack(a: RefAddress, pos: AbsAddress) {
    if a.column == COLUMN_UNSET then !a.absRow && a.row != ROW_UNSET
    else AbsoluteColumn(a, pos) + 1 <= COLUMN_UPPER_BOUND
  }

  lemma CornerParses(a: RefAddress, pos: AbsAddress)
    requires OnSheet(a, pos)
    ensures var r := ParseFrom(CornerText(a, pos), 0, START);
      r.ValidAddress? && ToRelative(r.a, pos) == Normalised(a) <==> CornerReadsBack(a, pos)
  {
    var s := CornerText(a, pos);
    if a.column == COLUMN_UNSET {
      if a.row != ROW_UNSET {
        WholeRowParses(s, AbsoluteRow(a, pos), a.absRow);
      }
    } else if a.row == ROW_UNSET {
      var col := AbsoluteColumn(a, pos);
      assert s == Dollar(a.absColumn) + ColumnName(col);
      WholeColumnParses(s, col, a.absColumn);
    } else {
      ParsePrinted(a, pos);
      assert s == PrintAddressA1(a, pos);
    }
  }

  lemma WholeRowParses(s: string, row: nat, abs: bool)
    requires s == Dollar(abs) + Digits(row + 1) && row <= ROW_UPPER_BOUND
    ensures ParseFrom(s, 0, START) == ValidAddress(RefAddress(row, COLUMN_UNSET, false, abs))
  {
    var k := |Dollar(abs)|;
    assert s[0..k] == Dollar(abs) && s[k..] == Digits(row + 1);
    ScanDollar(s, 0, abs, START);
    ScanRow(s, k, row + 1, if abs then START.(absColumn := true) else START);
  }

  lemma WholeColumnParses(s: string, col: nat, abs: bool)
    requires s == Dollar(abs) + ColumnName(col)
    ensures ParseFrom(s, 0, START) ==
      if col + 1 <= COLUMN_UPPER_BOUND then ValidAddress(RefAddress(ROW_UNSET, col, false, abs)) else Invalid
  {
    assert s[..|Dollar(abs)|] == Dollar(abs) && s[|Dollar(abs)|..|s|] == ColumnName(col);
    ScanColumn(s, col, abs, |s|);
  }

  /** A range printed with its corners around a colon is read back, corner by
      corner, exactly when both columns are within the bound and no $ stands
      before a whole row. */
  lemma RangeA1RoundTripExactly(first: RefAddress, last: RefAddress, pos: AbsAddress)
    requires OnSheet(first, pos) && OnSheet(last, pos)
    ensures var text := CornerText(first, pos) + ":" + CornerText(last, pos);
      IsRangeA1(text, pos, Normalised(first), Normalised(last)) <==>
      CornerReadsBack(first, pos) && CornerReadsBack(last, pos)
  {
    var x, y := CornerText(first, pos), CornerText(last, pos);
    var s, k := x + ":" + y, |x|;
    assert s[k] == ':' && s[..k] == x && s[k + 1..] == y;
    CornerHasNoColon(first, pos);
    CornerParses(first, pos);
    CornerParses(last, pos);
    if m :| 0 <= m < |s| && SplitsAt(s, m, pos, Normalised(first), Normalised(last)) {
      FirstColonSplits(s, k, m, pos, Normalised(first), Normalised(last));
    }
    if CornerReadsBack(first, pos) && CornerReadsBack(last, pos) {
      assert SplitsAt(s, k, pos, Normalised(first), Normalised(last));
    }
  }

  /** The text A1:B2. */
  lemma CornersReadOff()
    ensures IsRangeA1("A1:B2", AbsAddress(0, 0, 0), RefAddress(0, 0, false, false), RefAddress(1, 1, false, false))
  {
    var pos, a, b := AbsAddress(0, 0, 0), RefAddress(0, 0, false, false), RefAddress(1, 1, false, false);
    assert CornerText(a, pos) == "A1" && CornerText(b, pos) == "B2";
    RangeA1RoundTripExactly(a, b, pos);
    assert "A1" + ":" + "B2" == "A1:B2";
  }

  /** The rows of $1:$2 become relative. */
  lemma WholeRowsBecomeRelative()
    ensures IsRangeA1("$1:$2", AbsAddress(0, 0, 0), RefAddress(0, COLUMN_UNSET, false, true),
              RefAddress(1, COLUMN_UNSET, false, true))
  {
    var pos, t := AbsAddress(0, 0, 0), "$1:$2";
    var x, y := t[..2], t[3..];
    assert x == Dollar(true) + Digits(1) && y == Dollar(true) + Digits(2);
    WholeRowParses(x, 0, true);
    WholeRowParses(y, 1, true);
    assert SplitsAt(t, 2, pos, RefAddress(0, COLUMN_UNSET, false, true), RefAddress(1, COLUMN_UNSET, false, true));
  }

  // ---- R1C1 notation ----

  function RangeR1C1(s: string): Option<(RefAddress, RefAddress)> {
    if s == [] then None else
      match ParseR1C1(s)
      case RangeFollows(first, p) =>
        if p + 1 >= |s| then None else
          (match ParseR1C1(s[p + 1..])
           case Accepted(last) => Some((first, last))
           case _ => None)
      case _ => None
  }

  method ReadRangeR1C1(s: string) returns (r: Option<(RefAddress, RefAddress)>)
    ensures r == RangeR1C1(s)
  {
    if |s| == 0 {
      return None;
    }
    var x := ParseAddressR1C1(s);
    if !x.RangeFollows? || x.p + 1 >= |s| {
      return None;
    }
    var y := ParseAddressR1C1(s[x.p + 1..]);
    r := if y.Accepted? then Some((x.a, y.a)) else None;
  }

  lemma NumberBeforeColon(s: string, t: string, i: nat)
    requires i < |s|
    ensures NumberAt(s + ":" + t, i) == NumberAt(s, i)
  {
    var u := s + ":" + t;
    var p := if IsPlusMinus(s[i]) then i + 1 else i;
    var end := DigitsEnd(s, p);
    DigitsEndAt(u, p, end);
    assert u[p..end] == s[p..end];
  }

  lemma ColumnBeforeColon(s: string, t: string, p: nat, row: int, absRow: bool)
    requires t != "" && ParseColumn(s, p, row, absRow).Accepted?
    ensures ParseColumn(s + ":" + t, p, row, absRow) == RangeFollows(ParseColumn(s, p, row, absRow).a, |s|)
  {
    var u := s + ":" + t;
    assert u[..|s|] == s && u[|s|] == ':';
    assert u[p] == s[p];
    if p + 1 < |s| {
      assert u[p + 1] == s[p + 1];
      if s[p + 1] == '[' {
        RelativeColumnBeforeColon(s, t, p, row, absRow);
      } else {
        NumberBeforeColon(s, t, p + 1);
      }
    }
  }

  lemma RelativeColumnBeforeColon(s: string, t: string, p: nat, row: int, absRow: bool)
    requires t != "" && p + 1 < |s| && s[p + 1] == '[' && ParseColumn(s, p, row, absRow).Accepted?
    ensures ParseColumn(s + ":" + t, p, row, absRow) == RangeFollows(ParseColumn(s, p, row, absRow).a, |s|)
  {
    var u := s + ":" + t;
    assert u[..|s|] == s && u[|s|] == ':';
    assert u[p] == s[p] && u[p + 1] == s[p + 1];
    NumberBeforeColon(s, t, p + 2);
    assert u[p + 2] == s[p + 2];
  }

  lemma RowBeforeColon(s: string, t: string)
    requires |s| > 0 && t != ""
    ensures ParseRow(s).GoOn? ==> ParseRow(s + ":" + t) == ParseRow(s)
    ensures var r := ParseRow(s);
      r.Settled? && r.r.Accepted? ==>
      && ParseRow(s + ":" + t) == GoOn(|s|, r.r.a.row, r.r.a.absRow)
      && r.r.a.column == COLUMN_UNSET && !r.r.a.absColumn
  {
    var u := s + ":" + t;
    assert u[..|s|] == s && u[|s|] == ':';
    if 1 < |s| {
      NumberBeforeColon(s, t, 1);
    }
    if 2 < |s| {
      NumberBeforeColon(s, t, 2);
    }
  }

  /** Before a colon every accepted text is read as the address it is alone. */
  lemma AcceptedBeforeColon(s: string, t: string, a: RefAddress)
    requires |s| > 0 && t != "" && ParseR1C1(s) == Accepted(a)
    ensures ParseR1C1(s + ":" + t) == RangeFollows(a, |s|)
  {
    var u := s + ":" + t;
    RowBeforeColon(s, t);
    match ParseRow(s)
    case Settled(_) =>
      assert u[|s|] == ':';
    case GoOn(p, row, absRow) => ColumnBeforeColon(s, t, p, row, absRow);
  }

  /** The corners that are refused alone: before a colon C and RC are read as
      what they are, and R as the absolute first row. */
  lemma ShortBeforeColon(t: string)
    requires t != ""
    ensures ParseR1C1("R" + ":" + t) == RangeFollows(RefAddress(0, COLUMN_UNSET, true, false), 1)
    ensures ParseR1C1("C" + ":" + t) == RangeFollows(RefAddress(ROW_UNSET, 0, false, false), 1)
    ensures ParseR1C1("RC" + ":" + t) == RangeFollows(RefAddress(0, 0, false, false), 2)
    ensures ParseR1C1("" + ":" + t) == RangeFollows(RefAddress(ROW_UNSET, COLUMN_UNSET, false, false), 0)
  {
  }

  predicate Printable(a: RefAddress) {
    (a.row != ROW_UNSET ==> InRange(a.row, a.absRow)) && (a.column != COLUMN_UNSET ==> InRange(a.column, a.absColumn))
  }

  lemma FirstCornerR1C1(a: RefAddress, t: string)
    requires Printable(a) && t != ""
    ensures var s := PrintR1C1(a);
      var r := ParseR1C1(s + ":" + t);
      r.RangeFollows? && r.p == |s| && (r.a == Normalised(a) <==> s != "R")
  {
    var s := PrintR1C1(a);
    PrintedShort(a);
    if s in {"R", "C", "RC", ""} {
      ShortBeforeColon(t);
    } else {
      R1C1RoundTripExactly(a);
      AcceptedBeforeColon(s, t, Normalised(a));
    }
  }

  /** A range printed with its corners around a colon is read back, corner by
      corner, exactly when the first is not printed as R, nor the last as R, C,
      RC or nothing. */
  lemma RangeR1C1RoundTripExactly(first: RefAddress, last: RefAddress)
    requires Printable(first) && Printable(last)
    ensures RangeR1C1(PrintR1C1(first) + ":" + PrintR1C1(last)) == Some((Normalised(first), Normalised(last))) <==>
      PrintR1C1(first) != "R" && PrintR1C1(last) !in {"", "R", "C", "RC"}
  {
    var x, y := PrintR1C1(first), PrintR1C1(last);
    var s := x + ":" + y;
    if y == "" {
      NothingAfterColon(s);
    } else {
      assert s[|x| + 1..] == y;
      FirstCornerR1C1(first, y);
      PrintedShort(last);
      R1C1RoundTripExactly(last);
    }
  }

  lemma AcceptedEndsOtherwise(s: string)
    requires s != "" && ParseR1C1(s).Accepted?
    ensures s[|s| - 1] != ':'
  {
  }

  lemma NothingAfterColon(s: string)
    requires s != "" && s[|s| - 1] == ':'
    ensures RangeR1C1(s).None?
  {
    var r := ParseR1C1(s);
    if r.RangeFollows? && r.p + 1 < |s| {
      var rest := s[r.p + 1..];
      assert rest[|rest| - 1] == ':';
      if ParseR1C1(rest).Accepted? {
        AcceptedEndsOtherwise(rest);
      }
    }
  }
}
