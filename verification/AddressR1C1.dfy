/** Cell addresses in R1C1 notation. */
module AddressR1C1 {
  import opened Address
  import opened Decimal
  import opened AddressA1

  // ---- numbers ----

  predicate IsPlusMinus(c: char) {
    c == '+' || c == '-'
  }

  /** Position of the first character from i on that is no digit. */
  function DigitsEnd(s: string, i: nat): (j: nat)
    requires i <= |s|
    ensures i <= j <= |s| && (forall k :: i <= k < j ==> IsDigit(s[k])) && (j < |s| ==> !IsDigit(s[j]))
    decreases |s| - i
  {
    if i < |s| && IsDigit(s[i]) then DigitsEnd(s, i + 1) else i
  }

  /** The number at i, with an optional sign, and the position after it. */
  function NumberAt(s: string, i: nat): (r: (int, nat))
    requires i < |s|
    ensures i <= r.1 <= |s|
  {
    var p := if IsPlusMinus(s[i]) then i + 1 else i;
    var end := DigitsEnd(s, p);
    var n := ReadDigits(0, s[p..end]);
    (if s[i] == '-' then -n else n, end)
  }

  lemma ReadOneMore(s: string, start: nat, p: nat)
    requires start <= p < |s|
    ensures ReadDigits(0, s[start..p + 1]) == ReadDigits(0, s[start..p]) * 10 + DigitValue(s[p])
  {
    ReadDigitsAppend(0, s[start..p], s[p]);
    assert s[start..p + 1] == s[start..p] + [s[p]];
  }

  method ParseNumber(s: string, i: nat) returns (num: int, p: nat)
    requires i < |s|
    ensures (num, p) == NumberAt(s, i)
  {
    num, p := 0, i;
    var sign := false;
    if s[p] == '+' {
      p := p + 1;
    } else if s[p] == '-' {
      p, sign := p + 1, true;
    }
    var start := p;
    while p < |s| && IsDigit(s[p])
      invariant start <= p <= |s|
      invariant DigitsEnd(s, start) == DigitsEnd(s, p)
      invariant num == ReadDigits(0, s[start..p])
    {
      ReadOneMore(s, start, p);
      num := num * 10 + DigitValue(s[p]);
      p := p + 1;
    }
    if sign {
      num := -num;
    }
  }

  predicate Fits(n: int) {
    -INT32_MAX <= n <= INT32_MAX
  }

  // ---- addresses ----

  /** PastEnd stands for reading a character after the last one; a range follows
      after the colon at p. */
  datatype R1C1Result = Refused | Accepted(a: RefAddress) | RangeFollows(a: RefAddress, p: nat) | TooLarge | PastEnd

  /** The row part either settles the matter or leaves a position to go on from. */
  datatype RowPart = Settled(r: R1C1Result) | GoOn(p: nat, row: int, absRow: bool)

  predicate IsR(c: char) {
    c == 'R' || c == 'r'
  }

  predicate IsC(c: char) {
    c == 'C' || c == 'c'
  }

  function ParseRow(s: string): RowPart
    requires |s| > 0
  {
    if !IsR(s[0]) then GoOn(0, ROW_UNSET, false)
    else if |s| == 1 then Settled(Refused)
    else if IsC(s[1]) then GoOn(1, 0, false)
    else if s[1] == '[' then
      if |s| == 2 then Settled(PastEnd)
      else if !IsDigit(s[2]) && !IsPlusMinus(s[2]) then Settled(Refused)
      else
        var (row, p) := NumberAt(s, 2);
        if !Fits(row) then Settled(TooLarge)
        else if p + 1 == |s|
          then Settled(if s[p] == ']' then Accepted(RefAddress(row, COLUMN_UNSET, false, false)) else Refused)
        else GoOn(p + 1, row, false)
    else if IsDigit(s[1]) then
      var (row, p) := NumberAt(s, 1);
      if !Fits(row) then Settled(TooLarge)
      else if row <= 0 then Settled(Refused)
      else if p == |s| then Settled(Accepted(RefAddress(row - 1, COLUMN_UNSET, true, false)))
      else GoOn(p, row - 1, true)
    else GoOn(1, 0, true)
  }

  /** What may follow a complete address. */
  function ParseEnd(s: string, p: nat, a: RefAddress): R1C1Result {
    if p >= |s| then PastEnd
    else if s[p] != ':' || p + 1 == |s| then Refused
    else RangeFollows(a, p)
  }

  function ParseColumn(s: string, p: nat, row: int, absRow: bool): R1C1Result {
    if p >= |s| then PastEnd
    else if !IsC(s[p]) then ParseEnd(s, p, RefAddress(row, COLUMN_UNSET, absRow, false))
    else if p + 1 == |s| then
      if row == ROW_UNSET || (!absRow && row == 0) then Refused else Accepted(RefAddress(row, 0, absRow, false))
    else if s[p + 1] == '[' then
      if p + 2 == |s| || (!IsDigit(s[p + 2]) && !IsPlusMinus(s[p + 2])) then Refused
      else
        var (column, q) := NumberAt(s, p + 2);
        if !Fits(column) then TooLarge
        else if q + 1 == |s| then (if s[q] == ']' then Accepted(RefAddress(row, column, absRow, false)) else Refused)
        else ParseEnd(s, q + 1, RefAddress(row, column, absRow, false))
    else if IsDigit(s[p + 1]) then
      var (column, q) := NumberAt(s, p + 1);
      if !Fits(column) then TooLarge
      else if column <= 0 then Refused
      else if q == |s| then Accepted(RefAddress(row, column - 1, absRow, true))
      else ParseEnd(s, q, RefAddress(row, column - 1, absRow, true))
    else ParseEnd(s, p + 1, RefAddress(row, 0, absRow, false))
  }

  function ParseR1C1(s: string): R1C1Result
    requires |s| > 0
  {
    match ParseRow(s)
    case Settled(r) => r
    case GoOn(p, row, absRow) => ParseColumn(s, p, row, absRow)
  }

  /** The cursor moves over the text and the address is filled in on the way. */
  method ParseAddressR1C1(s: string) returns (r: R1C1Result)
    requires |s| > 0
    ensures r == ParseR1C1(s)
  {
    var p, addr := 0, RefAddress(ROW_UNSET, COLUMN_UNSET, false, false);
    if IsR(s[p]) {
      addr, p := addr.(row := 0), p + 1;
      if p == |s| {
        return Refused;
      }
      if !IsC(s[p]) {
        addr := addr.(absRow := s[p] != '[');
        var part := ParseAddressRow(s, p, addr);
        if part.Settled? {
          return part.r;
        }
        p, addr := part.p, addr.(row := part.row);
      }
    }
    r := ParseAddressColumn(s, p, addr);
  }

  /** What follows an R that is not followed by a C. */
  method ParseAddressRow(s: string, start: nat, partial: RefAddress) returns (part: RowPart)
    requires start == 1 < |s| && IsR(s[0]) && !IsC(s[1])
    requires partial == RefAddress(0, COLUMN_UNSET, s[1] != '[', false)
    ensures part == ParseRow(s)
  {
    var p, addr := start, partial;
    if !addr.absRow {
      p := p + 1;
      if p == |s| {
        return Settled(PastEnd);
      }
      if !IsDigit(s[p]) && !IsPlusMinus(s[p]) {
        return Settled(Refused);
      }
      var num;
      num, p := ParseNumber(s, p);
      addr := addr.(row := num);
      if !Fits(addr.row) {
        return Settled(TooLarge);
      }
      if p + 1 == |s| {
        return Settled(if s[p] == ']' then Accepted(addr) else Refused);
      }
      p := p + 1;
    } else if IsDigit(s[p]) {
      var num;
      num, p := ParseNumber(s, p);
      addr := addr.(row := num);
      if !Fits(addr.row) {
        return Settled(TooLarge);
      }
      if addr.row <= 0 {
        return Settled(Refused);
      }
      addr := addr.(row := addr.row - 1);
      if p == |s| {
        return Settled(Accepted(addr));
      }
    }
    part := GoOn(p, addr.row, addr.absRow);
  }

  method ParseAddressColumn(s: string, start: nat, partial: RefAddress) returns (r: R1C1Result)
    requires partial.column == COLUMN_UNSET && !partial.absColumn
    ensures r == ParseColumn(s, start, partial.row, partial.absRow)
  {
    var p, addr := start, partial;
    if p >= |s| {
      return PastEnd;
    }
    if IsC(s[p]) {
      addr, p := addr.(column := 0), p + 1;
      if p == |s| {
        return if addr.row == ROW_UNSET || (!addr.absRow && addr.row == 0) then Refused else Accepted(addr);
      }
      if s[p] == '[' {
        p := p + 1;
        if p == |s| || (!IsDigit(s[p]) && !IsPlusMinus(s[p])) {
          return Refused;
        }
        var num;
        num, p := ParseNumber(s, p);
        addr := addr.(column := num);
        if !Fits(addr.column) {
          return TooLarge;
        }
        if p + 1 == |s| {
          return if s[p] == ']' then Accepted(addr) else Refused;
        }
        p := p + 1;
      } else if IsDigit(s[p]) {
        var num;
        num, p := ParseNumber(s, p);
        addr := addr.(absColumn := true, column := num);
        if !Fits(addr.column) {
          return TooLarge;
        }
        if addr.column <= 0 {
          return Refused;
        }
        addr := addr.(column := addr.column - 1);
        if p == |s| {
          return Accepted(addr);
        }
      }
    }
    r := if p >= |s| then PastEnd
         else if s[p] == ':' then (if p + 1 == |s| then Refused else RangeFollows(addr, p))
         else Refused;
  }

  function Bracketed(n: int): string {
    if n == 0 then "" else "[" + Printed(n) + "]"
  }

  /** append_address_r1c1 */
  function RowText(a: RefAddress): string {
    if a.row == ROW_UNSET then "" else "R" + if a.absRow then Printed(a.row + 1) else Bracketed(a.row)
  }

  function ColumnText(a: RefAddress): string {
    if a.column == COLUMN_UNSET then "" else "C" + if a.absColumn then Printed(a.column + 1) else Bracketed(a.column)
  }

  function PrintR1C1(a: RefAddress): string {
    RowText(a) + ColumnText(a)
  }

  /** An unset part has no flag of its own. */
  function Normalised(a: RefAddress): RefAddress {
    a.(absRow := a.absRow && a.row != ROW_UNSET, absColumn := a.absColumn && a.column != COLUMN_UNSET)
  }

  predicate InRange(n: int, abs: bool) {
    if abs then 0 <= n < INT32_MAX else Fits(n)
  }

  lemma PrintedParses(s: string, i: nat, n: int)
    requires i + |Printed(n)| <= |s| && s[i..i + |Printed(n)|] == Printed(n)
    requires i + |Printed(n)| < |s| ==> !IsDigit(s[i + |Printed(n)|])
    ensures i < |s| && NumberAt(s, i) == (n, i + |Printed(n)|)
    ensures n < 0 ==> s[i] == '-'
    ensures n >= 0 ==> IsDigit(s[i])
  {
    var text, end := Printed(n), i + |Printed(n)|;
    var p := if n < 0 then i + 1 else i;
    var digits := if n < 0 then Digits(-n) else Digits(n);
    assert s[i] == text[0];
    assert s[p..end] == digits by {
      assert text[p - i..] == digits;
      assert s[p..end] == s[i..end][p - i..];
    }
    forall k | p <= k < end
      ensures IsDigit(s[k])
    {
      assert s[k] == s[p..end][k - p];
    }
    DigitsEndAt(s, p, end);
    ReadPrinted(if n < 0 then -n else n);
  }

  lemma {:induction false} DigitsEndAt(s: string, p: nat, end: nat)
    requires p <= end <= |s| && (forall k :: p <= k < end ==> IsDigit(s[k])) && (end < |s| ==> !IsDigit(s[end]))
    ensures DigitsEnd(s, p) == end
    decreases end - p
  {
    if p == end {
    } else {
      DigitsEndAt(s, p + 1, end);
    }
  }

  /** Where the pieces of a text stand in a longer one. */
  lemma PiecesStand(s: string, p: nat, before: string, num: string, after: string)
    requires p + |before| + |num| + |after| <= |s|
    requires s[p..p + |before| + |num| + |after|] == before + num + after
    ensures var i := p + |before|;
      && s[p..i] == before
      && s[i..i + |num|] == num
      && s[i + |num|..i + |num| + |after|] == after
  {
    var t, n := s[p..p + |before| + |num| + |after|], |before|;
    assert t[..n] == before && t[n..n + |num|] == num && t[n + |num|..] == after;
    assert forall k :: p <= k < p + |t| ==> s[k] == t[k - p];
  }

  /** The column part, wherever it stands. */
  lemma ColumnParses(s: string, p: nat, a: RefAddress)
    requires p <= |s| && s[p..] == ColumnText(a) && a.column != COLUMN_UNSET && InRange(a.column, a.absColumn)
    ensures ParseColumn(s, p, a.row, a.absRow) ==
      if !a.absColumn && a.column == 0 && (a.row == ROW_UNSET || (!a.absRow && a.row == 0)) then Refused
      else Accepted(a)
  {
    assert s[p..|s|] == s[p..];
    assert s[p] == s[p..][0];
    if a.absColumn {
      AbsoluteColumnParses(s, p, a);
    } else if a.column != 0 {
      RelativeColumnParses(s, p, a);
    }
  }

  lemma AbsoluteColumnParses(s: string, p: nat, a: RefAddress)
    requires p < |s| && s[p..|s|] == "C" + Printed(a.column + 1) && a.absColumn && 0 <= a.column < INT32_MAX
    ensures ParseColumn(s, p, a.row, a.absRow) == Accepted(a)
  {
    var num := Printed(a.column + 1);
    assert "C" + num == "C" + num + "";
    PiecesStand(s, p, "C", num, "");
    assert s[p] == s[p..p + 1][0];
    PrintedParses(s, p + 1, a.column + 1);
  }

  lemma RelativeColumnParses(s: string, p: nat, a: RefAddress)
    requires p < |s| && s[p..|s|] == "C" + ("[" + Printed(a.column) + "]") && !a.absColumn && Fits(a.column)
    ensures ParseColumn(s, p, a.row, a.absRow) == Accepted(a)
  {
    var num := Printed(a.column);
    assert "C" + ("[" + num + "]") == "C[" + num + "]";
    PiecesStand(s, p, "C[", num, "]");
    assert s[p] == s[p..p + 2][0] && s[p + 1] == s[p..p + 2][1];
    assert s[p + 2 + |num|] == s[p + 2 + |num|..p + 2 + |num| + 1][0];
    PrintedParses(s, p + 2, a.column);
  }

  /** The row part, and what is left to read after it. */
  lemma RowParses(s: string, a: RefAddress)
    requires s == RowText(a) + ColumnText(a) && a.row != ROW_UNSET && InRange(a.row, a.absRow)
    ensures |s| > 0
    ensures a.column == COLUMN_UNSET ==>
      ParseRow(s) == Settled(if !a.absRow && a.row == 0 then Refused else Accepted(Normalised(a)))
    ensures a.column != COLUMN_UNSET ==> ParseRow(s) == GoOn(|RowText(a)|, a.row, a.absRow)
  {
    var t, u := RowText(a), ColumnText(a);
    assert s[0..|t|] == t;
    assert u != [] ==> s[|t|] == u[0] == 'C';
    if a.absRow {
      AbsoluteRowParses(s, |t|, a);
    } else if a.row != 0 {
      RelativeRowParses(s, |t|, a);
    }
  }

  lemma AbsoluteRowParses(s: string, n: nat, a: RefAddress)
    requires 0 < n <= |s| && s[0..n] == "R" + Printed(a.row + 1) && a.absRow && 0 <= a.row < INT32_MAX
    requires n < |s| ==> s[n] == 'C'
    ensures ParseRow(s) ==
      if n == |s| then Settled(Accepted(RefAddress(a.row, COLUMN_UNSET, true, false))) else GoOn(n, a.row, true)
  {
    var num := Printed(a.row + 1);
    assert "R" + num == "R" + num + "";
    PiecesStand(s, 0, "R", num, "");
    assert s[0] == s[0..1][0];
    PrintedParses(s, 1, a.row + 1);
  }

  lemma RelativeRowParses(s: string, n: nat, a: RefAddress)
    requires 0 < n <= |s| && s[0..n] == "R" + ("[" + Printed(a.row) + "]") && !a.absRow && Fits(a.row)
    ensures ParseRow(s) ==
      if n == |s| then Settled(Accepted(RefAddress(a.row, COLUMN_UNSET, false, false))) else GoOn(n, a.row, false)
  {
    var num := Printed(a.row);
    assert "R" + ("[" + num + "]") == "R[" + num + "]";
    PiecesStand(s, 0, "R[", num, "]");
    assert s[0] == s[0..2][0] && s[1] == s[0..2][1];
    assert s[2 + |num|] == s[2 + |num|..2 + |num| + 1][0];
    PrintedParses(s, 2, a.row);
  }

  /** Printing and parsing gives every address back, up to the flags of unset
      parts, exactly when it is not printed as R, C or RC. */
  lemma R1C1RoundTripExactly(a: RefAddress)
    requires a.row != ROW_UNSET ==> InRange(a.row, a.absRow)
    requires a.column != COLUMN_UNSET ==> InRange(a.column, a.absColumn)
    requires a.row != ROW_UNSET || a.column != COLUMN_UNSET
    ensures |PrintR1C1(a)| > 0
    ensures ParseR1C1(PrintR1C1(a)) == Accepted(Normalised(a)) <==> PrintR1C1(a) !in {"R", "C", "RC"}
  {
    var s := PrintR1C1(a);
    if a.row == ROW_UNSET {
      assert s == ColumnText(a) && s[0..] == s;
      ColumnParses(s, 0, Normalised(a));
    } else {
      RowParses(s, a);
      if a.column != COLUMN_UNSET {
        assert s[|RowText(a)|..] == ColumnText(a);
        ColumnParses(s, |RowText(a)|, a);
      }
    }
    PrintedShort(a);
  }

  lemma PrintedShort(a: RefAddress)
    ensures PrintR1C1(a) == "R" <==> a.row == 0 && !a.absRow && a.column == COLUMN_UNSET
    ensures PrintR1C1(a) == "C" <==> a.row == ROW_UNSET && a.column == 0 && !a.absColumn
    ensures PrintR1C1(a) == "RC" <==> a.row == 0 && !a.absRow && a.column == 0 && !a.absColumn
  {
    var t, u := RowText(a), ColumnText(a);
    assert t == [] <==> a.row == ROW_UNSET;
    assert u == [] <==> a.column == COLUMN_UNSET;
    assert t != [] ==> t[0] == 'R' && (|t| == 1 <==> a.row == 0 && !a.absRow);
    assert u != [] ==> u[0] == 'C' && (|u| == 1 <==> a.column == 0 && !a.absColumn);
    if |t| >= 2 {
      SecondIsNoLetter(a);
      assert (t + u)[1] == t[1];
    } else if |t| == 1 {
      assert t == "R";
      assert u != [] ==> (t + u)[1] == 'C' && |t + u| == 1 + |u|;
      assert |u| == 1 ==> u == "C";
    } else {
      assert t + u == u;
      assert |u| == 1 ==> u == "C";
    }
  }

  lemma SecondIsNoLetter(a: RefAddress)
    requires |RowText(a)| >= 2
    ensures RowText(a)[1] != 'C'
  {
    var text := if a.absRow then Printed(a.row + 1) else Bracketed(a.row);
    assert RowText(a) == "R" + text && RowText(a)[1] == text[0];
  }

  /** Whatever text the parser accepts, the address is in range. */
  lemma AcceptedInRange(s: string, a: RefAddress)
    requires |s| > 0 && ParseR1C1(s) == Accepted(a)
    ensures InRange(a.row, a.absRow) && InRange(a.column, a.absColumn)
  {
    match ParseRow(s)
    case Settled(_) =>
    case GoOn(p, row, absRow) =>
      assert InRange(row, absRow);
  }

  /** Every accepted text denotes an address that is read back from its printed
      form, unless that is R, C, RC or nothing: R[0] is accepted, but printed
      as R.  Nothing is printed when the numbers given are those that stand
      for unset parts. */
  lemma AcceptedReadsBackExactly(s: string, a: RefAddress)
    requires |s| > 0 && ParseR1C1(s) == Accepted(a)
    ensures var t := PrintR1C1(a);
      (t != "" && ParseR1C1(t) == Accepted(Normalised(a))) <==> t !in {"", "R", "C", "RC"}
  {
    AcceptedInRange(s, a);
    if a.row != ROW_UNSET || a.column != COLUMN_UNSET {
      R1C1RoundTripExactly(a);
    }
  }
}
