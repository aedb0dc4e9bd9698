/** The spreadsheet as the server reads and writes it: tables of rows of cell
    texts, the JavaScript readings the handlers apply to a cell, the integer
    parse behind `parseInt(x) || 0`, the single-cell write, and the header-
    skipping row search that every handler uses. */
module SheetData {

  datatype Option<+T> = None | Some(value: T)

  datatype Result<+T, +E> = Ok(value: T) | Err(error: E)

  /** A row as a values read returns it: one text per column, up to the last
      non-empty cell of the row. */
  type Row = seq<string>

  /** The rows of one sheet range; row 0 is the header. The empty table is
      the read whose response carries no `values` at all. */
  type Table = seq<Row>

  // Columns of the student sheet (Sheet1).
  const IdColumn: nat := 0        // A
  const NameColumn: nat := 1      // B
  const PasswordColumn: nat := 4  // E
  const HomeworkColumn: nat := 5  // F
  const CoinsColumn: nat := 6     // G
  const AttendanceColumn: nat := 7  // H
  const BadgeCountColumn: nat := 8  // I
  const PointsColumn: nat := 9    // J

  // Columns of the badge sheet (Badges).
  const BadgeNameColumn: nat := 0   // A
  const StockColumn: nat := 1       // B
  const CostColumn: nat := 2        // C

  // Columns of the purchase log (Purchases).
  const TimestampColumn: nat := 0   // A
  const BuyerColumn: nat := 1       // B
  const ItemColumn: nat := 2        // C
  const QuantityColumn: nat := 3    // D

  /** The row at index i; a row the table does not reach is empty. */
  function RowAt(t: Table, i: nat): Row {
    if i < |t| then t[i] else []
  }

  /** The text of a cell; a cell beyond the end of its row reads as "". */
  function Text(row: Row, col: nat): string {
    if col < |row| then row[col] else ""
  }

  /** `row[col] === s` */
  predicate CellIs(row: Row, col: nat, s: string) {
    col < |row| && row[col] == s
  }

  /** `row[col] || d`: a missing or empty cell gives the default. */
  function CellOr(row: Row, col: nat, d: string): string {
    if Text(row, col) != "" then Text(row, col) else d
  }

  /** `parseInt(row[col]) || 0` */
  function IntCell(row: Row, col: nat): int {
    ParseOr0(Text(row, col))
  }

  /** Comparing a cell with a non-empty text depends on the cell's text only. */
  lemma CellIsText(row: Row, col: nat, s: string)
    requires s != ""
    ensures CellIs(row, col, s) <==> Text(row, col) == s
  {
  }

  // ---------------------------------------------------------------------
  // Integers in cells

  predicate IsDigit(c: char) {
    '0' <= c <= '9'
  }

  predicate AllDigits(s: string) {
    forall i :: 0 <= i < |s| ==> IsDigit(s[i])
  }

  function DigitChar(d: nat): (c: char)
    requires d < 10
    ensures IsDigit(c)
  {
    ('0' as int + d) as char
  }

  /** The length of the run of decimal digits that starts s. */
  function DigitRun(s: string): (n: nat)
    ensures n <= |s|
    ensures forall i :: 0 <= i < n ==> IsDigit(s[i])
    ensures n < |s| ==> !IsDigit(s[n])
  {
    if |s| > 0 && IsDigit(s[0]) then 1 + DigitRun(s[1..]) else 0
  }

  /** The value of a string of decimal digits, most significant first. */
  function DigitsValue(s: string): nat
    requires AllDigits(s)
  {
    if |s| == 0 then 0
    else
      assert IsDigit(s[|s| - 1]);
      10 * DigitsValue(s[..|s| - 1]) + (s[|s| - 1] as int - '0' as int)
  }

  /** s without its leading sign character, if it has one. */
  function Unsigned(s: string): string {
    if |s| > 0 && (s[0] == '-' || s[0] == '+') then s[1..] else s
  }

  /** `parseInt(s)` on decimal text: an optional sign, then the longest run of
      digits; no digit at all is NaN, here None. */
  function ParseInt(s: string): (r: Option<int>)
    ensures r.None? <==> DigitRun(Unsigned(s)) == 0
    ensures r.Some? && s[0] == '-' ==> r.value <= 0
    ensures r.Some? && s[0] != '-' ==> r.value >= 0
  {
    var body := Unsigned(s);
    var n := DigitRun(body);
    var magnitude: int := if n == 0 then 0 else DigitsValue(body[..n]);
    if n == 0 then None
    else if s[0] == '-' then Some(-magnitude)
    else Some(magnitude)
  }

  /** `parseInt(s) || 0`: NaN, and so every text without digits, reads as 0. */
  function ParseOr0(s: string): (n: int)
    ensures DigitRun(Unsigned(s)) == 0 ==> n == 0
    ensures DigitRun(Unsigned(s)) > 0 ==> ParseInt(s) == Some(n)
  {
    match ParseInt(s)
    case Some(v) => v
    case None => 0
  }

  /** The decimal text of a natural number, as JavaScript prints it. */
  function NatToString(n: nat): (s: string)
    ensures |s| > 0 && AllDigits(s)
  {
    if n < 10 then [DigitChar(n)] else NatToString(n / 10) + [DigitChar(n % 10)]
  }

  /** The text a number written to a cell reads back as. */
  function IntToString(n: int): (s: string)
    ensures s != ""
  {
    if n < 0 then "-" + NatToString(-n) else NatToString(n)
  }

  lemma {:induction false} NatToStringValue(n: nat)
    ensures DigitsValue(NatToString(n)) == n
  {
    if n >= 10 {
      var s := NatToString(n);
      assert s[..|s| - 1] == NatToString(n / 10);
      NatToStringValue(n / 10);
    }
  }

  /** A number written to a cell parses back to itself, so a later
      `parseInt(cell) || 0` sees exactly the value written. */
  lemma ParseIntToString(n: int)
    ensures ParseInt(IntToString(n)) == Some(n)
    ensures ParseOr0(IntToString(n)) == n
  {
    var m: nat := if n < 0 then -n else n;
    var ds := NatToString(m);
    NatToStringValue(m);
    assert Unsigned(IntToString(n)) == ds;
    assert DigitRun(ds) == |ds|;
    assert ds[..|ds|] == ds;
  }

  function Pow10(k: nat): (p: nat)
    ensures p >= 1
  {
    if k == 0 then 1 else 10 * Pow10(k - 1)
  }

  /** A number with k digits prints as k digits, the first of them not 0. */
  lemma {:induction false} NatToStringLength(n: nat, k: nat)
    requires 1 <= k && Pow10(k - 1) <= n < Pow10(k)
    ensures |NatToString(n)| == k && NatToString(n)[0] != '0'
  {
    if k > 1 {
      assert Pow10(k - 1) == 10 * Pow10(k - 2);
      assert n >= 10;
      assert Pow10(k - 2) <= n / 10 < Pow10(k - 1);
      NatToStringLength(n / 10, k - 1);
    }
  }

  // ---------------------------------------------------------------------
  // Text written with valueInputOption USER_ENTERED

  /** A run of decimal digits without its leading zeros, keeping at least
      one digit. */
  function StripZeros(s: string): (r: string)
    requires s != "" && AllDigits(s)
    ensures r != "" && AllDigits(r) && |r| <= |s|
    ensures r == s <==> !(|s| > 1 && s[0] == '0')
    ensures |r| == 1 || r[0] != '0'
  {
    if |s| > 1 && s[0] == '0' then StripZeros(s[1..]) else s
  }

  /** What a later read shows for text written with USER_ENTERED. The sheet
      parses such text as its own input box would. The model covers the case
      the handlers meet: a run of decimal digits is stored as a number, and
      that number is shown without leading zeros. Other text is kept. */
  function UserEntered(s: string): (shown: string)
    ensures |shown| <= |s|
  {
    if s != "" && AllDigits(s) then StripZeros(s) else s
  }

  /** The texts USER_ENTERED keeps exactly as given. */
  predicate KeptAsText(s: string) {
    !(|s| > 1 && s[0] == '0' && AllDigits(s))
  }

  /** USER_ENTERED changes a text exactly when it is a run of two or more
      digits starting with 0, and then shortens it. */
  lemma UserEnteredChanges(s: string)
    ensures UserEntered(s) == s <==> KeptAsText(s)
    ensures !KeptAsText(s) ==> |UserEntered(s)| < |s|
  {
  }

  /** A leading zero adds nothing to the value of a digit string. */
  lemma {:induction false} LeadingZeroValue(t: string)
    requires AllDigits(t)
    ensures AllDigits("0" + t) && DigitsValue("0" + t) == DigitsValue(t)
  {
    var s := "0" + t;
    if |t| > 0 {
      assert s[..|s| - 1] == "0" + t[..|t| - 1];
      assert s[|s| - 1] == t[|t| - 1];
      LeadingZeroValue(t[..|t| - 1]);
    } else {
      assert s[..|s| - 1] == "";
    }
  }

  /** The number USER_ENTERED stores for a digit string is the number the
      text denotes: `parseInt` of what is shown is `parseInt` of what was
      written. */
  lemma {:induction false} UserEnteredKeepsNumber(s: string)
    requires s != "" && AllDigits(s)
    ensures ParseInt(UserEntered(s)) == ParseInt(s)
  {
    if |s| > 1 && s[0] == '0' {
      assert s == "0" + s[1..];
      LeadingZeroValue(s[1..]);
      UserEnteredKeepsNumber(s[1..]);
      assert ParseInt(s) == Some(DigitsValue(s)) by { DigitsParse(s); }
      assert ParseInt(s[1..]) == Some(DigitsValue(s[1..])) by { DigitsParse(s[1..]); }
    }
  }

  /** `parseInt` of a digit string is its value. */
  lemma DigitsParse(s: string)
    requires s != "" && AllDigits(s)
    ensures ParseInt(s) == Some(DigitsValue(s))
  {
    assert Unsigned(s) == s;
    assert DigitRun(s) == |s| by { DigitRunAll(s); }
    assert s[..|s|] == s;
  }

  lemma {:induction false} DigitRunAll(s: string)
    requires AllDigits(s)
    ensures DigitRun(s) == |s|
  {
    if |s| > 0 {
      DigitRunAll(s[1..]);
    }
  }

  // ---------------------------------------------------------------------
  // Writing one cell

  /** `row` extended with empty cells to at least n cells. */
  function Pad(row: Row, n: nat): (r: Row)
    ensures |r| == if |row| < n then n else |row|
    ensures forall j :: 0 <= j < |r| ==> r[j] == Text(row, j)
  {
    if |row| < n then row + seq(n - |row|, _ => "") else row
  }

  /** A values update of the single cell at 0-based row r and column c. The
      store grows the table as needed: rows it did not reach read back empty,
      and cells left of c that the row did not reach read back as "". This
      holds inside the sheet's grid; a write past it is a failed call. */
  function SetCell(t: Table, r: nat, c: nat, v: string): (t': Table)
    ensures |t'| == if r < |t| then |t| else r + 1
    ensures forall i :: i != r ==> RowAt(t', i) == RowAt(t, i)
    ensures forall j :: Text(RowAt(t', r), j) == if j == c then v else Text(RowAt(t, r), j)
    ensures |t'[r]| == if |RowAt(t, r)| <= c then c + 1 else |RowAt(t, r)|
  {
    var grown := if r < |t| then t else t + seq(r + 1 - |t|, _ => []);
    assert grown[r] == RowAt(t, r);
    grown[r := Pad(grown[r], c + 1)[c := v]]
  }

  /** After a write, a non-empty text is found in a cell exactly where it was
      before, except in the written cell, which holds v. */
  lemma CellIsAfterSetCell(t: Table, r: nat, c: nat, v: string, i: nat, j: nat, s: string)
    requires s != ""
    ensures CellIs(RowAt(SetCell(t, r, c, v), i), j, s)
        <==> if i == r && j == c then v == s else CellIs(RowAt(t, i), j, s)
  {
    var t' := SetCell(t, r, c, v);
    CellIsText(RowAt(t', i), j, s);
    CellIsText(RowAt(t, i), j, s);
  }

  // ---------------------------------------------------------------------
  // Searching rows

  function FindFrom(rows: Table, i: nat, p: Row -> bool): (r: Option<nat>)
    decreases |rows| - i
    ensures r.Some? ==> i <= r.value < |rows| && p(rows[r.value])
    ensures r.Some? ==> forall j :: i <= j < r.value ==> !p(rows[j])
    ensures r.None? ==> forall j :: i <= j < |rows| ==> !p(rows[j])
  {
    if i >= |rows| then None
    else if p(rows[i]) then Some(i)
    else FindFrom(rows, i + 1, p)
  }

  /** `rows.findIndex((row, i) => i > 0 && p(row))`, with -1 as None: the
      first row after the header that satisfies p. */
  function FindAfterHeader(rows: Table, p: Row -> bool): (r: Option<nat>)
    ensures r.Some? ==> 0 < r.value < |rows| && p(rows[r.value])
    ensures r.Some? ==> forall j :: 0 < j < r.value ==> !p(rows[j])
    ensures r.None? ==> forall j :: 0 < j < |rows| ==> !p(rows[j])
  {
    FindFrom(rows, 1, p)
  }

  /** A row after the header that satisfies p, with no such row before it,
      is the one the search finds. */
  lemma FindAfterHeaderFirst(rows: Table, p: Row -> bool, k: nat)
    requires 0 < k < |rows| && p(rows[k])
    requires forall j :: 0 < j < k ==> !p(rows[j])
    ensures FindAfterHeader(rows, p) == Some(k)
  {
  }

  /** A first match in one table is the first match in any table that agrees
      with it on p at every row index (rows a table does not reach count as
      empty, and p rejects the empty row). */
  lemma FindAfterHeaderTransfer(t1: Table, t2: Table, p: Row -> bool, k: nat)
    requires forall i :: 0 < i < |t1| || 0 < i < |t2| ==> p(RowAt(t1, i)) == p(RowAt(t2, i))
    requires !p([])
    requires FindAfterHeader(t1, p) == Some(k)
    ensures FindAfterHeader(t2, p) == Some(k)
  {
    assert RowAt(t1, k) == t1[k];
    assert k < |t2|;
    assert RowAt(t2, k) == t2[k];
    forall j | 0 < j < k
      ensures !p(t2[j])
    {
      assert RowAt(t1, j) == t1[j] && RowAt(t2, j) == t2[j];
    }
    var f := FindAfterHeader(t2, p);
    assert f.Some?;
  }

  /** Two tables that agree on p at every row index give the same search
      result. */
  lemma FindAfterHeaderAgree(t1: Table, t2: Table, p: Row -> bool)
    requires forall i :: 0 < i < |t1| || 0 < i < |t2| ==> p(RowAt(t1, i)) == p(RowAt(t2, i))
    requires !p([])
    ensures FindAfterHeader(t1, p) == FindAfterHeader(t2, p)
  {
    var f1 := FindAfterHeader(t1, p);
    if f1.Some? {
      FindAfterHeaderTransfer(t1, t2, p, f1.value);
    } else if FindAfterHeader(t2, p).Some? {
      FindAfterHeaderTransfer(t2, t1, p, FindAfterHeader(t2, p).value);
      assert false;
    }
  }
}
