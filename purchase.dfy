/** The purchase handler's decision: validate the request, read the coin cell
    and the badge sheet, check coins and stock, and compute the two numbers to
    write back. The writes themselves are Server.Backend.Purchase. */
module PurchaseRules {
  import opened SheetData
  import Login

  /** The request body. A quantity or cost that is not a JSON number is None. */
  datatype Request = Request(
    studentId: string,
    studentRowIndex: int,
    itemName: string,
    quantityToBuy: Option<int>,
    itemCost: Option<int>)

  datatype PurchaseError =
    | InvalidData                        // 400: the request fails validation
    | InsufficientCoins                  // 400
    | BadgeNotFound                      // 404
    | InsufficientStock(remaining: int)  // 400: remaining is the stock read
    | ReadFailed     // 500 before any write: a read failed, the coin range is malformed or the badge sheet is empty
    | WriteFailed    // 500: the batch update failed; nothing was written
    | AppendFailed   // 500: coins and stock were written, the log was not appended
    | MailFailed     // 500: every write was done; the receipt mail failed

  /** What an accepted purchase writes: the new coin number for 0-based
      student row coinRow and the new stock for 0-based badge row badgeRow. */
  datatype Plan = Plan(
    coinRow: nat,
    badgeRow: nat,
    quantity: int,
    currentCoins: int,
    currentQty: int,
    newCoins: int,
    newQty: int)

  /** `!studentId || !studentRowIndex || !itemName || typeof quantityToBuy
      !== 'number' || typeof itemCost !== 'number'`, negated. */
  predicate WellFormed(req: Request) {
    req.studentId != "" && req.studentRowIndex != 0 && req.itemName != "" &&
    req.quantityToBuy.Some? && req.itemCost.Some?
  }

  /** The request is well formed, both reads succeed and the coin range
      `Sheet1!G<row>` names an existing row number. */
  predicate Readable(req: Request, readsOk: bool) {
    WellFormed(req) && readsOk && req.studentRowIndex > 0
  }

  function TotalCost(req: Request): int
    requires WellFormed(req)
  {
    req.quantityToBuy.value * req.itemCost.value
  }

  /** `parseInt(<cell G of 1-based row rowIndex>) || 0`; a row beyond the
      sheet has no value and reads as 0. */
  function CoinsAt(students: Table, rowIndex: int): (coins: int)
    requires rowIndex >= 1
    ensures rowIndex > |students| ==> coins == 0
    ensures rowIndex <= |students| ==> coins == IntCell(students[rowIndex - 1], CoinsColumn)
  {
    IntCell(RowAt(students, rowIndex - 1), CoinsColumn)
  }

  /** `badgeRows.findIndex((row, i) => i > 0 && row[0] === itemName)` */
  function FindBadge(badges: Table, item: string): (k: Option<nat>)
    ensures k.Some? ==>
      0 < k.value < |badges| && CellIs(badges[k.value], BadgeNameColumn, item) &&
      forall j :: 0 < j < k.value ==> !CellIs(badges[j], BadgeNameColumn, item)
    ensures k.None? <==> forall j :: 0 < j < |badges| ==> !CellIs(badges[j], BadgeNameColumn, item)
  {
    FindAfterHeader(badges, row => CellIs(row, BadgeNameColumn, item))
  }

  /** The checks of `POST /api/purchase`, in the handler's order, up to the
      first write. */
  function Decide(req: Request, readsOk: bool, students: Table, badges: Table): (r: Result<Plan, PurchaseError>)
    ensures r == Err(InvalidData) <==> !WellFormed(req)
    ensures r == Err(ReadFailed) <==>
      WellFormed(req) &&
      (!readsOk || req.studentRowIndex < 0 ||
       (CoinsAt(students, req.studentRowIndex) >= TotalCost(req) && |badges| == 0))
    ensures r == Err(InsufficientCoins) <==>
      Readable(req, readsOk) && CoinsAt(students, req.studentRowIndex) < TotalCost(req)
    ensures r == Err(BadgeNotFound) <==>
      Readable(req, readsOk) && CoinsAt(students, req.studentRowIndex) >= TotalCost(req) &&
      |badges| > 0 && FindBadge(badges, req.itemName).None?
    ensures (r.Err? && r.error.InsufficientStock?) <==>
      Readable(req, readsOk) && CoinsAt(students, req.studentRowIndex) >= TotalCost(req) &&
      FindBadge(badges, req.itemName).Some? &&
      IntCell(badges[FindBadge(badges, req.itemName).value], StockColumn) < req.quantityToBuy.value
    ensures r.Err? && r.error.InsufficientStock? ==>
      r.error.remaining == IntCell(badges[FindBadge(badges, req.itemName).value], StockColumn)
    ensures r.Ok? <==>
      Readable(req, readsOk) && CoinsAt(students, req.studentRowIndex) >= TotalCost(req) &&
      FindBadge(badges, req.itemName).Some? &&
      IntCell(badges[FindBadge(badges, req.itemName).value], StockColumn) >= req.quantityToBuy.value
    ensures r.Ok? ==>
      Readable(req, readsOk) &&
      r.value.coinRow == req.studentRowIndex - 1 &&
      FindBadge(badges, req.itemName) == Some(r.value.badgeRow) &&
      r.value.quantity == req.quantityToBuy.value &&
      r.value.currentCoins == CoinsAt(students, req.studentRowIndex) &&
      r.value.currentQty == IntCell(badges[r.value.badgeRow], StockColumn) &&
      r.value.newCoins == r.value.currentCoins - TotalCost(req) &&
      r.value.newQty == r.value.currentQty - r.value.quantity &&
      r.value.newCoins >= 0 && r.value.newQty >= 0
  {
    if !WellFormed(req) then Err(InvalidData)
    else if !readsOk || req.studentRowIndex < 0 then Err(ReadFailed)
    else
      var total := TotalCost(req);
      var coins := CoinsAt(students, req.studentRowIndex);
      if coins < total then Err(InsufficientCoins)
      else if |badges| == 0 then Err(ReadFailed)
      else match FindBadge(badges, req.itemName)
        case None => Err(BadgeNotFound)
        case Some(k) =>
          var qty := IntCell(badges[k], StockColumn);
          var q := req.quantityToBuy.value;
          if qty < q then Err(InsufficientStock(qty))
          else Ok(Plan(req.studentRowIndex - 1, k, q, coins, qty, coins - total, qty - q))
  }

  /** The log row the handler appends, as a later read shows it: timestamp,
      buyer, badge, quantity. The row is appended with USER_ENTERED, so a
      buyer id or badge name written as digits with a leading zero is shown
      as a number. The timestamp stands for the text the cell shows. */
  function PurchaseRow(timestamp: string, req: Request): (row: Row)
    requires WellFormed(req)
    ensures Login.BoughtBy(row, req.studentId) <==> KeptAsText(req.studentId)
    ensures Login.ItemKey(row) == UserEntered(req.itemName)
    ensures KeptAsText(req.itemName) ==> Login.ItemKey(row) == req.itemName
    ensures Login.ItemQty(row) == req.quantityToBuy.value
  {
    ParseIntToString(req.quantityToBuy.value);
    UserEnteredChanges(req.studentId);
    UserEnteredChanges(req.itemName);
    [timestamp, UserEntered(req.studentId), UserEntered(req.itemName), IntToString(req.quantityToBuy.value)]
  }

  // ---------------------------------------------------------------------
  // The student's sheets after a purchase

  /** The coin number written for a plan reads back as the new balance at the
      row number the request named. */
  lemma CoinsReadBack(students: Table, rowIndex: int, n: int)
    requires rowIndex >= 1
    ensures CoinsAt(SetCell(students, rowIndex - 1, CoinsColumn, IntToString(n)), rowIndex) == n
  {
    ParseIntToString(n);
  }

  /** A cell shown with the default "0" parses as the cell itself does. */
  lemma ShownZeroParsesAsCell(row: Row, col: nat)
    ensures ParseOr0(CellOr(row, col, "0")) == IntCell(row, col)
  {
    if Text(row, col) == "" {
      assert ParseInt("0") == Some(0) by {
        assert Unsigned("0") == "0";
        assert DigitRun("0") == 1;
        assert "0"[..1] == "0";
        assert DigitsValue("0") == 10 * DigitsValue("") + 0;
      }
      assert ParseInt("").None?;
    }
  }

  /** The coins a login shows are the coins a purchase that carries the
      login's row number checks, and that purchase debits the logged-in
      student's own row. */
  lemma LoginCoinsAreCheckedCoins(students: Table, purchases: Table, id: string, password: string,
                                  v: Login.StudentView, req: Request, badges: Table)
    requires Login.Authenticate(students, true, purchases, true, id, password) == Ok(v)
    requires req.studentRowIndex == v.rowIndex
    ensures v.rowIndex >= 2 && CoinsAt(students, v.rowIndex) == ParseOr0(v.coins)
    ensures Decide(req, true, students, badges).Ok? ==>
      Decide(req, true, students, badges).value.coinRow == v.rowIndex - 1 &&
      Login.HasCredentials(students[v.rowIndex - 1], id, password)
  {
    var row := students[v.rowIndex - 1];
    assert RowAt(students, v.rowIndex - 1) == row;
    assert v.coins == CellOr(row, CoinsColumn, "0");
    ShownZeroParsesAsCell(row, CoinsColumn);
  }

  /** A write to the coin column leaves every login lookup as it was. */
  lemma CoinWriteKeepsLookup(students: Table, r: nat, text: string, id: string, password: string)
    requires id != "" && password != ""
    ensures Login.FindStudent(SetCell(students, r, CoinsColumn, text), id, password)
         == Login.FindStudent(students, id, password)
  {
    var t' := SetCell(students, r, CoinsColumn, text);
    var p := row => Login.HasCredentials(row, id, password);
    forall i: nat | 0 < i < |students| || 0 < i < |t'|
      ensures p(RowAt(students, i)) == p(RowAt(t', i))
    {
      CellIsAfterSetCell(students, r, CoinsColumn, text, i, IdColumn, id);
      CellIsAfterSetCell(students, r, CoinsColumn, text, i, PasswordColumn, password);
    }
    FindAfterHeaderAgree(students, t', p);
  }

  /** Logging in after a purchase that debited the student's own row and
      was logged shows the new balance and the bought badges credited, and
      nothing else changed. */
  lemma LoginAfterPurchase(students: Table, log: Table, id: string, password: string,
                           v: Login.StudentView, timestamp: string, req: Request, n: int)
    requires Login.Authenticate(students, true, log, true, id, password) == Ok(v)
    requires WellFormed(req) && req.studentId == id && KeptAsText(id)
    requires |log| >= 1
    ensures Login.Authenticate(SetCell(students, v.rowIndex - 1, CoinsColumn, IntToString(n)), true,
                               log + [PurchaseRow(timestamp, req)], true, id, password)
         == Ok(v.(coins := IntToString(n),
                  purchases := Login.Credit(v.purchases, UserEntered(req.itemName), req.quantityToBuy.value)))
  {
    var k := v.rowIndex - 1;
    var t' := SetCell(students, k, CoinsColumn, IntToString(n));
    var log' := log + [PurchaseRow(timestamp, req)];
    CoinWriteKeepsLookup(students, k, IntToString(n), id, password);
    assert Login.FindStudent(students, id, password) == Some(k);
    assert Login.FindStudent(t', id, password) == Some(k);
    assert v == Login.ViewOf(students[k], k, log, id);
    Login.HoldingsAfterAppend(log, PurchaseRow(timestamp, req), id);
    assert RowAt(t', k) == t'[k] && RowAt(students, k) == students[k];
    assert Login.ViewOf(t'[k], k, log', id)
        == v.(coins := IntToString(n),
              purchases := Login.Credit(v.purchases, UserEntered(req.itemName), req.quantityToBuy.value));
  }

  /** A buyer whose id is digits with a leading zero is logged under the
      number the sheet makes of it, so the purchase never reaches that
      student's holdings. */
  lemma LeadingZeroIdNotCredited(log: Table, timestamp: string, req: Request)
    requires WellFormed(req) && !KeptAsText(req.studentId)
    ensures Login.Holdings(log + [PurchaseRow(timestamp, req)], req.studentId)
         == Login.Holdings(log, req.studentId)
  {
    Login.HoldingsAfterAppend(log, PurchaseRow(timestamp, req), req.studentId);
  }

  /** The log row appended as text (valueInputOption RAW): every cell shows
      exactly what the handler wrote. */
  function PurchaseRowAsText(timestamp: string, req: Request): (row: Row)
    requires WellFormed(req)
    ensures Login.BoughtBy(row, req.studentId)
    ensures Login.ItemKey(row) == req.itemName
    ensures Login.ItemQty(row) == req.quantityToBuy.value
  {
    ParseIntToString(req.quantityToBuy.value);
    [timestamp, req.studentId, req.itemName, IntToString(req.quantityToBuy.value)]
  }

  /** With the row appended as text, every purchase is credited to its buyer's
      holdings under the badge's own name, whatever the id. */
  lemma TextAppendCredits(log: Table, timestamp: string, req: Request)
    requires WellFormed(req) && |log| >= 1
    ensures Login.Holdings(log + [PurchaseRowAsText(timestamp, req)], req.studentId)
         == Login.Credit(Login.Holdings(log, req.studentId), req.itemName, req.quantityToBuy.value)
  {
    Login.HoldingsAfterAppend(log, PurchaseRowAsText(timestamp, req), req.studentId);
  }

  // ---------------------------------------------------------------------
  // Finding: quantities are not required to be positive

  /** As written, a negative quantity passes every check: the purchase then
      raises the buyer's coins and the badge's stock. */
  lemma NegativeQuantityCredits(req: Request, students: Table, badges: Table)
    requires Readable(req, true)
    requires req.quantityToBuy.value < 0 && req.itemCost.value > 0
    requires CoinsAt(students, req.studentRowIndex) >= 0
    requires FindBadge(badges, req.itemName).Some?
    requires IntCell(badges[FindBadge(badges, req.itemName).value], StockColumn) >= 0
    ensures Decide(req, true, students, badges).Ok?
    ensures Decide(req, true, students, badges).value.newCoins > Decide(req, true, students, badges).value.currentCoins
    ensures Decide(req, true, students, badges).value.newQty > Decide(req, true, students, badges).value.currentQty
  {
    var q, c := req.quantityToBuy.value, req.itemCost.value;
    assert q * c < 0 by {
      assert (-q) * c > 0;
    }
  }

  /** The decision with the evidently intended guard: a quantity that is not
      positive, or a negative unit cost, is invalid data. An accepted purchase
      then never raises the coins or the stock, and on every other request it
      decides as the handler does. */
  function DecideChecked(req: Request, readsOk: bool, students: Table, badges: Table): (r: Result<Plan, PurchaseError>)
    ensures r.Ok? ==> r.value.quantity > 0 && r.value.newCoins <= r.value.currentCoins &&
                      r.value.newQty < r.value.currentQty
    ensures r.Ok? ==> r == Decide(req, readsOk, students, badges)
    ensures WellFormed(req) && req.quantityToBuy.value > 0 && req.itemCost.value >= 0 ==>
      r == Decide(req, readsOk, students, badges)
    ensures r == Err(InvalidData) <==>
      !WellFormed(req) || req.quantityToBuy.value <= 0 || req.itemCost.value < 0
  {
    if WellFormed(req) && (req.quantityToBuy.value <= 0 || req.itemCost.value < 0) then Err(InvalidData)
    else
      var d := Decide(req, readsOk, students, badges);
      assert d.Ok? ==> TotalCost(req) >= 0 by {
        if d.Ok? {
          assert req.quantityToBuy.value * req.itemCost.value >= 0;
        }
      }
      d
  }
}
