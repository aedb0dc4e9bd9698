/** The server's mutable state, the three sheets of the spreadsheet and the
    in-memory reset-code map, with the handlers that change them: the
    purchase and the two steps of the password reset. Each store call the
    handlers make is given as a flag saying whether the call succeeded. */
module Server {
  import opened SheetData
  import PurchaseRules
  import Password
  import Login

  datatype Outcome<+E> = Pass | Fail(error: E)

  /** The response of a purchase that went through: `newCoins` and
      `newBadgeQuantity`. */
  datatype Receipt = Receipt(newCoins: int, newBadgeQuantity: int)

  datatype SendError =
    | MissingId    // 400
    | MailFailed   // 500: the code was stored, the mail was not sent

  datatype ResetError =
    | InvalidData  // 400: a field is missing or the password breaks the policy
    | WrongCode    // 401: no code stored for the id, or a different one
    | IdNotFound   // 404: no student row after the header has the id
    | ReadFailed   // 500: the student sheet could not be read, or has no rows
    | WriteFailed  // 500: the password cell was not written

  /** The text of a number from 100000 to 999999: six digits, the first not 0. */
  predicate IsResetCode(s: string) {
    |s| == 6 && AllDigits(s) && s[0] != '0'
  }

  /** `Math.floor(100000 + Math.random() * 900000).toString()` is a
      six-digit code. */
  lemma IssuedCodeIsResetCode(n: int)
    requires 100000 <= n <= 999999
    ensures IsResetCode(IntToString(n))
  {
    assert Pow10(5) == 100000 && Pow10(6) == 1000000;
    NatToStringLength(n, 6);
  }

  /** `!id || !code || !password || !/^[A-Z0-9]{4}$/.test(password)`, negated. */
  predicate ResetRequestValid(id: string, code: string, password: string)
    ensures ResetRequestValid(id, code, password) ==>
      |password| == 4 && forall i :: 0 <= i < 4 ==> Password.PolicyChar(password[i])
  {
    id != "" && code != "" && password != "" && Password.ValidPassword(password)
  }

  /** `rows.findIndex((row, i) => i > 0 && row[0] === id)` */
  function FindId(students: Table, id: string): (k: Option<nat>)
    ensures k.Some? ==>
      0 < k.value < |students| && CellIs(students[k.value], IdColumn, id) &&
      forall j :: 0 < j < k.value ==> !CellIs(students[j], IdColumn, id)
    ensures k.None? <==> forall j :: 0 < j < |students| ==> !CellIs(students[j], IdColumn, id)
  {
    FindAfterHeader(students, row => CellIs(row, IdColumn, id))
  }

  /** After a reset writes a valid password into the row the reset found for
      the id, logging in with that id and password finds that same row. */
  lemma LoginAfterReset(students: Table, log: Table, id: string, password: string, k: nat)
    requires id != "" && Password.ValidPassword(password)
    requires FindId(students, id) == Some(k)
    ensures Login.Authenticate(SetCell(students, k, PasswordColumn, password), true, log, true, id, password).Ok?
    ensures Login.Authenticate(SetCell(students, k, PasswordColumn, password), true, log, true, id, password)
              .value.rowIndex == k + 1
    ensures Login.FindStudent(SetCell(students, k, PasswordColumn, password), id, password) == Some(k)
  {
    var t' := SetCell(students, k, PasswordColumn, password);
    CellIsAfterSetCell(students, k, PasswordColumn, password, k, IdColumn, id);
    CellIsAfterSetCell(students, k, PasswordColumn, password, k, PasswordColumn, password);
    assert RowAt(t', k) == t'[k] && RowAt(students, k) == students[k];
    forall j | 0 < j < k
      ensures !Login.HasCredentials(t'[j], id, password)
    {
      CellIsAfterSetCell(students, k, PasswordColumn, password, j, IdColumn, id);
      assert RowAt(t', j) == t'[j] && RowAt(students, j) == students[j];
    }
    FindAfterHeaderFirst(t', row => Login.HasCredentials(row, id, password), k);
  }

  /** As written, the reset stores the password with USER_ENTERED. A policy
      password of digits with a leading zero, such as `0042`, is then shown
      as `42`, so logging in with the new password finds no row: the student
      is locked out until another reset. */
  lemma ResetLocksOutLeadingZero(students: Table, log: Table, id: string, password: string, k: nat)
    requires id != "" && Password.ValidPassword(password) && !KeptAsText(password)
    requires FindId(students, id) == Some(k)
    requires forall j :: 0 < j < |students| && j != k ==> !Login.HasCredentials(students[j], id, password)
    ensures Login.Authenticate(SetCell(students, k, PasswordColumn, UserEntered(password)), true, log, true,
                               id, password) == Err(Login.InvalidCredentials)
  {
    var t' := SetCell(students, k, PasswordColumn, UserEntered(password));
    UserEnteredChanges(password);
    forall j | 0 < j < |t'|
      ensures !Login.HasCredentials(t'[j], id, password)
    {
      assert RowAt(t', j) == t'[j] && RowAt(students, j) == students[j];
      if j == k {
        assert Text(t'[j], PasswordColumn) == UserEntered(password);
      }
    }
  }

  /** The checks of `POST /api/reset-password-with-code` before its write,
      in the handler's order: the request, the stored code, the sheet read
      and the id's row. Success gives the 0-based row to write. */
  function ResetCheck(students: Table, codes: map<string, string>, id: string, code: string,
                      password: string, readOk: bool): (r: Result<nat, ResetError>)
    ensures r == Err(InvalidData) <==> !ResetRequestValid(id, code, password)
    ensures r == Err(WrongCode) <==>
      ResetRequestValid(id, code, password) && !(id in codes && codes[id] == code)
    ensures r == Err(ReadFailed) <==>
      ResetRequestValid(id, code, password) && id in codes && codes[id] == code &&
      (!readOk || |students| == 0)
    ensures r == Err(IdNotFound) <==>
      ResetRequestValid(id, code, password) && id in codes && codes[id] == code &&
      readOk && |students| > 0 && FindId(students, id).None?
    ensures r.Ok? <==>
      ResetRequestValid(id, code, password) && id in codes && codes[id] == code &&
      readOk && exists j :: 0 < j < |students| && CellIs(students[j], IdColumn, id)
    ensures r.Ok? ==>
      0 < r.value < |students| && CellIs(students[r.value], IdColumn, id) &&
      forall j :: 0 < j < r.value ==> !CellIs(students[j], IdColumn, id)
  {
    if !ResetRequestValid(id, code, password) then Err(InvalidData)
    else if !(id in codes && codes[id] != "" && codes[id] == code) then Err(WrongCode)
    else if !readOk || |students| == 0 then Err(ReadFailed)
    else match FindId(students, id)
      case None => Err(IdNotFound)
      case Some(k) => Ok(k)
  }

  class Backend {
    /** Sheet1: the student rows. */
    var students: Table
    /** Badges: name, stock and cost rows. */
    var badges: Table
    /** Purchases: the append-only purchase log. */
    var purchases: Table
    /** `resetCodes`: the pending reset code of each student id. */
    var resetCodes: map<string, string>

    /** Every pending code is a six-digit code. */
    ghost predicate Valid()
      reads this
    {
      forall id :: id in resetCodes ==> IsResetCode(resetCodes[id])
    }

    constructor (students: Table, badges: Table, purchases: Table)
      ensures Valid()
      ensures this.students == students && this.badges == badges && this.purchases == purchases
      ensures resetCodes == map[]
    {
      this.students := students;
      this.badges := badges;
      this.purchases := purchases;
      resetCodes := map[];
    }

    // -------------------------------------------------------------------
    // Purchase

    /** The writes of an accepted purchase, in the handler's order: one batch
        update of the coin cell and the stock cell, then the log append, then
        the receipt mail. A failing call ends the handler with what was
        written so far. */
    method Commit(plan: PurchaseRules.Plan, logRow: Row, batchOk: bool, appendOk: bool, mailOk: bool)
      returns (r: Result<Receipt, PurchaseRules.PurchaseError>)
      modifies this
      ensures resetCodes == old(resetCodes)
      ensures !batchOk ==> r == Err(PurchaseRules.WriteFailed) && unchanged(this)
      ensures batchOk ==>
        students == SetCell(old(students), plan.coinRow, CoinsColumn, IntToString(plan.newCoins)) &&
        badges == SetCell(old(badges), plan.badgeRow, StockColumn, IntToString(plan.newQty))
      ensures batchOk ==>
        purchases == if appendOk then old(purchases) + [logRow]
                     else old(purchases)
      ensures batchOk ==>
        r == if !appendOk then Err(PurchaseRules.AppendFailed)
             else if !mailOk then Err(PurchaseRules.MailFailed)
             else Ok(Receipt(plan.newCoins, plan.newQty))
    {
      if !batchOk {
        return Err(PurchaseRules.WriteFailed);
      }
      students := SetCell(students, plan.coinRow, CoinsColumn, IntToString(plan.newCoins));
      badges := SetCell(badges, plan.badgeRow, StockColumn, IntToString(plan.newQty));
      if !appendOk {
        return Err(PurchaseRules.AppendFailed);
      }
      purchases := purchases + [logRow];
      if !mailOk {
        return Err(PurchaseRules.MailFailed);
      }
      r := Ok(Receipt(plan.newCoins, plan.newQty));
    }

    /** `POST /api/purchase`. A request the checks refuse changes nothing; an
        accepted one debits the coin cell of the row the request names,
        lowers the badge's stock by the quantity and appends one log row. */
    method Purchase(req: PurchaseRules.Request, timestamp: string,
                    readsOk: bool, batchOk: bool, appendOk: bool, mailOk: bool)
      returns (r: Result<Receipt, PurchaseRules.PurchaseError>)
      modifies this
      ensures resetCodes == old(resetCodes)
      ensures var d := PurchaseRules.Decide(req, readsOk, old(students), old(badges));
        d.Err? ==> r == Err(d.error) && unchanged(this)
      ensures var d := PurchaseRules.Decide(req, readsOk, old(students), old(badges));
        d.Ok? && !batchOk ==> r == Err(PurchaseRules.WriteFailed) && unchanged(this)
      ensures var d := PurchaseRules.Decide(req, readsOk, old(students), old(badges));
        d.Ok? && batchOk ==>
          students == SetCell(old(students), d.value.coinRow, CoinsColumn, IntToString(d.value.newCoins)) &&
          badges == SetCell(old(badges), d.value.badgeRow, StockColumn, IntToString(d.value.newQty)) &&
          purchases == (if appendOk then old(purchases) + [PurchaseRules.PurchaseRow(timestamp, req)]
                        else old(purchases)) &&
          r == (if !appendOk then Err(PurchaseRules.AppendFailed)
                else if !mailOk then Err(PurchaseRules.MailFailed)
                else Ok(Receipt(d.value.newCoins, d.value.newQty)))
    {
      var d := PurchaseRules.Decide(req, readsOk, students, badges);
      if d.Err? {
        return Err(d.error);
      }
      r := Commit(d.value, PurchaseRules.PurchaseRow(timestamp, req), batchOk, appendOk, mailOk);
    }

    /** The purchase as evidently intended: the positive-quantity guard of
        PurchaseRules.DecideChecked, and the log row appended as text
        (PurchaseRules.PurchaseRowAsText), so that every accepted purchase
        reaches its buyer's holdings. */
    method PurchaseChecked(req: PurchaseRules.Request, timestamp: string,
                           readsOk: bool, batchOk: bool, appendOk: bool, mailOk: bool)
      returns (r: Result<Receipt, PurchaseRules.PurchaseError>)
      modifies this
      ensures resetCodes == old(resetCodes)
      ensures var d := PurchaseRules.DecideChecked(req, readsOk, old(students), old(badges));
        d.Err? ==> r == Err(d.error) && unchanged(this)
      ensures var d := PurchaseRules.DecideChecked(req, readsOk, old(students), old(badges));
        d.Ok? && !batchOk ==> r == Err(PurchaseRules.WriteFailed) && unchanged(this)
      ensures var d := PurchaseRules.DecideChecked(req, readsOk, old(students), old(badges));
        d.Ok? && batchOk ==>
          students == SetCell(old(students), d.value.coinRow, CoinsColumn, IntToString(d.value.newCoins)) &&
          badges == SetCell(old(badges), d.value.badgeRow, StockColumn, IntToString(d.value.newQty)) &&
          purchases == (if appendOk then old(purchases) + [PurchaseRules.PurchaseRowAsText(timestamp, req)]
                        else old(purchases)) &&
          r == (if !appendOk then Err(PurchaseRules.AppendFailed)
                else if !mailOk then Err(PurchaseRules.MailFailed)
                else Ok(Receipt(d.value.newCoins, d.value.newQty)))
      ensures r.Ok? ==> r.value.newCoins <= PurchaseRules.CoinsAt(old(students), req.studentRowIndex)
      ensures r.Ok? && |old(purchases)| >= 1 ==>
        PurchaseRules.WellFormed(req) &&
        Login.Holdings(purchases, req.studentId) ==
          Login.Credit(Login.Holdings(old(purchases), req.studentId), req.itemName, req.quantityToBuy.value)
    {
      var d := PurchaseRules.DecideChecked(req, readsOk, students, badges);
      if d.Err? {
        return Err(d.error);
      }
      r := Commit(d.value, PurchaseRules.PurchaseRowAsText(timestamp, req), batchOk, appendOk, mailOk);
      if r.Ok? && |old(purchases)| >= 1 {
        PurchaseRules.TextAppendCredits(old(purchases), timestamp, req);
      }
    }

    // -------------------------------------------------------------------
    // Reset codes

    /** `resetCodes[id] = code`: stores the code, replacing any earlier one
        for the id; the codes of other ids stay as they were. */
    method IssueCode(id: string, code: string)
      requires Valid() && IsResetCode(code)
      modifies this
      ensures Valid()
      ensures resetCodes == old(resetCodes)[id := code]
      ensures students == old(students) && badges == old(badges) && purchases == old(purchases)
    {
      resetCodes := resetCodes[id := code];
    }

    /** `resetCodes[id] && resetCodes[id] === code`: a code is stored for the
        id and it is the given one. */
    function CodeMatches(id: string, code: string): (ok: bool)
      reads this
      ensures Valid() ==> (ok <==> id in resetCodes && resetCodes[id] == code)
      ensures ok ==> code != ""
    {
      id in resetCodes && resetCodes[id] != "" && resetCodes[id] == code
    }

    /** `delete resetCodes[id]` */
    method ConsumeCode(id: string)
      requires Valid()
      modifies this
      ensures Valid()
      ensures resetCodes == old(resetCodes) - {id}
      ensures students == old(students) && badges == old(badges) && purchases == old(purchases)
    {
      resetCodes := resetCodes - {id};
    }

    /** `POST /api/send-reset-code`: store a fresh code for the id, then mail
        it. The code is any number from 100000 to 999999. A failed mail still
        leaves the code stored. */
    method SendResetCode(id: string, mailOk: bool) returns (r: Outcome<SendError>)
      requires Valid()
      modifies this
      ensures Valid()
      ensures students == old(students) && badges == old(badges) && purchases == old(purchases)
      ensures id == "" ==> r == Fail(MissingId) && resetCodes == old(resetCodes)
      ensures id != "" ==>
        id in resetCodes && IsResetCode(resetCodes[id]) &&
        (exists n :: 100000 <= n <= 999999 && resetCodes[id] == IntToString(n)) &&
        resetCodes - {id} == old(resetCodes) - {id} &&
        r == if mailOk then Pass else Fail(MailFailed)
    {
      if id == "" {
        return Fail(MissingId);
      }
      var n :| 100000 <= n <= 999999;
      IssuedCodeIsResetCode(n);
      IssueCode(id, IntToString(n));
      r := if mailOk then Pass else Fail(MailFailed);
    }

    /** `POST /api/reset-password-with-code`: check the request and the code,
        find the id's row, write the new password into its column E and only
        then delete the code. Every failure leaves the code and the sheets as
        they were. The password is written with USER_ENTERED, so the cell
        shows `UserEntered(password)`; a login with the new password then
        finds the row exactly when the sheet keeps the password as text. */
    method ResetPassword(id: string, code: string, password: string, readOk: bool, writeOk: bool)
      returns (r: Outcome<ResetError>)
      requires Valid()
      modifies this
      ensures Valid()
      ensures badges == old(badges) && purchases == old(purchases)
      ensures var d := ResetCheck(old(students), old(resetCodes), id, code, password, readOk);
        if d.Err? then r == Fail(d.error) && unchanged(this)
        else if !writeOk then r == Fail(WriteFailed) && unchanged(this)
        else r == Pass &&
             students == SetCell(old(students), d.value, PasswordColumn, UserEntered(password)) &&
             resetCodes == old(resetCodes) - {id}
      ensures r == Pass && KeptAsText(password) ==>
        Login.FindStudent(students, id, password) == FindId(old(students), id)
    {
      r := Reset(id, code, password, UserEntered(password), readOk, writeOk);
      if r == Pass && KeptAsText(password) {
        UserEnteredChanges(password);
        LoginAfterReset(old(students), purchases, id, password, FindId(old(students), id).value);
      }
    }

    /** The reset with the password written as text (valueInputOption RAW):
        after a successful reset, a login with the new password finds the
        row the reset wrote, whatever the password. */
    method ResetPasswordAsText(id: string, code: string, password: string, readOk: bool, writeOk: bool)
      returns (r: Outcome<ResetError>)
      requires Valid()
      modifies this
      ensures Valid()
      ensures badges == old(badges) && purchases == old(purchases)
      ensures var d := ResetCheck(old(students), old(resetCodes), id, code, password, readOk);
        if d.Err? then r == Fail(d.error) && unchanged(this)
        else if !writeOk then r == Fail(WriteFailed) && unchanged(this)
        else r == Pass &&
             students == SetCell(old(students), d.value, PasswordColumn, password) &&
             resetCodes == old(resetCodes) - {id}
      ensures r == Pass ==> Login.FindStudent(students, id, password) == FindId(old(students), id)
    {
      r := Reset(id, code, password, password, readOk, writeOk);
      if r == Pass {
        LoginAfterReset(old(students), purchases, id, password, FindId(old(students), id).value);
      }
    }

    /** The reset handler's steps, with `shown` the text the password cell
        holds after the write. */
    method Reset(id: string, code: string, password: string, shown: string, readOk: bool, writeOk: bool)
      returns (r: Outcome<ResetError>)
      requires Valid()
      modifies this
      ensures Valid()
      ensures badges == old(badges) && purchases == old(purchases)
      ensures var d := ResetCheck(old(students), old(resetCodes), id, code, password, readOk);
        if d.Err? then r == Fail(d.error) && unchanged(this)
        else if !writeOk then r == Fail(WriteFailed) && unchanged(this)
        else r == Pass &&
             students == SetCell(old(students), d.value, PasswordColumn, shown) &&
             resetCodes == old(resetCodes) - {id}
    {
      if !ResetRequestValid(id, code, password) {
        return Fail(InvalidData);
      }
      if !CodeMatches(id, code) {
        return Fail(WrongCode);
      }
      if !readOk || |students| == 0 {
        return Fail(ReadFailed);
      }
      var k := FindId(students, id);
      if k.None? {
        return Fail(IdNotFound);
      }
      if !writeOk {
        return Fail(WriteFailed);
      }
      students := SetCell(students, k.value, PasswordColumn, shown);
      ConsumeCode(id);
      r := Pass;
    }

    /** A code works once: after a reset succeeds, a second reset with the
        same code is refused with WrongCode, whatever the store does. */
    method CodeIsSingleUse(id: string, code: string, password: string, password': string,
                           readOk: bool, writeOk: bool, readOk': bool, writeOk': bool)
      returns (first: Outcome<ResetError>, second: Outcome<ResetError>)
      requires Valid()
      modifies this
      ensures Valid()
      ensures first == Pass && ResetRequestValid(id, code, password') ==> second == Fail(WrongCode)
    {
      first := ResetPassword(id, code, password, readOk, writeOk);
      second := ResetPassword(id, code, password', readOk', writeOk');
    }
  }
}
