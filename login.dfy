/** Logging in: the credential lookup in the student sheet and the badge
    holdings folded from the purchase log. */
module Login {
  import opened SheetData
  import Level

  datatype LoginError =
    | MissingCredentials   // 400: id or password absent
    | NoStudents           // 404: the student sheet has no rows
    | InvalidCredentials   // 401: no row after the header matches both
    | ReadFailed           // 500: a sheet read failed

  /** The `student` object of a successful login. */
  datatype StudentView = StudentView(
    id: string,
    name: string,
    homework: string,
    attendance: string,
    coins: string,
    badgeCount: string,
    points: int,
    level: nat,
    purchases: map<string, int>,
    rowIndex: nat)

  /** `row[0] === studentId && row[4] === password` */
  predicate HasCredentials(row: Row, id: string, password: string) {
    CellIs(row, IdColumn, id) && CellIs(row, PasswordColumn, password)
  }

  /** The 0-based index of the first student row after the header that
      carries both the id and the password. */
  function FindStudent(rows: Table, id: string, password: string): (r: Option<nat>)
    ensures r.Some? ==>
      0 < r.value < |rows| && HasCredentials(rows[r.value], id, password) &&
      forall j :: 0 < j < r.value ==> !HasCredentials(rows[j], id, password)
    ensures r.None? <==> forall j :: 0 < j < |rows| ==> !HasCredentials(rows[j], id, password)
  {
    FindAfterHeader(rows, row => HasCredentials(row, id, password))
  }

  // ---------------------------------------------------------------------
  // Holdings

  /** The property name `acc[row[2]]` uses: a missing cell is the name
      "undefined". */
  function ItemKey(row: Row): string {
    if ItemColumn < |row| then row[ItemColumn] else "undefined"
  }

  /** `parseInt(row[3]) || 0` */
  function ItemQty(row: Row): int {
    IntCell(row, QuantityColumn)
  }

  /** `row[1] === studentId` */
  predicate BoughtBy(row: Row, id: string) {
    CellIs(row, BuyerColumn, id)
  }

  function Get(m: map<string, int>, key: string): int {
    if key in m then m[key] else 0
  }

  /** `acc[name] = (acc[name] || 0) + qty` */
  function Credit(acc: map<string, int>, key: string, qty: int): map<string, int> {
    acc[key := Get(acc, key) + qty]
  }

  /** The `reduce` over a student's purchase rows, in log order. */
  function Fold(rows: seq<Row>, acc: map<string, int>): (m: map<string, int>)
    ensures forall key :: key in acc ==> key in m
    ensures forall row :: row in rows ==> ItemKey(row) in m
    decreases |rows|
  {
    if |rows| == 0 then acc
    else Fold(rows[1..], Credit(acc, ItemKey(rows[0]), ItemQty(rows[0])))
  }

  /** `rows.filter(row => row[1] === studentId)` */
  function OwnRows(rows: seq<Row>, id: string): (own: seq<Row>)
    ensures |own| <= |rows|
    ensures forall i :: 0 <= i < |own| ==> BoughtBy(own[i], id)
  {
    if |rows| == 0 then []
    else (if BoughtBy(rows[0], id) then [rows[0]] else []) + OwnRows(rows[1..], id)
  }

  /** The filter loses no row of the student and adds none. */
  lemma {:induction false} OwnRowsMembers(rows: seq<Row>, id: string)
    ensures forall i :: 0 <= i < |OwnRows(rows, id)| ==> OwnRows(rows, id)[i] in rows
    ensures forall i :: 0 <= i < |rows| && BoughtBy(rows[i], id) ==> rows[i] in OwnRows(rows, id)
  {
    if |rows| > 0 {
      OwnRowsMembers(rows[1..], id);
      var head := if BoughtBy(rows[0], id) then [rows[0]] else [];
      assert OwnRows(rows, id) == head + OwnRows(rows[1..], id);
      forall i | 0 <= i < |rows| && BoughtBy(rows[i], id)
        ensures rows[i] in OwnRows(rows, id)
      {
        if i > 0 {
          assert rows[i] == rows[1..][i - 1];
        }
      }
      forall i | 0 <= i < |OwnRows(rows, id)|
        ensures OwnRows(rows, id)[i] in rows
      {
        if i >= |head| {
          assert OwnRows(rows, id)[i] == OwnRows(rows[1..], id)[i - |head|];
          assert OwnRows(rows, id)[i] in rows[1..];
        }
      }
    }
  }

  /** The rows of a sheet after its header. */
  function AfterHeader(t: Table): seq<Row> {
    if |t| == 0 then [] else t[1..]
  }

  /** `badgesMap`: a student's purchases summed per badge name. A log that is
      empty or holds only its header gives no holdings. */
  function Holdings(log: Table, id: string): (h: map<string, int>)
    ensures |log| <= 1 ==> h == map[]
  {
    var own := if |log| > 1 then OwnRows(log[1..], id) else [];
    Fold(own, map[])
  }

  /** Reference definition: the total quantity of `key` over the rows that
      belong to `id`. */
  function Bought(rows: seq<Row>, id: string, key: string): int {
    if |rows| == 0 then 0
    else (if BoughtBy(rows[0], id) && ItemKey(rows[0]) == key then ItemQty(rows[0]) else 0)
         + Bought(rows[1..], id, key)
  }

  /** Some row of `id` names `key`. */
  predicate EverBought(rows: seq<Row>, id: string, key: string) {
    exists j :: 0 <= j < |rows| && BoughtBy(rows[j], id) && ItemKey(rows[j]) == key
  }

  lemma {:induction false} FoldOwnRows(rows: seq<Row>, id: string, acc: map<string, int>, key: string)
    ensures Get(Fold(OwnRows(rows, id), acc), key) == Get(acc, key) + Bought(rows, id, key)
    ensures key in Fold(OwnRows(rows, id), acc) <==> key in acc || EverBought(rows, id, key)
  {
    if |rows| > 0 {
      var r := rows[0];
      var rest := rows[1..];
      var acc' := if BoughtBy(r, id) then Credit(acc, ItemKey(r), ItemQty(r)) else acc;
      if BoughtBy(r, id) {
        assert OwnRows(rows, id) == [r] + OwnRows(rest, id);
        assert ([r] + OwnRows(rest, id))[1..] == OwnRows(rest, id);
      } else {
        assert OwnRows(rows, id) == OwnRows(rest, id);
      }
      assert Fold(OwnRows(rows, id), acc) == Fold(OwnRows(rest, id), acc');
      FoldOwnRows(rest, id, acc', key);
      if EverBought(rows, id, key) && !(BoughtBy(r, id) && ItemKey(r) == key) {
        var j :| 0 <= j < |rows| && BoughtBy(rows[j], id) && ItemKey(rows[j]) == key;
        assert rest[j - 1] == rows[j];
      }
      if EverBought(rest, id, key) {
        var j :| 0 <= j < |rest| && BoughtBy(rest[j], id) && ItemKey(rest[j]) == key;
        assert rows[j + 1] == rest[j];
      }
    }
  }

  /** Every badge name a student holds maps to the sum of the quantities in
      that student's log rows after the header; a name is present exactly
      when one of those rows names it. Rows of other students contribute
      nothing. */
  lemma HoldingsAreTotals(log: Table, id: string, key: string)
    ensures Get(Holdings(log, id), key) == Bought(AfterHeader(log), id, key)
    ensures key in Holdings(log, id) <==> EverBought(AfterHeader(log), id, key)
  {
    FoldOwnRows(AfterHeader(log), id, map[], key);
    if |log| == 1 {
      assert AfterHeader(log) == [];
    }
  }

  lemma {:induction false} OwnRowsAppend(rows: seq<Row>, row: Row, id: string)
    ensures OwnRows(rows + [row], id) == OwnRows(rows, id) + (if BoughtBy(row, id) then [row] else [])
  {
    if |rows| == 0 {
      assert OwnRows([row], id) == (if BoughtBy(row, id) then [row] else []) + OwnRows([], id);
    } else {
      assert (rows + [row])[1..] == rows[1..] + [row];
      OwnRowsAppend(rows[1..], row, id);
    }
  }

  lemma {:induction false} FoldAppend(rows: seq<Row>, row: Row, acc: map<string, int>)
    ensures Fold(rows + [row], acc) == Credit(Fold(rows, acc), ItemKey(row), ItemQty(row))
  {
    if |rows| > 0 {
      assert (rows + [row])[1..] == rows[1..] + [row];
      FoldAppend(rows[1..], row, Credit(acc, ItemKey(rows[0]), ItemQty(rows[0])));
    } else {
      assert ([row])[1..] == [];
    }
  }

  /** Appending one purchase row to a log that has its header credits the
      row's quantity to its badge for the buyer, and changes no other
      student's holdings. Appended to an empty log, the row becomes the
      header and credits nothing. */
  lemma HoldingsAfterAppend(log: Table, row: Row, id: string)
    ensures |log| >= 1 ==>
      Holdings(log + [row], id) ==
        if BoughtBy(row, id) then Credit(Holdings(log, id), ItemKey(row), ItemQty(row))
        else Holdings(log, id)
    ensures |log| == 0 ==> Holdings(log + [row], id) == map[]
  {
    if |log| >= 1 {
      assert (log + [row])[1..] == log[1..] + [row];
      OwnRowsAppend(log[1..], row, id);
      if BoughtBy(row, id) {
        FoldAppend(OwnRows(log[1..], id), row, map[]);
      } else {
        assert OwnRows(log[1..], id) + [] == OwnRows(log[1..], id);
      }
      if |log| == 1 {
        assert log[1..] == [];
      }
    }
  }

  // ---------------------------------------------------------------------
  // The login handler

  /** The view of student row `row`, found at 0-based index k. */
  function ViewOf(row: Row, k: nat, purchases: Table, id: string): (v: StudentView)
    ensures v.id == id && v.rowIndex == k + 1 && v.purchases == Holdings(purchases, id)
    ensures v.level <= 5 && v.level == Level.CalculateLevel(v.points)
    ensures v.points == IntCell(row, PointsColumn)
    ensures v.name != "" && v.homework != "" && v.attendance != "" && v.coins != "" && v.badgeCount != ""
    ensures Text(row, NameColumn) == "" ==> v.name == "N/A"
    ensures Text(row, NameColumn) != "" ==> v.name == row[NameColumn]
    ensures Text(row, CoinsColumn) == "" ==> v.coins == "0"
    ensures Text(row, CoinsColumn) != "" ==> v.coins == row[CoinsColumn]
  {
    var points := IntCell(row, PointsColumn);
    StudentView(
      id,
      CellOr(row, NameColumn, "N/A"),
      CellOr(row, HomeworkColumn, "0"),
      CellOr(row, AttendanceColumn, "0"),
      CellOr(row, CoinsColumn, "0"),
      CellOr(row, BadgeCountColumn, "0"),
      points,
      Level.CalculateLevel(points),
      Holdings(purchases, id),
      k + 1)
  }

  /** `POST /api/login`: the student sheet is read first (studentsRead says
      whether that read succeeded), then, after a match, the purchase log. */
  function Authenticate(students: Table, studentsRead: bool, purchases: Table, purchasesRead: bool,
                        id: string, password: string): (r: Result<StudentView, LoginError>)
    ensures r == Err(MissingCredentials) <==> id == "" || password == ""
    ensures r == Err(NoStudents) <==> id != "" && password != "" && studentsRead && |students| == 0
    ensures r == Err(InvalidCredentials) <==>
      id != "" && password != "" && studentsRead && |students| > 0 &&
      forall j :: 0 < j < |students| ==> !HasCredentials(students[j], id, password)
    ensures r == Err(ReadFailed) <==>
      id != "" && password != "" &&
      (!studentsRead ||
       (!purchasesRead && exists j :: 0 < j < |students| && HasCredentials(students[j], id, password)))
    ensures r.Ok? <==>
      id != "" && password != "" && studentsRead && purchasesRead &&
      exists j :: 0 < j < |students| && HasCredentials(students[j], id, password)
    ensures r.Ok? ==>
      var k := r.value.rowIndex - 1;
      0 < k < |students| && HasCredentials(students[k], id, password) &&
      (forall j :: 0 < j < k ==> !HasCredentials(students[j], id, password)) &&
      studentsRead && purchasesRead && r.value.id == id
    ensures r.Ok? ==>
      r.value.level == Level.CalculateLevel(r.value.points) &&
      r.value.points == IntCell(students[r.value.rowIndex - 1], PointsColumn) &&
      r.value.purchases == Holdings(purchases, id)
    ensures r.Ok? ==>
      var row := students[r.value.rowIndex - 1];
      r.value.name == CellOr(row, NameColumn, "N/A") && r.value.coins == CellOr(row, CoinsColumn, "0") &&
      r.value.homework == CellOr(row, HomeworkColumn, "0") &&
      r.value.attendance == CellOr(row, AttendanceColumn, "0") &&
      r.value.badgeCount == CellOr(row, BadgeCountColumn, "0")
  {
    if id == "" || password == "" then Err(MissingCredentials)
    else if !studentsRead then Err(ReadFailed)
    else if |students| == 0 then Err(NoStudents)
    else match FindStudent(students, id, password)
      case None => Err(InvalidCredentials)
      case Some(k) =>
        if !purchasesRead then Err(ReadFailed)
        else Ok(ViewOf(students[k], k, purchases, id))
  }
}
