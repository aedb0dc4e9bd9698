/** The badge catalogue: each row of the badge sheet after its header read as
    a name, a stock quantity and a unit cost. */
module Badges {
  import opened SheetData

  datatype Badge = Badge(name: string, quantity: int, cost: int)

  datatype BadgeError =
    | NoBadges     // 404: fewer than two rows, so no badge under the header
    | ReadFailed   // 500: the sheet read failed

  /** `{ name: row[0] || 'N/A', quantity: parseInt(row[1]) || 0,
      cost: parseInt(row[2]) || 0 }` */
  function BadgeOf(row: Row): (b: Badge)
    ensures b.name != ""
    ensures Text(row, BadgeNameColumn) == "" ==> b.name == "N/A"
    ensures Text(row, BadgeNameColumn) != "" ==> b.name == row[BadgeNameColumn]
    ensures ParseInt(Text(row, StockColumn)).None? ==> b.quantity == 0
    ensures ParseInt(Text(row, CostColumn)).None? ==> b.cost == 0
    ensures ParseInt(Text(row, StockColumn)).Some? ==> b.quantity == ParseInt(Text(row, StockColumn)).value
    ensures ParseInt(Text(row, CostColumn)).Some? ==> b.cost == ParseInt(Text(row, CostColumn)).value
  {
    Badge(CellOr(row, BadgeNameColumn, "N/A"), IntCell(row, StockColumn), IntCell(row, CostColumn))
  }

  /** `rows.map(...)` */
  function MapBadges(rows: seq<Row>): (bs: seq<Badge>)
    ensures |bs| == |rows|
    ensures forall i :: 0 <= i < |rows| ==> bs[i] == BadgeOf(rows[i])
  {
    if |rows| == 0 then [] else [BadgeOf(rows[0])] + MapBadges(rows[1..])
  }

  /** `GET /api/badges`: one badge per row after the header, in sheet
      order. */
  function ListBadges(rows: Table, readOk: bool): (r: Result<seq<Badge>, BadgeError>)
    ensures r == Err(ReadFailed) <==> !readOk
    ensures r == Err(NoBadges) <==> readOk && |rows| < 2
    ensures r.Ok? ==> |r.value| == |rows| - 1
    ensures r.Ok? ==> forall i :: 0 <= i < |r.value| ==> r.value[i] == BadgeOf(rows[i + 1])
  {
    if !readOk then Err(ReadFailed)
    else if |rows| < 2 then Err(NoBadges)
    else Ok(MapBadges(rows[1..]))
  }

  /** Writing a new stock number into column B of badge row k changes, in the
      listing, that badge's quantity to the number written and nothing else. */
  lemma ListingAfterStockWrite(rows: Table, k: nat, q: int)
    requires 0 < k < |rows|
    ensures ListBadges(SetCell(rows, k, StockColumn, IntToString(q)), true)
         == Ok(ListBadges(rows, true).value[k - 1 := BadgeOf(rows[k]).(quantity := q)])
  {
    var rows' := SetCell(rows, k, StockColumn, IntToString(q));
    var before := ListBadges(rows, true).value;
    var after := ListBadges(rows', true).value;
    ParseIntToString(q);
    assert |after| == |before|;
    forall i | 0 <= i < |after|
      ensures after[i] == before[k - 1 := BadgeOf(rows[k]).(quantity := q)][i]
    {
      assert RowAt(rows', i + 1) == rows'[i + 1] && RowAt(rows, i + 1) == rows[i + 1];
      if i + 1 == k {
        assert Text(rows'[k], BadgeNameColumn) == Text(rows[k], BadgeNameColumn);
        assert Text(rows'[k], CostColumn) == Text(rows[k], CostColumn);
        assert Text(rows'[k], StockColumn) == IntToString(q);
      }
    }
    assert after == before[k - 1 := BadgeOf(rows[k]).(quantity := q)];
  }
}
