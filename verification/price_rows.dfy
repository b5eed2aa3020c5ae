/** `update_db_with_prices`: the `(app_id, date, price)` tuples handed to the
    bulk insert, built from the price map with one shared date. */
module PriceRows {
  import opened Results
  import opened PriceMerge
  import opened PriceSync

  /** The calendar date the job runs on, supplied by the caller. */
  datatype Date = Date(year: int, month: int, day: int)

  datatype PriceRow = PriceRow(appId: string, date: Date, price: string)

  /** Exactly one row per key of `prices`, each with the shared date and the
      key's price. */
  predicate RowsOf(rows: seq<PriceRow>, prices: PriceMap, today: Date) {
    && |rows| == |prices|
    && (forall i :: 0 <= i < |rows| ==>
          rows[i].appId in prices && rows[i].date == today && rows[i].price == prices[rows[i].appId])
    && (forall i, j :: 0 <= i < j < |rows| ==> rows[i].appId != rows[j].appId)
    && (forall k :: k in prices ==> exists i :: 0 <= i < |rows| && rows[i].appId == k)
  }

  /** The list comprehension over the price map. The map's keys are visited
      in some order; the order of the rows is not part of the contract. */
  method BuildRows(prices: PriceMap, today: Date) returns (rows: seq<PriceRow>)
    ensures RowsOf(rows, prices, today)
  {
    rows := [];
    var pending := prices.Keys;
    while pending != {}
      invariant pending <= prices.Keys
      invariant |rows| + |pending| == |prices|
      invariant forall i :: 0 <= i < |rows| ==>
                  rows[i].appId in prices && rows[i].appId !in pending
                  && rows[i].date == today && rows[i].price == prices[rows[i].appId]
      invariant forall i, j :: 0 <= i < j < |rows| ==> rows[i].appId != rows[j].appId
      invariant forall k :: k in prices && k !in pending ==> exists i :: 0 <= i < |rows| && rows[i].appId == k
      decreases pending
    {
      var k :| k in pending;
      var before := rows;
      rows := rows + [PriceRow(k, today, prices[k])];
      assert rows[|before|].appId == k;
      forall k' | k' in prices && k' !in pending - {k}
        ensures exists i :: 0 <= i < |rows| && rows[i].appId == k'
      {
        if k' != k {
          var i :| 0 <= i < |before| && before[i].appId == k';
          assert rows[i].appId == k';
        }
      }
      pending := pending - {k};
    }
  }

  /** The whole job up to the write: collect the prices, then build the rows.
      A failure while collecting means no rows at all. */
  method UpdateDbWithPrices(topId: int, idsAt: int -> seq<int>, lookup: string -> Response, today: Date)
    returns (r: Result<seq<PriceRow>, FetchError>)
    ensures r.Success? <==> FoldMerge(map[], BatchResponses(Cursors(topId), idsAt, lookup)).Success?
    ensures r.Success? ==> RowsOf(r.value, FoldMerge(map[], BatchResponses(Cursors(topId), idsAt, lookup)).value, today)
  {
    var prices, _ := GetSteamPrices(topId, idsAt, lookup);
    if prices.Failure? {
      return Failure(prices.error);
    }
    var rows := BuildRows(prices.value, today);
    r := Success(rows);
  }
}
