/** `get_steam_prices`: the cursor loop that fetches the ids in batches of at
    most 800, queries the price API once per batch and merges each response.
    The database read and the HTTP call are parameters: `idsAt(c)` lists the
    app ids whose entry id is at most `c`, highest entry id first (the id
    query without its TOP clause), and `lookup(s)` is the decoded response
    for the id string `s`. */
module PriceSync {
  import opened Results
  import opened AppIdString
  import opened PriceMerge

  /** Ids per request and the step by which the cursor decreases. */
  const BatchSize := 800

  /** The query's `TOP 800`: the first `BatchSize` rows, or all of them if
      there are fewer. */
  function TakeBatch(rows: seq<int>): (batch: seq<int>)
    ensures |batch| <= BatchSize
    ensures batch <= rows
    ensures |rows| >= BatchSize ==> |batch| == BatchSize
    ensures |rows| <= BatchSize ==> batch == rows
  {
    if |rows| <= BatchSize then rows else rows[..BatchSize]
  }

  /** The number of requests the loop makes from a starting cursor:
      ceil(top / 800) for a positive cursor, none otherwise. */
  function BatchCount(top: int): nat {
    if top <= 0 then 0 else (top + BatchSize - 1) / BatchSize
  }

  /** The cursor values the loop visits, in order: `top`, `top - 800`, ...,
      while the cursor is positive. */
  function Cursors(top: int): seq<int>
    decreases if top > 0 then top else 0
  {
    if top <= 0 then [] else [top] + Cursors(top - BatchSize)
  }

  /** The loop runs ceil(top / 800) times from a positive cursor and not at
      all otherwise; the i-th cursor is `top - 800 * i`, and all are positive. */
  lemma {:induction false} CursorsShape(top: int)
    ensures |Cursors(top)| == BatchCount(top)
    ensures forall i :: 0 <= i < |Cursors(top)| ==> Cursors(top)[i] == top - BatchSize * i && Cursors(top)[i] > 0
    decreases if top > 0 then top else 0
  {
    if top > 0 {
      CursorsShape(top - BatchSize);
      var cs := Cursors(top);
      forall i | 0 <= i < |cs|
        ensures cs[i] == top - BatchSize * i && cs[i] > 0
      {
        if i > 0 {
          assert cs[i] == Cursors(top - BatchSize)[i - 1];
        }
      }
    }
  }

  /** The response to the one request made at `cursor`. */
  function ResponseAt(cursor: int, idsAt: int -> seq<int>, lookup: string -> Response): Response {
    lookup(Join(TakeBatch(idsAt(cursor))))
  }

  /** The responses of the requests made at the given cursors, in order. */
  function BatchResponses(cursors: seq<int>, idsAt: int -> seq<int>, lookup: string -> Response): seq<Response>
  {
    if |cursors| == 0 then []
    else [ResponseAt(cursors[0], idsAt, lookup)] + BatchResponses(cursors[1..], idsAt, lookup)
  }

  /** Left fold of `Merge` over the responses; the first failure stops it. */
  function FoldMerge(prices: PriceMap, resps: seq<Response>): Result<PriceMap, FetchError>
    decreases |resps|
  {
    if |resps| == 0 then Success(prices)
    else
      match Merge(prices, resps[0])
      case Failure(e) => Failure(e)
      case Success(next) => FoldMerge(next, resps[1..])
  }

  /** One turn of the loop at a positive cursor: the batch fetched here is
      the next visited cursor, and merging its response either fails the
      whole fold or leaves the fold of the remaining cursors to do. */
  lemma LoopStep(topId: int, cursor: int, fetched: seq<int>, prices: PriceMap,
                 merged: Result<PriceMap, FetchError>, idsAt: int -> seq<int>, lookup: string -> Response)
    requires cursor > 0
    requires Cursors(topId) == fetched + Cursors(cursor)
    requires FoldMerge(map[], BatchResponses(Cursors(topId), idsAt, lookup))
          == FoldMerge(prices, BatchResponses(Cursors(cursor), idsAt, lookup))
    requires merged == Merge(prices, ResponseAt(cursor, idsAt, lookup))
    ensures Cursors(topId) == (fetched + [cursor]) + Cursors(cursor - BatchSize)
    ensures merged.Failure? ==> FoldMerge(map[], BatchResponses(Cursors(topId), idsAt, lookup)) == Failure(merged.error)
    ensures merged.Success? ==> FoldMerge(map[], BatchResponses(Cursors(topId), idsAt, lookup))
                                == FoldMerge(merged.value, BatchResponses(Cursors(cursor - BatchSize), idsAt, lookup))
  {
  }

  /** The loop of `get_steam_prices`. `fetched` lists the cursors at which a
      batch was requested. */
  method GetSteamPrices(topId: int, idsAt: int -> seq<int>, lookup: string -> Response)
    returns (r: Result<PriceMap, FetchError>, fetched: seq<int>)
    ensures r == FoldMerge(map[], BatchResponses(Cursors(topId), idsAt, lookup))
    ensures fetched <= Cursors(topId)
    ensures r.Success? ==> fetched == Cursors(topId) && |fetched| == BatchCount(topId)
    ensures topId <= 0 ==> r == Success(map[]) && fetched == []
  {
    var prices: PriceMap := map[];
    var cursor := topId;
    fetched := [];
    while cursor > 0
      invariant cursor <= topId
      invariant topId <= 0 ==> fetched == [] && prices == map[]
      invariant Cursors(topId) == fetched + Cursors(cursor)
      invariant FoldMerge(map[], BatchResponses(Cursors(topId), idsAt, lookup))
             == FoldMerge(prices, BatchResponses(Cursors(cursor), idsAt, lookup))
      decreases cursor
    {
      var ids := BuildAppIdString(TakeBatch(idsAt(cursor)));
      var merged := MergeResponse(lookup(ids), prices);
      LoopStep(topId, cursor, fetched, prices, merged, idsAt, lookup);
      fetched := fetched + [cursor];
      if merged.Failure? {
        r := Failure(merged.error);
        return;
      }
      prices := merged.value;
      cursor := cursor - BatchSize;
    }
    assert Cursors(cursor) == [];
    CursorsShape(topId);
    r := Success(prices);
  }

  /** Independent account of the final map: the price of `k` in the latest
      response in which `k` passes both checks, if any. */
  function LatestPrice(resps: seq<Response>, k: string): Option<string>
    decreases |resps|
  {
    if |resps| == 0 then None
    else
      var last := resps[|resps| - 1];
      if k in last && Qualifies(last[k]) then PriceOf(last[k])
      else LatestPrice(resps[..|resps| - 1], k)
  }

  /** Some response holds a qualifying entry without a price. */
  predicate AnyMalformed(resps: seq<Response>) {
    exists i, k :: 0 <= i < |resps| && k in resps[i] && Malformed(resps[i][k])
  }

  /** Folding one more response onto the end is one more merge. */
  lemma {:induction false} FoldSnoc(prices: PriceMap, resps: seq<Response>, resp: Response)
    ensures FoldMerge(prices, resps + [resp])
         == match FoldMerge(prices, resps)
            case Failure(e) => Failure(e)
            case Success(m) => Merge(m, resp)
    decreases |resps|
  {
    if |resps| == 0 {
      assert ([] + [resp])[1..] == [];
    } else {
      assert (resps + [resp])[0] == resps[0];
      assert (resps + [resp])[1..] == resps[1..] + [resp];
      match Merge(prices, resps[0])
      case Failure(e) =>
      case Success(next) => FoldSnoc(next, resps[1..], resp);
    }
  }

  /** The fold fails exactly when some response holds a qualifying entry
      without a price. */
  lemma {:induction false} FoldFailsIff(prices: PriceMap, resps: seq<Response>)
    ensures FoldMerge(prices, resps).Failure? <==> AnyMalformed(resps)
    decreases |resps|
  {
    if |resps| > 0 {
      match Merge(prices, resps[0])
      case Failure(e) =>
        var k :| k in resps[0] && Malformed(resps[0][k]);
        assert 0 <= 0 < |resps| && k in resps[0] && Malformed(resps[0][k]);
      case Success(next) =>
        FoldFailsIff(next, resps[1..]);
        if AnyMalformed(resps) {
          var i, k :| 0 <= i < |resps| && k in resps[i] && Malformed(resps[i][k]);
          assert i > 0;
          assert k in resps[1..][i - 1] && Malformed(resps[1..][i - 1][k]);
        }
        if AnyMalformed(resps[1..]) {
          var i, k :| 0 <= i < |resps[1..]| && k in resps[1..][i] && Malformed(resps[1..][i][k]);
          assert k in resps[i + 1] && Malformed(resps[i + 1][k]);
        }
    }
  }

  /** Last batch wins: after a successful fold, a key that qualified in some
      response holds its latest price; every other key is present exactly
      when it was present before, with its old value. */
  lemma {:induction false} FoldLastWins(prices: PriceMap, resps: seq<Response>, k: string)
    requires FoldMerge(prices, resps).Success?
    ensures LatestPrice(resps, k).Some? ==>
              k in FoldMerge(prices, resps).value && FoldMerge(prices, resps).value[k] == LatestPrice(resps, k).value
    ensures LatestPrice(resps, k).None? ==>
              (k in FoldMerge(prices, resps).value <==> k in prices)
              && (k in prices ==> FoldMerge(prices, resps).value[k] == prices[k])
    decreases |resps|
  {
    if |resps| > 0 {
      var init := resps[..|resps| - 1];
      var last := resps[|resps| - 1];
      assert resps == init + [last];
      FoldSnoc(prices, init, last);
      if FoldMerge(prices, init).Failure? {
        assert false;
      }
      FoldLastWins(prices, init, k);
    }
  }
}
