/** `steam_web_api_request`: folding one parsed appdetails response into the
    accumulating price map. */
module PriceMerge {
  import opened Results

  /** The `price_overview` object; `None` when it lacks `final_formatted`. */
  datatype PriceOverview = PriceOverview(finalFormatted: Option<string>)

  /** The `data` member of an entry. `Empty` is a falsy value (the API sends
      an empty list); `Fields` is a non-empty object, which may or may not
      hold `price_overview`. */
  datatype AppData = Empty | Fields(priceOverview: Option<PriceOverview>)

  datatype AppEntry = AppEntry(success: bool, data: AppData)

  /** The decoded JSON body: app id (as a string) to its entry. */
  type Response = map<string, AppEntry>

  /** App id (as a string) to its formatted price. */
  type PriceMap = map<string, string>

  /** A qualifying entry whose payload has no `price_overview` or no
      `final_formatted` (a KeyError in the source). */
  datatype FetchError = PriceFieldMissing

  /** The entry passes both checks: `success` is true and `data` is truthy. */
  predicate Qualifies(e: AppEntry) {
    e.success && e.data.Fields?
  }

  function PriceOf(e: AppEntry): Option<string> {
    if e.data.Fields? && e.data.priceOverview.Some? then e.data.priceOverview.value.finalFormatted
    else None
  }

  /** Passes both checks, yet the price lookup would fail. */
  predicate Malformed(e: AppEntry) {
    Qualifies(e) && PriceOf(e).None?
  }

  /** The merge of a whole response: fails if any qualifying entry lacks a
      price; otherwise qualifying entries are inserted or overwritten and every
      other key keeps its value. */
  function Merge(prices: PriceMap, resp: Response): (r: Result<PriceMap, FetchError>)
    ensures r.Failure? <==> exists k :: k in resp && Malformed(resp[k])
    ensures r.Success? ==> forall k :: k in r.value <==> k in prices || (k in resp && Qualifies(resp[k]))
    ensures r.Success? ==> forall k :: k in resp && Qualifies(resp[k]) ==> r.value[k] == PriceOf(resp[k]).value
    ensures r.Success? ==> forall k :: k in prices && !(k in resp && Qualifies(resp[k])) ==> r.value[k] == prices[k]
  {
    if exists k :: k in resp && Malformed(resp[k]) then Failure(PriceFieldMissing)
    else Success(prices + map k | k in resp && Qualifies(resp[k]) :: PriceOf(resp[k]).value)
  }

  /** The source's loop over the response, one key at a time in whatever
      order the dictionary yields them; the first malformed qualifying entry
      aborts the merge. */
  method MergeResponse(resp: Response, prices: PriceMap) returns (r: Result<PriceMap, FetchError>)
    ensures r == Merge(prices, resp)
  {
    var pending := resp.Keys;
    var acc := prices;
    while pending != {}
      invariant pending <= resp.Keys
      invariant forall k :: k in resp && k !in pending ==> !Malformed(resp[k])
      invariant forall k :: k in acc <==> k in prices || (k in resp && k !in pending && Qualifies(resp[k]))
      invariant forall k :: k in resp && k !in pending && Qualifies(resp[k]) ==> acc[k] == PriceOf(resp[k]).value
      invariant forall k :: k in prices && !(k in resp && k !in pending && Qualifies(resp[k])) ==> acc[k] == prices[k]
      decreases pending
    {
      var k :| k in pending;
      var entry := resp[k];
      if entry.success {
        if entry.data.Fields? {
          var price := PriceOf(entry);
          if price.None? {
            return Failure(PriceFieldMissing);
          }
          acc := acc[k := price.value];
        }
      }
      pending := pending - {k};
    }
    var merged := Merge(prices, resp);
    assert merged.Success?;
    assert acc == merged.value;
    r := Success(acc);
  }
}
