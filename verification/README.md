# Steam price sync — a Dafny model

The job reads Steam app ids from a SQL Server table, asks the Steam
`appdetails` web API for their prices in batches of at most 800, merges the
successful answers into one map from app id to formatted price, and bulk-inserts
`(app_id, date, price)` rows dated today. This project models the logic between
those calls, with the database read, the HTTP call and the clock passed in as
parameters:

- `Decimal` — rendering an integer as `f"{i}"` does, and a parser for those renderings.
- `AppIdString` — the comma-separated id string put into the request URL. The source
  appends `"<id>,"` for every id and then slices off the last character. `Join` is the
  reference definition and `Split` models Python's `str.split(',')`.
- `PriceMerge` — `steam_web_api_request`, which folds one decoded response into the
  price map. A response maps an id string to `AppEntry(success, data)`. `data` is
  `Empty` (falsy) or `Fields(priceOverview)`. A missing `price_overview` or
  `final_formatted` under a qualifying entry is the source's `KeyError`, modelled as
  `Failure(PriceFieldMissing)`.
- `PriceSync` — the cursor loop of `get_steam_prices`. It starts at `topId`. At each
  positive cursor it takes the first 800 of `idsAt(cursor)`, serialises them, merges
  `lookup(idString)`, and lowers the cursor by 800.
- `PriceRows` — the row tuples of `update_db_with_prices`, one shared date, and the
  whole job up to the write.

An exception anywhere ends the process before the insert, so a partly updated
map is never seen. A failing merge is therefore a `Failure` for the whole run,
with no partial result.

## Model

| member | source | states |
|---|---|---|
| Decimal.NatToString | steam_webapi_pricing.py:75 | a non-negative id renders as a non-empty run of decimal digits with no leading zero |
| Decimal.IntToString | steam_webapi_pricing.py:75 | every id renders as a non-empty string with no comma in it, so the commas in the id string are exactly the separators |
| Decimal.NatRoundTrip | steam_webapi_pricing.py:72-75 | reading the digits of a rendered non-negative id gives back that id |
| Decimal.IntRoundTrip | steam_webapi_pricing.py:72-75 | parsing the rendering of any integer, negative ones included, gives back that integer |
| AppIdString.Join | steam_webapi_pricing.py:73-76 | the id string is empty exactly for an empty batch; otherwise it neither starts nor ends with a comma |
| AppIdString.DropLast | steam_webapi_pricing.py:76 | the `[:-1]` slice leaves the empty string empty and otherwise removes exactly the final character |
| AppIdString.TrailingJoinIsJoinWithComma | steam_webapi_pricing.py:73-75 | for a non-empty batch the loop's accumulator is the comma-joined renderings plus one trailing comma |
| AppIdString.BuildAppIdString | steam_webapi_pricing.py:72-76 | the loop-and-slice code yields the renderings joined by single commas, and the empty string for an empty batch |
| AppIdString.SplitJoin | steam_webapi_pricing.py:72-76 | splitting a non-empty batch's id string on ',' gives each id's rendering, in batch order |
| AppIdString.RoundTrip | steam_webapi_pricing.py:72-76 | splitting the id string on ',' and parsing every part gives back the batch, in order |
| AppIdString.EmptyBatch | steam_webapi_pricing.py:73-76 | an empty batch yields the empty string, which does not parse back to a list of ids |
| PriceMerge.Merge | steam_webapi_pricing.py:20-24 | the merge fails iff some entry passes both checks but lacks a price; on success, qualifying keys get their `final_formatted` price, no key is removed, and every other key keeps its old value |
| PriceMerge.MergeResponse | steam_webapi_pricing.py:20-24 | the key-by-key loop, in any key order, gives the same result as the whole-response merge, including the failure case |
| PriceSync.TakeBatch | steam_webapi_pricing.py:58-61 | a batch is a prefix of the matching ids of at most 800 ids; it has exactly 800 when at least 800 match, and all of them otherwise |
| PriceSync.CursorsShape | steam_webapi_pricing.py:51-79 | the loop visits ceil(top/800) cursors for a positive start and none otherwise; the i-th cursor is top - 800*i and every visited cursor is positive |
| PriceSync.LoopStep | steam_webapi_pricing.py:51-79 | one turn at a positive cursor appends that cursor to the fetched ones; a failing merge fails the whole run, and otherwise the run goes on from cursor - 800 with the merged map |
| PriceSync.GetSteamPrices | steam_webapi_pricing.py:36-81 | the loop's result is the left fold of merges over the batch responses in cursor order; the cursors fetched are a prefix of the visited ones and all of them on success; a non-positive start fetches nothing and returns the empty map |
| PriceSync.FoldFailsIff | steam_webapi_pricing.py:20-24 | collecting the prices fails exactly when some batch's response holds a qualifying entry without a price |
| PriceSync.FoldLastWins | steam_webapi_pricing.py:20-24 | after a successful run, a key that qualified in some batch holds its price from the latest such batch; any other key is present iff it was before, with its old value |
| PriceRows.BuildRows | steam_webapi_pricing.py:114 | exactly one row per key of the price map, no key twice, every row carrying the shared date and that key's price |
| PriceRows.UpdateDbWithPrices | steam_webapi_pricing.py:109-114 | the job yields rows exactly when price collection succeeds, and then one row per collected key with the run's date and price |

## Left out

- The HTTP request and JSON decoding (`requests.get`, `response.json()`): a foreign library and the network. `lookup` stands for both and returns the decoded response.
- The SQL queries, `pd.read_sql` and the `int(...)` conversion of the column: a foreign query engine. `idsAt(c)` stands for the rows with `entry_id <= c` in descending `entry_id` order; only the `TOP 800` cut is modelled (`TakeBatch`). Surrogate-key gaps and overlapping ranges are not modelled.
- The starting cursor: the top-1 query orders by `app_id` but returns an `entry_id`, and `fetchone()` returns a row object. The model takes `topId` as a plain integer.
- The database connection, `executemany` and `commit`: database I/O. The model returns the rows instead of writing them.
- `date.today()`: the clock. The date is a parameter.
- PriceMerge.FetchError: the `KeyError` does not carry the offending app id. Which qualifying entry Python reaches first depends on the dictionary's order, and the map in this model has none.
- PriceRows.BuildRows: the order of the rows (the dictionary's insertion order) is not stated. Only the set of rows is.
- Entries whose `success` is not a boolean, or that lack `success` or `data`: the model types `success` as a boolean and `data` as present, so these `KeyError`/identity cases are outside it.
- Python's `int()` also accepts signs, whitespace and underscores; `Decimal.ParseInt` accepts only an optional '-' followed by digits, which covers every rendering the source produces.
