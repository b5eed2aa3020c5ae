/** The comma-separated app-id list that `get_steam_prices` places in the
    request URL (`appids=...`), and Python's `str.split(',')` as its inverse. */
module AppIdString {
  import opened Results
  import opened Decimal

  /** Reference definition: the renderings joined by single commas. */
  function Join(ids: seq<int>): (s: string)
    ensures |ids| == 0 <==> s == ""
    ensures |ids| > 0 ==> s[0] != ',' && s[|s| - 1] != ','
  {
    if |ids| == 0 then ""
    else if |ids| == 1 then IntToString(ids[0])
    else IntToString(ids[0]) + "," + Join(ids[1..])
  }

  /** What the source's loop has accumulated after visiting `ids`:
      every rendering followed by a comma. */
  function TrailingJoin(ids: seq<int>): string {
    if |ids| == 0 then "" else TrailingJoin(ids[..|ids| - 1]) + IntToString(ids[|ids| - 1]) + ","
  }

  /** Python's `s[:-1]`, which leaves the empty string empty. */
  function DropLast(s: string): (r: string)
    ensures |s| == 0 ==> r == ""
    ensures |s| > 0 ==> r + [s[|s| - 1]] == s
  {
    if |s| == 0 then s else s[..|s| - 1]
  }

  lemma {:induction false} JoinSnoc(ids: seq<int>, x: int)
    requires |ids| > 0
    ensures Join(ids + [x]) == Join(ids) + "," + IntToString(x)
    decreases |ids|
  {
    if |ids| == 1 {
      assert (ids + [x])[1..] == [x];
    } else {
      assert (ids + [x])[1..] == ids[1..] + [x];
      JoinSnoc(ids[1..], x);
    }
  }

  lemma {:induction false} TrailingJoinIsJoinWithComma(ids: seq<int>)
    requires |ids| > 0
    ensures TrailingJoin(ids) == Join(ids) + ","
    decreases |ids|
  {
    var init := ids[..|ids| - 1];
    var last := ids[|ids| - 1];
    assert TrailingJoin(ids) == TrailingJoin(init) + IntToString(last) + ",";
    if |ids| == 1 {
      assert Join(ids) == IntToString(last);
    } else {
      TrailingJoinIsJoinWithComma(init);
      assert ids == init + [last];
      JoinSnoc(init, last);
    }
  }

  /** The source's loop: append each rendering and a comma, then drop the
      final character. */
  method BuildAppIdString(ids: seq<int>) returns (s: string)
    ensures s == Join(ids)
  {
    var acc := "";
    var i := 0;
    while i < |ids|
      invariant 0 <= i <= |ids|
      invariant acc == TrailingJoin(ids[..i])
    {
      assert ids[..i + 1][..i] == ids[..i];
      acc := acc + IntToString(ids[i]) + ",";
      i := i + 1;
    }
    assert ids[..|ids|] == ids;
    if |ids| > 0 {
      TrailingJoinIsJoinWithComma(ids);
    }
    s := DropLast(acc);
  }

  /** Python's `s.split(',')`: always at least one part, empty parts kept. */
  function Split(s: string): (parts: seq<string>)
    ensures |parts| > 0
    decreases |s|
  {
    if |s| == 0 then [""]
    else
      var rest := Split(s[1..]);
      if s[0] == ',' then [""] + rest else [[s[0]] + rest[0]] + rest[1..]
  }

  lemma {:induction false} SplitWithoutComma(a: string)
    requires ',' !in a
    ensures Split(a) == [a]
    decreases |a|
  {
    if |a| > 0 {
      assert ',' !in a[1..];
      SplitWithoutComma(a[1..]);
      assert a[0] != ',';
      assert [a[0]] + a[1..] == a;
    }
  }

  lemma {:induction false} SplitAtFirstComma(a: string, b: string)
    requires ',' !in a
    ensures Split(a + "," + b) == [a] + Split(b)
    decreases |a|
  {
    if |a| == 0 {
      assert (a + "," + b)[1..] == b;
    } else {
      assert (a + "," + b)[1..] == a[1..] + "," + b;
      assert ',' !in a[1..];
      SplitAtFirstComma(a[1..], b);
      assert [a[0]] + a[1..] == a;
    }
  }

  function Renderings(ids: seq<int>): (parts: seq<string>)
    ensures |parts| == |ids|
    ensures forall k :: 0 <= k < |ids| ==> parts[k] == IntToString(ids[k])
  {
    if |ids| == 0 then [] else [IntToString(ids[0])] + Renderings(ids[1..])
  }

  /** Parses every part, failing if any part is not an integer. */
  function ParseAll(parts: seq<string>): (r: Option<seq<int>>)
    ensures r.Some? ==> |r.value| == |parts|
  {
    if |parts| == 0 then Some([])
    else
      match (ParseInt(parts[0]), ParseAll(parts[1..]))
      case (Some(x), Some(xs)) => Some([x] + xs)
      case _ => None
  }

  /** Splitting the id string on ',' yields exactly the renderings, in order. */
  lemma {:induction false} SplitJoin(ids: seq<int>)
    requires |ids| > 0
    ensures Split(Join(ids)) == Renderings(ids)
    decreases |ids|
  {
    if |ids| == 1 {
      SplitWithoutComma(IntToString(ids[0]));
    } else {
      SplitAtFirstComma(IntToString(ids[0]), Join(ids[1..]));
      SplitJoin(ids[1..]);
    }
  }

  lemma {:induction false} ParseRenderings(ids: seq<int>)
    ensures ParseAll(Renderings(ids)) == Some(ids)
    decreases |ids|
  {
    if |ids| > 0 {
      IntRoundTrip(ids[0]);
      ParseRenderings(ids[1..]);
      assert Renderings(ids)[1..] == Renderings(ids[1..]);
      assert [ids[0]] + ids[1..] == ids;
    }
  }

  /** Round trip: splitting the id string and parsing each part gives back
      the batch, in order. */
  lemma {:induction false} RoundTrip(ids: seq<int>)
    requires |ids| > 0
    ensures ParseAll(Split(Join(ids))) == Some(ids)
  {
    SplitJoin(ids);
    ParseRenderings(ids);
  }

  /** An empty batch yields an empty string, which splits into one empty
      part that is not an id. */
  lemma EmptyBatch()
    ensures Join([]) == ""
    ensures ParseAll(Split(Join([]))) == None
  {
  }
}
