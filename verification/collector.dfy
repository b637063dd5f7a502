/** The collector object and its paging loop `collect_repositories`: one request
    per page, the cursor of each page feeding the next request, the records of
    every page filtered, and the remaining quota taken from each page. */
module Collector {
  import opened Wrappers
  import opened Text
  import opened Query
  import opened Filter
  import opened QueryText

  /* ---------------------------------------------------------------------------
     Responses
     ------------------------------------------------------------------------- */

  datatype RateLimit = RateLimit(limit: int, cost: int, remaining: int, resetAt: Option<string>)

  /** `endCursor` and `hasNextPage` are `None` when missing or `null`. */
  datatype PageInfo = PageInfo(endCursor: Option<string>, startCursor: Option<string>, hasNextPage: Option<bool>)

  /** A `search` result; `edges` may be missing, which reads as no edges. */
  datatype Search = Search(repositoryCount: int, pageInfo: PageInfo, edges: Member<seq<Edge>>)

  /** The `data` of a response; `None` stands for a member that is missing,
      `null` or the empty object, all of which are falsy. */
  datatype Data = Data(search: Option<Search>, rateLimit: Option<RateLimit>)

  /** A decoded response body. */
  datatype Body = Body(data: Option<Data>)

  /** What a request yields: `None` when the server answers with a status
      other than 200, the decoded body otherwise. The answers to the requests
      of one collection are given, in order, as a sequence `Reply`s. */
  type Reply = Option<Body>

  /** A reply carrying a search result: the collector reads it as a page. */
  predicate IsPage(r: Reply)
  {
    r.Some? && r.value.data.Some? && r.value.data.value.search.Some?
  }

  function SearchOf(r: Reply): Search
    requires IsPage(r)
  {
    r.value.data.value.search.value
  }

  /** A page whose `hasNextPage` is truthy: the collector asks for another. */
  predicate Continues(r: Reply)
  {
    IsPage(r) && SearchOf(r).pageInfo.hasNextPage == Some(true)
  }

  /** `str(endCursor)`, the cursor of the request after a page. */
  function NextCursor(r: Reply): Option<string>
    requires IsPage(r)
  {
    Some(Str(SearchOf(r).pageInfo.endCursor))
  }

  /** `search.get('edges', [])`. */
  function EdgesOf(s: Search): seq<Edge>
  {
    match s.edges
    case Given(es) => es
    case _ => []
  }

  /** A page the collector can read without raising: it has a rate limit,
      edges that are not `null`, and no kept node with a `null` branch. */
  predicate Readable(r: Reply, th: Thresholds)
  {
    IsPage(r) ==>
      && r.value.data.value.rateLimit.Some?
      && SearchOf(r).edges != Null
      && AllSafe(EdgesOf(SearchOf(r)), th)
  }

  /** The records of a reply: the filtered edges of a readable page, and
      none for a reply that is no page. */
  function PageRecords(r: Reply, th: Thresholds): seq<Record>
  {
    if IsPage(r) && Readable(r, th) then FilterPage(EdgesOf(SearchOf(r)), th) else []
  }

  /** How many of the replies a collection consumes: up to and including the
      first that is not a page with a next page, or all of them. */
  function Span(rs: seq<Reply>): (n: nat)
    ensures n <= |rs|
    ensures |rs| > 0 ==> n > 0
  {
    if |rs| == 0 then 0
    else if !Continues(rs[0]) then 1
    else 1 + Span(rs[1..])
  }

  /** Every reply before the last consumed one continues; the last consumed
      one does not, unless it is the last reply of all. */
  lemma {:induction false} SpanFacts(rs: seq<Reply>)
    ensures forall k | 0 <= k < Span(rs) - 1 :: Continues(rs[k])
    ensures Span(rs) < |rs| ==> !Continues(rs[Span(rs) - 1])
    ensures Span(rs) > 0 && Continues(rs[Span(rs) - 1]) ==> Span(rs) == |rs|
    decreases |rs|
  {
    if |rs| > 0 && Continues(rs[0]) {
      var tail := rs[1..];
      SpanFacts(tail);
      forall k | 0 <= k < Span(rs) - 1
        ensures Continues(rs[k])
      {
        if k > 0 {
          assert rs[k] == tail[k - 1];
        }
      }
      if Span(tail) > 0 {
        assert rs[Span(rs) - 1] == tail[Span(tail) - 1];
      }
    }
  }

  /** The replies a collection consumes can all be read. */
  predicate Admissible(rs: seq<Reply>, th: Thresholds)
  {
    forall k | 0 <= k < Span(rs) :: Readable(rs[k], th)
  }

  lemma AdmissibleTail(rs: seq<Reply>, th: Thresholds)
    requires Admissible(rs, th) && |rs| > 0 && Continues(rs[0])
    ensures Admissible(rs[1..], th)
  {
    forall k | 0 <= k < Span(rs[1..])
      ensures Readable(rs[1..][k], th)
    {
      assert rs[1..][k] == rs[k + 1];
    }
  }

  /* ---------------------------------------------------------------------------
     The collector
     ------------------------------------------------------------------------- */

  /** A collector: its built query, its thresholds, and the quota and reset
      time its `quota` and `quota_reset_at` properties report. */
  datatype Collector = Collector(query: string, thresholds: Thresholds, quota: int, quotaResetAt: Option<string>)

  /** A new collector: the query built from the criteria, no quota yet. */
  function New(c: Criteria): (col: Collector)
    requires ValidCriteria(c)
    ensures col.quota == 0 && col.quotaResetAt.None?
    ensures col.thresholds.minIssues == c.minIssues && col.thresholds.minReleases == c.minReleases
    ensures col.thresholds.minWatchers == c.minWatchers
    ensures col.query == Concat(Layout(Values(c)))
  {
    BuildShape(c);
    Collector(Build(c), Thresholds(c.minIssues, c.minReleases, c.minWatchers), 0, None)
  }

  /** Why a collection ended: a page said there was none after it, a reply
      was no page, or there were no more replies to model. */
  datatype End = LastPage | Stopped | Unanswered

  /** The records yielded, the requests sent, and the collector's quota and
      reset time once the collection is over. */
  datatype Outcome = Outcome(records: seq<Record>, requests: seq<string>, quota: int, quotaResetAt: Option<string>, end: End)

  /** The collector after reading a page: quota and reset time from its rate limit. */
  function Charge(col: Collector, r: Reply): Collector
    requires IsPage(r) && r.value.data.value.rateLimit.Some?
  {
    var rl := r.value.data.value.rateLimit.value;
    col.(quota := rl.remaining, quotaResetAt := rl.resetAt)
  }

  /** `records` and `requests` come before those of `o`. */
  function Prepend(records: seq<Record>, requests: seq<string>, o: Outcome): Outcome
  {
    o.(records := records + o.records, requests := requests + o.requests)
  }

  /** `collect_repositories`, run to its end, from the page after `cursor`,
      on the replies `rs`. */
  function Collect(col: Collector, rs: seq<Reply>, cursor: Option<string>): Outcome
    requires Admissible(rs, col.thresholds)
    decreases |rs|
  {
    if |rs| == 0 then Outcome([], [], col.quota, col.quotaResetAt, Unanswered)
    else
      var request := PageQuery(col.query, cursor);
      var r := rs[0];
      if !IsPage(r) then Outcome([], [request], col.quota, col.quotaResetAt, Stopped)
      else
        var col' := Charge(col, r);
        var records := PageRecords(r, col.thresholds);
        if Continues(r) then
          AdmissibleTail(rs, col.thresholds);
          Prepend(records, [request], Collect(col', rs[1..], NextCursor(r)))
        else
          Outcome(records, [request], col'.quota, col'.quotaResetAt, LastPage)
  }

  /** One step of the collection: the first reply read, and the rest. */
  lemma CollectStep(col: Collector, rs: seq<Reply>, cursor: Option<string>)
    requires Admissible(rs, col.thresholds) && |rs| > 0
    ensures Readable(rs[0], col.thresholds)
    ensures !IsPage(rs[0]) ==>
      Collect(col, rs, cursor) == Outcome([], [PageQuery(col.query, cursor)], col.quota, col.quotaResetAt, Stopped)
    ensures IsPage(rs[0]) && !Continues(rs[0]) ==>
      var col' := Charge(col, rs[0]);
      Collect(col, rs, cursor)
        == Outcome(PageRecords(rs[0], col.thresholds), [PageQuery(col.query, cursor)], col'.quota, col'.quotaResetAt, LastPage)
    ensures Continues(rs[0]) ==>
      && Admissible(rs[1..], col.thresholds)
      && Collect(col, rs, cursor)
         == Prepend(PageRecords(rs[0], col.thresholds), [PageQuery(col.query, cursor)],
                    Collect(Charge(col, rs[0]), rs[1..], NextCursor(rs[0])))
  {
    if Continues(rs[0]) {
      AdmissibleTail(rs, col.thresholds);
    }
  }

  lemma PrependPrepend(a: seq<Record>, b: seq<string>, c: seq<Record>, d: seq<string>, o: Outcome)
    ensures Prepend(a, b, Prepend(c, d, o)) == Prepend(a + c, b + d, o)
  {
    assert a + (c + o.records) == (a + c) + o.records;
    assert b + (d + o.requests) == (b + d) + o.requests;
  }

  /** The loop of `collect_repositories`, consuming the replies in order. */
  method CollectRepositories(col: Collector, rs: seq<Reply>) returns (o: Outcome)
    requires Admissible(rs, col.thresholds)
    ensures o == Collect(col, rs, None)
  {
    var th := col.thresholds;
    var cur := col;
    var cursor: Option<string> := None;
    var records: seq<Record> := [];
    var requests: seq<string> := [];
    var hasNextPage := true;
    var end := Unanswered;
    var i := 0;
    assert rs[0..] == rs;
    while hasNextPage && i < |rs|
      invariant 0 <= i <= |rs|
      invariant cur.query == col.query && cur.thresholds == th
      invariant hasNextPage ==> end == Unanswered && Admissible(rs[i..], th)
      invariant hasNextPage ==> Prepend(records, requests, Collect(cur, rs[i..], cursor)) == Collect(col, rs, None)
      invariant !hasNextPage ==> Outcome(records, requests, cur.quota, cur.quotaResetAt, end) == Collect(col, rs, None)
      decreases |rs| - i
    {
      var r := rs[i];
      var rest := rs[i..];
      assert rest[0] == r && rest[1..] == rs[i + 1..];
      CollectStep(cur, rest, cursor);
      var request := PageQuery(col.query, cursor);
      if !IsPage(r) {
        end := Stopped;
        hasNextPage := false;
      } else {
        var page := PageRecords(r, th);
        if Continues(r) {
          PrependPrepend(records, requests, page, [request], Collect(Charge(cur, r), rs[i + 1..], NextCursor(r)));
          cursor := NextCursor(r);
        } else {
          end := LastPage;
          hasNextPage := false;
        }
        cur := Charge(cur, r);
        records := records + page;
      }
      requests := requests + [request];
      i := i + 1;
    }
    if hasNextPage {
      assert rs[i..] == [];
      assert records + [] == records && requests + [] == requests;
    }
    o := Outcome(records, requests, cur.quota, cur.quotaResetAt, end);
  }

  /* ---------------------------------------------------------------------------
     What a collection does
     ------------------------------------------------------------------------- */

  /** The rate limit of a readable page. */
  function RateOf(r: Reply): RateLimit
    requires IsPage(r) && r.value.data.value.rateLimit.Some?
  {
    r.value.data.value.rateLimit.value
  }

  /** One request per consumed reply, and the collection ends for the reason
      the last of them gives: a reply that is no page stops it, a page without
      a next page ends it, and otherwise the replies ran out. */
  lemma {:induction false} CollectEnds(col: Collector, rs: seq<Reply>, cursor: Option<string>, n: nat)
    requires Admissible(rs, col.thresholds) && n == Span(rs)
    ensures var o := Collect(col, rs, cursor);
      && |o.requests| == n
      && (o.end == Unanswered <==> n == |rs| && (n == 0 || Continues(rs[n - 1])))
      && (o.end == Stopped <==> n > 0 && !IsPage(rs[n - 1]))
      && (o.end == LastPage <==> n > 0 && IsPage(rs[n - 1]) && !Continues(rs[n - 1]))
    decreases |rs|
  {
    if |rs| > 0 {
      CollectStep(col, rs, cursor);
      if Continues(rs[0]) {
        CollectEnds(Charge(col, rs[0]), rs[1..], NextCursor(rs[0]), n - 1);
        assert n > 1 ==> rs[n - 1] == rs[1..][n - 2];
      }
    }
  }

  /** The first request continues from `cursor`; every later one continues
      from `str` of the previous page's `endCursor`. */
  lemma {:induction false} CollectRequests(col: Collector, rs: seq<Reply>, cursor: Option<string>, n: nat)
    requires Admissible(rs, col.thresholds) && n == Span(rs)
    ensures var o := Collect(col, rs, cursor);
      && |o.requests| == n
      && (n > 0 ==> o.requests[0] == PageQuery(col.query, cursor))
      && forall j | 0 <= j < n - 1 :: Continues(rs[j]) && o.requests[j + 1] == PageQuery(col.query, NextCursor(rs[j]))
    decreases |rs|
  {
    if |rs| > 0 {
      CollectStep(col, rs, cursor);
      if Continues(rs[0]) {
        var tail := rs[1..];
        var col' := Charge(col, rs[0]);
        var o, o' := Collect(col, rs, cursor), Collect(col', tail, NextCursor(rs[0]));
        CollectRequests(col', tail, NextCursor(rs[0]), n - 1);
        assert o.requests == [PageQuery(col.query, cursor)] + o'.requests;
        forall j | 0 <= j < n - 1
          ensures Continues(rs[j]) && o.requests[j + 1] == PageQuery(col.query, NextCursor(rs[j]))
        {
          assert o.requests[j + 1] == o'.requests[j];
          if j > 0 {
            assert tail[j - 1] == rs[j];
          }
        }
      }
    }
  }

  /** The records of the pages of `rs`, page after page. */
  function Harvest(rs: seq<Reply>, th: Thresholds): seq<Record>
  {
    if |rs| == 0 then [] else Harvest(rs[..|rs| - 1], th) + PageRecords(rs[|rs| - 1], th)
  }

  lemma {:induction false} HarvestCons(r: Reply, rs: seq<Reply>, th: Thresholds)
    ensures Harvest([r] + rs, th) == PageRecords(r, th) + Harvest(rs, th)
    decreases |rs|
  {
    var all := [r] + rs;
    if |rs| == 0 {
      assert all == [r] && all[..0] == [];
    } else {
      var init, last := rs[..|rs| - 1], rs[|rs| - 1];
      HarvestCons(r, init, th);
      assert all[..|all| - 1] == [r] + init;
      assert all[|all| - 1] == last;
      var a, b, c := PageRecords(r, th), Harvest(init, th), PageRecords(last, th);
      calc {
        Harvest(all, th);
        Harvest([r] + init, th) + c;
        (a + b) + c;
        a + (b + c);
        a + Harvest(rs, th);
      }
    }
  }

  lemma SpanPrefix(rs: seq<Reply>)
    requires |rs| > 0 && Continues(rs[0])
    ensures rs[..Span(rs)] == [rs[0]] + rs[1..][..Span(rs[1..])]
  {
  }

  /** The records yielded are those of the `n` consumed replies, in order:
      the filter applied to the edges of each page, and nothing for a reply
      that is no page. */
  lemma {:induction false} CollectHarvest(col: Collector, rs: seq<Reply>, cursor: Option<string>, n: nat)
    requires Admissible(rs, col.thresholds) && n == Span(rs)
    ensures Collect(col, rs, cursor).records == Harvest(rs[..n], col.thresholds)
    decreases |rs|
  {
    var th := col.thresholds;
    if |rs| > 0 {
      CollectStep(col, rs, cursor);
      if Continues(rs[0]) {
        var tail := rs[1..];
        CollectHarvest(Charge(col, rs[0]), tail, NextCursor(rs[0]), Span(tail));
        SpanPrefix(rs);
        HarvestCons(rs[0], tail[..Span(tail)], th);
      } else {
        assert rs[..Span(rs)] == [rs[0]];
        assert [rs[0]][..0] == [];
      }
    }
  }

  /** The quota and its reset time are those of the last page read; a
      collection that reads no page leaves them as they were. */
  lemma {:induction false} CollectQuota(col: Collector, rs: seq<Reply>, cursor: Option<string>, n: nat)
    requires Admissible(rs, col.thresholds) && n == Span(rs)
    ensures var o := Collect(col, rs, cursor);
      && (n > 0 && IsPage(rs[n - 1]) ==>
            o.quota == RateOf(rs[n - 1]).remaining && o.quotaResetAt == RateOf(rs[n - 1]).resetAt)
      && (n > 1 && !IsPage(rs[n - 1]) ==>
            IsPage(rs[n - 2]) && o.quota == RateOf(rs[n - 2]).remaining && o.quotaResetAt == RateOf(rs[n - 2]).resetAt)
      && (n == 0 || (n == 1 && !IsPage(rs[0])) ==>
            o.quota == col.quota && o.quotaResetAt == col.quotaResetAt)
    decreases |rs|
  {
    if |rs| > 0 {
      CollectStep(col, rs, cursor);
      if Continues(rs[0]) {
        var tail := rs[1..];
        var col' := Charge(col, rs[0]);
        CollectQuota(col', tail, NextCursor(rs[0]), n - 1);
        assert n > 1 ==> rs[n - 1] == tail[n - 2];
        assert n > 2 ==> rs[n - 2] == tail[n - 3];
      }
    }
  }

  lemma {:induction false} SpanLater(rs: seq<Reply>, later: seq<Reply>)
    requires |rs| > 0 && !Continues(rs[Span(rs) - 1])
    ensures Span(rs + later) == Span(rs)
    decreases |rs|
  {
    var all := rs + later;
    assert all[0] == rs[0];
    if Continues(rs[0]) {
      assert all[1..] == rs[1..] + later;
      assert rs[Span(rs) - 1] == rs[1..][Span(rs[1..]) - 1];
      SpanLater(rs[1..], later);
    }
  }

  lemma AdmissibleLater(rs: seq<Reply>, later: seq<Reply>, th: Thresholds)
    requires Admissible(rs, th) && Span(rs + later) == Span(rs)
    ensures Admissible(rs + later, th)
  {
    forall k | 0 <= k < Span(rs + later)
      ensures Readable((rs + later)[k], th)
    {
      assert (rs + later)[k] == rs[k];
    }
  }

  lemma {:induction false} CollectLater(col: Collector, rs: seq<Reply>, later: seq<Reply>, cursor: Option<string>)
    requires Admissible(rs, col.thresholds) && |rs| > 0 && !Continues(rs[Span(rs) - 1])
    ensures Span(rs + later) == Span(rs) && Admissible(rs + later, col.thresholds)
    ensures Collect(col, rs + later, cursor) == Collect(col, rs, cursor)
    decreases |rs|
  {
    SpanLater(rs, later);
    AdmissibleLater(rs, later, col.thresholds);
    var all := rs + later;
    assert all[0] == rs[0];
    if Continues(rs[0]) {
      assert all[1..] == rs[1..] + later;
      assert rs[Span(rs) - 1] == rs[1..][Span(rs[1..]) - 1];
      AdmissibleTail(rs, col.thresholds);
      CollectLater(Charge(col, rs[0]), rs[1..], later, NextCursor(rs[0]));
    }
  }

  /** Replies after the one that ends a collection are never asked for. */
  lemma CollectIgnoresLater(col: Collector, rs: seq<Reply>, later: seq<Reply>, cursor: Option<string>)
    requires Admissible(rs, col.thresholds)
    requires Collect(col, rs, cursor).end != Unanswered
    ensures Span(rs + later) == Span(rs) && Admissible(rs + later, col.thresholds)
    ensures Collect(col, rs + later, cursor) == Collect(col, rs, cursor)
  {
    CollectEnds(col, rs, cursor, Span(rs));
    CollectLater(col, rs, later, cursor);
  }

  /** The first request of a new collector is its built query with the
      `AFTER` slot emptied and nothing else changed, as long as the language
      does not itself contain `AFTER`. */
  lemma FirstRequest(c: Criteria, rs: seq<Reply>)
    requires ValidCriteria(c) && |rs| > 0
    requires LanguageGiven(c) ==> Free(c.language.value, AfterSlot)
    requires Admissible(rs, New(c).thresholds)
    ensures Collect(New(c), rs, None).requests[0] == Concat(Layout(Values(c))[11 := ""])
  {
    CollectRequests(New(c), rs, None, Span(rs));
    PageQueryShape(c, None);
  }

  /** When the second request fails, the collection ends with the first
      page's records, the first page's quota, and two requests sent. */
  lemma SecondRequestFails(col: Collector, first: Reply)
    requires Continues(first) && Readable(first, col.thresholds)
    ensures Admissible([first, None], col.thresholds)
    ensures var o := Collect(col, [first, None], None);
      && o.records == PageRecords(first, col.thresholds)
      && o.requests == [PageQuery(col.query, None), PageQuery(col.query, NextCursor(first))]
      && o.quota == RateOf(first).remaining
      && o.end == Stopped
  {
    var rs := [first, None];
    assert rs[1..] == [None];
    assert Span(rs) == 2;
    CollectStep(col, rs, None);
    CollectStep(Charge(col, first), rs[1..], NextCursor(first));
  }

  /** After a page that says there is a next page but gives no `endCursor`,
      the next request asks for the page after the cursor `"None"`; after an
      empty `endCursor` it asks for the first page again. */
  lemma CursorQuirks(col: Collector, first: Reply, second: Reply)
    requires Continues(first) && Readable(first, col.thresholds) && Readable(second, col.thresholds)
    ensures Admissible([first, second], col.thresholds)
    ensures |Collect(col, [first, second], None).requests| == 2
    ensures SearchOf(first).pageInfo.endCursor.None? ==>
      Collect(col, [first, second], None).requests[1] == ReplaceAll(col.query, AfterSlot, ", after: \"None\"")
    ensures SearchOf(first).pageInfo.endCursor == Some("") ==>
      Collect(col, [first, second], None).requests[1] == Collect(col, [first, second], None).requests[0]
  {
    var rs := [first, second];
    assert rs[1..] == [second];
    assert Span(rs) == 2;
    CollectRequests(col, rs, None, Span(rs));
    if SearchOf(first).pageInfo.endCursor.None? {
      assert NextCursor(first) == Some("None");
      assert AfterClause(Some("None")) == ", after: \"None\"";
    }
  }
}
