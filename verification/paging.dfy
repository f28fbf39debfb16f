/** The per-site paging loop shared by `GetAlarms` and `GetEvents` in
    infrastructure/unifi.go: a growing `(start, limit)` cursor, and a cut-off at
    the first record that is not newer than the watermark. */
module Paging {
  import opened Types
  import opened Model

  /** The cursor before the first request. */
  const FirstCursor: Pagination := Pagination(0, 0)

  /** One round of the cursor update: `Start += Limit`, then `Limit += 20`. */
  function Advance(c: Pagination): Pagination {
    Pagination(c.limit + PaginateBy, c.start + c.limit)
  }

  /** The cursor of the k-th request of a site: `k` rounds of the update from
      the first cursor (index 0 is the cursor before any request). */
  function CursorAt(k: nat): Pagination
    decreases k
  {
    if k == 0 then FirstCursor else Advance(CursorAt(k - 1))
  }

  /** The offsets `[start, start + limit)` a window asks for. */
  predicate InWindow(n: int, c: Pagination) {
    c.start <= n < c.start + c.limit
  }

  /** The closed form of the k-th window: the limit is 20k and the start is
      10k(k-1), the sum of the earlier limits. */
  lemma {:induction false} CursorClosedForm(k: nat)
    ensures CursorAt(k).limit == PaginateBy * k
    ensures CursorAt(k).start == 10 * k * (k - 1)
    decreases k
  {
    if k > 0 {
      CursorClosedForm(k - 1);
      assert 10 * k * (k - 1) == 10 * (k - 1) * (k - 2) + PaginateBy * (k - 1);
    }
  }

  /** Each window begins exactly where the previous one ended. */
  lemma CursorsTile(k: nat)
    ensures CursorAt(k + 1).start == CursorAt(k).start + CursorAt(k).limit
  {
    assert CursorAt(k + 1) == Advance(CursorAt(k));
  }

  lemma {:induction false} StartMonotone(j: nat, k: nat)
    requires j <= k
    ensures CursorAt(j).start <= CursorAt(k).start
    decreases k - j
  {
    if j < k {
      StartMonotone(j, k - 1);
      CursorClosedForm(k - 1);
      assert CursorAt(k) == Advance(CursorAt(k - 1));
    }
  }

  /** The first window at or after `k` that holds offset `n`. */
  function WindowFrom(n: nat, k: nat): (r: nat)
    requires k >= 1 && CursorAt(k).start <= n
    ensures r >= k && InWindow(n, CursorAt(r))
    decreases n - CursorAt(k).start
  {
    CursorClosedForm(k);
    CursorsTile(k);
    if n < CursorAt(k).start + CursorAt(k).limit then k else WindowFrom(n, k + 1)
  }

  /** The request whose window holds record offset `n`. */
  function WindowOf(n: nat): (k: nat)
    ensures k >= 1 && InWindow(n, CursorAt(k))
  {
    WindowFrom(n, 1)
  }

  /** Windows never overlap: an offset lies in exactly one request's window. */
  lemma WindowsDisjoint(n: int, j: nat, k: nat)
    requires j >= 1 && k >= 1
    requires InWindow(n, CursorAt(j)) && InWindow(n, CursorAt(k))
    ensures j == k
  {
    if j != k {
      var lo, hi := if j < k then j else k, if j < k then k else j;
      CursorsTile(lo);
      StartMonotone(lo + 1, hi);
    }
  }

  /** The records of `page` kept before the first one that is not strictly
      after `since`; the scan of the page ends there. */
  function TakeNew(page: seq<Record>, since: Instant): (r: seq<Record>)
    ensures r <= page
    ensures forall i :: 0 <= i < |r| ==> r[i].datetime > since
    ensures |r| < |page| ==> page[|r|].datetime <= since
    decreases |page|
  {
    if |page| == 0 || page[0].datetime <= since then []
    else [page[0]] + TakeNew(page[1..], since)
  }

  /** The page holds a record that is not newer than the watermark. */
  predicate HasOld(page: seq<Record>, since: Instant) {
    exists i :: 0 <= i < |page| && page[i].datetime <= since
  }

  /** The scan stops inside a page exactly when the page has an old record. */
  lemma TakeNewStops(page: seq<Record>, since: Instant)
    ensures |TakeNew(page, since)| < |page| <==> HasOld(page, since)
  {
  }

  /** What one site's paging did: the windows requested, in order, and the
      outcome. */
  datatype SiteFetch = SiteFetch(requests: seq<Pagination>, outcome: Paged<seq<Record>>)

  /** Puts the records kept from one page in front of what later pages give. */
  function Prepend(kept: seq<Record>, rest: Paged<seq<Record>>): Paged<seq<Record>> {
    match rest
    case Done(rs) => Done(kept + rs)
    case Failed(e) => Failed(e)
    case Unfinished => Unfinished
  }

  /** The paging loop from cursor `c` on, for at most `fuel` more requests:
      advance the cursor, request the page, keep its leading new records, and
      stop after a page with an old record. A request error ends everything. */
  function FetchFrom(api: PageOracle, site: string, since: Instant, c: Pagination, fuel: nat): (r: SiteFetch)
    ensures |r.requests| <= fuel
    ensures r.outcome.Unfinished? ==> |r.requests| == fuel
    ensures fuel > 0 ==> |r.requests| > 0 && r.requests[0] == Advance(c)
    decreases fuel
  {
    if fuel == 0 then SiteFetch([], Unfinished)
    else
      var cur := Advance(c);
      match api(site, cur)
      case Err(e) => SiteFetch([cur], Failed(e))
      case Ok(page) =>
        var kept := TakeNew(page, since);
        if |kept| < |page| then SiteFetch([cur], Done(kept))
        else
          var rest := FetchFrom(api, site, since, cur, fuel - 1);
          SiteFetch([cur] + rest.requests, Prepend(kept, rest.outcome))
  }

  /** The whole paging of one site, starting from the first cursor. */
  function FetchSite(api: PageOracle, site: string, since: Instant, fuel: nat): SiteFetch {
    FetchFrom(api, site, since, FirstCursor, fuel)
  }

  /** A site's first request asks for 20 records from offset 0. */
  lemma FetchSiteFirstRequest(api: PageOracle, site: string, since: Instant, fuel: nat)
    requires fuel > 0
    ensures |FetchSite(api, site, since, fuel).requests| > 0
    ensures FetchSite(api, site, since, fuel).requests[0] == Pagination(PaginateBy, 0)
  {
  }

  // ---------------------------------------------------------------------
  // Reference: the same loop described by request number, with the window
  // of the k-th request in closed form.

  /** The controller's answer to the k-th request of a site. */
  function PageAt(api: PageOracle, site: string, k: nat): Result<seq<Record>> {
    api(site, CursorAt(k))
  }

  /** The records of the k-th page, or none if that request failed. */
  function RecordsAt(api: PageOracle, site: string, k: nat): seq<Record> {
    match PageAt(api, site, k)
    case Ok(page) => page
    case Err(_) => []
  }

  /** The k-th request leads to another one: its page arrived and every record
      in it is newer than the watermark (an empty page included). */
  predicate Continues(api: PageOracle, site: string, since: Instant, k: nat) {
    PageAt(api, site, k).Ok? && !HasOld(PageAt(api, site, k).value, since)
  }

  /** The pages of requests `lo` to `hi`, concatenated in request order. */
  function Joined(api: PageOracle, site: string, lo: nat, hi: nat): seq<Record>
    decreases hi + 1 - lo
  {
    if lo > hi then [] else RecordsAt(api, site, lo) + Joined(api, site, lo + 1, hi)
  }

  /** The records before the first old one are all kept: a fully new page in
      front of later pages does not change where the scan stops. */
  lemma {:induction false} TakeNewAfterNewPrefix(a: seq<Record>, b: seq<Record>, since: Instant)
    requires forall i :: 0 <= i < |a| ==> a[i].datetime > since
    ensures TakeNew(a + b, since) == a + TakeNew(b, since)
    decreases |a|
  {
    if |a| > 0 {
      var ab, tail := a + b, a[1..];
      assert ab[1..] == tail + b;
      TakeNewAfterNewPrefix(tail, b, since);
      var kept := TakeNew(b, since);
      assert TakeNew(ab, since) == [a[0]] + (tail + kept);
      assert [a[0]] + (tail + kept) == a + kept;
    } else {
      assert a + b == b;
    }
  }

  /** How paging ends at request `m` when requests `lo .. m-1` led on: the
      error of request `m`, or the longest new prefix of pages `lo .. m`. */
  function StopOutcome(api: PageOracle, site: string, since: Instant, lo: nat, m: nat): Paged<seq<Record>> {
    match PageAt(api, site, m)
    case Err(e) => Failed(e)
    case Ok(_) => Done(TakeNew(Joined(api, site, lo, m), since))
  }

  /** `requests` are the windows of requests `j+1, j+2, ...` in order. */
  predicate WindowsFrom(requests: seq<Pagination>, j: nat) {
    forall i :: 0 <= i < |requests| ==> requests[i] == CursorAt(j + 1 + i)
  }

  /** One round of the loop, from the cursor of request `j`, whose page ends
      paging: that request is the last, and its page gives the outcome. */
  lemma FetchFromRoundStops(api: PageOracle, site: string, since: Instant, j: nat, fuel: nat)
    requires fuel > 0 && !Continues(api, site, since, j + 1)
    ensures FetchFrom(api, site, since, CursorAt(j), fuel)
              == SiteFetch([CursorAt(j + 1)], StopOutcome(api, site, since, j + 1, j + 1))
  {
    var cur := Advance(CursorAt(j));
    assert cur == CursorAt(j + 1);
    assert Joined(api, site, j + 1, j + 1) == RecordsAt(api, site, j + 1) + [];
    match api(site, cur)
    case Err(e) =>
    case Ok(page) =>
      assert Joined(api, site, j + 1, j + 1) == page;
      TakeNewStops(page, since);
      assert |TakeNew(page, since)| < |page|;
  }

  /** One round of the loop, from the cursor of request `j`, whose page leads
      on: the page is kept whole in front of what the rounds after it give. */
  lemma FetchFromRoundContinues(api: PageOracle, site: string, since: Instant, j: nat, fuel: nat)
    requires fuel > 0 && Continues(api, site, since, j + 1)
    ensures var rest := FetchFrom(api, site, since, CursorAt(j + 1), fuel - 1);
            FetchFrom(api, site, since, CursorAt(j), fuel)
              == SiteFetch([CursorAt(j + 1)] + rest.requests, Prepend(RecordsAt(api, site, j + 1), rest.outcome))
  {
    var cur := Advance(CursorAt(j));
    assert cur == CursorAt(j + 1);
    var page := PageAt(api, site, j + 1).value;
    TakeNewStops(page, since);
    assert TakeNew(page, since) == page;
  }

  /** Paging from the cursor of request `j` makes requests `j+1 .. m` and
      ends as `StopOutcome` says. */
  predicate StopsAt(api: PageOracle, site: string, since: Instant, j: nat, m: nat, fuel: nat)
    requires j <= m
  {
    var r := FetchFrom(api, site, since, CursorAt(j), fuel);
    |r.requests| == m - j && WindowsFrom(r.requests, j) && r.outcome == StopOutcome(api, site, since, j + 1, m)
  }

  lemma StopsAtFirst(api: PageOracle, site: string, since: Instant, j: nat, fuel: nat)
    requires fuel > 0 && !Continues(api, site, since, j + 1)
    ensures StopsAt(api, site, since, j, j + 1, fuel)
  {
    FetchFromRoundStops(api, site, since, j, fuel);
    WindowsCons([], j);
    assert [CursorAt(j + 1)] + [] == [CursorAt(j + 1)];
  }

  lemma StopsAtLater(api: PageOracle, site: string, since: Instant, j: nat, m: nat, fuel: nat)
    requires fuel > 0 && j + 1 < m && Continues(api, site, since, j + 1)
    requires StopsAt(api, site, since, j + 1, m, fuel - 1)
    ensures StopsAt(api, site, since, j, m, fuel)
  {
    FetchFromRoundContinues(api, site, since, j, fuel);
    var rest := FetchFrom(api, site, since, CursorAt(j + 1), fuel - 1);
    WindowsCons(rest.requests, j);
    StopOutcomeCons(api, site, since, j + 1, m);
  }

  /** Paging from the cursor of request `j` that stops at request `m`: the
      requests made are `j+1 .. m`, and the outcome is `StopOutcome`. */
  lemma {:induction false} FetchFromStops(api: PageOracle, site: string, since: Instant, j: nat, m: nat, fuel: nat)
    requires j < m <= j + fuel
    requires forall k: nat :: j < k < m ==> Continues(api, site, since, k)
    requires !Continues(api, site, since, m)
    ensures StopsAt(api, site, since, j, m, fuel)
    decreases fuel
  {
    if m == j + 1 {
      StopsAtFirst(api, site, since, j, fuel);
    } else {
      assert Continues(api, site, since, j + 1);
      FetchFromStops(api, site, since, j + 1, m, fuel - 1);
      StopsAtLater(api, site, since, j, m, fuel);
    }
  }

  lemma WindowsCons(requests: seq<Pagination>, j: nat)
    requires WindowsFrom(requests, j + 1)
    ensures WindowsFrom([CursorAt(j + 1)] + requests, j)
  {
    var all := [CursorAt(j + 1)] + requests;
    forall i | 0 <= i < |all| ensures all[i] == CursorAt(j + 1 + i) {
      if i > 0 {
        assert all[i] == requests[i - 1];
      }
    }
  }

  /** A page that leads on is kept whole in front of how the later pages end. */
  lemma StopOutcomeCons(api: PageOracle, site: string, since: Instant, lo: nat, m: nat)
    requires lo < m && Continues(api, site, since, lo)
    ensures StopOutcome(api, site, since, lo, m)
              == Prepend(RecordsAt(api, site, lo), StopOutcome(api, site, since, lo + 1, m))
  {
    var page := RecordsAt(api, site, lo);
    var later := Joined(api, site, lo + 1, m);
    assert Joined(api, site, lo, m) == page + later;
    TakeNewStops(page, since);
    if PageAt(api, site, m).Ok? {
      TakeNewAfterNewPrefix(page, later, since);
    }
  }

  /** Paging from the cursor of request `j` when every request up to `j + fuel`
      leads to another one: the fuel runs out, the call has not returned, and
      the requests made so far are `j+1 .. j+fuel`. */
  lemma {:induction false} FetchFromRunsOn(api: PageOracle, site: string, since: Instant, j: nat, fuel: nat)
    requires forall k: nat :: j < k <= j + fuel ==> Continues(api, site, since, k)
    ensures var r := FetchFrom(api, site, since, CursorAt(j), fuel);
            && r.outcome == Unfinished
            && |r.requests| == fuel
            && forall i :: 0 <= i < |r.requests| ==> r.requests[i] == CursorAt(j + 1 + i)
    decreases fuel
  {
    if fuel > 0 {
      assert Continues(api, site, since, j + 1);
      var page := PageAt(api, site, j + 1);
      TakeNewStops(page.value, since);
      FetchFromRunsOn(api, site, since, j + 1, fuel - 1);
    }
  }

  /** A site's paging stops at request `m`, the first request that failed or
      brought an old record; its result is the longest new prefix of pages
      `1 .. m` joined in request order. */
  lemma FetchSiteStops(api: PageOracle, site: string, since: Instant, m: nat, fuel: nat)
    requires 1 <= m <= fuel
    requires forall k: nat :: 1 <= k < m ==> Continues(api, site, since, k)
    requires !Continues(api, site, since, m)
    ensures |FetchSite(api, site, since, fuel).requests| == m
    ensures forall i :: 0 <= i < m ==> FetchSite(api, site, since, fuel).requests[i] == CursorAt(i + 1)
    ensures FetchSite(api, site, since, fuel).outcome == StopOutcome(api, site, since, 1, m)
  {
    FetchFromStops(api, site, since, 0, m, fuel);
  }

  /** A site whose first `fuel` pages are all new (empty ones included) is
      still being paged when the fuel runs out. */
  lemma FetchSiteRunsOn(api: PageOracle, site: string, since: Instant, fuel: nat)
    requires forall k: nat :: 1 <= k <= fuel ==> Continues(api, site, since, k)
    ensures FetchSite(api, site, since, fuel).outcome == Unfinished
  {
    FetchFromRunsOn(api, site, since, 0, fuel);
  }

  /** More fuel changes nothing once the paging has finished. */
  lemma {:induction false} FetchFromFuel(api: PageOracle, site: string, since: Instant, c: Pagination, fuel: nat, more: nat)
    requires fuel <= more
    requires !FetchFrom(api, site, since, c, fuel).outcome.Unfinished?
    ensures FetchFrom(api, site, since, c, more) == FetchFrom(api, site, since, c, fuel)
    decreases fuel
  {
    var cur := Advance(c);
    if api(site, cur).Ok? {
      var page := api(site, cur).value;
      if |TakeNew(page, since)| == |page| {
        FetchFromFuel(api, site, since, cur, fuel - 1, more - 1);
      }
    }
  }

  // ---------------------------------------------------------------------
  // A controller that serves one fixed list, newest first, and answers a
  // window with the records at offsets [start, start + limit).

  function Clamp(x: int, n: nat): (r: nat)
    ensures r <= n
    ensures 0 <= x <= n ==> r == x
  {
    if x < 0 then 0 else if x > n then n else x
  }

  /** The slice of `records` a window asks for. */
  function Window(records: seq<Record>, c: Pagination): seq<Record> {
    var lo := Clamp(c.start, |records|);
    var hi := Clamp(c.start + c.limit, |records|);
    if lo <= hi then records[lo..hi] else []
  }

  /** The controller that holds `records` for every site. */
  function ListController(records: seq<Record>): PageOracle {
    (site: string, c: Pagination) => Ok(Window(records, c))
  }

  /** The record filter the paging stands in for: every record newer than
      the watermark, wherever it sits in the list. */
  function NewerThan(records: seq<Record>, since: Instant): (r: seq<Record>)
    ensures forall x :: x in r <==> x in records && x.datetime > since
    decreases |records|
  {
    if |records| == 0 then []
    else if records[0].datetime > since then [records[0]] + NewerThan(records[1..], since)
    else NewerThan(records[1..], since)
  }

  lemma NothingNewer(records: seq<Record>, since: Instant)
    requires forall i :: 0 <= i < |records| ==> records[i].datetime <= since
    ensures NewerThan(records, since) == []
  {
  }

  /** Newest first. */
  predicate Descending(records: seq<Record>) {
    forall i, j :: 0 <= i < j < |records| ==> records[i].datetime >= records[j].datetime
  }

  /** The cut-off keeps a prefix of what a full filter would keep: records
      newer than the watermark that come after an older one are lost. */
  lemma {:induction false} TakeNewWithinFilter(records: seq<Record>, since: Instant)
    ensures TakeNew(records, since) <= NewerThan(records, since)
    decreases |records|
  {
    if |records| > 0 && records[0].datetime > since {
      TakeNewWithinFilter(records[1..], since);
    }
  }

  /** On a newest-first list the cut-off loses nothing: it keeps exactly the
      records newer than the watermark. */
  lemma {:induction false} DescendingTakeNewIsFilter(records: seq<Record>, since: Instant)
    requires Descending(records)
    ensures TakeNew(records, since) == NewerThan(records, since)
    decreases |records|
  {
    if |records| > 0 {
      assert Descending(records[1..]);
      if records[0].datetime > since {
        DescendingTakeNewIsFilter(records[1..], since);
      } else {
        NothingNewer(records[1..], since);
      }
    }
  }

  /** Cutting the list after its first old record does not change the cut-off. */
  lemma {:induction false} TakeNewOfPrefix(records: seq<Record>, since: Instant, e: nat)
    requires |TakeNew(records, since)| < e <= |records|
    ensures TakeNew(records[..e], since) == TakeNew(records, since)
    decreases |records|
  {
    if records[0].datetime > since {
      assert records[..e][1..] == records[1..][..e - 1];
      TakeNewOfPrefix(records[1..], since, e - 1);
    }
  }

  lemma StartNonNegative(k: nat)
    ensures CursorAt(k).start >= 0
  {
    StartMonotone(0, k);
  }

  lemma ClampMonotone(x: int, y: int, n: nat)
    requires x <= y
    ensures Clamp(x, n) <= Clamp(y, n)
  {
  }

  /** The k-th page of the fixed-list controller is the slice between the
      starts of windows k and k + 1. */
  lemma ListPage(records: seq<Record>, site: string, k: nat)
    ensures Clamp(CursorAt(k).start, |records|) <= Clamp(CursorAt(k + 1).start, |records|)
    ensures PageAt(ListController(records), site, k)
              == Ok(records[Clamp(CursorAt(k).start, |records|)..Clamp(CursorAt(k + 1).start, |records|)])
  {
    CursorsTile(k);
    CursorClosedForm(k);
    ClampMonotone(CursorAt(k).start, CursorAt(k + 1).start, |records|);
  }

  lemma SliceConcat(s: seq<Record>, a: nat, b: nat, c: nat)
    requires a <= b <= c <= |s|
    ensures s[a..b] + s[b..c] == s[a..c]
  {
  }

  /** Requests `lo .. hi` of the fixed-list controller return, joined, the
      contiguous slice from the start of window `lo` to the end of window
      `hi`: no record is skipped or returned twice. */
  lemma {:induction false} ListJoined(records: seq<Record>, site: string, lo: nat, hi: nat)
    requires 1 <= lo <= hi + 1
    ensures Clamp(CursorAt(lo).start, |records|) <= Clamp(CursorAt(hi + 1).start, |records|)
    ensures Joined(ListController(records), site, lo, hi)
              == records[Clamp(CursorAt(lo).start, |records|)..Clamp(CursorAt(hi + 1).start, |records|)]
    decreases hi + 1 - lo
  {
    var n := |records|;
    StartMonotone(lo, hi + 1);
    ClampMonotone(CursorAt(lo).start, CursorAt(hi + 1).start, n);
    if lo <= hi {
      ListPage(records, site, lo);
      ListJoined(records, site, lo + 1, hi);
      var a, b, c := Clamp(CursorAt(lo).start, n), Clamp(CursorAt(lo + 1).start, n), Clamp(CursorAt(hi + 1).start, n);
      assert RecordsAt(ListController(records), site, lo) == records[a..b];
      SliceConcat(records, a, b, c);
    }
  }

  /** Every window that ends at or before the first old record is a page of
      new records. */
  lemma ListContinuesBefore(records: seq<Record>, site: string, since: Instant, k: nat)
    requires Clamp(CursorAt(k + 1).start, |records|) <= |TakeNew(records, since)|
    ensures Continues(ListController(records), site, since, k)
  {
    var n := |records|;
    ListPage(records, site, k);
    var a, b := Clamp(CursorAt(k).start, n), Clamp(CursorAt(k + 1).start, n);
    var page := records[a..b];
    var kept := TakeNew(records, since);
    forall i | 0 <= i < |page| ensures page[i].datetime > since {
      assert page[i] == records[a + i] == kept[a + i];
    }
  }

  /** The window that holds the first old record is a page with an old record. */
  lemma ListStopsAt(records: seq<Record>, site: string, since: Instant, m: nat)
    requires |TakeNew(records, since)| < |records|
    requires InWindow(|TakeNew(records, since)|, CursorAt(m))
    ensures !Continues(ListController(records), site, since, m)
  {
    var n := |records|;
    var idx := |TakeNew(records, since)|;
    ListPage(records, site, m);
    CursorsTile(m);
    StartNonNegative(m);
    var a, b := Clamp(CursorAt(m).start, n), Clamp(CursorAt(m + 1).start, n);
    assert records[a..b][idx - a] == records[idx];
  }

  /** A controller holding a list with an old record: paging ends at the
      request whose window holds the first old record, and the site's result
      is the list's longest new prefix. */
  lemma ListFetchDone(records: seq<Record>, site: string, since: Instant, fuel: nat)
    requires HasOld(records, since)
    requires fuel >= WindowOf(|TakeNew(records, since)|)
    ensures FetchSite(ListController(records), site, since, fuel).outcome == Done(TakeNew(records, since))
  {
    var api := ListController(records);
    var n := |records|;
    TakeNewStops(records, since);
    var idx := |TakeNew(records, since)|;
    var m := WindowOf(idx);
    ListContinuesUpTo(records, site, since, m);
    ListStopsAt(records, site, since, m);
    FetchSiteStops(api, site, since, m, fuel);
    ListResultIsPrefix(records, site, since, m);
  }

  lemma ListContinuesUpTo(records: seq<Record>, site: string, since: Instant, m: nat)
    requires InWindow(|TakeNew(records, since)|, CursorAt(m))
    ensures forall k: nat :: 1 <= k < m ==> Continues(ListController(records), site, since, k)
  {
    forall k: nat | 1 <= k < m ensures Continues(ListController(records), site, since, k) {
      StartMonotone(k + 1, m);
      ClampMonotone(CursorAt(k + 1).start, CursorAt(m).start, |records|);
      ListContinuesBefore(records, site, since, k);
    }
  }

  /** Requests `1 .. m` of the fixed-list controller return, joined, the
      list up to the end of window `m`. */
  lemma ListJoinedFromStart(records: seq<Record>, site: string, m: nat)
    requires m >= 1
    ensures Joined(ListController(records), site, 1, m) == records[..Clamp(CursorAt(m + 1).start, |records|)]
  {
    ListJoined(records, site, 1, m);
    assert CursorAt(1) == Advance(CursorAt(0));
    assert Clamp(CursorAt(1).start, |records|) == 0;
  }

  /** An offset inside window `m` comes before the end of that window. */
  lemma BeforeWindowEnd(idx: nat, n: nat, m: nat)
    requires idx < n && InWindow(idx, CursorAt(m))
    ensures idx < Clamp(CursorAt(m + 1).start, n)
  {
    CursorsTile(m);
  }

  lemma ListResultIsPrefix(records: seq<Record>, site: string, since: Instant, m: nat)
    requires m >= 1
    requires |TakeNew(records, since)| < |records|
    requires InWindow(|TakeNew(records, since)|, CursorAt(m))
    ensures TakeNew(Joined(ListController(records), site, 1, m), since) == TakeNew(records, since)
  {
    var e := Clamp(CursorAt(m + 1).start, |records|);
    ListJoinedFromStart(records, site, m);
    BeforeWindowEnd(|TakeNew(records, since)|, |records|, m);
    TakeNewOfPrefix(records, since, e);
  }

  /** The end of the list does not end the paging: past the last record
      every window is an empty page, which leads to another request, so a
      list with no old record keeps the loop running whatever the fuel. */
  lemma ListFetchNeverEnds(records: seq<Record>, site: string, since: Instant, fuel: nat)
    requires !HasOld(records, since)
    ensures FetchSite(ListController(records), site, since, fuel).outcome == Unfinished
  {
    var api := ListController(records);
    forall k: nat | 1 <= k <= fuel ensures Continues(api, site, since, k) {
      var page := PageAt(api, site, k);
      assert page.Ok?;
      forall i | 0 <= i < |page.value| ensures page.value[i] in records {
      }
    }
    FetchSiteRunsOn(api, site, since, fuel);
  }

  /** On a newest-first list with an old record, the site's result is exactly
      the records newer than the watermark. */
  lemma DescendingListFetch(records: seq<Record>, site: string, since: Instant, fuel: nat)
    requires Descending(records) && HasOld(records, since)
    requires fuel >= WindowOf(|TakeNew(records, since)|)
    ensures FetchSite(ListController(records), site, since, fuel).outcome == Done(NewerThan(records, since))
  {
    ListFetchDone(records, site, since, fuel);
    DescendingTakeNewIsFilter(records, since);
  }
}
