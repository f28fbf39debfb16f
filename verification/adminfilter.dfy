/** `filterAdminLoginEvents` of main.go: drops the events that record the
    configured administrator logging in. */
module AdminFilter {
  import opened Model

  /** The message head of the configured administrator's own login. */
  function AdminLoginPrefix(adminName: string): string {
    "Admin[" + adminName + "] log in from"
  }

  predicate IsAdminLogin(adminName: string, e: Record) {
    AdminLoginPrefix(adminName) <= e.msg
  }

  /** `a` is `b` with some elements left out, the rest in their order. */
  predicate IsSubsequence<T(==)>(a: seq<T>, b: seq<T>)
    decreases |b|
  {
    if |a| == 0 then true
    else if |b| == 0 then false
    else if a[0] == b[0] then IsSubsequence(a[1..], b[1..])
    else IsSubsequence(a, b[1..])
  }

  /** The events of one site that survive the filter. */
  function FilterEvents(adminName: string, events: seq<Record>): (r: seq<Record>)
    ensures IsSubsequence(r, events)
    ensures forall e :: multiset(r)[e] == if IsAdminLogin(adminName, e) then 0 else multiset(events)[e]
    decreases |events|
  {
    if |events| == 0 then []
    else
      var rest := FilterEvents(adminName, events[1..]);
      assert events == [events[0]] + events[1..];
      if IsAdminLogin(adminName, events[0]) then
        SubsequenceDropHead(rest, events);
        rest
      else [events[0]] + rest
  }

  /** Putting an element in front of the longer sequence keeps a subsequence. */
  lemma {:induction false} SubsequenceDropHead<T>(a: seq<T>, b: seq<T>)
    requires |b| > 0 && IsSubsequence(a, b[1..])
    ensures IsSubsequence(a, b)
    decreases |a| + |b|
  {
    if |a| > 0 && a[0] == b[0] {
      SubsequenceWeaken(a, b[1..]);
    }
  }

  /** Dropping the head of the shorter sequence keeps it a subsequence. */
  lemma {:induction false} SubsequenceWeaken<T>(a: seq<T>, b: seq<T>)
    requires |a| > 0 && IsSubsequence(a, b)
    ensures IsSubsequence(a[1..], b)
    decreases |a| + |b|
  {
    if |a| > 0 && |b| > 0 {
      if a[0] == b[0] {
        if |a| > 1 {
          SubsequenceWeaken(a[1..], b[1..]);
        }
        SubsequenceDropHead(a[1..], b);
      } else {
        SubsequenceWeaken(a, b[1..]);
        SubsequenceDropHead(a[1..], b);
      }
    }
  }

  /** `filterAdminLoginEvents(adminName, siteEvents)`. */
  function FilterAdminLoginEvents(adminName: string, siteEvents: SiteRecords): (r: SiteRecords)
    ensures r.Keys == siteEvents.Keys
    ensures forall s :: s in r ==> IsSubsequence(r[s], siteEvents[s])
    ensures forall s :: s in r ==> forall i :: 0 <= i < |r[s]| ==> !IsAdminLogin(adminName, r[s][i])
    ensures forall s :: s in r ==> forall e :: multiset(r[s])[e] == if IsAdminLogin(adminName, e) then 0 else multiset(siteEvents[s])[e]
  {
    map s | s in siteEvents :: FilterEvents(adminName, siteEvents[s])
  }

  /** Survivors are exactly the events that are not the administrator's login. */
  lemma FilterKeepsExactly(adminName: string, events: seq<Record>, e: Record)
    ensures e in FilterEvents(adminName, events) <==> e in events && !IsAdminLogin(adminName, e)
  {
    var r := FilterEvents(adminName, events);
    assert e in r <==> multiset(r)[e] > 0;
    assert e in events <==> multiset(events)[e] > 0;
  }

  /** Filtering twice is filtering once. */
  lemma {:induction false} FilterIdempotent(adminName: string, events: seq<Record>)
    ensures FilterEvents(adminName, FilterEvents(adminName, events)) == FilterEvents(adminName, events)
    decreases |events|
  {
    if |events| > 0 {
      FilterIdempotent(adminName, events[1..]);
      var rest := FilterEvents(adminName, events[1..]);
      if !IsAdminLogin(adminName, events[0]) {
        assert ([events[0]] + rest)[1..] == rest;
      }
    }
  }

  /** The site-level filter is idempotent too. */
  lemma FilterSitesIdempotent(adminName: string, siteEvents: SiteRecords)
    ensures FilterAdminLoginEvents(adminName, FilterAdminLoginEvents(adminName, siteEvents))
              == FilterAdminLoginEvents(adminName, siteEvents)
  {
    forall s | s in siteEvents {
      FilterIdempotent(adminName, siteEvents[s]);
    }
  }

  /** The configured administrator's own login is recognised. */
  lemma OwnLoginExample()
    ensures IsAdminLogin("alice", Record(0, "Admin[alice] log in from 10.0.0.5", ""))
  {
    assert "Admin[alice] log in from 10.0.0.5"[..|AdminLoginPrefix("alice")|] == AdminLoginPrefix("alice");
  }

  /** Another administrator's login is not. */
  lemma OtherLoginExample()
    ensures !IsAdminLogin("alice", Record(0, "Admin[bob] log in from 10.0.0.5", ""))
  {
    var theirs := "Admin[bob] log in from 10.0.0.5";
    assert AdminLoginPrefix("alice")[6] != theirs[6];
  }
}
