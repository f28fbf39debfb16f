/** The controller calls of infrastructure/unifi.go: `GetAlarms`, `GetEvents`
    and the directory fetches `getDevices` and `getUsers`. Each request is an
    oracle answer; the session step before each request is in `Sessions`. */
module Unifi {
  import opened Types
  import opened Model
  import opened Paging
  import opened Resolver
  import opened Text

  function SiteSet(sites: seq<string>): set<string> {
    set s | s in sites
  }

  /** Site `i` is the first one whose paging did not end with records. */
  predicate FirstUndone(api: PageOracle, sites: seq<string>, since: Instant, fuel: nat, i: nat)
    requires i < |sites|
  {
    && !FetchSite(api, sites[i], since, fuel).outcome.Done?
    && forall j :: 0 <= j < i ==> FetchSite(api, sites[j], since, fuel).outcome.Done?
  }

  /** The site loop of `GetAlarms`, also run by `GetEvents`: sites in
      configuration order, each paged in full; the first site whose paging
      fails (or has not returned) decides the outcome of the whole call. */
  function FetchSites(api: PageOracle, sites: seq<string>, since: Instant, fuel: nat): (r: Paged<SiteRecords>)
    ensures r.Done? ==> r.value.Keys == SiteSet(sites)
    ensures r.Done? ==> forall s :: s in r.value ==> FetchSite(api, s, since, fuel).outcome == Done(r.value[s])
    decreases |sites|
  {
    if |sites| == 0 then Done(map[])
    else
      var prefix, site := sites[..|sites| - 1], sites[|sites| - 1];
      match FetchSites(api, prefix, since, fuel)
      case Failed(e) => Failed(e)
      case Unfinished => Unfinished
      case Done(m) =>
        assert SiteSet(sites) == SiteSet(prefix) + {site};
        match FetchSite(api, site, since, fuel).outcome
        case Failed(e) => Failed(e)
        case Unfinished => Unfinished
        case Done(rs) => Done(m[site := rs])
  }

  /** The sites' results are all kept exactly when every site's paging ended
      with records. */
  lemma {:induction false} FetchSitesDone(api: PageOracle, sites: seq<string>, since: Instant, fuel: nat)
    ensures FetchSites(api, sites, since, fuel).Done? <==>
              forall i :: 0 <= i < |sites| ==> FetchSite(api, sites[i], since, fuel).outcome.Done?
    decreases |sites|
  {
    if |sites| > 0 {
      var prefix := sites[..|sites| - 1];
      FetchSitesDone(api, prefix, since, fuel);
      assert forall i :: 0 <= i < |prefix| ==> prefix[i] == sites[i];
    }
  }

  /** When the call does not end with records, the first site that did not
      decides: its error is the call's error, or it has not returned. */
  lemma {:induction false} FetchSitesFirstUndone(api: PageOracle, sites: seq<string>, since: Instant, fuel: nat)
    requires !FetchSites(api, sites, since, fuel).Done?
    ensures var r := FetchSites(api, sites, since, fuel);
            exists i :: 0 <= i < |sites| && FirstUndone(api, sites, since, fuel, i)
              && (r.Failed? ==> FetchSite(api, sites[i], since, fuel).outcome == Failed(r.error))
              && (r.Unfinished? ==> FetchSite(api, sites[i], since, fuel).outcome.Unfinished?)
    decreases |sites|
  {
    var prefix := sites[..|sites| - 1];
    assert forall i :: 0 <= i < |prefix| ==> prefix[i] == sites[i];
    if FetchSites(api, prefix, since, fuel).Done? {
      FetchSitesDone(api, prefix, since, fuel);
      assert FirstUndone(api, sites, since, fuel, |sites| - 1);
    } else {
      FetchSitesFirstUndone(api, prefix, since, fuel);
      var i :| 0 <= i < |prefix| && FirstUndone(api, prefix, since, fuel, i)
               && (FetchSites(api, prefix, since, fuel).Failed? ==>
                     FetchSite(api, prefix[i], since, fuel).outcome == Failed(FetchSites(api, prefix, since, fuel).error))
               && (FetchSites(api, prefix, since, fuel).Unfinished? ==>
                     FetchSite(api, prefix[i], since, fuel).outcome.Unfinished?);
      assert FirstUndone(api, sites, since, fuel, i);
    }
  }

  /** `GetAlarms(since)`. On a failure Go returns an empty map together with
      the error; here the failure alone, and the poll loop supplies the map. */
  function GetAlarms(api: PageOracle, sites: seq<string>, since: Instant, fuel: nat): (r: Paged<SiteRecords>)
    ensures r.Done? <==> forall i :: 0 <= i < |sites| ==> FetchSite(api, sites[i], since, fuel).outcome.Done?
    ensures r.Done? ==> r.value.Keys == SiteSet(sites)
    ensures r.Done? ==> forall s :: s in r.value ==> FetchSite(api, s, since, fuel).outcome == Done(r.value[s])
  {
    FetchSitesDone(api, sites, since, fuel);
    FetchSites(api, sites, since, fuel)
  }

  /** `getDevices` / `getUsers`: one request per site with `_limit = 0,
      _start = 0`, the whole returned list kept; any error ends the call. */
  function FetchDirectories<T(==)>(api: DirectoryOracle<T>, sites: seq<string>): (r: Result<map<string, seq<T>>>)
    ensures r.Ok? <==> forall i :: 0 <= i < |sites| ==> api(sites[i], FirstCursor).Ok?
    ensures r.Ok? ==> r.value.Keys == SiteSet(sites)
    ensures r.Ok? ==> forall s :: s in r.value ==> api(s, FirstCursor) == Ok(r.value[s])
    ensures r.Err? ==> exists i :: 0 <= i < |sites| && api(sites[i], FirstCursor) == Err(r.error)
                        && forall j :: 0 <= j < i ==> api(sites[j], FirstCursor).Ok?
    decreases |sites|
  {
    if |sites| == 0 then Ok(map[])
    else
      var prefix, site := sites[..|sites| - 1], sites[|sites| - 1];
      assert forall i :: 0 <= i < |prefix| ==> prefix[i] == sites[i];
      match FetchDirectories(api, prefix)
      case Err(e) => Err(e)
      case Ok(m) =>
        assert SiteSet(sites) == SiteSet(prefix) + {site};
        match api(site, FirstCursor)
        case Err(e) => Err(e)
        case Ok(entries) => Ok(m[site := entries])
  }

  /** Go's map index: a missing site reads as an empty directory. */
  function Lookup<T>(m: map<string, seq<T>>, site: string): seq<T> {
    if site in m then m[site] else []
  }

  /** `events` with every message rewritten by `replaceDeviceAndUserMac`
      using `devices` and `users`; nothing else about an event changes. */
  predicate RewrittenFrom(out: seq<Record>, events: seq<Record>, devices: seq<Device>, users: seq<User>) {
    && |out| == |events|
    && forall i :: 0 <= i < |out| ==>
         out[i] == events[i].(msg := ReplaceDeviceAndUserMac(devices, users, events[i].msg))
  }

  /** The substitution `GetEvents` applies to each kept event, site by site.
      (Go applies it inside the paging loop, record by record; the rewrite
      does not touch `Datetime`, so the cut-off is the same.) */
  function RewriteSites(m: SiteRecords, devices: map<string, seq<Device>>, users: map<string, seq<User>>): (r: SiteRecords)
    ensures r.Keys == m.Keys
    ensures forall s :: s in r ==> RewrittenFrom(r[s], m[s], Lookup(devices, s), Lookup(users, s))
  {
    map s | s in m :: seq(|m[s]|, i requires 0 <= i < |m[s]| =>
      m[s][i].(msg := ReplaceDeviceAndUserMac(Lookup(devices, s), Lookup(users, s), m[s][i].msg)))
  }

  /** A message that mentions none of the eligible MACs of its site's devices
      and users. */
  ghost predicate MentionsNoMac(msg: string, devices: seq<Device>, users: seq<User>) {
    && (forall i :: 0 <= i < |devices| && Eligible(DeviceRename(devices[i])) ==> !Contains(msg, devices[i].mac))
    && (forall i :: 0 <= i < |users| && Eligible(UserRename(users[i])) ==> !Contains(msg, users[i].mac))
  }

  /** Events that mention no known MAC of their site come through the rewrite
      untouched. */
  lemma RewriteSitesUnchanged(m: SiteRecords, devices: map<string, seq<Device>>, users: map<string, seq<User>>)
    requires forall s :: s in m ==> forall i :: 0 <= i < |m[s]| ==>
               MentionsNoMac(m[s][i].msg, Lookup(devices, s), Lookup(users, s))
    ensures RewriteSites(m, devices, users) == m
  {
    var r := RewriteSites(m, devices, users);
    forall s | s in m ensures r[s] == m[s] {
      forall i | 0 <= i < |m[s]| ensures r[s][i] == m[s][i] {
        UnknownMacsUnchanged(Lookup(devices, s), Lookup(users, s), m[s][i].msg);
      }
    }
  }

  /** `GetEvents(since)`: the device directories of all sites, then the user
      directories, then the paged events with their messages rewritten. */
  function GetEvents(events: PageOracle, devices: DirectoryOracle<Device>, users: DirectoryOracle<User>,
                     sites: seq<string>, since: Instant, fuel: nat): (r: Paged<SiteRecords>)
    ensures FetchDirectories(devices, sites).Err? ==> r == Failed(FetchDirectories(devices, sites).error)
    ensures FetchDirectories(devices, sites).Ok? && FetchDirectories(users, sites).Err? ==>
              r == Failed(FetchDirectories(users, sites).error)
    ensures r.Done? ==> r.value.Keys == SiteSet(sites)
    ensures r.Done? ==> forall s :: s in r.value ==>
              && devices(s, FirstCursor).Ok? && users(s, FirstCursor).Ok?
              && FetchSite(events, s, since, fuel).outcome.Done?
              && RewrittenFrom(r.value[s], FetchSite(events, s, since, fuel).outcome.value,
                               devices(s, FirstCursor).value, users(s, FirstCursor).value)
    ensures FetchDirectories(devices, sites).Ok? && FetchDirectories(users, sites).Ok? ==>
              (r.Done? <==> FetchSites(events, sites, since, fuel).Done?)
              && (!r.Done? ==> r == FetchSites(events, sites, since, fuel))
  {
    match FetchDirectories(devices, sites)
    case Err(e) => Failed(e)
    case Ok(ds) =>
      match FetchDirectories(users, sites)
      case Err(e) => Failed(e)
      case Ok(us) =>
        match FetchSites(events, sites, since, fuel)
        case Done(m) => Done(RewriteSites(m, ds, us))
        case Failed(e) => Failed(e)
        case Unfinished => Unfinished
  }
}
