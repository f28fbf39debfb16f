/** The two checker loops of main.go, `checkAlarms` and `checkEvents`. Each
    waits the check interval plus a jitter, fetches what is new since its
    watermark, notifies Slack, and moves the watermark to the clock read
    after notifying; a quit signal ends the loop. */
module Poll {
  import opened Types
  import opened Model
  import Unifi
  import AdminFilter
  import Slack

  /** `rand.Intn(30-1)` draws from 0 to 28, so the jitter is 1 to 29 seconds. */
  const JitterDraws: nat := 29

  /** The timer of one turn of the loop, for a draw of `rand.Intn`. */
  function Wait(checkInterval: int, draw: nat): (d: int)
    requires draw < JitterDraws
    ensures checkInterval * NanosPerMinute + NanosPerSecond <= d
    ensures d <= checkInterval * NanosPerMinute + 29 * NanosPerSecond
    ensures (d - checkInterval * NanosPerMinute) % NanosPerSecond == 0
  {
    checkInterval * NanosPerMinute + (draw + 1) * NanosPerSecond
  }

  /** Every jitter from 1 to 29 seconds is drawn by exactly one value, and a
      full 30 seconds never is. */
  lemma JitterRange(checkInterval: int, seconds: int)
    ensures (exists draw: nat :: draw < JitterDraws && Wait(checkInterval, draw) == checkInterval * NanosPerMinute + seconds * NanosPerSecond)
              <==> 1 <= seconds <= 29
  {
    if 1 <= seconds <= 29 {
      var draw: nat := seconds - 1;
      assert Wait(checkInterval, draw) == checkInterval * NanosPerMinute + seconds * NanosPerSecond;
    }
  }

  /** The controller as the checkers see it: the answers of its endpoints,
      the configured sites, and the fuel that bounds each paging loop. */
  datatype Controller = Controller(
    alarms: PageOracle,
    events: PageOracle,
    devices: DirectoryOracle<Device>,
    users: DirectoryOracle<User>,
    sites: seq<string>,
    fuel: nat)

  /** What one turn of a checker meets outside the program: the order Go
      ranges over the fetched map in, the webhook's answers, and the clock
      read after notifying. */
  datatype Round = Round(order: seq<string>, post: Slack.Webhook, clock: Instant)

  /** What one turn did: the map handed to the notifier, the fetch error
      (only logged), the delivery, and the new watermark. */
  datatype Report = Report(notified: SiteRecords, fetchError: Option<Error>, delivery: Slack.Delivery, checked: Instant)

  /** `GetAlarms` or `GetEvents` since the watermark. */
  function Fetch(kind: Kind, ctl: Controller, since: Instant): Paged<SiteRecords> {
    match kind
    case Alarms => Unifi.GetAlarms(ctl.alarms, ctl.sites, since, ctl.fuel)
    case Events => Unifi.GetEvents(ctl.events, ctl.devices, ctl.users, ctl.sites, since, ctl.fuel)
  }

  /** Fetch outcomes that finished hold one entry per configured site. */
  lemma FetchKeys(kind: Kind, ctl: Controller, since: Instant)
    requires Fetch(kind, ctl, since).Done?
    ensures Fetch(kind, ctl, since).value.Keys == Unifi.SiteSet(ctl.sites)
  {
  }

  /** `order` lists every configured site exactly once. */
  predicate EnumeratesSites(order: seq<string>, sites: seq<string>) {
    && (forall i, j :: 0 <= i < j < |order| ==> order[i] != order[j])
    && (forall s :: s in order ==> s in sites)
    && (forall s :: s in sites ==> s in order)
  }

  /** The map a finished fetch hands on: the empty map after an error (what
      Go's fetchers return with it), and for events the administrator's own
      logins left out. */
  function Notified(kind: Kind, username: string, fetched: Paged<SiteRecords>): SiteRecords
    requires !fetched.Unfinished?
  {
    match fetched
    case Failed(_) => map[]
    case Done(m) =>
      match kind
      case Alarms => m
      case Events => AdminFilter.FilterAdminLoginEvents(username, m)
  }

  /** One firing of the timer. `None` when a paging loop has not returned,
      so the checker never gets past this turn. */
  function Cycle(kind: Kind, ctl: Controller, username: string, since: Instant, rnd: Round): (r: Option<Report>)
    requires EnumeratesSites(rnd.order, ctl.sites)
    ensures r.None? <==> Fetch(kind, ctl, since).Unfinished?
    ensures r.Some? ==> r.value.checked == rnd.clock
    ensures r.Some? && Fetch(kind, ctl, since).Failed? ==>
              && r.value.fetchError == Some(Fetch(kind, ctl, since).error)
              && r.value.notified == map[]
              && r.value.delivery == Slack.Delivery(0, None)
    ensures r.Some? && Fetch(kind, ctl, since).Done? ==>
              && r.value.fetchError == None
              && r.value.notified.Keys == Unifi.SiteSet(ctl.sites)
              && r.value.delivery == Slack.Notify(kind, r.value.notified, rnd.order, rnd.post)
    ensures r.Some? && kind.Alarms? && Fetch(kind, ctl, since).Done? ==>
              r.value.notified == Fetch(kind, ctl, since).value
    ensures r.Some? && kind.Events? && Fetch(kind, ctl, since).Done? ==>
              r.value.notified == AdminFilter.FilterAdminLoginEvents(username, Fetch(kind, ctl, since).value)
    ensures r.Some? && kind.Events? ==>
              forall s :: s in r.value.notified ==> forall i :: 0 <= i < |r.value.notified[s]| ==>
                !AdminFilter.IsAdminLogin(username, r.value.notified[s][i])
  {
    var fetched := Fetch(kind, ctl, since);
    match fetched
    case Unfinished => None
    case Failed(e) =>
      var m := Notified(kind, username, fetched);
      Some(Report(m, Some(e), Slack.Notify(kind, m, [], rnd.post), rnd.clock))
    case Done(_) =>
      var m := Notified(kind, username, fetched);
      FetchKeys(kind, ctl, since);
      Some(Report(m, None, Slack.Notify(kind, m, rnd.order, rnd.post), rnd.clock))
  }

  /** Running: waiting for the timer or a quit signal. Stopped: a quit signal
      was taken. Stuck: a paging loop never returned. */
  datatype Phase = Running | Stopped | Stuck

  datatype Checker = Checker(since: Instant, phase: Phase, reports: seq<Report>)

  /** What the `select` of the loop takes next. */
  datatype Tick = Fire(rnd: Round) | Quit

  predicate ValidTicks(ctl: Controller, ticks: seq<Tick>) {
    forall i :: 0 <= i < |ticks| && ticks[i].Fire? ==> EnumeratesSites(ticks[i].rnd.order, ctl.sites)
  }

  /** One pass of the `for`/`select` loop. */
  function Step(kind: Kind, ctl: Controller, username: string, c: Checker, t: Tick): (r: Checker)
    requires t.Fire? ==> EnumeratesSites(t.rnd.order, ctl.sites)
    ensures !c.phase.Running? ==> r == c
    ensures c.phase.Running? && t.Quit? ==> r == c.(phase := Stopped)
    ensures c.phase.Running? && t.Fire? ==> !r.phase.Stopped?
    ensures c.phase.Running? && t.Fire? && r.phase.Running? ==>
              r.since == t.rnd.clock && |r.reports| == |c.reports| + 1 && r.reports[..|c.reports|] == c.reports
  {
    if !c.phase.Running? then c
    else
      match t
      case Quit => c.(phase := Stopped)
      case Fire(rnd) =>
        match Cycle(kind, ctl, username, c.since, rnd)
        case None => c.(phase := Stuck)
        case Some(report) => Checker(report.checked, Running, c.reports + [report])
  }

  /** `checkAlarms` (kind `Alarms`) or `checkEvents` (kind `Events`) over a
      sequence of ticks. */
  function Run(kind: Kind, ctl: Controller, username: string, c: Checker, ticks: seq<Tick>): (r: Checker)
    requires ValidTicks(ctl, ticks)
    ensures c.reports <= r.reports
    ensures |r.reports| <= |c.reports| + |ticks|
    decreases |ticks|
  {
    if |ticks| == 0 then c
    else Run(kind, ctl, username, Step(kind, ctl, username, c, ticks[0]), ticks[1..])
  }

  /** A checker that has quit or is stuck never changes again. */
  lemma {:induction false} HaltedStaysHalted(kind: Kind, ctl: Controller, username: string, c: Checker, ticks: seq<Tick>)
    requires ValidTicks(ctl, ticks) && !c.phase.Running?
    ensures Run(kind, ctl, username, c, ticks) == c
    decreases |ticks|
  {
    if |ticks| > 0 {
      HaltedStaysHalted(kind, ctl, username, c, ticks[1..]);
    }
  }

  /** Ticks after a quit signal make no difference: the loop has returned. */
  lemma {:induction false} NothingAfterQuit(kind: Kind, ctl: Controller, username: string, c: Checker,
                                            before: seq<Tick>, after: seq<Tick>)
    requires ValidTicks(ctl, before + [Quit] + after)
    ensures ValidTicks(ctl, before + [Quit])
    ensures Run(kind, ctl, username, c, before + [Quit] + after) == Run(kind, ctl, username, c, before + [Quit])
    ensures !Run(kind, ctl, username, c, before + [Quit]).phase.Running?
    decreases |before|
  {
    var all := before + [Quit] + after;
    assert forall i :: 0 <= i < |before| + 1 ==> (before + [Quit])[i] == all[i];
    if |before| == 0 {
      assert all[1..] == after;
      assert (before + [Quit])[1..] == [];
      var c1 := Step(kind, ctl, username, c, Quit);
      HaltedStaysHalted(kind, ctl, username, c1, after);
    } else {
      assert all[0] == before[0];
      var c1 := Step(kind, ctl, username, c, before[0]);
      assert all[1..] == before[1..] + [Quit] + after;
      assert (before + [Quit])[1..] == before[1..] + [Quit];
      NothingAfterQuit(kind, ctl, username, c1, before[1..], after);
    }
  }

  /** The clock as a sequence of fired rounds reads it: never earlier than
      `since`, and never going back. */
  predicate ClockMonotone(since: Instant, ticks: seq<Tick>) {
    forall i :: 0 <= i < |ticks| && ticks[i].Fire? ==>
      && since <= ticks[i].rnd.clock
      && forall j :: i < j < |ticks| && ticks[j].Fire? ==> ticks[i].rnd.clock <= ticks[j].rnd.clock
  }

  /** With a clock that does not go back, the watermark never does either,
      and the watermarks the reports record are in order. */
  lemma {:induction false} WatermarkMonotone(kind: Kind, ctl: Controller, username: string, c: Checker, ticks: seq<Tick>)
    requires ValidTicks(ctl, ticks) && ClockMonotone(c.since, ticks)
    requires forall i :: 0 <= i < |c.reports| ==> c.reports[i].checked <= c.since
    ensures c.since <= Run(kind, ctl, username, c, ticks).since
    ensures var rs := Run(kind, ctl, username, c, ticks).reports;
            forall i :: 0 <= i < |rs| ==> rs[i].checked <= Run(kind, ctl, username, c, ticks).since
    decreases |ticks|
  {
    if |ticks| > 0 {
      var c1 := Step(kind, ctl, username, c, ticks[0]);
      assert c.since <= c1.since;
      assert forall i :: 0 <= i < |ticks| - 1 ==> ticks[1..][i] == ticks[i + 1];
      assert ClockMonotone(c1.since, ticks[1..]) by {
        forall i | 0 <= i < |ticks[1..]| && ticks[1..][i].Fire?
          ensures c1.since <= ticks[1..][i].rnd.clock
        {
          if ticks[0].Fire? && c.phase.Running? && c1.phase.Running? {
            assert ticks[0].rnd.clock <= ticks[i + 1].rnd.clock;
          }
        }
      }
      WatermarkMonotone(kind, ctl, username, c1, ticks[1..]);
    }
  }

  /** A fired turn is stuck exactly when its fetch never returns, and
      otherwise appends the report of `Cycle`. */
  lemma FiredStep(kind: Kind, ctl: Controller, username: string, c: Checker, rnd: Round)
    requires c.phase.Running? && EnumeratesSites(rnd.order, ctl.sites)
    ensures var c1 := Step(kind, ctl, username, c, Fire(rnd));
            && (c1.phase.Stuck? <==> Fetch(kind, ctl, c.since).Unfinished?)
            && (c1.phase.Running? ==> c1.reports == c.reports + [Cycle(kind, ctl, username, c.since, rnd).value])
  {
  }

  /** A failed fetch still moves the watermark to the clock, so records
      stamped in the failed window are never asked for again: every later
      turn starts from at least that clock. */
  lemma FailedFetchSkipsWindow(kind: Kind, ctl: Controller, username: string, c: Checker, rnd: Round)
    requires c.phase.Running? && EnumeratesSites(rnd.order, ctl.sites)
    requires Fetch(kind, ctl, c.since).Failed?
    ensures var c1 := Step(kind, ctl, username, c, Fire(rnd));
            && c1.phase.Running?
            && c1.since == rnd.clock
            && c1.reports[|c1.reports| - 1].delivery == Slack.Delivery(0, None)
  {
  }
}
