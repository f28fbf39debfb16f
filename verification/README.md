# unifi-notifications, modelled in Dafny

unifi-notifications polls a UniFi controller for new alarms and events and
posts them to Slack webhooks. This project models its core as pure Dafny
functions and proves what the code promises:

- **Paging** (`Paging`, `Unifi`): for every configured site, `GetAlarms` and
  `GetEvents` request windows `{_limit, _start}` starting from `(0, 0)`. Each
  round first does `start += limit`, then `limit += 20`. A page's records are
  kept up to the first one that is not strictly newer than the watermark
  `since`, and that page ends the site. A request error ends the whole call.
  The loop has no other exit, so the model bounds it with `fuel`. A paging
  loop that has not ended within the fuel is reported as `Unfinished`, which
  stands for a Go call that never returns.
- **Sessions** (`Sessions`): `setAuthCookie` and `login`. The session cookie
  is `unifises` and a new session lasts 19 minutes. The refresh test
  `Expiration.After(now)` is kept as written.
- **MAC rewriting** (`Resolver`, `Text`): `replaceDeviceAndUserMac` runs
  `strings.ReplaceAll` for every eligible device entry, then for every
  eligible user entry.
- **Admin-login filter** (`AdminFilter`): `filterAdminLoginEvents` drops the
  events whose message starts with `Admin[<name>] log in from`.
- **Slack** (`Slack`, `Decimal`): each record becomes an attachment. Its text
  is `<!channel> ` followed by the message (alarms) or by the host, a space
  and the message (events). Its timestamp is the decimal Unix second, and it
  carries a Site field. A site's attachments are packed into messages of at
  most 20. Messages are posted in order, and the first failed post ends the
  notification.
- **Checker loops** (`Poll`): `checkAlarms` and `checkEvents` run in rounds.
  Each round waits the check interval plus 1 to 29 seconds of jitter, then
  fetches, filters (events only) and notifies. It then moves the watermark to
  the clock read after notifying. A quit signal ends the loop.

Go's map iteration order is a parameter (`order`), and so are the clock, the
random draw and the webhook's answers. Every statement that quantifies over
an order holds for every order.

Behaviour of the code that the model keeps exactly as written:

- the jitter is 1 to 29 seconds (`rand.Intn(30-1)+1`, main.go:90 and 120);
- the watermark is the clock read after notifying (main.go:108 and 140);
- a failed fetch still notifies, with the empty map the fetcher returned,
  and still advances the watermark (main.go:92-108 and 122-140);
- delivery stops at the first failed post (infrastructure/slack.go:52-57
  and 87-92);
- because of the test at infrastructure/unifi.go:136, a session is renewed
  while it is still valid and reused once it has expired.

## Model

| member | source | states |
|---|---|---|
| Text.Index | infrastructure/unifi.go:258 | the leftmost occurrence of the pattern, and `None` exactly when the text does not contain it |
| Text.ReplaceAll | infrastructure/unifi.go:258 | a text without the target is returned unchanged |
| Text.JoinSplit | infrastructure/unifi.go:258 | cutting at each leftmost occurrence and re-joining with the separator restores the text |
| Text.SplitPiecesFree | infrastructure/unifi.go:258 | no piece between two cuts contains the separator |
| Text.ReplaceAllIsSplitJoin | infrastructure/unifi.go:258 | replace-all equals split on the target joined with the replacement |
| Text.ReplaceAllSelf | infrastructure/unifi.go:258 | replacing a pattern by itself changes nothing |
| Decimal.FormatNat | infrastructure/slack.go:36 | non-empty decimal digits without a leading zero |
| Decimal.FormatInt | infrastructure/slack.go:36 | a minus sign exactly for negative numbers, then non-empty decimal digits without a leading zero |
| Decimal.ParseFormatNat | infrastructure/slack.go:36 | the digits read back as the number |
| Decimal.ParseFormatInt | infrastructure/slack.go:36 | every integer's rendering parses back to that integer |
| Sessions.FirstAuthCookie | infrastructure/unifi.go:168-176 | the first `unifises` cookie with a value, in reply order; `None` exactly when there is none |
| Sessions.Login | infrastructure/unifi.go:147-178 | transport errors pass through; success exactly when an acceptable cookie exists; otherwise the rejection error with status and body; the session lasts 19 minutes from the clock reading |
| Sessions.SetAuthCookie | infrastructure/unifi.go:135-145 | no login unless the session is zero or its expiration is after now; on a login error the session is unchanged; after a login the session is the one `login` built from the first acceptable cookie; the cookie sent is the session key |
| Sessions.FreshSessionNotReused | infrastructure/unifi.go:136 | a session just obtained is replaced by a new login on every request before it expires |
| Sessions.ExpiredSessionReused | infrastructure/unifi.go:136 | an expired session is reused unchanged with its stale key |
| Paging.CursorClosedForm | infrastructure/unifi.go:45-50 | the k-th request asks for limit 20k at start 10k(k-1) |
| Paging.CursorsTile | infrastructure/unifi.go:49-50 | each window starts where the previous one ended |
| Paging.StartMonotone | infrastructure/unifi.go:49 | window starts never decrease |
| Paging.WindowFrom | infrastructure/unifi.go:48-50 | a later request's window holds any offset past the current start |
| Paging.WindowOf | infrastructure/unifi.go:48-50 | every record offset lies in some request's window |
| Paging.WindowsDisjoint | infrastructure/unifi.go:49-50 | no offset lies in two windows |
| Paging.TakeNew | infrastructure/unifi.go:63-71 | a prefix of the page, all strictly newer than `since`, cut at the first record that is not |
| Paging.TakeNewStops | infrastructure/unifi.go:63-75 | the scan stops inside a page exactly when the page holds an old record |
| Paging.FetchFrom | infrastructure/unifi.go:48-76 | at most `fuel` requests; not finished only when the fuel ran out; the first request uses the advanced cursor |
| Paging.TakeNewAfterNewPrefix | infrastructure/unifi.go:64-71 | a fully new page is kept whole in front of what follows |
| Paging.FetchFromRoundStops | infrastructure/unifi.go:52-75 | a round whose page failed or held an old record ends the paging with that outcome |
| Paging.FetchFromRoundContinues | infrastructure/unifi.go:48-76 | a fully new page is kept and the loop continues from the next cursor |
| Paging.StopsAtFirst | infrastructure/unifi.go:52-75 | the stopping round makes exactly one request |
| Paging.StopsAtLater | infrastructure/unifi.go:48-76 | a continuing round extends the requests and the kept records of the rest |
| Paging.FetchFromStops | infrastructure/unifi.go:48-76 | paging that stops at request m makes exactly the requests up to m and keeps every new page and the new prefix of page m |
| Paging.StopOutcomeCons | infrastructure/unifi.go:64-75 | a page that leads on is prepended to how the later pages end |
| Paging.FetchFromRunsOn | infrastructure/unifi.go:48-76 | while every page is new the loop keeps asking for the next window and does not return |
| Paging.FetchSiteFirstRequest | infrastructure/unifi.go:45-52 | a site's first request asks for 20 records from offset 0 |
| Paging.FetchSiteStops | infrastructure/unifi.go:45-78 | a site's requests are windows 1..m in order, where m is the first failed or old-record page, and its result is the new pages joined |
| Paging.FetchSiteRunsOn | infrastructure/unifi.go:48-76 | a site whose pages are all new (empty pages included) never finishes |
| Paging.FetchFromFuel | infrastructure/unifi.go:48-76 | once paging has finished, more fuel changes nothing |
| Paging.NewerThan | infrastructure/unifi.go:65 | exactly the records strictly newer than the watermark |
| Paging.NothingNewer | infrastructure/unifi.go:65 | a list with no newer record has nothing to notify |
| Paging.TakeNewWithinFilter | infrastructure/unifi.go:63-71 | the cut-off keeps a prefix of the newer records |
| Paging.DescendingTakeNewIsFilter | infrastructure/unifi.go:63-71 | on a newest-first list the cut-off keeps exactly the newer records |
| Paging.TakeNewOfPrefix | infrastructure/unifi.go:63-71 | truncating after the first old record leaves the cut-off unchanged |
| Paging.ListPage | infrastructure/unifi.go:52 | a controller serving a fixed list answers request k with that request's window |
| Paging.ListJoined | infrastructure/unifi.go:48-76 | consecutive windows of a fixed list join into one contiguous slice |
| Paging.ListContinuesBefore | infrastructure/unifi.go:63-75 | windows before the first old record lead on |
| Paging.ListStopsAt | infrastructure/unifi.go:63-75 | the window holding the first old record ends the paging |
| Paging.ListFetchDone | infrastructure/unifi.go:45-78 | for a fixed list with an old record, a site yields exactly the cut-off of the whole list |
| Paging.ListContinuesUpTo | infrastructure/unifi.go:48-76 | every request before the stopping one leads on |
| Paging.ListJoinedFromStart | infrastructure/unifi.go:48-76 | the first m windows together are a prefix of the list |
| Paging.ListResultIsPrefix | infrastructure/unifi.go:63-75 | the cut-off of the pages fetched equals the cut-off of the whole list |
| Paging.ListFetchNeverEnds | infrastructure/unifi.go:48-76 | a fixed list with no old record never ends the paging, because empty pages do not stop the loop |
| Paging.DescendingListFetch | infrastructure/unifi.go:42-81 | on a newest-first list the site yields exactly the records newer than the watermark |
| Resolver.Apply | infrastructure/unifi.go:256-264 | an ineligible entry, or one whose MAC is absent, leaves the message unchanged |
| Resolver.ReplaceDeviceAndUserMac | infrastructure/unifi.go:255-267 | the device entries are applied first, then the user entries, as one ordered list |
| Resolver.ApplyAllAppend | infrastructure/unifi.go:255-267 | running two lists one after the other is running their concatenation |
| Resolver.OnlyEligible | infrastructure/unifi.go:257 | exactly the entries with a non-empty MAC and name |
| Resolver.IneligibleEntriesIgnored | infrastructure/unifi.go:257-263 | entries with an empty MAC or name have no effect |
| Resolver.NoMacNoChange | infrastructure/unifi.go:256-265 | a message with none of the eligible MACs is unchanged |
| Resolver.UnknownMacsUnchanged | infrastructure/unifi.go:255-267 | a message with none of the site's eligible device or user MACs passes through unchanged |
| Resolver.OneEntryReplacesAll | infrastructure/unifi.go:258 | one entry cuts the message at every occurrence of the MAC and glues it back with the name, and no piece keeps the MAC |
| Resolver.DeviceWinsOverUser | infrastructure/unifi.go:255-267 | when a device and a user share a MAC and the device pass removes it, the result is the device pass |
| Resolver.ExampleDevicePass | infrastructure/unifi.go:258 | "ab up" with "ab" replaced by "gw" is "gw up" |
| Resolver.ExampleNoMacLeft | infrastructure/unifi.go:258 | "gw up" does not contain "ab" |
| Resolver.DeviceWinsExample | infrastructure/unifi.go:255-267 | a device named "gw" and a user named "pc" sharing MAC "ab" turn "ab up" into "gw up" |
| Unifi.GetAlarms | infrastructure/unifi.go:42-81 | the call ends with records exactly when every site's paging does, with one entry per configured site holding that site's records |
| Unifi.FetchSites | infrastructure/unifi.go:42-81 | a finished call has one entry per configured site, each that site's paging result |
| Unifi.FetchSitesDone | infrastructure/unifi.go:42-81 | the call finishes with records exactly when every site's paging does |
| Unifi.FetchSitesFirstUndone | infrastructure/unifi.go:44-60 | otherwise the first site whose paging failed or did not return decides the outcome |
| Unifi.FetchDirectories | infrastructure/unifi.go:203-253 | one request per site at cursor (0, 0); success exactly when every site's request succeeds; the entries are kept whole; the error is the first failing site's |
| Unifi.RewriteSitesUnchanged | infrastructure/unifi.go:115-118 | events that mention no eligible MAC of their site's devices or users pass through the rewrite unchanged |
| Unifi.GetEvents | infrastructure/unifi.go:83-133 | device errors first, then user errors; a finished call has every site's new events with MACs rewritten; otherwise it fails or does not return as the event paging does |
| AdminFilter.FilterEvents | main.go:150-155 | a subsequence that drops every admin-login event and keeps every other one with its multiplicity |
| AdminFilter.FilterAdminLoginEvents | main.go:147-159 | the same sites, each a subsequence with no admin login that keeps every other event with its multiplicity |
| AdminFilter.SubsequenceDropHead | main.go:151-154 | a subsequence of the tail is a subsequence of the whole |
| AdminFilter.SubsequenceWeaken | main.go:151-154 | dropping the head of a subsequence keeps it a subsequence |
| AdminFilter.FilterKeepsExactly | main.go:151-155 | an event survives exactly when it was present and is not the admin's login |
| AdminFilter.FilterIdempotent | main.go:150-155 | filtering twice is filtering once |
| AdminFilter.FilterSitesIdempotent | main.go:147-159 | the site-level filter is idempotent |
| AdminFilter.OwnLoginExample | main.go:152 | "Admin[alice] log in from 10.0.0.5" is alice's login |
| AdminFilter.OtherLoginExample | main.go:152 | "Admin[bob] log in from ..." is not alice's login |
| Slack.Text | infrastructure/slack.go:35-70 | the channel mention, then for an alarm exactly the message, for an event exactly the host, a space and the message |
| Slack.UnixSeconds | infrastructure/slack.go:36 | the whole second at or before the instant (floor) |
| Slack.AttachmentFields | infrastructure/slack.go:33-38 | colour danger, the record's text, the site, and a timestamp that parses back to the Unix second |
| Slack.SiteAttachmentsFields | infrastructure/slack.go:32-39 | one attachment per record, in record order, each naming the site, coloured danger, with the record's text and a timestamp that parses back to its Unix second |
| Slack.FlattenAppend | infrastructure/slack.go:41 | the attachments of concatenated messages are concatenated |
| Slack.BatchesFlatten | infrastructure/slack.go:32-47 | packing loses, adds and reorders no attachment |
| Slack.BatchesShape | infrastructure/slack.go:40-47 | every message holds 1 to 20 attachments, all but the last exactly 20 |
| Slack.BatchesCount | infrastructure/slack.go:40-47 | a site needs the ceiling of n/20 messages |
| Slack.BatchesFullHead | infrastructure/slack.go:40-43 | a full group of 20 becomes its own message |
| Slack.PackStep | infrastructure/slack.go:33-43 | one turn of the packing loop keeps the invariant |
| Slack.PackDone | infrastructure/slack.go:45-47 | the leftover attachments become one last message, if any |
| Slack.PackAttachments | infrastructure/slack.go:30-47 | the loop appends exactly the batches of the site's attachments |
| Slack.PackSite | infrastructure/slack.go:29-48 | one site's records appended as batches of their attachments |
| Slack.PackMessages | infrastructure/slack.go:28-48 | the messages built over all sites in the iteration order |
| Slack.SiteMessagesWellFormed | infrastructure/slack.go:30-47 | a site's messages are within the limit and name only that site |
| Slack.MessagesWellFormed | infrastructure/slack.go:28-48 | every message is within the limit and names only one site |
| Slack.MessagesCarryAllAttachments | infrastructure/slack.go:28-48 | the messages carry exactly every site's attachments, in order |
| Slack.EveryRecordNotified | infrastructure/slack.go:29-48 | whatever the iteration order, every record of every site is put into a message to post |
| Slack.ReliableWebhookPostsEveryRecord | infrastructure/slack.go:26-59 | with a webhook that accepts every post, every message is posted and every record's attachment is in one of them |
| Slack.OnlyRecordsNotified | infrastructure/slack.go:29-48 | whatever the iteration order, every attachment shows a record of the site it names |
| Slack.AllAttachmentsMember | infrastructure/slack.go:29-39 | every record's attachment is among all attachments |
| Slack.AllAttachmentsSource | infrastructure/slack.go:29-39 | every attachment comes from a record of its site |
| Slack.FortyFiveAttachments | infrastructure/slack.go:40-47 | 45 attachments make messages of 20, 20 and 5 |
| Slack.DeliverFrom | infrastructure/slack.go:52-57 | posts in order; no error exactly when all were posted; the error is the first failing post's |
| Slack.Deliver | infrastructure/slack.go:52-58 | every message before the first failure was posted; the error is that post's, or none when all were posted |
| Slack.Notify | infrastructure/slack.go:26-94 | an empty map posts nothing and succeeds; the messages before `posted` were accepted by the webhook; success exactly when every message was posted; an error is the failing post's |
| Slack.EmptyMapEmptyOrder | infrastructure/slack.go:29 | ranging over an empty map visits no site |
| Slack.ReliableWebhookGetsAll | infrastructure/slack.go:52-58 | a webhook that never fails receives every message |
| Poll.Wait | main.go:90 | the timer is the interval plus 1 to 29 whole seconds |
| Poll.JitterRange | main.go:90 | a jitter of s seconds can be drawn exactly when 1 <= s <= 29 |
| Poll.FetchKeys | main.go:92 | a finished fetch has one entry per configured site |
| Poll.Cycle | main.go:88-140 | the round hangs exactly when the fetch never returns; the watermark becomes the clock; a failed fetch notifies the empty map; alarms are notified as fetched; events are notified as the admin-login filter of what was fetched |
| Poll.Step | main.go:88-144 | a quit stops the loop; a halted loop never changes; a fired round keeps running or is stuck, never stopped |
| Poll.Run | main.go:88-112 | reports are only ever appended, at most one per tick |
| Poll.HaltedStaysHalted | main.go:109-111 | a checker that quit or is stuck never changes |
| Poll.NothingAfterQuit | main.go:109-111 | ticks after a quit make no difference |
| Poll.WatermarkMonotone | main.go:92-108 | with a clock that does not go back, the watermark never goes back |
| Poll.FiredStep | main.go:90-108 | a fired round is stuck exactly when its fetch never returns, and otherwise appends its report |
| Poll.FailedFetchSkipsWindow | main.go:92-108 | a failed fetch still moves the watermark to the clock, with nothing delivered |

Members that model source lines but carry no contract of their own are
described by the rows of the members about them:

- Paging.Advance and Paging.CursorAt (infrastructure/unifi.go:49-50): Paging.CursorClosedForm and Paging.CursorsTile.
- Paging.FetchSite (infrastructure/unifi.go:45-78): Paging.FetchSiteFirstRequest, Paging.FetchSiteStops and Paging.FetchSiteRunsOn.
- Sessions.NeedsLogin (infrastructure/unifi.go:136): Sessions.SetAuthCookie, Sessions.FreshSessionNotReused and Sessions.ExpiredSessionReused.
- AdminFilter.IsAdminLogin (main.go:152): AdminFilter.FilterKeepsExactly, AdminFilter.OwnLoginExample and AdminFilter.OtherLoginExample.
- Slack.MakeAttachment (infrastructure/slack.go:33-38 and 68-73): Slack.AttachmentFields.
- Slack.Batches (infrastructure/slack.go:40-47): Slack.BatchesFlatten, Slack.BatchesShape, Slack.BatchesCount and Slack.PackAttachments.
- Slack.BuildMessages (infrastructure/slack.go:28-48): Slack.PackMessages, Slack.MessagesWellFormed and Slack.MessagesCarryAllAttachments.
- Unifi.RewriteSites (infrastructure/unifi.go:115-118): Unifi.GetEvents and Unifi.RewriteSitesUnchanged.
- Poll.Notified (main.go:92-103 and 122-135): Poll.Cycle.

## Left out

- HTTP, JSON encoding and decoding, URL building and the cookie jar are not modelled. A request and its decoding together become an oracle answer: `PageOracle` for records and `DirectoryOracle` for devices and users.
- The session step before every request is modelled on its own (`Sessions`). It is not threaded through the oracles, which stand for the request with the cookie already set.
- Logging, goroutines, the `WaitGroup`, signal handling, `main` and the configuration loading (domain/model/config.go, infrastructure/logrus.go) are not modelled.
- The clock, `rand.Intn` and the webhook's answers are parameters: the `clock` of a round, the `draw` of `Wait`, and `post`.
- Go's map iteration order is the `order` parameter; no particular order is assumed.
- Paging.FetchFrom: the Go loop has no bound. The model stops after `fuel` requests and reports `Unfinished`, so a paging that runs longer than the fuel is not distinguished from one that never ends.
- Slack.UnixSeconds: int64 overflow of `time.Duration` and `Unix()` is not modelled; instants are unbounded integers.
- Slack.MakeAttachment: the Site field's title and `Short` flag are fixed in the source and not represented.
- Text.ReplaceAll: only the non-empty target is modelled; `replaceDeviceAndUserMac` never passes an empty MAC.
- Poll.Cycle: the message logging loops (main.go:97-101 and 129-133) are not modelled.
