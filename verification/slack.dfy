/** infrastructure/slack.go: each site's records become attachments, the
    attachments are packed into webhook messages of at most twenty, and the
    messages are posted in order until one post fails. */
module Slack {
  import opened Types
  import opened Model
  import Decimal

  /** `attachmentLimit`: the most attachments one webhook message carries. */
  const AttachmentLimit: nat := 20

  /** The mention every notification starts with. */
  const ChannelMention: string := "<!channel> "

  /** The colour every attachment is given. */
  const Danger: string := "danger"

  /** One Slack attachment: its colour, text, timestamp and the value of its
      single "Site" field. */
  datatype Attachment = Attachment(color: string, text: string, ts: string, site: string)

  datatype Message = Message(attachments: seq<Attachment>)

  /** The attachment text: the message for an alarm, the host and the message
      for an event, after the channel mention. */
  function Text(kind: Kind, r: Record): (t: string)
    ensures ChannelMention <= t
    ensures |t| >= |ChannelMention| + |r.msg|
    ensures t[|t| - |r.msg|..] == r.msg
    ensures kind.Alarms? ==> |t| == |ChannelMention| + |r.msg|
    ensures kind.Events? ==> |t| == |ChannelMention| + |r.host| + 1 + |r.msg|
    ensures kind.Events? ==> t[|ChannelMention|..|ChannelMention| + |r.host|] == r.host
    ensures kind.Events? ==> t[|ChannelMention| + |r.host|] == ' '
  {
    match kind
    case Alarms => ChannelMention + r.msg
    case Events => ChannelMention + r.host + " " + r.msg
  }

  /** `Time.Unix()`: whole seconds since the Unix epoch, rounded down, so a
      record half a second before the epoch is at second -1. */
  function UnixSeconds(t: Instant): (sec: int)
    ensures sec * NanosPerSecond <= t < sec * NanosPerSecond + NanosPerSecond
  {
    t / NanosPerSecond
  }

  /** The attachment one record of one site becomes. */
  function MakeAttachment(kind: Kind, site: string, r: Record): Attachment {
    Attachment(Danger, Text(kind, r), Decimal.FormatInt(UnixSeconds(r.datetime)), site)
  }

  /** The timestamp reads back as the record's Unix second, and the site
      field names the site the record was fetched for. */
  lemma AttachmentFields(kind: Kind, site: string, r: Record)
    ensures var a := MakeAttachment(kind, site, r);
            && a.color == Danger && a.site == site && a.text == Text(kind, r)
            && Decimal.ParseInt(a.ts) == Some(UnixSeconds(r.datetime))
  {
    Decimal.ParseFormatInt(UnixSeconds(r.datetime));
  }

  /** The attachments of one site, in the order its records were returned. */
  function SiteAttachments(kind: Kind, site: string, records: seq<Record>): (atts: seq<Attachment>)
    ensures |atts| == |records|
    ensures forall i :: 0 <= i < |atts| ==> atts[i] == MakeAttachment(kind, site, records[i])
  {
    seq(|records|, i requires 0 <= i < |records| => MakeAttachment(kind, site, records[i]))
  }

  /** Each record of a site becomes one attachment, in order, naming that
      site and stamped with the record's Unix second. */
  lemma SiteAttachmentsFields(kind: Kind, site: string, records: seq<Record>)
    ensures |SiteAttachments(kind, site, records)| == |records|
    ensures forall i :: 0 <= i < |records| ==>
              && SiteAttachments(kind, site, records)[i].site == site
              && SiteAttachments(kind, site, records)[i].color == Danger
              && SiteAttachments(kind, site, records)[i].text == Text(kind, records[i])
              && Decimal.ParseInt(SiteAttachments(kind, site, records)[i].ts) == Some(UnixSeconds(records[i].datetime))
  {
    forall i | 0 <= i < |records|
      ensures Decimal.ParseInt(SiteAttachments(kind, site, records)[i].ts) == Some(UnixSeconds(records[i].datetime))
    {
      AttachmentFields(kind, site, records[i]);
    }
  }

  /** All attachments of a sequence of messages, in posting order. */
  function Flatten(msgs: seq<Message>): seq<Attachment> {
    if |msgs| == 0 then [] else msgs[0].attachments + Flatten(msgs[1..])
  }

  lemma {:induction false} FlattenAppend(a: seq<Message>, b: seq<Message>)
    ensures Flatten(a + b) == Flatten(a) + Flatten(b)
  {
    if |a| > 0 {
      assert (a + b)[1..] == a[1..] + b;
      FlattenAppend(a[1..], b);
    } else {
      assert a + b == b;
    }
  }

  /** The messages one site's attachments are packed into: full messages of
      `AttachmentLimit`, then one holding the remainder, if any. */
  function Batches(atts: seq<Attachment>): seq<Message>
    decreases |atts|
  {
    if |atts| == 0 then []
    else if |atts| <= AttachmentLimit then [Message(atts)]
    else [Message(atts[..AttachmentLimit])] + Batches(atts[AttachmentLimit..])
  }

  /** Packing loses, adds and reorders no attachment. */
  lemma {:induction false} BatchesFlatten(atts: seq<Attachment>)
    ensures Flatten(Batches(atts)) == atts
    decreases |atts|
  {
    if 0 < |atts| <= AttachmentLimit {
      assert Flatten([Message(atts)]) == atts + Flatten([]);
    } else if |atts| > AttachmentLimit {
      var rest := Batches(atts[AttachmentLimit..]);
      BatchesFlatten(atts[AttachmentLimit..]);
      assert ([Message(atts[..AttachmentLimit])] + rest)[1..] == rest;
      assert atts == atts[..AttachmentLimit] + atts[AttachmentLimit..];
    }
  }

  /** Every message holds one to `AttachmentLimit` attachments, and every one
      but the last exactly `AttachmentLimit`. */
  lemma {:induction false} BatchesShape(atts: seq<Attachment>)
    ensures forall i :: 0 <= i < |Batches(atts)| ==> 0 < |Batches(atts)[i].attachments| <= AttachmentLimit
    ensures forall i :: 0 <= i < |Batches(atts)| - 1 ==> |Batches(atts)[i].attachments| == AttachmentLimit
    decreases |atts|
  {
    if |atts| > AttachmentLimit {
      var rest := Batches(atts[AttachmentLimit..]);
      BatchesShape(atts[AttachmentLimit..]);
      var msgs := [Message(atts[..AttachmentLimit])] + rest;
      assert Batches(atts) == msgs;
      assert forall i :: 1 <= i < |msgs| ==> msgs[i] == rest[i - 1];
    } else if |atts| > 0 {
      assert Batches(atts) == [Message(atts)];
    }
  }

  /** So there are as few messages as the limit allows. */
  lemma {:induction false} BatchesCount(atts: seq<Attachment>)
    ensures |Batches(atts)| == (|atts| + AttachmentLimit - 1) / AttachmentLimit
    decreases |atts|
  {
    if |atts| > AttachmentLimit {
      BatchesCount(atts[AttachmentLimit..]);
    }
  }

  /** A full message at the front is split off as its own message. */
  lemma BatchesFullHead(full: seq<Attachment>, rest: seq<Attachment>)
    requires |full| == AttachmentLimit
    ensures Batches(full + rest) == [Message(full)] + Batches(rest)
  {
    var atts := full + rest;
    if |rest| > 0 {
      assert atts[..AttachmentLimit] == full;
      assert atts[AttachmentLimit..] == rest;
    } else {
      assert atts == full;
    }
  }

  /** The packing loop's invariant: `msgs` closed so far, `cur` still open,
      `atts[i..]` not yet seen, and together they give `goal`. */
  predicate Packing(msgs: seq<Message>, cur: seq<Attachment>, atts: seq<Attachment>, i: nat, goal: seq<Message>) {
    i <= |atts| && |cur| < AttachmentLimit && msgs + Batches(cur + atts[i..]) == goal
  }

  /** One turn of the packing loop keeps the invariant. */
  lemma PackStep(msgs: seq<Message>, cur: seq<Attachment>, atts: seq<Attachment>, i: nat, goal: seq<Message>)
    requires Packing(msgs, cur, atts, i, goal) && i < |atts|
    ensures |cur + [atts[i]]| < AttachmentLimit ==> Packing(msgs, cur + [atts[i]], atts, i + 1, goal)
    ensures |cur + [atts[i]]| >= AttachmentLimit ==>
              Packing(msgs + [Message(cur + [atts[i]])], [], atts, i + 1, goal)
  {
    assert cur + atts[i..] == (cur + [atts[i]]) + atts[i + 1..];
    assert [] + atts[i + 1..] == atts[i + 1..];
    if |cur| + 1 >= AttachmentLimit {
      BatchesFullHead(cur + [atts[i]], atts[i + 1..]);
    }
  }

  /** What is left when the attachments run out is one last message, if any. */
  lemma PackDone(msgs: seq<Message>, cur: seq<Attachment>, atts: seq<Attachment>, goal: seq<Message>)
    requires Packing(msgs, cur, atts, |atts|, goal)
    ensures goal == if |cur| == 0 then msgs else msgs + [Message(cur)]
  {
    assert cur + atts[|atts|..] == cur;
  }

  /** The packing loop of `NotifyAlarms`/`NotifyEvents` for one site: each
      attachment is appended, and a message is closed as soon as it holds
      `AttachmentLimit`; whatever is left is one last message. */
  method PackAttachments(atts: seq<Attachment>, prior: seq<Message>) returns (msgs: seq<Message>)
    ensures msgs == prior + Batches(atts)
  {
    ghost var goal := prior + Batches(atts);
    msgs := prior;
    var cur: seq<Attachment> := [];
    var i := 0;
    assert cur + atts[0..] == atts;
    while i < |atts|
      invariant Packing(msgs, cur, atts, i, goal)
    {
      PackStep(msgs, cur, atts, i, goal);
      cur := cur + [atts[i]];
      if |cur| >= AttachmentLimit {
        msgs := msgs + [Message(cur)];
        cur := [];
      }
      i := i + 1;
    }
    PackDone(msgs, cur, atts, goal);
    if |cur| > 0 {
      msgs := msgs + [Message(cur)];
    }
  }

  /** One site's records packed after the messages already built. */
  method PackSite(kind: Kind, site: string, records: seq<Record>, prior: seq<Message>)
    returns (msgs: seq<Message>)
    ensures msgs == prior + Batches(SiteAttachments(kind, site, records))
  {
    msgs := PackAttachments(SiteAttachments(kind, site, records), prior);
  }

  /** The messages for a whole map, the sites taken in `order`. */
  function BuildMessages(kind: Kind, m: SiteRecords, order: seq<string>): seq<Message>
    requires forall s :: s in order ==> s in m
  {
    if |order| == 0 then []
    else
      var last := order[|order| - 1];
      BuildMessages(kind, m, order[..|order| - 1]) + Batches(SiteAttachments(kind, last, m[last]))
  }

  /** The whole packing phase: sites in `order`, each packed by `PackSite`. */
  method PackMessages(kind: Kind, m: SiteRecords, order: seq<string>) returns (msgs: seq<Message>)
    requires forall s :: s in order ==> s in m
    ensures msgs == BuildMessages(kind, m, order)
  {
    msgs := [];
    var k := 0;
    while k < |order|
      invariant 0 <= k <= |order|
      invariant msgs == BuildMessages(kind, m, order[..k])
    {
      assert order[..k + 1][..k] == order[..k];
      msgs := PackSite(kind, order[k], m[order[k]], msgs);
      k := k + 1;
    }
    assert order[..k] == order;
  }

  /** `order` lists every site of the map exactly once: one of the orders in
      which Go may range over it. */
  predicate Enumerates(order: seq<string>, m: SiteRecords) {
    && (forall i, j :: 0 <= i < j < |order| ==> order[i] != order[j])
    && (forall s :: s in order ==> s in m)
    && (forall s :: s in m ==> s in order)
  }

  /** Every attachment of `msg` names the same site, one of `order`. */
  predicate SingleSite(msg: Message, order: seq<string>) {
    exists s :: s in order && forall x :: x in msg.attachments ==> x.site == s
  }

  /** The messages of one site are within the limit and name only that site. */
  lemma SiteMessagesWellFormed(kind: Kind, site: string, records: seq<Record>, order: seq<string>)
    requires site in order
    ensures forall msg :: msg in Batches(SiteAttachments(kind, site, records)) ==>
              0 < |msg.attachments| <= AttachmentLimit && SingleSite(msg, order)
  {
    var atts := SiteAttachments(kind, site, records);
    var b := Batches(atts);
    BatchesFlatten(atts);
    BatchesShape(atts);
    forall msg | msg in b
      ensures 0 < |msg.attachments| <= AttachmentLimit && SingleSite(msg, order)
    {
      var i :| 0 <= i < |b| && b[i] == msg;
      FlattenMember(b, i);
      assert forall x :: x in msg.attachments ==> x.site == site;
    }
  }

  /** Every message is within the limit and holds attachments of one site. */
  lemma {:induction false} MessagesWellFormed(kind: Kind, m: SiteRecords, order: seq<string>)
    requires forall s :: s in order ==> s in m
    ensures forall msg :: msg in BuildMessages(kind, m, order) ==>
              0 < |msg.attachments| <= AttachmentLimit && SingleSite(msg, order)
  {
    if |order| > 0 {
      var last := order[|order| - 1];
      var front := order[..|order| - 1];
      MessagesWellFormed(kind, m, front);
      SiteMessagesWellFormed(kind, last, m[last], order);
      var a := BuildMessages(kind, m, front);
      forall msg | msg in a
        ensures SingleSite(msg, order)
      {
        var s :| s in front && forall x :: x in msg.attachments ==> x.site == s;
        assert s in order;
      }
    }
  }

  /** The attachments of one message all occur in the flattened sequence. */
  lemma {:induction false} FlattenMember(msgs: seq<Message>, i: nat)
    requires i < |msgs|
    ensures forall x :: x in msgs[i].attachments ==> x in Flatten(msgs)
  {
    if i > 0 {
      FlattenMember(msgs[1..], i - 1);
    }
  }

  /** The attachments posted are, in order, those of every site in `order`. */
  function AllAttachments(kind: Kind, m: SiteRecords, order: seq<string>): seq<Attachment>
    requires forall s :: s in order ==> s in m
  {
    if |order| == 0 then []
    else
      var last := order[|order| - 1];
      AllAttachments(kind, m, order[..|order| - 1]) + SiteAttachments(kind, last, m[last])
  }

  lemma {:induction false} MessagesCarryAllAttachments(kind: Kind, m: SiteRecords, order: seq<string>)
    requires forall s :: s in order ==> s in m
    ensures Flatten(BuildMessages(kind, m, order)) == AllAttachments(kind, m, order)
  {
    if |order| > 0 {
      var last := order[|order| - 1];
      MessagesCarryAllAttachments(kind, m, order[..|order| - 1]);
      BatchesFlatten(SiteAttachments(kind, last, m[last]));
      FlattenAppend(BuildMessages(kind, m, order[..|order| - 1]), Batches(SiteAttachments(kind, last, m[last])));
    }
  }

  /** Whatever the iteration order, every record of every site is put into a
      message to post. */
  lemma EveryRecordNotified(kind: Kind, m: SiteRecords, order: seq<string>, site: string, r: Record)
    requires Enumerates(order, m)
    requires site in m && r in m[site]
    ensures MakeAttachment(kind, site, r) in Flatten(BuildMessages(kind, m, order))
  {
    MessagesCarryAllAttachments(kind, m, order);
    AllAttachmentsMember(kind, m, order, site, r);
  }

  /** Whatever the iteration order, every attachment posted shows a record of
      its own site. */
  lemma OnlyRecordsNotified(kind: Kind, m: SiteRecords, order: seq<string>, a: Attachment)
    requires Enumerates(order, m)
    requires a in Flatten(BuildMessages(kind, m, order))
    ensures a.site in m && exists i :: 0 <= i < |m[a.site]| && a == MakeAttachment(kind, a.site, m[a.site][i])
  {
    MessagesCarryAllAttachments(kind, m, order);
    AllAttachmentsSource(kind, m, order, a);
  }

  lemma {:induction false} AllAttachmentsMember(kind: Kind, m: SiteRecords, order: seq<string>, site: string, r: Record)
    requires forall s :: s in order ==> s in m
    requires site in order && r in m[site]
    ensures MakeAttachment(kind, site, r) in AllAttachments(kind, m, order)
  {
    var last := order[|order| - 1];
    var front := order[..|order| - 1];
    assert order == front + [last];
    if site == last {
      var i :| 0 <= i < |m[last]| && m[last][i] == r;
      assert SiteAttachments(kind, last, m[last])[i] == MakeAttachment(kind, site, r);
    } else {
      AllAttachmentsMember(kind, m, front, site, r);
    }
  }

  lemma {:induction false} AllAttachmentsSource(kind: Kind, m: SiteRecords, order: seq<string>, a: Attachment)
    requires forall s :: s in order ==> s in m
    requires a in AllAttachments(kind, m, order)
    ensures a.site in m && exists i :: 0 <= i < |m[a.site]| && a == MakeAttachment(kind, a.site, m[a.site][i])
  {
    var last := order[|order| - 1];
    var front := order[..|order| - 1];
    var atts := SiteAttachments(kind, last, m[last]);
    if a in atts {
      var i :| 0 <= i < |atts| && atts[i] == a;
      assert a == MakeAttachment(kind, last, m[last][i]);
    } else {
      AllAttachmentsSource(kind, m, front, a);
    }
  }

  /** Forty-five attachments of one site make messages of 20, 20 and 5. */
  lemma FortyFiveAttachments(atts: seq<Attachment>)
    requires |atts| == 45
    ensures var msgs := Batches(atts);
            |msgs| == 3 && |msgs[0].attachments| == 20 && |msgs[1].attachments| == 20
            && msgs[2].attachments == atts[40..]
  {
    var rest := atts[AttachmentLimit..];
    assert Batches(rest) == [Message(rest[..AttachmentLimit])] + Batches(rest[AttachmentLimit..]);
    assert rest[AttachmentLimit..] == atts[40..];
  }

  /** How a notification went: the number of messages posted, and the error
      that stopped posting, if any. */
  datatype Delivery = Delivery(posted: nat, error: Option<Error>)

  /** The webhook: the outcome of the `i`-th post of a notification. */
  type Webhook = (nat, Message) -> Option<Error>

  /** The posting loop from message `k` on. */
  function DeliverFrom(msgs: seq<Message>, post: Webhook, k: nat): (d: Delivery)
    requires k <= |msgs|
    ensures k <= d.posted <= |msgs|
    ensures forall i :: k <= i < d.posted ==> post(i, msgs[i]).None?
    ensures d.error.None? <==> d.posted == |msgs|
    ensures d.error.Some? ==> post(d.posted, msgs[d.posted]) == d.error
    decreases |msgs| - k
  {
    if k == |msgs| then Delivery(k, None)
    else
      match post(k, msgs[k])
      case Some(e) => Delivery(k, Some(e))
      case None => DeliverFrom(msgs, post, k + 1)
  }

  /** Messages are posted in order; the first failed post ends the
      notification with its error and later messages are never posted. */
  function Deliver(msgs: seq<Message>, post: Webhook): (d: Delivery)
    ensures d.posted <= |msgs|
    ensures forall i :: 0 <= i < d.posted ==> post(i, msgs[i]).None?
    ensures d.error.None? <==> d.posted == |msgs|
    ensures d.error.Some? ==> post(d.posted, msgs[d.posted]) == d.error
  {
    DeliverFrom(msgs, post, 0)
  }

  /** `NotifyAlarms` (kind `Alarms`) and `NotifyEvents` (kind `Events`): the
      map is ranged over in `order`, packed, and posted to the webhook. */
  function Notify(kind: Kind, m: SiteRecords, order: seq<string>, post: Webhook): (d: Delivery)
    requires Enumerates(order, m)
    ensures m == map[] ==> d == Delivery(0, None)
    ensures d.posted <= |BuildMessages(kind, m, order)|
    ensures d.error.None? <==> d.posted == |BuildMessages(kind, m, order)|
    ensures forall i :: 0 <= i < d.posted ==> post(i, BuildMessages(kind, m, order)[i]).None?
    ensures d.error.Some? ==> post(d.posted, BuildMessages(kind, m, order)[d.posted]) == d.error
  {
    EmptyMapEmptyOrder(order, m);
    Deliver(BuildMessages(kind, m, order), post)
  }

  lemma FirstIsMember(order: seq<string>)
    requires |order| > 0
    ensures order[0] in order
  {
  }

  /** An empty map is ranged over without a single site. */
  lemma EmptyMapEmptyOrder(order: seq<string>, m: SiteRecords)
    requires Enumerates(order, m)
    ensures m == map[] <==> order == []
  {
    if m == map[] && |order| > 0 {
      FirstIsMember(order);
      assert false;
    }
    if m != map[] {
      var s :| s in m;
      assert s in order;
    }
  }

  /** A webhook that never fails receives every message. */
  lemma ReliableWebhookGetsAll(msgs: seq<Message>, post: Webhook)
    requires forall i, msg :: post(i, msg) == None
    ensures Deliver(msgs, post) == Delivery(|msgs|, None)
  {
  }

  /** An attachment of the flattened messages sits in one of the messages. */
  lemma {:induction false} FlattenSource(msgs: seq<Message>, a: Attachment)
    requires a in Flatten(msgs)
    ensures exists i :: 0 <= i < |msgs| && a in msgs[i].attachments
    decreases |msgs|
  {
    if a !in msgs[0].attachments {
      FlattenSource(msgs[1..], a);
      var i :| 0 <= i < |msgs[1..]| && a in msgs[1..][i].attachments;
      assert msgs[i + 1] == msgs[1..][i];
    }
  }

  /** With a webhook that accepts every post, every record of every site is
      posted: its attachment is in a message the notification delivered. */
  lemma ReliableWebhookPostsEveryRecord(kind: Kind, m: SiteRecords, order: seq<string>, post: Webhook,
                                        site: string, r: Record)
    requires Enumerates(order, m)
    requires forall i, msg :: post(i, msg) == None
    requires site in m && r in m[site]
    ensures Notify(kind, m, order, post) == Delivery(|BuildMessages(kind, m, order)|, None)
    ensures exists i :: 0 <= i < Notify(kind, m, order, post).posted
                        && MakeAttachment(kind, site, r) in BuildMessages(kind, m, order)[i].attachments
  {
    ReliableWebhookGetsAll(BuildMessages(kind, m, order), post);
    EveryRecordNotified(kind, m, order, site, r);
    FlattenSource(BuildMessages(kind, m, order), MakeAttachment(kind, site, r));
  }
}
