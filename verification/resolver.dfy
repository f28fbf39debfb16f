/** `replaceDeviceAndUserMac` of infrastructure/unifi.go: literal replace-all
    passes over an event message, every device entry first, then every user
    entry, each in list order. */
module Resolver {
  import opened Types
  import opened Model
  import opened Text

  /** One MAC-to-name pair, from either directory. */
  datatype Rename = Rename(mac: string, name: string)

  /** Entries with an empty MAC or an empty name are skipped. */
  predicate Eligible(r: Rename) {
    r.mac != "" && r.name != ""
  }

  function DeviceRename(d: Device): Rename {
    Rename(d.mac, d.name)
  }

  function UserRename(u: User): Rename {
    Rename(u.mac, u.hostname)
  }

  function DeviceRenames(devices: seq<Device>): seq<Rename> {
    seq(|devices|, i requires 0 <= i < |devices| => DeviceRename(devices[i]))
  }

  function UserRenames(users: seq<User>): seq<Rename> {
    seq(|users|, i requires 0 <= i < |users| => UserRename(users[i]))
  }

  /** One iteration of either loop. */
  function Apply(r: Rename, msg: string): (out: string)
    ensures !Eligible(r) ==> out == msg
    ensures Eligible(r) && !Contains(msg, r.mac) ==> out == msg
  {
    if Eligible(r) then ReplaceAll(msg, r.mac, r.name) else msg
  }

  /** One loop: the entries applied in list order, each to the text the
      previous one produced. */
  function ApplyAll(rs: seq<Rename>, msg: string): string
    decreases |rs|
  {
    if |rs| == 0 then msg else ApplyAll(rs[1..], Apply(rs[0], msg))
  }

  /** `replaceDeviceAndUserMac(devices, users, msg)`. */
  function ReplaceDeviceAndUserMac(devices: seq<Device>, users: seq<User>, msg: string): (out: string)
    ensures out == ApplyAll(DeviceRenames(devices) + UserRenames(users), msg)
  {
    ApplyAllAppend(DeviceRenames(devices), UserRenames(users), msg);
    ApplyAll(UserRenames(users), ApplyAll(DeviceRenames(devices), msg))
  }

  /** Running two lists of entries one after the other is running their
      concatenation. */
  lemma {:induction false} ApplyAllAppend(a: seq<Rename>, b: seq<Rename>, msg: string)
    ensures ApplyAll(a + b, msg) == ApplyAll(b, ApplyAll(a, msg))
    decreases |a|
  {
    if |a| > 0 {
      assert (a + b)[1..] == a[1..] + b;
      ApplyAllAppend(a[1..], b, Apply(a[0], msg));
    } else {
      assert a + b == b;
    }
  }

  /** The entries that can change a text. */
  function OnlyEligible(rs: seq<Rename>): (out: seq<Rename>)
    ensures forall r :: r in out <==> r in rs && Eligible(r)
    decreases |rs|
  {
    if |rs| == 0 then []
    else if Eligible(rs[0]) then [rs[0]] + OnlyEligible(rs[1..])
    else OnlyEligible(rs[1..])
  }

  /** Entries with an empty MAC or name have no effect: dropping them from
      the lists changes no message. */
  lemma {:induction false} IneligibleEntriesIgnored(rs: seq<Rename>, msg: string)
    ensures ApplyAll(rs, msg) == ApplyAll(OnlyEligible(rs), msg)
    decreases |rs|
  {
    if |rs| > 0 {
      IneligibleEntriesIgnored(rs[1..], Apply(rs[0], msg));
    }
  }

  /** A message that contains none of the eligible MACs is left unchanged. */
  lemma {:induction false} NoMacNoChange(rs: seq<Rename>, msg: string)
    requires forall i :: 0 <= i < |rs| && Eligible(rs[i]) ==> !Contains(msg, rs[i].mac)
    ensures ApplyAll(rs, msg) == msg
    decreases |rs|
  {
    if |rs| > 0 {
      assert Apply(rs[0], msg) == msg;
      NoMacNoChange(rs[1..], msg);
    }
  }

  /** An event message that contains none of the site's eligible device or
      user MACs is passed on unchanged. */
  lemma UnknownMacsUnchanged(devices: seq<Device>, users: seq<User>, msg: string)
    requires forall i :: 0 <= i < |devices| && Eligible(DeviceRename(devices[i])) ==> !Contains(msg, devices[i].mac)
    requires forall i :: 0 <= i < |users| && Eligible(UserRename(users[i])) ==> !Contains(msg, users[i].mac)
    ensures ReplaceDeviceAndUserMac(devices, users, msg) == msg
  {
    var rs := DeviceRenames(devices) + UserRenames(users);
    forall i | 0 <= i < |rs| && Eligible(rs[i]) ensures !Contains(msg, rs[i].mac) {
      if i < |devices| {
        assert rs[i] == DeviceRename(devices[i]);
      } else {
        assert rs[i] == UserRename(users[i - |devices|]);
      }
    }
    NoMacNoChange(rs, msg);
  }

  /** A single eligible entry replaces every occurrence found by a
      left-to-right scan: the text is cut at each occurrence of the MAC and
      glued back with the name. */
  lemma OneEntryReplacesAll(r: Rename, msg: string)
    requires Eligible(r)
    ensures ApplyAll([r], msg) == Join(Split(msg, r.mac), r.name)
    ensures forall k :: 0 <= k < |Split(msg, r.mac)| ==> !Contains(Split(msg, r.mac)[k], r.mac)
  {
    ReplaceAllIsSplitJoin(msg, r.mac, r.name);
    SplitPiecesFree(msg, r.mac);
  }

  /** A text in which the pattern's first character never appears has no
      occurrence of the pattern. */
  lemma AbsentFirstChar(s: string, pat: string)
    requires |pat| > 0
    requires forall k :: 0 <= k < |s| ==> s[k] != pat[0]
    ensures !Contains(s, pat)
  {
    forall j: nat | OccursAt(s, pat, j) ensures false {
      OccurrenceStartsWith(s, pat, j);
    }
  }

  lemma OccurrenceStartsWith(s: string, pat: string, j: nat)
    requires |pat| > 0 && OccursAt(s, pat, j)
    ensures s[j] == pat[0]
  {
    assert s[j..j + |pat|][0] == s[j];
  }

  lemma ApplyOne(r: Rename, msg: string)
    ensures ApplyAll([r], msg) == Apply(r, msg)
  {
    assert [r][1..] == [];
  }

  /** Devices take precedence: when a device and a user share a MAC and the
      device pass leaves no occurrence of it, the user's name never appears. */
  lemma DeviceWinsOverUser(mac: string, deviceName: string, userName: string, msg: string)
    requires mac != "" && deviceName != "" && userName != ""
    requires !Contains(ReplaceAll(msg, mac, deviceName), mac)
    ensures ReplaceDeviceAndUserMac([Device(mac, deviceName)], [User(mac, userName)], msg)
              == ReplaceAll(msg, mac, deviceName)
  {
    assert DeviceRenames([Device(mac, deviceName)]) == [Rename(mac, deviceName)];
    assert UserRenames([User(mac, userName)]) == [Rename(mac, userName)];
    ApplyOne(Rename(mac, deviceName), msg);
    ApplyOne(Rename(mac, userName), ReplaceAll(msg, mac, deviceName));
  }

  lemma ExampleDevicePass()
    ensures ReplaceAll("ab up", "ab", "gw") == "gw up"
  {
    assert Index("ab up", "ab") == Some(0);
    assert "ab up"[2..] == " up";
    AbsentFirstChar(" up", "ab");
  }

  lemma ExampleNoMacLeft()
    ensures !Contains("gw up", "ab")
  {
    AbsentFirstChar("gw up", "ab");
  }

  /** The gateway and a client share "ab": "ab up" becomes "gw up". */
  lemma DeviceWinsExample()
    ensures ReplaceDeviceAndUserMac([Device("ab", "gw")], [User("ab", "pc")], "ab up") == "gw up"
  {
    ExampleDevicePass();
    ExampleNoMacLeft();
    DeviceWinsOverUser("ab", "gw", "pc", "ab up");
  }
}
