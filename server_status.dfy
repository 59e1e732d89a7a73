/**
 * `check_server_status` (main.py): every minute the backend is probed, the
 * answer is classified as online or offline, and a "Server Status Update"
 * embed is posted to the notifications channel only when that status differs
 * from the one last posted. The module-level `last_server_status` becomes the
 * field of a watcher object; the embeds posted are its ghost log.
 */
module ServerStatus {

  import opened Base
  import opened Probes
  import Text

  datatype Status = Online | Offline

  datatype Color = Green | Red

  /**
   * The embed's description and colour together with the status they
   * announce; its title, always "Server Status Update", is left implicit.
   */
  datatype Report = Report(status: Status, description: string, color: Color)

  const OfflineText := "\U{1F534} Server Offline"

  function OnlineText(active: int, total: int): string {
    "\U{1F7E2} Server Online | " + Text.IntToString(active) + "/" + Text.IntToString(total) + " players"
  }

  /**
   * Classifies one probe. Only status code 200 counts as online, and only if
   * the body yields both counts; any other code, and any exception raised
   * while requesting or decoding, counts as offline.
   */
  function Classify(p: Probe): (r: Report)
    ensures r.status == Online <==> p.Responded? && p.code == 200 && p.body.Counts?
    ensures r.color == Green <==> r.status == Online
    ensures r.status == Online ==> r.description == OnlineText(p.body.active, p.body.total)
    ensures r.status == Offline ==> r.description == OfflineText
  {
    match p
    case Responded(200, Counts(active, total)) => Report(Online, OnlineText(active, total), Green)
    case _ => Report(Offline, OfflineText, Red)
  }

  /** The statuses announced when probes with statuses `ss` follow a last posted status `last`. */
  function Announced(last: Option<Status>, ss: seq<Status>): seq<Status>
    decreases |ss|
  {
    if ss == [] then []
    else (if Some(ss[0]) != last then [ss[0]] else []) + Announced(Some(ss[0]), ss[1..])
  }

  /** The status remembered after the probes `ss`, starting from `last`. */
  function Remembered(last: Option<Status>, ss: seq<Status>): Option<Status> {
    if ss == [] then last else Some(ss[|ss| - 1])
  }

  /**
   * Over any run of probes: no two consecutive announcements carry the same
   * status, the first one differs from the status held before the run, there
   * is at most one per probe, and the last one (if any) is what is remembered.
   */
  lemma AnnouncedAlternates(last: Option<Status>, ss: seq<Status>)
    ensures var a := Announced(last, ss);
      && |a| <= |ss|
      && (a != [] ==> Some(a[0]) != last)
      && (forall i :: 0 < i < |a| ==> a[i - 1] != a[i])
      && Remembered(last, ss) == (if a == [] then last else Some(a[|a| - 1]))
  {
    AnnouncedEnds(last, ss);
    AnnouncedNoRepeat(last, ss);
  }

  /** The length bound and both ends of the announcements. */
  lemma {:induction false} AnnouncedEnds(last: Option<Status>, ss: seq<Status>)
    ensures var a := Announced(last, ss);
      && |a| <= |ss|
      && (a != [] ==> Some(a[0]) != last)
      && Remembered(last, ss) == (if a == [] then last else Some(a[|a| - 1]))
    decreases |ss|
  {
    if ss != [] {
      AnnouncedEnds(Some(ss[0]), ss[1..]);
      assert Remembered(Some(ss[0]), ss[1..]) == Remembered(last, ss);
    }
  }

  /** Consecutive announcements differ. */
  lemma {:induction false} AnnouncedNoRepeat(last: Option<Status>, ss: seq<Status>)
    ensures var a := Announced(last, ss);
      forall i :: 0 < i < |a| ==> a[i - 1] != a[i]
    decreases |ss|
  {
    if ss != [] {
      var rest := Announced(Some(ss[0]), ss[1..]);
      AnnouncedNoRepeat(Some(ss[0]), ss[1..]);
      if Some(ss[0]) != last {
        AnnouncedEnds(Some(ss[0]), ss[1..]);
        var a := [ss[0]] + rest;
        assert Announced(last, ss) == a;
        forall i | 0 < i < |a|
          ensures a[i - 1] != a[i]
        {
          assert a[i] == rest[i - 1];
          if i > 1 {
            assert a[i - 1] == rest[i - 2];
          }
        }
      }
    }
  }

  /** The first probe after start-up always announces, whatever its outcome. */
  lemma FirstProbeAnnounces(ss: seq<Status>)
    requires ss != []
    ensures Announced(None, ss) != [] && Announced(None, ss)[0] == ss[0]
  {
  }

  /** A status that keeps repeating is announced at most once. */
  lemma {:induction false} SteadyStatusIsSilent(s: Status, ss: seq<Status>)
    requires forall i :: 0 <= i < |ss| ==> ss[i] == s
    ensures Announced(Some(s), ss) == []
    decreases |ss|
  {
    if ss != [] {
      SteadyStatusIsSilent(s, ss[1..]);
    }
  }

  class Watcher {
    /** `last_server_status`: the status last announced, `None` until the first announcement. */
    var lastServerStatus: Option<Status>
    /** The reports posted to the notifications channel, oldest first. */
    ghost var posted: seq<Report>

    ghost predicate Valid()
      reads this
    {
      && (posted == [] <==> lastServerStatus == None)
      && (posted != [] ==> lastServerStatus == Some(posted[|posted| - 1].status))
      && (forall i :: 0 < i < |posted| ==> posted[i - 1].status != posted[i].status)
    }

    constructor ()
      ensures Valid()
      ensures lastServerStatus == None && posted == []
    {
      lastServerStatus := None;
      posted := [];
    }

    /**
     * One run of the check. Without the guild or the channel nothing happens
     * and the probe is not even made; otherwise the probe's status is
     * announced exactly when it differs from the remembered one, and then
     * remembered.
     */
    method Check(channelFound: bool, probe: Probe) returns (announced: bool)
      requires Valid()
      modifies this
      ensures Valid()
      ensures announced <==> channelFound && old(lastServerStatus) != Some(Classify(probe).status)
      ensures lastServerStatus == if announced then Some(Classify(probe).status) else old(lastServerStatus)
      ensures posted == old(posted) + if announced then [Classify(probe)] else []
    {
      announced := false;
      if !channelFound {
        return;
      }
      var report := Classify(probe);
      if Some(report.status) != lastServerStatus {
        posted := posted + [report];
        lastServerStatus := Some(report.status);
        announced := true;
      }
    }
  }
}
