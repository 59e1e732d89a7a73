/**
 * The `Notifications` cog (cogs/notifications.py): every 30 seconds it asks
 * the backend for the missiles fired since its watermark, posts one line per
 * missile to the notifications channel, and moves the watermark to the newest
 * `sentAt` of the batch. The HTTP request and JSON decoding are an input to a
 * cycle; the channel is a ghost log of the lines posted.
 */
module Notifications {

  import opened Base
  import StringOrder

  /** One element of the response's `missiles` array. */
  datatype Missile = Missile(sentBy: string, missileType: string, targetUsername: string, sentAt: string)

  /**
   * What one request produced: the decoded `missiles` array, or a failure
   * (an httpx error, a non-2xx status, a body that is not JSON or has no
   * `missiles` key).
   */
  datatype Fetch = Fetched(missiles: seq<Missile>) | FetchFailed

  /** The line posted for one missile: `f"{sentBy} fired a {type} missile at {targetUsername}!"`. */
  function Announcement(m: Missile): (line: string)
    ensures |line| == |m.sentBy| + |m.missileType| + |m.targetUsername| + 22
    ensures line[..|m.sentBy|] == m.sentBy
    ensures line[|m.sentBy|..|m.sentBy| + 9] == " fired a "
    ensures line[|m.sentBy| + 9..|m.sentBy| + 9 + |m.missileType|] == m.missileType
    ensures line[|m.sentBy| + 9 + |m.missileType|..|line| - |m.targetUsername| - 1] == " missile at "
    ensures line[|line| - |m.targetUsername| - 1..] == m.targetUsername + "!"
  {
    var a := m.sentBy + " fired a ";
    var b := a + m.missileType;
    var c := b + " missile at ";
    var line := c + (m.targetUsername + "!");
    assert line[..|m.sentBy|] == a[..|m.sentBy|];
    assert line[|m.sentBy|..|m.sentBy| + 9] == a[|m.sentBy|..];
    assert line[|m.sentBy| + 9..|b|] == b[|a|..];
    assert line[|b|..|c|] == c[|b|..];
    assert line[|c|..] == m.targetUsername + "!";
    line
  }

  /** The lines posted for a batch, one per missile and in the batch's order. */
  function Lines(ms: seq<Missile>): (lines: seq<string>)
    ensures |lines| == |ms|
  {
    if ms == [] then [] else Lines(ms[..|ms| - 1]) + [Announcement(ms[|ms| - 1])]
  }

  /** Line `i` announces missile `i`. */
  lemma {:induction false} LinesAt(ms: seq<Missile>)
    ensures forall i :: 0 <= i < |ms| ==> Lines(ms)[i] == Announcement(ms[i])
  {
    if ms != [] {
      LinesAt(ms[..|ms| - 1]);
    }
  }

  /**
   * `max(missile['sentAt'] for missile in missiles)`: Python's `max` keeps
   * the first element and replaces it by each later one that is greater.
   */
  function MaxSentAt(ms: seq<Missile>): string
    requires ms != []
  {
    if |ms| == 1 then ms[0].sentAt
    else
      var best := MaxSentAt(ms[..|ms| - 1]);
      var next := ms[|ms| - 1].sentAt;
      if StringOrder.Less(best, next) then next else best
  }

  /** The newest timestamp is one of the batch's and no `sentAt` in the batch is after it. */
  lemma {:induction false} MaxSentAtIsMax(ms: seq<Missile>)
    requires ms != []
    ensures exists i :: 0 <= i < |ms| && ms[i].sentAt == MaxSentAt(ms)
    ensures forall i :: 0 <= i < |ms| ==> StringOrder.AtMost(ms[i].sentAt, MaxSentAt(ms))
  {
    if |ms| == 1 {
      assert ms[0].sentAt == MaxSentAt(ms);
    } else {
      var front := ms[..|ms| - 1];
      MaxSentAtIsMax(front);
      var best := MaxSentAt(front);
      var next := ms[|ms| - 1].sentAt;
      var j :| 0 <= j < |front| && front[j].sentAt == best;
      assert ms[j].sentAt == best;
      StringOrder.Total(best, next);
      forall i | 0 <= i < |ms|
        ensures StringOrder.AtMost(ms[i].sentAt, MaxSentAt(ms))
      {
        if i < |ms| - 1 {
          assert ms[i] == front[i];
          StringOrder.AtMostTransitive(ms[i].sentAt, best, MaxSentAt(ms));
        }
      }
    }
  }

  /**
   * The `since` query parameter: sent only when the watermark is truthy,
   * that is set and not the empty string.
   */
  function SinceParam(watermark: Option<string>): (since: Option<string>)
    ensures since.Some? <==> watermark.Some? && watermark.value != ""
    ensures since.Some? ==> since == watermark
  {
    if watermark.Some? && watermark.value != "" then watermark else None
  }

  /**
   * How many lines a batch of `n` missiles gets out before the send with
   * index `sendFailure` (if any) raises.
   */
  function Delivered(n: nat, sendFailure: Option<nat>): (k: nat)
    ensures k <= n
    ensures k < n <==> sendFailure.Some? && sendFailure.value < n
  {
    if sendFailure.Some? && sendFailure.value < n then sendFailure.value else n
  }

  /** The lines one cycle posts. */
  function Emitted(result: Fetch, sendFailure: Option<nat>): seq<string> {
    match result
    case FetchFailed => []
    case Fetched(ms) => Lines(ms[..Delivered(|ms|, sendFailure)])
  }

  /** The watermark after one cycle. */
  function NextWatermark(watermark: Option<string>, result: Fetch, sendFailure: Option<nat>): Option<string> {
    match result
    case FetchFailed => watermark
    case Fetched(ms) =>
      if Delivered(|ms|, sendFailure) < |ms| || ms == [] then watermark else Some(MaxSentAt(ms))
  }

  /** A failed request posts nothing and leaves the watermark as it was. */
  lemma FailedFetchChangesNothing(watermark: Option<string>, sendFailure: Option<nat>)
    ensures Emitted(FetchFailed, sendFailure) == []
    ensures NextWatermark(watermark, FetchFailed, sendFailure) == watermark
  {
  }

  /** An empty batch posts nothing and leaves the watermark as it was. */
  lemma EmptyBatchKeepsWatermark(watermark: Option<string>, sendFailure: Option<nat>)
    ensures Emitted(Fetched([]), sendFailure) == []
    ensures NextWatermark(watermark, Fetched([]), sendFailure) == watermark
  {
  }

  /**
   * A non-empty batch posted in full moves the watermark to the batch's own
   * newest `sentAt`, whatever the watermark was before.
   */
  lemma FullBatchSetsWatermark(watermark: Option<string>, ms: seq<Missile>, sendFailure: Option<nat>)
    requires ms != [] && Delivered(|ms|, sendFailure) == |ms|
    ensures Emitted(Fetched(ms), sendFailure) == Lines(ms)
    ensures NextWatermark(watermark, Fetched(ms), sendFailure).Some?
    ensures var w := NextWatermark(watermark, Fetched(ms), sendFailure).value;
      && (exists i :: 0 <= i < |ms| && ms[i].sentAt == w)
      && (forall i :: 0 <= i < |ms| ==> StringOrder.AtMost(ms[i].sentAt, w))
  {
    assert ms[..|ms|] == ms;
    MaxSentAtIsMax(ms);
  }

  /** The watermark is not monotone: a batch of older missiles moves it back. */
  lemma WatermarkCanMoveBack()
    ensures var older := Missile("a", "basic", "b", "2024-01-01");
      && StringOrder.Less(older.sentAt, "2024-02-01")
      && NextWatermark(Some("2024-02-01"), Fetched([older]), None) == Some(older.sentAt)
  {
    var older := Missile("a", "basic", "b", "2024-01-01");
    assert MaxSentAt([older]) == older.sentAt;
    JanuaryBeforeFebruary();
  }

  lemma JanuaryBeforeFebruary()
    ensures StringOrder.Less("2024-01-01", "2024-02-01")
  {
    var prefix, a, b := "2024-0", "1-01", "2-01";
    assert StringOrder.Less(a, b);
    LessAfterCommonPrefix(prefix, a, b);
    assert prefix + a == "2024-01-01" && prefix + b == "2024-02-01";
  }

  lemma {:induction false} LessAfterCommonPrefix(p: string, a: string, b: string)
    requires StringOrder.Less(a, b)
    ensures StringOrder.Less(p + a, p + b)
  {
    if p == [] {
      assert p + a == a && p + b == b;
    } else {
      assert (p + a)[0] == p[0] == (p + b)[0];
      assert (p + a)[1..] == p[1..] + a && (p + b)[1..] == p[1..] + b;
      LessAfterCommonPrefix(p[1..], a, b);
    }
  }

  /**
   * When the send with index `k` raises, the first `k` lines are already
   * posted and the watermark stays; the next cycle fetching the same batch
   * posts those `k` lines again before the rest.
   */
  lemma SendFailureResends(watermark: Option<string>, ms: seq<Missile>, k: nat)
    requires k < |ms|
    ensures NextWatermark(watermark, Fetched(ms), Some(k)) == watermark
    ensures Emitted(Fetched(ms), Some(k)) == Lines(ms[..k])
    ensures Emitted(Fetched(ms), None)[..k] == Emitted(Fetched(ms), Some(k))
  {
    assert ms[..|ms|] == ms;
    var all, some := Lines(ms), Lines(ms[..k]);
    LinesAt(ms);
    LinesAt(ms[..k]);
    assert all[..k] == some;
  }

  /** Posting one more line extends the lines of the prefix by that missile's line. */
  lemma LinesOneMore(ms: seq<Missile>, i: nat)
    requires i < |ms|
    ensures Lines(ms[..i + 1]) == Lines(ms[..i]) + [Announcement(ms[i])]
  {
    assert ms[..i + 1][..i] == ms[..i];
  }

  /** A batch whose every send went through: all its lines are posted and the watermark moves unless it is empty. */
  lemma BatchPostedInFull(watermark: Option<string>, ms: seq<Missile>, sendFailure: Option<nat>)
    requires sendFailure.Some? ==> sendFailure.value >= |ms|
    ensures Emitted(Fetched(ms), sendFailure) == Lines(ms)
    ensures NextWatermark(watermark, Fetched(ms), sendFailure) == if ms == [] then watermark else Some(MaxSentAt(ms))
  {
    assert ms[..|ms|] == ms;
  }

  // ---- The cycle as written: `.isoformat()` on the stored string ----

  /**
   * One cycle as the source is written: the stored watermark is a `sentAt`
   * string from the response, and `self.last_checked_time.isoformat()` on a
   * string raises `AttributeError` before the request is made; the generic
   * handler swallows it. So a truthy watermark makes the cycle post nothing
   * and change nothing.
   */
  function StepAsWritten(watermark: Option<string>, result: Fetch, sendFailure: Option<nat>): (Option<string>, seq<string>) {
    if watermark.Some? && watermark.value != "" then (watermark, [])
    else (NextWatermark(watermark, result, sendFailure), Emitted(result, sendFailure))
  }

  /** One cycle's inputs: what the request produced and which send (if any) raises. */
  datatype Poll = Poll(result: Fetch, sendFailure: Option<nat>)

  /** The lines posted over successive cycles as written, from watermark `w`. */
  function RunAsWritten(w: Option<string>, polls: seq<Poll>): seq<string>
    decreases |polls|
  {
    if polls == [] then []
    else
      var step := StepAsWritten(w, polls[0].result, polls[0].sendFailure);
      step.1 + RunAsWritten(step.0, polls[1..])
  }

  /** The lines posted over successive corrected cycles (`since` sent as the stored string itself). */
  function Run(w: Option<string>, polls: seq<Poll>): seq<string>
    decreases |polls|
  {
    if polls == [] then []
    else
      var p := polls[0];
      Emitted(p.result, p.sendFailure) + Run(NextWatermark(w, p.result, p.sendFailure), polls[1..])
  }

  /** As written, once the watermark is set to a non-empty string, no cycle ever posts again. */
  lemma {:induction false} AsWrittenGoesSilent(w: Option<string>, polls: seq<Poll>)
    requires SinceParam(w).Some?
    ensures RunAsWritten(w, polls) == []
    decreases |polls|
  {
    if polls != [] {
      AsWrittenGoesSilent(w, polls[1..]);
    }
  }

  /**
   * Two cycles, each fetching one missile: as written only the first missile
   * is announced; the corrected cycle announces both.
   */
  lemma SecondBatchIsLost()
    ensures var first := Missile("a", "basic", "b", "2024-01-01");
      var second := Missile("c", "basic", "d", "2024-01-02");
      var polls := [Poll(Fetched([first]), None), Poll(Fetched([second]), None)];
      && RunAsWritten(None, polls) == [Announcement(first)]
      && Run(None, polls) == [Announcement(first), Announcement(second)]
  {
    var first := Missile("a", "basic", "b", "2024-01-01");
    var second := Missile("c", "basic", "d", "2024-01-02");
    var polls := [Poll(Fetched([first]), None), Poll(Fetched([second]), None)];
    assert [first][..1] == [first] && [second][..1] == [second];
    assert MaxSentAt([first]) == "2024-01-01";
    assert polls[1..] == [Poll(Fetched([second]), None)];
    assert polls[1..][1..] == [];
    AsWrittenGoesSilent(Some("2024-01-01"), polls[1..]);
    assert Lines([second]) == [Announcement(second)];
    assert Run(Some("2024-01-01"), polls[1..]) == [Announcement(second)] + Run(Some("2024-01-02"), []);
  }

  /** Each batch fetched and posted in full, one cycle per batch. */
  function FullPolls(batches: seq<seq<Missile>>): (polls: seq<Poll>)
    ensures |polls| == |batches|
    ensures forall i :: 0 <= i < |batches| ==> polls[i] == Poll(Fetched(batches[i]), None)
  {
    if batches == [] then [] else [Poll(Fetched(batches[0]), None)] + FullPolls(batches[1..])
  }

  /** The lines of each batch, one batch after the other. */
  function AllLines(batches: seq<seq<Missile>>): seq<string> {
    if batches == [] then [] else Lines(batches[0]) + AllLines(batches[1..])
  }

  /**
   * The corrected cycle keeps polling: whatever the watermark, successive
   * batches fetched and posted in full are all announced, in order.
   */
  lemma {:induction false} CorrectedPostsEveryBatch(w: Option<string>, batches: seq<seq<Missile>>)
    ensures Run(w, FullPolls(batches)) == AllLines(batches)
    decreases |batches|
  {
    if batches != [] {
      var ms := batches[0];
      assert ms[..|ms|] == ms;
      assert FullPolls(batches)[1..] == FullPolls(batches[1..]);
      CorrectedPostsEveryBatch(NextWatermark(w, Fetched(ms), None), batches[1..]);
    }
  }

  class Notifier {
    /** `last_checked_time`: the `sentAt` that scopes the next request, unset at first. */
    var lastCheckedTime: Option<string>
    /** The lines posted to the notifications channel, oldest first. */
    ghost var posted: seq<string>

    /** `__init__`: the watermark starts unset, so the first request has no `since`. */
    constructor ()
      ensures lastCheckedTime == None && posted == []
      ensures SinceParam(lastCheckedTime) == None
    {
      lastCheckedTime := None;
      posted := [];
    }

    /**
     * `check_for_missiles`: one cycle. It returns the `since` parameter it
     * sent; it posts the batch's lines in order until a send raises, and only
     * a batch posted in full moves the watermark.
     */
    method Cycle(result: Fetch, sendFailure: Option<nat>) returns (since: Option<string>)
      modifies this
      ensures since == SinceParam(old(lastCheckedTime))
      ensures posted == old(posted) + Emitted(result, sendFailure)
      ensures lastCheckedTime == NextWatermark(old(lastCheckedTime), result, sendFailure)
    {
      since := None;
      if lastCheckedTime.Some? && lastCheckedTime.value != "" {
        since := lastCheckedTime;
      }
      if result.FetchFailed? {
        return;
      }
      var missiles := result.missiles;
      var i := 0;
      while i < |missiles|
        invariant 0 <= i <= |missiles|
        invariant sendFailure.Some? ==> sendFailure.value >= i
        invariant posted == old(posted) + Lines(missiles[..i])
        invariant lastCheckedTime == old(lastCheckedTime)
      {
        if sendFailure == Some(i) {
          SendFailureResends(old(lastCheckedTime), missiles, i);
          return;
        }
        LinesOneMore(missiles, i);
        assert (old(posted) + Lines(missiles[..i])) + [Announcement(missiles[i])]
            == old(posted) + (Lines(missiles[..i]) + [Announcement(missiles[i])]);
        posted := posted + [Announcement(missiles[i])];
        i := i + 1;
      }
      assert missiles[..i] == missiles;
      BatchPostedInFull(old(lastCheckedTime), missiles, sendFailure);
      if missiles != [] {
        lastCheckedTime := Some(MaxSentAt(missiles));
      }
    }
  }
}
