/**
 * The `!clear <amount>` command (main.py): it checks the amount, deletes the
 * command message, posts a status message and purges the channel in chunks of
 * at most 100 messages, editing the status message as it goes. The Discord
 * calls are not made: the command's result is the sequence of calls it would
 * make, in order.
 */
module Purge {

  import opened Base
  import Text

  /** The most messages one command may delete. */
  const MaxAmount := 1000
  /** The most messages one purge call deletes (Discord's bulk-delete limit). */
  const ChunkLimit := 100
  /** The status message is edited whenever the running total is a multiple of this. */
  const ReportEvery := 200

  /** What a failing purge call raises: `discord.Forbidden` or another `discord.HTTPException`. */
  datatype Fault = Forbidden | HttpFailure(message: string)

  /** The purge call with index `call` (counting from 0) raises `fault`. */
  datatype PurgeFault = PurgeFault(call: nat, fault: Fault)

  /** One Discord call made by the command. */
  datatype Effect =
    | Send(text: string)        // `ctx.send`
    | DeleteCommand             // `ctx.message.delete()`
    | Purge(limit: nat)         // `ctx.channel.purge(limit=...)`
    | EditStatus(text: string)  // `status_message.edit(content=...)`
    | DeleteStatus              // `status_message.delete()`

  const NotPositiveText := "Please specify a positive number of messages to delete."
  const ForbiddenText := "I don't have the required permissions to delete messages."

  function TooManyText(): string {
    "You can only delete up to " + Text.IntToString(MaxAmount) + " messages at once."
  }

  function FaultText(f: Fault): string {
    match f
    case Forbidden => ForbiddenText
    case HttpFailure(message) => "An error occurred while deleting messages: " + message
  }

  function ProgressText(deleted: int, amount: int): string {
    "Deleting messages... (" + Text.IntToString(deleted) + "/" + Text.IntToString(amount) + ")"
  }

  function DoneText(deleted: int): string {
    "Deleted " + Text.IntToString(deleted) + " messages."
  }

  // ---- The purge plan, by chunk index ----

  /** How many messages have been purged after the first `k` chunks. */
  function DeletedAfter(amount: nat, k: nat): nat {
    Min(ChunkLimit * k, amount)
  }

  /** How many purge calls the command makes: `amount` divided by 100, rounded up. */
  function ChunkCount(amount: nat): nat {
    (amount + ChunkLimit - 1) / ChunkLimit
  }

  /** The limit passed to purge call `k`. */
  function ChunkSize(amount: nat, k: nat): nat {
    DeletedAfter(amount, k + 1) - DeletedAfter(amount, k)
  }

  /** Whether the status message is edited after chunk `k`. */
  predicate Reports(amount: nat, k: nat) {
    var deleted := DeletedAfter(amount, k + 1);
    deleted % ReportEvery == 0 || deleted == amount
  }

  /** The calls before the first purge: the command message is deleted, the status message posted. */
  function Opening(amount: int): seq<Effect> {
    [DeleteCommand, Send(ProgressText(0, amount))]
  }

  /** The calls made up to the end of the first `n` chunks: each chunk's purge, then possibly a progress edit. */
  function CallsThrough(amount: nat, n: nat): seq<Effect> {
    if n == 0 then Opening(amount)
    else
      var purged := CallsThrough(amount, n - 1) + [Purge(ChunkSize(amount, n - 1))];
      if Reports(amount, n - 1) then purged + [EditStatus(ProgressText(DeletedAfter(amount, n), amount))]
      else purged
  }

  /** The sizes of the first `n` chunks. */
  function ChunksThrough(amount: nat, n: nat): (sizes: seq<nat>)
    ensures |sizes| == n
    ensures forall k :: 0 <= k < n ==> sizes[k] == ChunkSize(amount, k)
  {
    if n == 0 then [] else ChunksThrough(amount, n - 1) + [ChunkSize(amount, n - 1)]
  }

  /** The chunk sizes of the whole plan. */
  function Chunks(amount: nat): seq<nat> {
    ChunksThrough(amount, ChunkCount(amount))
  }

  /** The calls the command makes for `amount`, when purge call `fault.call` (if any) raises. */
  function Trace(amount: int, fault: Option<PurgeFault>): seq<Effect> {
    if amount <= 0 then [Send(NotPositiveText)]
    else if amount > MaxAmount then [Send(TooManyText())]
    else if fault.Some? && fault.value.call < ChunkCount(amount) then
      var k := fault.value.call;
      CallsThrough(amount, k) + [Purge(ChunkSize(amount, k))] + [Send(FaultText(fault.value.fault))]
    else
      CallsThrough(amount, ChunkCount(amount)) + [EditStatus(DoneText(amount))] + [DeleteStatus]
  }

  // ---- Facts about the plan ----

  /** While the total is short of the amount there is another chunk, of size `min(100, amount - deleted)`. */
  lemma NextChunk(amount: nat, k: nat)
    requires DeletedAfter(amount, k) < amount
    ensures k < ChunkCount(amount)
    ensures ChunkSize(amount, k) == Min(ChunkLimit, amount - DeletedAfter(amount, k))
    ensures DeletedAfter(amount, k + 1) == DeletedAfter(amount, k) + ChunkSize(amount, k)
  {
    var q := ChunkCount(amount);
    assert ChunkLimit * q <= amount + ChunkLimit - 1 < ChunkLimit * q + ChunkLimit;
  }

  /** Once the total reaches the amount, every chunk has been issued. */
  lemma NoChunkLeft(amount: nat, k: nat)
    requires k <= ChunkCount(amount) && DeletedAfter(amount, k) == amount
    ensures k == ChunkCount(amount)
  {
    var q := ChunkCount(amount);
    assert ChunkLimit * q <= amount + ChunkLimit - 1 < ChunkLimit * q + ChunkLimit;
  }

  function Sum(s: seq<nat>): nat {
    if s == [] then 0 else Sum(s[..|s| - 1]) + s[|s| - 1]
  }

  /** The first `k` chunks add up to the running total after them. */
  lemma {:induction false} PrefixSum(amount: nat, k: nat)
    ensures Sum(ChunksThrough(amount, k)) == DeletedAfter(amount, k)
  {
    if k > 0 {
      var c := ChunksThrough(amount, k);
      var before := ChunksThrough(amount, k - 1);
      assert c == before + [ChunkSize(amount, k - 1)];
      assert c[..k - 1] == before;
      PrefixSum(amount, k - 1);
      assert Sum(c) == Sum(before) + ChunkSize(amount, k - 1);
    }
  }

  lemma ChunksPrefix(amount: nat, k: nat)
    requires k <= ChunkCount(amount)
    ensures Chunks(amount)[..k] == ChunksThrough(amount, k)
  {
  }

  /** Every purge call deletes between 1 and 100 messages, and the calls together delete `amount`. */
  lemma ChunksCoverAmount(amount: nat)
    requires 1 <= amount
    ensures forall k :: 0 <= k < |Chunks(amount)| ==> 1 <= Chunks(amount)[k] <= ChunkLimit
    ensures Sum(Chunks(amount)) == amount
  {
    forall k | 0 <= k < |Chunks(amount)|
      ensures 1 <= Chunks(amount)[k] <= ChunkLimit
    {
      NextChunk(amount, k);
    }
    var n := ChunkCount(amount);
    PrefixSum(amount, n);
    assert ChunkLimit * n >= amount;
  }

  /** Each chunk is `min(100, amount - deleted)`, where `deleted` sums the chunks before it. */
  lemma ChunkIsRemainder(amount: nat, k: nat)
    requires k < |Chunks(amount)|
    ensures Chunks(amount)[k] == Min(ChunkLimit, amount - Sum(Chunks(amount)[..k]))
  {
    ChunksPrefix(amount, k);
    PrefixSum(amount, k);
    NextChunk(amount, k);
  }

  /**
   * The status message shows a running total `d` exactly when `d` is a
   * multiple of 200 not beyond the amount, or the amount itself.
   */
  lemma ProgressPoints(amount: nat, d: int)
    requires 1 <= amount
    ensures (exists k :: 0 <= k < ChunkCount(amount) && Reports(amount, k) && DeletedAfter(amount, k + 1) == d)
        <==> 1 <= d <= amount && (d % ReportEvery == 0 || d == amount)
  {
    var n := ChunkCount(amount);
    if d == amount {
      assert ChunkLimit * n <= amount + ChunkLimit - 1 < ChunkLimit * n + ChunkLimit;
      assert n >= 1 && DeletedAfter(amount, n) == d;
      assert Reports(amount, n - 1);
    } else if 1 <= d < amount && d % ReportEvery == 0 {
      var j := d / ReportEvery;
      assert d == ReportEvery * j && j >= 1;
      var k := 2 * j - 1;
      assert DeletedAfter(amount, k + 1) == d;
      NextChunk(amount, k);
      assert Reports(amount, k);
    }
  }

  /** The purge limits among a sequence of calls, in order. */
  function PurgeLimits(effects: seq<Effect>): seq<nat> {
    if effects == [] then []
    else
      var last := effects[|effects| - 1];
      PurgeLimits(effects[..|effects| - 1]) + (if last.Purge? then [last.limit] else [])
  }

  lemma PurgeLimitsSnoc(effects: seq<Effect>, e: Effect)
    ensures PurgeLimits(effects + [e]) == PurgeLimits(effects) + if e.Purge? then [e.limit] else []
  {
    assert (effects + [e])[..|effects|] == effects;
  }

  /** The opening calls purge nothing. */
  lemma OpeningPurgesNothing(amount: int)
    ensures PurgeLimits(Opening(amount)) == []
    ensures DeleteStatus !in Opening(amount)
  {
    PostPurgesNothing(ProgressText(0, amount));
  }

  lemma PostPurgesNothing(text: string)
    ensures PurgeLimits([DeleteCommand, Send(text)]) == []
  {
    var o := [DeleteCommand, Send(text)];
    var first := [DeleteCommand];
    assert first[..0] == [];
    assert PurgeLimits(first) == [];
    assert o[..1] == first;
    assert PurgeLimits(o) == PurgeLimits(first);
  }

  /** The purge calls made through the first `n` chunks are the first `n` chunk sizes. */
  lemma {:induction false} CallsThroughPurge(amount: nat, n: nat)
    ensures PurgeLimits(CallsThrough(amount, n)) == ChunksThrough(amount, n)
  {
    if n == 0 {
      OpeningPurgesNothing(amount);
    } else {
      CallsThroughPurge(amount, n - 1);
      var before := CallsThrough(amount, n - 1);
      var purged := before + [Purge(ChunkSize(amount, n - 1))];
      PurgeLimitsSnoc(before, Purge(ChunkSize(amount, n - 1)));
      if Reports(amount, n - 1) {
        PurgeLimitsSnoc(purged, EditStatus(ProgressText(DeletedAfter(amount, n), amount)));
      }
    }
  }

  /** No call before the end deletes the status message. */
  lemma {:induction false} CallsThroughKeepStatus(amount: nat, n: nat)
    ensures DeleteStatus !in CallsThrough(amount, n)
  {
    if n == 0 {
      OpeningPurgesNothing(amount);
    } else {
      CallsThroughKeepStatus(amount, n - 1);
    }
  }

  /**
   * An amount outside 1..1000 gets one error reply and nothing is purged; an
   * amount inside it, with no failing call, is purged chunk by chunk in the
   * plan's sizes, and the status message is finally edited and deleted.
   */
  lemma TraceOutcome(amount: int)
    ensures amount <= 0 ==> Trace(amount, None) == [Send(NotPositiveText)]
    ensures amount > MaxAmount ==> Trace(amount, None) == [Send(TooManyText())]
    ensures 1 <= amount <= MaxAmount ==> PurgeLimits(Trace(amount, None)) == Chunks(amount)
    ensures 1 <= amount <= MaxAmount ==>
      Trace(amount, None)[|Trace(amount, None)| - 2..] == [EditStatus(DoneText(amount)), DeleteStatus]
  {
    if 1 <= amount <= MaxAmount {
      var n := ChunkCount(amount);
      var calls := CallsThrough(amount, n);
      CallsThroughPurge(amount, n);
      PurgeLimitsSnoc(calls, EditStatus(DoneText(amount)));
      PurgeLimitsSnoc(calls + [EditStatus(DoneText(amount))], DeleteStatus);
    }
  }

  /**
   * When purge call `k` fails, the calls before it went through, no later
   * chunk is attempted, the error is reported and the status message is
   * neither finished nor deleted.
   */
  lemma FaultStopsPurge(amount: int, k: nat, f: Fault)
    requires 1 <= amount <= MaxAmount && k < ChunkCount(amount)
    ensures PurgeLimits(Trace(amount, Some(PurgeFault(k, f)))) == Chunks(amount)[..k + 1]
    ensures Trace(amount, Some(PurgeFault(k, f)))[|Trace(amount, Some(PurgeFault(k, f)))| - 1] == Send(FaultText(f))
    ensures DeleteStatus !in Trace(amount, Some(PurgeFault(k, f)))
  {
    var calls := CallsThrough(amount, k);
    var purged := calls + [Purge(ChunkSize(amount, k))];
    var t := Trace(amount, Some(PurgeFault(k, f)));
    assert t == purged + [Send(FaultText(f))];
    CallsThroughPurge(amount, k);
    PurgeLimitsSnoc(calls, Purge(ChunkSize(amount, k)));
    PurgeLimitsSnoc(purged, Send(FaultText(f)));
    assert PurgeLimits(t) == ChunksThrough(amount, k + 1);
    ChunksPrefix(amount, k + 1);
    CallsThroughKeepStatus(amount, k);
    assert DeleteStatus !in purged;
  }

  // ---- The command ----

  /**
   * `clear(ctx, amount)`: the calls it makes, computed with the source's
   * running total, are exactly the plan's.
   */
  method Clear(amount: int, fault: Option<PurgeFault>) returns (effects: seq<Effect>)
    ensures effects == Trace(amount, fault)
  {
    if amount <= 0 {
      effects := [Send(NotPositiveText)];
      return;
    }
    if amount > MaxAmount {
      effects := [Send(TooManyText())];
      return;
    }
    effects := [DeleteCommand];
    var deleted := 0;
    effects := effects + [Send(ProgressText(deleted, amount))];
    var calls := 0;
    assert effects == CallsThrough(amount, calls);
    while deleted < amount
      invariant calls <= ChunkCount(amount)
      invariant deleted == DeletedAfter(amount, calls)
      invariant fault.Some? ==> fault.value.call >= calls
      invariant effects == CallsThrough(amount, calls)
      decreases amount - deleted
    {
      NextChunk(amount, calls);
      var toDelete := Min(ChunkLimit, amount - deleted);
      deleted := deleted + toDelete;
      effects := effects + [Purge(toDelete)];
      if fault.Some? && fault.value.call == calls {
        effects := effects + [Send(FaultText(fault.value.fault))];
        return;
      }
      if deleted % ReportEvery == 0 || deleted == amount {
        effects := effects + [EditStatus(ProgressText(deleted, amount))];
      }
      calls := calls + 1;
    }
    NoChunkLeft(amount, calls);
    effects := effects + [EditStatus(DoneText(deleted))];
    effects := effects + [DeleteStatus];
  }
}
