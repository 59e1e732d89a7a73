# Missile Wars Discord bot: a Dafny model of its periodic tasks and `!clear`

This project models the logic of the Missile Wars Discord bot:

- **Missile notifications** (`Notifications` cog): every 30 seconds it is meant to ask the backend
  for the missiles fired since its watermark `last_checked_time`. It posts one line per missile to
  the notifications channel, then moves the watermark to the newest `sentAt` of the batch.
  As written, the cycle calls `.isoformat()` on the stored `sentAt` string. That fails, so after
  the first non-empty batch no request is made again (see "## Findings"). `Notifications.Notifier`
  models the corrected cycle, which sends the stored string as `since`.
  `StepAsWritten` and `RunAsWritten` model the cycle as written.
- **Bot presence** (`update_bot_status`): every minute the presence becomes
  `"{active}/{total} players"`, or one of four error labels that name the kind of failure.
- **Server status** (`check_server_status`): every minute the backend is probed. An embed saying
  "Server Online" or "Server Offline" is posted only when the status differs from the one
  remembered in `last_server_status`.
- **Uptime** (`get_uptime`): the time since start-up, rendered as `"{d}d {h}h {m}m"`.
- **`!clear <amount>`**: validates the amount, then purges the channel in chunks of at most 100
  messages. A status message reports progress at every multiple of 200 and at the end, and it is
  deleted when the purge is done.

Modules:

- `Base`: `Option`, `Min`.
- `Text`: Python's `str(int)` and its parse-back.
- `StringOrder`: Python's `str` `<`.
- `Probes`: the outcome of one `GET /api/map-data`.
- `BotStatus`, `ServerStatus`, `Uptime`, `Purge` and `Notifications`: one each for the operations
  above.

How the model is built:

- The state the bot keeps between runs is held by classes:
  - `ServerStatus.Watcher` holds `last_server_status`.
  - `Notifications.Notifier` holds `last_checked_time`.
- Messages posted to Discord are ghost logs (`posted`).
- `!clear` is a method that returns the Discord calls it makes, in order, as `Purge.Effect` values.
- HTTP responses, clock readings and Discord failures are inputs.

## Model

| member | source | states |
|---|---|---|
| Notifications.Notifier.constructor | cogs/notifications.py:7-10 | the watermark starts unset, so the first request carries no `since` |
| Notifications.Notifier.Cycle | cogs/notifications.py:15-37 | one cycle: returns the `since` it sent (the watermark when truthy); posts exactly `Emitted` (the batch's lines in order, up to a failing send); the watermark becomes `NextWatermark` |
| Notifications.SinceParam | cogs/notifications.py:19-21 | `since` is sent exactly when the watermark is set and non-empty, and it is the watermark itself |
| Notifications.Announcement | cogs/notifications.py:28-29 | a missile's line is, in order: the sender, " fired a ", the missile type, " missile at ", the target and "!" |
| Notifications.LinesAt | cogs/notifications.py:27-29 | one line per missile: line `i` announces missile `i` |
| Notifications.MaxSentAtIsMax | cogs/notifications.py:31-32 | the new watermark is the `sentAt` of some missile in the batch, and no `sentAt` in the batch is greater under Python string order |
| Notifications.FullBatchSetsWatermark | cogs/notifications.py:27-32 | a non-empty batch posted in full posts all its lines and sets the watermark to the batch's own maximum, whatever it was before |
| Notifications.FailedFetchChangesNothing | cogs/notifications.py:23-25 | a failed request, error status or bad body posts nothing and keeps the watermark |
| Notifications.EmptyBatchKeepsWatermark | cogs/notifications.py:31 | an empty batch posts nothing and keeps the watermark |
| Notifications.SendFailureResends | cogs/notifications.py:27-37 | when send `k` raises, the first `k` lines are posted and the watermark stays, so the next cycle re-posts them |
| Notifications.WatermarkCanMoveBack | cogs/notifications.py:31-32 | the watermark is not monotone: a batch of older missiles moves it back |
| Notifications.AsWrittenGoesSilent | cogs/notifications.py:19-37 | as written, once the watermark holds a non-empty string, no later cycle posts anything |
| Notifications.SecondBatchIsLost | cogs/notifications.py:19-32 | two one-missile batches: as written only the first is announced, while the corrected cycle announces both |
| Notifications.CorrectedPostsEveryBatch | cogs/notifications.py:15-32 | with `since` sent as the stored string, successive batches fetched and posted in full are all announced, in order |
| StringOrder.Total | cogs/notifications.py:32 | Python string `<` is total on distinct strings, which `max` relies on |
| StringOrder.Transitive | cogs/notifications.py:32 | Python string `<` is transitive |
| StringOrder.Asymmetric | cogs/notifications.py:32 | Python string `<` is asymmetric |
| StringOrder.Irreflexive | cogs/notifications.py:32 | no string is less than itself |
| BotStatus.PresenceLabel | main.py:50-80 | the label is an error label exactly when the counts could not be read; otherwise the counts read back from it; a request error gives "Connection Error", a non-2xx code gives "Server Error", a blank or non-JSON body gives "Data Error", and a missing key gives "Unknown Error" |
| BotStatus.CountsReadBack | main.py:63 | `"{active}/{total} players"` is never an error label, and both counts parse back out of it |
| Text.IntToString | main.py:63 | `str(n)` is a numeral, with a leading minus sign exactly when `n < 0` |
| Text.IntRoundTrip | main.py:63 | `str(n)` parses back to `n` for every integer `n` |
| ServerStatus.Classify | main.py:93-111 | online exactly when the response has status 200 and both counts; green exactly when online; the offline text otherwise and the online text with the counts otherwise |
| ServerStatus.Watcher.constructor | main.py:19 | nothing is remembered and nothing has been posted |
| ServerStatus.Watcher.Check | main.py:82-116 | without the guild or the channel nothing happens; otherwise it announces exactly when the probe's status differs from the remembered one, posts the classified report and remembers its status; the posted reports never repeat a status twice in a row |
| ServerStatus.AnnouncedAlternates | main.py:113-116 | over any run of probes: at most one announcement per probe, the first differs from the status held before, consecutive announcements differ, and the remembered status is the last one announced |
| ServerStatus.FirstProbeAnnounces | main.py:19 | the first probe after start-up is always announced |
| ServerStatus.SteadyStatusIsSilent | main.py:113 | a status that keeps repeating is not announced again |
| Uptime.Split | main.py:121 | hours are in 0..23 and minutes in 0..59, and together they bracket the day's seconds to the minute |
| Uptime.SplitIsUnique | main.py:121 | any in-range hours and minutes that bracket the seconds like this are the ones computed |
| Uptime.RenderReadBack | main.py:122 | `"{d}d {h}h {m}m"` parses back to the same days, hours and minutes |
| Uptime.GetUptime | main.py:118-122 | the text reads back as the delta's days plus the hours and minutes within the day |
| Purge.Clear | main.py:128-169 | the calls `clear` makes, computed with the source's running total, are exactly the plan `Trace` |
| Purge.TraceOutcome | main.py:131-164 | amounts outside 1..1000 get one error reply; otherwise the purges follow the chunk plan, then the status message is finalised and deleted |
| Purge.FaultStopsPurge | main.py:148-169 | when purge call `k` raises, the chunks up to `k` were attempted, nothing after; the error is the last reply and the status message is not deleted |
| Purge.ChunksCoverAmount | main.py:148-152 | every purge call deletes between 1 and 100 messages, and together they delete exactly the amount |
| Purge.ChunkIsRemainder | main.py:150 | each chunk is `min(100, amount - deleted)` for the total deleted before it |
| Purge.ProgressPoints | main.py:155-156 | the status shows a running total `d` exactly when `d` is a multiple of 200 within the amount, or the amount itself |
| Purge.NextChunk | main.py:148-151 | while the total is short of the amount another chunk follows, and it adds its size to the total |
| Purge.CallsThroughPurge | main.py:148-156 | the purge limits issued through chunk `n` are the first `n` chunk sizes |

## Left out

- The Discord API is not modelled. Messages sent are ghost logs or `Effect` values. Guild and
  channel lookup is a boolean input.
- HTTP (httpx) and JSON decoding are not modelled. Their outcome is an input datatype
  (`Probes.Probe`, `Notifications.Fetch`).
- The 5-second timeout appears only as a request failure.
- Logging (`print`) is left out. It has no effect on state.
- The asyncio scheduling is left out: `tasks.loop` intervals, `before_loop`, `cog_unload`, the
  `asyncio.sleep` pauses in `clear`, and the signal handler and `main`. Each run of a loop is one
  method call.
- Firebase initialisation, `update_channel_description`, the `!w` command and the `map_data` cog
  are not part of this model.
- `@commands.has_permissions(manage_messages=True)` is Discord's own check before `clear` runs.
  The model starts after it.
- Failures of `ctx.message.delete()`, `ctx.send` and `status_message.edit`/`delete` in `clear`
  are left out. Only the purge call may fail; its `Forbidden` or `HTTPException` is an input.
- Notifications.Notifier.Cycle: a send that raises is an input index. The formatting `KeyError` of
  a missile without `sentBy`, `type` or `targetUsername` is treated like a failing send. A missing
  `sentAt` is not modelled: every `Missile` has one.
- ServerStatus.Watcher.Check: a failing `channel.send` is not modelled. In the source it would
  leave `last_server_status` unchanged and raise out of the task.
- ServerStatus.Classify: player counts are integers. Other JSON values in those keys (rendered by
  `str()` in the online text) are not modelled.
- BotStatus.PresenceLabel: player counts are integers. Other JSON values in those keys (rendered
  by `str()`) are not modelled.
- Notifications.Notifier.Cycle: models the corrected cycle, which sends the stored string as
  `since`. As written, `.isoformat()` on that string raises before the request, so every cycle
  with a truthy watermark does nothing (see "## Findings"). That behaviour is modelled only by
  `StepAsWritten` and `RunAsWritten`.
- Notifications.SinceParam: the `since` it gives is the stored string itself. As written, the
  source fails on `.isoformat()` instead of sending it.
- ServerStatus.AnnouncedAlternates: the run lemmas are about the function `Announced`, which
  applies `Watcher.Check`'s rule to a run of probes. No lemma ties a series of `Check` calls to
  it. For the watcher itself, `Watcher.Valid` carries the no-repeat property across calls.
- Notifications: `sentAt` values are strings, compared as Python compares `str`. They are not
  parsed as dates.
- Uptime.Split: `timedelta` microseconds and the clock source (`datetime.utcnow`) are left out.
  The input is the normalised `(days, seconds)` of the difference.

## Findings

| source | as written | input that shows it | evidently intended | confidence | as-written member | corrected member |
|---|---|---|---|---|---|---|
| cogs/notifications.py:20-21 | `self.last_checked_time.isoformat()` is called on the watermark. After the first non-empty batch the watermark is the `sentAt` string from the JSON, and `str` has no `isoformat`. The `AttributeError` is swallowed by the generic handler before any request is made, so notifications stop for good. | two cycles, each fetching one missile (`sentAt` "2024-01-01", then "2024-01-02"): only the first missile is announced | the stored timestamp is sent as the `since` parameter and polling continues | high (not executed) | Notifications.AsWrittenGoesSilent | Notifications.CorrectedPostsEveryBatch |
