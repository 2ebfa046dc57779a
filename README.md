# Node registry of the Hyperbolic Telegram bot, in Dafny

The bot (`nodeApp.py`) lets a Telegram user store an API key and start a
per-user "node": a background loop that keeps sending random prompts to a
chat-completion endpoint and counts the requests. Its behaviour lives in two
module-level dictionaries:

- `user_data`: user id to API key (persisted to `data.json`);
- `running_users`: user id to a run record `{key, count, start, gap, running}`.

This project models the command handlers that act on those dictionaries and
the body of the background loop:

- `node_state.dfy` (module `NodeState`): the two maps as a value
  (`Registry`), the run record, the reply tags that stand in for the reply
  texts, and one function per command (`SetKey`, `Start`, `Stop`, `Stats`,
  `SetGap`, `Tick`, `Ticks`). Each function's contract states the guards, the
  new record and the "nothing else changes" frame. `Valid` is the invariant
  every reachable registry keeps: a record exists only for a user with a key,
  counters are non-negative, and gaps lie in [10, 60].
- `node_app.dfy` (module `NodeApp`): class `Bot` with the two maps as fields
  and one method per handler (`NodeKey`, `NodeRun`, `NodeStop`, `NodeStats`,
  `NodeGap`), plus `RunnerStep` (one pass of `node_runner`'s loop) and
  `Runner` (the loop itself, bounded). Each method updates the fields in place
  and is proved to end in the state, and give the reply, that the `NodeState`
  function gives for the old state.
- `node_trace.dfy` (module `NodeTrace`): commands in sequence (`Exec`) and
  what holds across them. Every reachable registry is valid. A counter only
  goes down through a restart. Without a stop, the counter grows by exactly
  the number of loop passes (a `/node run` while running is rejected). It also covers the double start,
  restart, double stop and the gap bounds.

The start time (`time.ctime()`) is an opaque `Timestamp` parameter. The
arguments of `node_gap` are `context.args`, all the words after the `/node`
command, each already passed through `int()`: each word is an `Option<int>`,
and `None` means `int()` raised. The handler reads the first word only.

## Model

| member | source | states |
|---|---|---|
| NodeState.SetKey | nodeApp.py:66-74 | no argument: Usage and nothing changes; otherwise the user's key becomes the first argument, overwriting any earlier one, every other user's key and all run records unchanged |
| NodeState.Start | nodeApp.py:76-92 | NoKey exactly when the user has no key, AlreadyRunning exactly when the record exists and is running, both changing nothing; otherwise the record becomes {current key, count 0, given start, gap 20, running}, other records and keys untouched |
| NodeState.Stop | nodeApp.py:94-100 | with a record: Ok, only `running` cleared, record kept; without: NotRunning and nothing changes; afterwards the user is never running |
| NodeState.Stats | nodeApp.py:102-115 | the record exactly when one exists, else unavailable; on a valid registry the count it shows is non-negative and the gap in [10, 60] |
| NodeState.SetGap | nodeApp.py:117-133 | checks in order: no record gives NotStarted, no argument Usage, non-number BadNumber, then Ok iff 10 <= g <= 60 (inclusive) else OutOfRange; only Ok changes anything, and only that record's gap |
| NodeState.Tick | nodeApp.py:48-52 | while the record is running, count goes up by exactly 1 with key, start, gap and running unchanged and every other entry untouched; otherwise nothing changes |
| NodeState.Ticks | nodeApp.py:46-52 | n passes of the loop raise a running record's count by exactly n, leave it running and everything else unchanged; a stopped record is left as is |
| NodeTrace.Exec | nodeApp.py:66-133 | any sequence of commands and loop passes keeps the invariant, never removes a key and never removes a run record |
| NodeTrace.Initial | nodeApp.py:23-24 | the start state (loaded keys, no records) is valid and every user's stats are unavailable |
| NodeTrace.ReachableValid | nodeApp.py:84-90 | every registry reachable from start is valid; in particular no counter is ever negative |
| NodeTrace.StepCountMonotone | nodeApp.py:48-52 | a single command other than a restart of the user keeps the user's record and does not lower its count |
| NodeTrace.CountOnlyResetByRun | nodeApp.py:84-90 | over any trace without a `/node run` by the user, the user's record survives and its count does not decrease |
| NodeTrace.CountTracksTicks | nodeApp.py:48-52 | over any trace with no stop of the user (repeated `/node run` allowed, being rejected while running), the record stays running and its count rises by exactly the number of that user's loop passes, whatever else the trace does |
| NodeTrace.SecondStartRejected | nodeApp.py:81-83 | after a successful start, a second start replies AlreadyRunning and leaves the registry, count included, unchanged |
| NodeTrace.RestartResets | nodeApp.py:84-90 | stop then start succeeds and resets the record to count 0, gap 20, the new start time and the current key |
| NodeTrace.StopIdempotent | nodeApp.py:96-98 | a second stop replies Ok again and leaves the same registry as one stop |
| NodeTrace.GapBoundaries | nodeApp.py:127-131 | 10 and 60 are accepted, 9 and 61 rejected with nothing changed |
| NodeTrace.DocumentedGapSyntaxRejected | nodeApp.py:122-133 | when the first word after the command does not parse as an integer (as with the documented `/node gap <seconds>`), the reply is BadNumber and nothing changes, whatever follows |
| NodeTrace.GapAfterStop | nodeApp.py:119-128 | a stopped record still accepts a gap change and stays stopped |
| NodeApp.Bot.constructor | nodeApp.py:23-24 | the key map is what was loaded, no run records, invariant holds |
| NodeApp.Bot.NodeKey | nodeApp.py:66-74 | updates `userData` in place; reply and new maps are those of `SetKey` on the old maps; invariant kept |
| NodeApp.Bot.NodeRun | nodeApp.py:76-92 | updates `runningUsers` in place; reply and new maps are those of `Start`; invariant kept |
| NodeApp.Bot.NodeStop | nodeApp.py:94-100 | clears the flag in place; reply and new maps are those of `Stop`; invariant kept |
| NodeApp.Bot.NodeStats | nodeApp.py:102-115 | changes nothing; returns exactly what `Stats` gives on the current maps: the record iff the user has one |
| NodeApp.Bot.NodeGap | nodeApp.py:117-133 | updates the gap in place; reply and new maps are those of `SetGap`; invariant kept |
| NodeApp.Bot.RunnerStep | nodeApp.py:48-51 | reports whether the flag was set and leaves exactly the state `Tick` gives |
| NodeApp.Bot.Runner | nodeApp.py:46-52 | a running record makes all `iterations` passes, a stopped one none; the new state is `Ticks` of the old one for that many passes |

## Left out

- `send_chat_request` (nodeApp.py:26-44): an HTTP POST whose result the loop discards; the loop pass keeps only its effect on the counter.
- The prompt file, `load_data` with its fallback to an empty map, and `save_data` (nodeApp.py:9-21): file I/O. The loaded map is the constructor's parameter; `node_key` then rewrites the whole map to `data.json`, which the model does not represent.
- `random.choice` and `time.ctime()`: the prompt is not modelled and the start time is a parameter.
- Threads and `time.sleep` (nodeApp.py:46-52, 91): the model is sequential. The source shares each record between its loop thread and the handlers without a lock, and the thread holds the record object itself, so after a stop and restart an old thread keeps the old (stopped) object; neither the interleavings nor this aliasing are modelled.
- NodeApp.Bot.Runner: the source loop runs until another thread clears the flag, which cannot happen in a sequential model, so the loop is bounded by an iteration count.
- Reply texts and Telegram wiring (nodeApp.py:54-64, 135-143): replies are tags. The help text presents `run`, `stop`, `stats` and `gap` as subcommands of `/node`, but no handler dispatches on that word: all four handlers are registered for the same command, so the library would route every `/node ...` to `node_run`. The model states the handlers themselves, not that routing.
- The documented gap syntax `/node gap <seconds>` (nodeApp.py:61) cannot succeed even with routing fixed: `node_gap` parses `context.args[0]`, which is the word `gap` (nodeApp.py:122-126), so the reply is always "Invalid number". The model keeps this as written (NodeTrace.DocumentedGapSyntaxRejected); a corrected handler that reads the word after `gap` is not modelled.
- Python `int()` parsing of the gap argument (whitespace, signs, underscores): the argument arrives already parsed.
- The bare `except` in `node_gap` also catches failures of sending the reply; the model has no reply sending.
