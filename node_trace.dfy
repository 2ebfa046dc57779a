/**
 * Sequences of commands against the registry, and what holds across them:
 * the registry invariant, that keys and records are never removed, that a
 * counter only goes down through a restart, and how the restart, stop and
 * gap commands combine.
 */
module NodeTrace {
  import opened NodeState

  /** One inbound command, or one iteration of a user's background loop. */
  datatype Command =
    | KeyCmd(user: UserId, keyArgs: seq<string>)
    | RunCmd(user: UserId, now: Timestamp)
    | StopCmd(user: UserId)
    | StatsCmd(user: UserId)
    | GapCmd(user: UserId, gapArgs: seq<Option<int>>)
    | TickCmd(user: UserId)

  function Step(s: Registry, c: Command): Registry {
    match c
    case KeyCmd(u, args) => SetKey(s, u, args).after
    case RunCmd(u, now) => Start(s, u, now).after
    case StopCmd(u) => Stop(s, u).after
    case StatsCmd(u) => s
    case GapCmd(u, args) => SetGap(s, u, args).after
    case TickCmd(u) => Tick(s, u)
  }

  /**
   * The registry after running `cmds` in order. Every command keeps the
   * invariant, and no command deletes a key or a record.
   */
  function Exec(s: Registry, cmds: seq<Command>): (r: Registry)
    ensures Valid(s) ==> Valid(r)
    ensures s.userData.Keys <= r.userData.Keys
    ensures s.runningUsers.Keys <= r.runningUsers.Keys
    decreases |cmds|
  {
    if cmds == [] then s else Exec(Step(s, cmds[0]), cmds[1..])
  }

  /** The bot's state at process start: the loaded key map and no records. */
  function Initial(stored: map<UserId, ApiKey>): (s: Registry)
    ensures Valid(s)
    ensures forall u :: Stats(s, u).None?
  {
    Registry(stored, map[])
  }

  predicate Restarts(c: Command, u: UserId) {
    c.RunCmd? && c.user == u
  }

  predicate Stops(c: Command, u: UserId) {
    c.StopCmd? && c.user == u
  }

  /** How many loop iterations of user `u` the trace holds. */
  function TickCount(cmds: seq<Command>, u: UserId): nat {
    if cmds == [] then 0
    else (if cmds[0] == TickCmd(u) then 1 else 0) + TickCount(cmds[1..], u)
  }

  /** Every registry reached from the start state satisfies the invariant. */
  lemma ReachableValid(stored: map<UserId, ApiKey>, cmds: seq<Command>)
    ensures Valid(Exec(Initial(stored), cmds))
    ensures forall u :: u in Exec(Initial(stored), cmds).runningUsers ==>
      Exec(Initial(stored), cmds).runningUsers[u].count >= 0
  {
  }

  /** Each single command other than a restart of `u` leaves u's counter no lower. */
  lemma StepCountMonotone(s: Registry, c: Command, u: UserId)
    requires u in s.runningUsers && !Restarts(c, u)
    ensures u in Step(s, c).runningUsers
    ensures Step(s, c).runningUsers[u].count >= s.runningUsers[u].count
  {
  }

  /**
   * A user's counter never goes down unless the trace restarts that user:
   * no other command, by that user or any other, lowers it.
   */
  lemma {:induction false} CountOnlyResetByRun(s: Registry, cmds: seq<Command>, u: UserId)
    requires u in s.runningUsers
    requires forall i :: 0 <= i < |cmds| ==> !Restarts(cmds[i], u)
    ensures u in Exec(s, cmds).runningUsers
    ensures Exec(s, cmds).runningUsers[u].count >= s.runningUsers[u].count
    decreases |cmds|
  {
    if cmds != [] {
      StepCountMonotone(s, cmds[0], u);
      var t := Step(s, cmds[0]);
      assert forall i :: 0 <= i < |cmds[1..]| ==> !Restarts(cmds[1..][i], u) by {
        forall i | 0 <= i < |cmds[1..]| ensures !Restarts(cmds[1..][i], u) {
          assert cmds[1..][i] == cmds[i + 1];
        }
      }
      CountOnlyResetByRun(t, cmds[1..], u);
    }
  }

  /**
   * While no stop of `u` intervenes, u's record stays running and its
   * counter grows by exactly the number of its loop iterations, whatever
   * else happens: key changes, gap changes, other users, and repeated
   * `/node run` by `u`, which are rejected without resetting anything.
   */
  lemma {:induction false} CountTracksTicks(s: Registry, cmds: seq<Command>, u: UserId)
    requires IsRunning(s, u)
    requires forall i :: 0 <= i < |cmds| ==> !Stops(cmds[i], u)
    ensures IsRunning(Exec(s, cmds), u)
    ensures Exec(s, cmds).runningUsers[u].count == s.runningUsers[u].count + TickCount(cmds, u)
    decreases |cmds|
  {
    if cmds != [] {
      var t := Step(s, cmds[0]);
      assert IsRunning(t, u);
      assert t.runningUsers[u].count == s.runningUsers[u].count + (if cmds[0] == TickCmd(u) then 1 else 0);
      assert forall i :: 0 <= i < |cmds[1..]| ==> !Stops(cmds[1..][i], u) by {
        forall i | 0 <= i < |cmds[1..]| ensures !Stops(cmds[1..][i], u) {
          assert cmds[1..][i] == cmds[i + 1];
        }
      }
      CountTracksTicks(t, cmds[1..], u);
    }
  }

  /**
   * A second `/node run` right after a successful one is rejected as
   * already running and leaves the registry, counter included, as it was.
   */
  lemma SecondStartRejected(s: Registry, u: UserId, now1: Timestamp, now2: Timestamp)
    requires Start(s, u, now1).reply == Ok
    ensures Start(Start(s, u, now1).after, u, now2) == Outcome(Start(s, u, now1).after, AlreadyRunning)
  {
  }

  /**
   * Stopping and starting again resets the record: zero counter, default
   * gap, the new start time and the user's current key, whatever the old
   * record held.
   */
  lemma RestartResets(s: Registry, u: UserId, now: Timestamp)
    requires u in s.userData
    ensures Start(Stop(s, u).after, u, now).reply == Ok
    ensures Start(Stop(s, u).after, u, now).after.runningUsers[u]
         == RunRecord(s.userData[u], 0, now, DefaultGap, true)
  {
  }

  /** Stopping twice replies Ok both times and leaves what stopping once leaves. */
  lemma StopIdempotent(s: Registry, u: UserId)
    requires u in s.runningUsers
    ensures Stop(Stop(s, u).after, u) == Stop(s, u)
  {
  }

  /** The gap bounds are inclusive: 10 and 60 are accepted, 9 and 61 rejected. */
  lemma GapBoundaries(s: Registry, u: UserId)
    requires u in s.runningUsers
    ensures SetGap(s, u, [Some(10)]).reply == Ok
    ensures SetGap(s, u, [Some(60)]).reply == Ok
    ensures SetGap(s, u, [Some(9)]) == Outcome(s, OutOfRange)
    ensures SetGap(s, u, [Some(61)]) == Outcome(s, OutOfRange)
  {
  }

  /**
   * The gap syntax the help text documents, `/node gap <seconds>`, puts the
   * word `gap` first, which int() rejects: with a record, the reply is always
   * BadNumber and nothing changes, whatever number follows.
   */
  lemma DocumentedGapSyntaxRejected(s: Registry, u: UserId, rest: seq<Option<int>>)
    requires u in s.runningUsers
    ensures SetGap(s, u, [None] + rest) == Outcome(s, BadNumber)
  {
  }

  /** A stopped record still accepts a gap change, and stays stopped. */
  lemma GapAfterStop(s: Registry, u: UserId, g: int)
    requires u in s.runningUsers && GapInRange(g)
    ensures SetGap(Stop(s, u).after, u, [Some(g)]).reply == Ok
    ensures !IsRunning(SetGap(Stop(s, u).after, u, [Some(g)]).after, u)
  {
  }
}
