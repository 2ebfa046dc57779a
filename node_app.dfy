/**
 * The bot's two module-level dictionaries as the fields of one object, and
 * one method per command handler of nodeApp.py that updates them in place.
 * Each method is proved against the matching function of NodeState: its
 * reply and the new contents of both maps are what that function gives for
 * the old contents.
 */
module NodeApp {
  import opened NodeState

  class Bot {
    /** `user_data`: user id to API key, loaded from data.json at start. */
    var userData: map<UserId, ApiKey>
    /** `running_users`: user id to run record, in memory only. */
    var runningUsers: map<UserId, RunRecord>

    function Snapshot(): Registry
      reads this
    {
      Registry(userData, runningUsers)
    }

    ghost predicate Valid()
      reads this
    {
      NodeState.Valid(Snapshot())
    }

    /** Process start: `stored` is what load_data returned ({} when data.json is unreadable). */
    constructor (stored: map<UserId, ApiKey>)
      ensures Valid()
      ensures userData == stored && runningUsers == map[]
    {
      userData := stored;
      runningUsers := map[];
    }

    /** Handler `node_key`; `args` are the words after the command. */
    method NodeKey(user: UserId, args: seq<string>) returns (reply: Reply)
      requires Valid()
      modifies this
      ensures Valid()
      ensures Outcome(Snapshot(), reply) == SetKey(old(Snapshot()), user, args)
    {
      if |args| == 0 {
        return Usage;
      }
      userData := userData[user := args[0]];
      reply := Ok;
    }

    /** Handler `node_run`; `now` stands for time.ctime(). The thread launch is left out. */
    method NodeRun(user: UserId, now: Timestamp) returns (reply: Reply)
      requires Valid()
      modifies this
      ensures Valid()
      ensures Outcome(Snapshot(), reply) == Start(old(Snapshot()), user, now)
    {
      if user !in userData {
        return NoKey;
      }
      if user in runningUsers && runningUsers[user].running {
        return AlreadyRunning;
      }
      runningUsers := runningUsers[user := RunRecord(userData[user], 0, now, DefaultGap, true)];
      reply := Ok;
    }

    /** Handler `node_stop`. */
    method NodeStop(user: UserId) returns (reply: Reply)
      requires Valid()
      modifies this
      ensures Valid()
      ensures Outcome(Snapshot(), reply) == Stop(old(Snapshot()), user)
    {
      if user in runningUsers {
        runningUsers := runningUsers[user := runningUsers[user].(running := false)];
        reply := Ok;
      } else {
        reply := NotRunning;
      }
    }

    /** Handler `node_stats`: reads the user's record and changes nothing. */
    method NodeStats(user: UserId) returns (stats: Option<RunRecord>)
      ensures stats == Stats(Snapshot(), user)
    {
      if user in runningUsers {
        stats := Some(runningUsers[user]);
      } else {
        stats := None;
      }
    }

    /** Handler `node_gap`; `args` are all the words after the command, each through int(). */
    method NodeGap(user: UserId, args: seq<Option<int>>) returns (reply: Reply)
      requires Valid()
      modifies this
      ensures Valid()
      ensures Outcome(Snapshot(), reply) == SetGap(old(Snapshot()), user, args)
    {
      if user !in runningUsers {
        return NotStarted;
      }
      if |args| == 0 {
        return Usage;
      }
      match args[0]
      case None =>
        reply := BadNumber;
      case Some(gap) =>
        if MinGap <= gap <= MaxGap {
          runningUsers := runningUsers[user := runningUsers[user].(gap := gap)];
          reply := Ok;
        } else {
          reply := OutOfRange;
        }
    }

    /**
     * One pass of node_runner's loop: check the flag, and if set count one
     * request (the prompt, the remote call and the sleep are left out).
     * The loop only exists after its record was created, and records are
     * never removed, hence the precondition.
     */
    method RunnerStep(user: UserId) returns (continues: bool)
      requires Valid() && user in runningUsers
      modifies this
      ensures Valid()
      ensures continues == old(runningUsers[user].running)
      ensures Snapshot() == Tick(old(Snapshot()), user)
    {
      continues := runningUsers[user].running;
      if continues {
        var rec := runningUsers[user];
        runningUsers := runningUsers[user := rec.(count := rec.count + 1)];
      }
    }

    /**
     * node_runner's loop, observed for at most `iterations` passes. Nothing
     * else acts meanwhile, so the flag cannot change: a running record makes
     * every pass, a stopped one makes none.
     */
    method Runner(user: UserId, iterations: nat) returns (performed: nat)
      requires Valid() && user in runningUsers
      modifies this
      ensures Valid()
      ensures performed == if old(runningUsers[user].running) then iterations else 0
      ensures Snapshot() == Ticks(old(Snapshot()), user, performed)
    {
      performed := 0;
      while performed < iterations
        invariant Valid() && user in runningUsers
        invariant performed <= iterations
        invariant runningUsers[user].running == old(runningUsers[user].running)
        invariant !old(runningUsers[user].running) ==> performed == 0
        invariant Snapshot() == Ticks(old(Snapshot()), user, performed)
      {
        var continues := RunnerStep(user);
        if !continues {
          break;
        }
        performed := performed + 1;
      }
    }
  }
}
