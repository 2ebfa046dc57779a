/**
 * The per-user node registry of nodeApp.py as values: the credential map
 * (`user_data`), the run-record map (`running_users`), and one function per
 * command that gives the reply and the registry after that command.
 * These functions are the specification the methods of NodeApp are proved
 * against, and the lemmas of NodeTrace are stated over them.
 */
module NodeState {

  datatype Option<+T> = None | Some(value: T)

  /** A Telegram user id, as the string the handlers key both maps by. */
  type UserId = string

  type ApiKey = string

  /** The text of time.ctime() when a node was started; the clock is not modelled. */
  type Timestamp = string

  /** The inclusive bounds `/node gap` accepts, and the gap a fresh record gets. */
  const MinGap: int := 10
  const MaxGap: int := 60
  const DefaultGap: int := 20

  /** One entry of `running_users`: the dict {key, count, start, gap, running}. */
  datatype RunRecord = RunRecord(key: ApiKey, count: int, start: Timestamp, gap: int, running: bool)

  /** Both module-level dictionaries of the bot. */
  datatype Registry = Registry(userData: map<UserId, ApiKey>, runningUsers: map<UserId, RunRecord>)

  /** Which reply a handler sends, in place of its text. */
  datatype Reply =
    | Ok              // the command took effect
    | Usage           // an argument is missing
    | NoKey           // `/node run` before `/node_key`
    | AlreadyRunning  // `/node run` while the record says running
    | NotRunning      // `/node stop` without a record
    | NotStarted      // `/node gap` without a record
    | OutOfRange      // a gap outside [MinGap, MaxGap]
    | BadNumber       // a gap argument that is not an integer

  datatype Outcome = Outcome(after: Registry, reply: Reply)

  predicate GapInRange(g: int) {
    MinGap <= g <= MaxGap
  }

  ghost predicate RecordOk(rec: RunRecord) {
    rec.count >= 0 && GapInRange(rec.gap)
  }

  /**
   * What every reachable registry satisfies: a record exists only for a user
   * with a key, counters are never negative, and gaps stay in range.
   */
  ghost predicate Valid(s: Registry) {
    && s.runningUsers.Keys <= s.userData.Keys
    && forall u :: u in s.runningUsers ==> RecordOk(s.runningUsers[u])
  }

  predicate IsRunning(s: Registry, u: UserId) {
    u in s.runningUsers && s.runningUsers[u].running
  }

  /** `m2` has the same keys and values as `m1`, except possibly at `k`. */
  ghost predicate SameExcept<V>(m1: map<UserId, V>, m2: map<UserId, V>, k: UserId) {
    forall j :: j != k ==> (j in m1 <==> j in m2) && (j in m1 ==> m1[j] == m2[j])
  }

  /**
   * `/node_key <key>`: without an argument nothing changes; otherwise the
   * user's key is set, overwriting any earlier one, and no record is touched.
   * (The source then rewrites data.json with the whole map.)
   */
  function SetKey(s: Registry, u: UserId, args: seq<string>): (r: Outcome)
    ensures r.reply == Usage <==> |args| == 0
    ensures r.reply == Usage || r.reply == Ok
    ensures |args| == 0 ==> r.after == s
    ensures |args| > 0 ==>
      && u in r.after.userData && r.after.userData[u] == args[0]
      && SameExcept(s.userData, r.after.userData, u)
      && r.after.runningUsers == s.runningUsers
    ensures Valid(s) ==> Valid(r.after)
  {
    if |args| == 0 then Outcome(s, Usage)
    else Outcome(s.(userData := s.userData[u := args[0]]), Ok)
  }

  /**
   * `/node run`: rejected without a key, rejected while the user's record
   * says running; otherwise the record is created or overwritten with the
   * current key, a zero counter, the given start time and the default gap.
   */
  function Start(s: Registry, u: UserId, now: Timestamp): (r: Outcome)
    ensures r.reply == NoKey <==> u !in s.userData
    ensures r.reply == AlreadyRunning <==> u in s.userData && IsRunning(s, u)
    ensures r.reply == Ok <==> u in s.userData && !IsRunning(s, u)
    ensures r.reply != Ok ==> r.after == s
    ensures r.reply == Ok ==>
      && r.after.userData == s.userData
      && u in r.after.runningUsers
      && r.after.runningUsers[u] == RunRecord(s.userData[u], 0, now, DefaultGap, true)
      && SameExcept(s.runningUsers, r.after.runningUsers, u)
    ensures Valid(s) ==> Valid(r.after)
  {
    if u !in s.userData then Outcome(s, NoKey)
    else if IsRunning(s, u) then Outcome(s, AlreadyRunning)
    else
      var rec := RunRecord(s.userData[u], 0, now, DefaultGap, true);
      Outcome(s.(runningUsers := s.runningUsers[u := rec]), Ok)
  }

  /**
   * `/node stop`: with a record, clears its running flag and nothing else
   * (the record stays, so stats remain available); without one, reports
   * not running and changes nothing.
   */
  function Stop(s: Registry, u: UserId): (r: Outcome)
    ensures r.reply == (if u in s.runningUsers then Ok else NotRunning)
    ensures u !in s.runningUsers ==> r.after == s
    ensures u in s.runningUsers ==>
      && r.after.userData == s.userData
      && u in r.after.runningUsers
      && r.after.runningUsers[u] == s.runningUsers[u].(running := false)
      && SameExcept(s.runningUsers, r.after.runningUsers, u)
    ensures !IsRunning(r.after, u)
    ensures Valid(s) ==> Valid(r.after)
  {
    if u in s.runningUsers then
      Outcome(s.(runningUsers := s.runningUsers[u := s.runningUsers[u].(running := false)]), Ok)
    else Outcome(s, NotRunning)
  }

  /** `/node stats`: the user's record if there is one, else "unavailable". */
  function Stats(s: Registry, u: UserId): (r: Option<RunRecord>)
    ensures r.Some? <==> u in s.runningUsers
    ensures r.Some? ==> r.value == s.runningUsers[u]
    ensures Valid(s) && r.Some? ==> r.value.count >= 0 && GapInRange(r.value.gap)
  {
    if u in s.runningUsers then Some(s.runningUsers[u]) else None
  }

  /**
   * Handler `node_gap`. `args` are all the words after the command (the
   * handler reads the first of them), each already through int(): `None` is
   * a word int() rejects. The checks come in the source's order: a record
   * must exist (running or stopped), a word must be present, the first word
   * must be a number, and the number must lie in [MinGap, MaxGap].
   * Only success changes anything, and then only that record's gap.
   */
  function SetGap(s: Registry, u: UserId, args: seq<Option<int>>): (r: Outcome)
    ensures u !in s.runningUsers ==> r.reply == NotStarted
    ensures u in s.runningUsers && |args| == 0 ==> r.reply == Usage
    ensures u in s.runningUsers && |args| > 0 && args[0].None? ==> r.reply == BadNumber
    ensures u in s.runningUsers && |args| > 0 && args[0].Some? ==>
      r.reply == (if GapInRange(args[0].value) then Ok else OutOfRange)
    ensures r.reply != Ok ==> r.after == s
    ensures r.reply == Ok ==>
      && |args| > 0 && args[0].Some? && GapInRange(args[0].value)
      && r.after.userData == s.userData
      && u in s.runningUsers && u in r.after.runningUsers
      && r.after.runningUsers[u] == s.runningUsers[u].(gap := args[0].value)
      && SameExcept(s.runningUsers, r.after.runningUsers, u)
    ensures Valid(s) ==> Valid(r.after)
  {
    if u !in s.runningUsers then Outcome(s, NotStarted)
    else if |args| == 0 then Outcome(s, Usage)
    else match args[0]
      case None => Outcome(s, BadNumber)
      case Some(g) =>
        if GapInRange(g) then
          Outcome(s.(runningUsers := s.runningUsers[u := s.runningUsers[u].(gap := g)]), Ok)
        else Outcome(s, OutOfRange)
  }

  /**
   * One iteration of the loop in node_runner, with the prompt choice, the
   * remote call and the sleep left out: while the record says running, its
   * counter goes up by exactly one and nothing else changes. Without a
   * running record the loop has exited and nothing changes.
   */
  function Tick(s: Registry, u: UserId): (r: Registry)
    ensures !IsRunning(s, u) ==> r == s
    ensures IsRunning(s, u) ==>
      && r.userData == s.userData
      && u in r.runningUsers
      && r.runningUsers[u] == s.runningUsers[u].(count := s.runningUsers[u].count + 1)
      && SameExcept(s.runningUsers, r.runningUsers, u)
    ensures Valid(s) ==> Valid(r)
  {
    if IsRunning(s, u) then
      var rec := s.runningUsers[u];
      s.(runningUsers := s.runningUsers[u := rec.(count := rec.count + 1)])
    else s
  }

  /**
   * `n` iterations of node_runner's loop with nobody else acting: a running
   * record's counter goes up by exactly `n`, its other fields and every
   * other entry stay as they were.
   */
  function Ticks(s: Registry, u: UserId, n: nat): (r: Registry)
    ensures !IsRunning(s, u) ==> r == s
    ensures IsRunning(s, u) ==>
      && r.userData == s.userData
      && IsRunning(r, u)
      && r.runningUsers[u] == s.runningUsers[u].(count := s.runningUsers[u].count + n)
      && SameExcept(s.runningUsers, r.runningUsers, u)
    ensures Valid(s) ==> Valid(r)
    decreases n
  {
    if n == 0 then s else Tick(Ticks(s, u, n - 1), u)
  }
}
