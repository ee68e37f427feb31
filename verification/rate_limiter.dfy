/**
 The per-user sliding-window rate limiter that guards the mocked model call.

 The process-wide table maps every user id to a log of the timestamps of that
 user's admitted calls. One call trims the expired head of the caller's log,
 rejects when the remaining log is full, and otherwise appends the call's time
 and answers with a mocked reply. The table is an immutable map here, and one
 call is the pure function `Step` from the old table to the new table and the
 call's outcome; the clock reading is part of the call.
 */
module RateLimiter {

  /** Length of the trailing window, in seconds. */
  const WindowSeconds: real := 60.0
  /** Number of calls a user may have inside one window. */
  const MaxRequests: nat := 78
  /** HTTP status carried by a rejection. */
  const TooManyRequests: int := 429
  /** Detail text of a rejection, with the limit and the window written in. */
  const LimitDetail: string := "Rate limit exceeded: max 78 calls per 60s"

  type UserId = string
  type Timestamp = real
  /** The timestamps of one user's admitted calls, in the order the calls
      arrived. */
  type Log = seq<Timestamp>
  /** The table of all users' logs. */
  type State = map<UserId, Log>

  /** One invocation: who calls, with which prompt, at which clock reading. */
  datatype Call = Call(user: UserId, prompt: string, now: Timestamp)

  /** The record an admitted call answers with: the caller, the prompt, and the
      clock reading; its mocked answer text is derived from the prompt. */
  datatype Reply = Reply(userId: UserId, input: string, timestamp: Timestamp) {

    /** The mocked model answer carried under the reply's "response" key. */
    function Response(): string
    {
      "Mocked response for: '" + input + "'"
    }
  }

  /** An admitted call carries its reply; a rejection carries the 429 status,
      whose detail text is `LimitDetail`. */
  datatype Outcome = Admitted(reply: Reply) | RateLimited(statusCode: int) {

    /** The detail text a rejection carries. */
    function Detail(): string
      requires RateLimited?
    {
      LimitDetail
    }
  }

  /** A record is expired once it is strictly older than the window: one exactly
      `WindowSeconds` old still counts. */
  predicate Expired(t: Timestamp, now: Timestamp)
  {
    t < now - WindowSeconds
  }

  /** The log a call starts from; a user never seen before starts from an empty one. */
  function LogOf(s: State, user: UserId): Log
  {
    if user in s then s[user] else []
  }

  predicate Sorted(log: Log)
  {
    forall i, j :: 0 <= i < j < |log| ==> log[i] <= log[j]
  }

  /** How many records the trim pops: the length of the log's expired head. */
  function ExpiredHead(log: Log, now: Timestamp): (n: nat)
    ensures n <= |log|
    ensures forall i :: 0 <= i < n ==> Expired(log[i], now)
    ensures n < |log| ==> !Expired(log[n], now)
    decreases |log|
  {
    if log == [] || !Expired(log[0], now) then 0
    else
      var m := ExpiredHead(log[1..], now);
      assert forall i :: 1 <= i <= m ==> log[1..][i - 1] == log[i];
      m + 1
  }

  /** The log after its expired head has been dropped. */
  function Trim(log: Log, now: Timestamp): (kept: Log)
    ensures |kept| <= |log|
    ensures kept != [] ==> !Expired(kept[0], now)
  {
    log[ExpiredHead(log, now)..]
  }

  /** The trimming loop as the source runs it: pop the front record while it
      is expired. It leaves a suffix of the log, having popped only expired
      records, and stops at the first record still inside the window. */
  method PopExpired(log: Log, now: Timestamp) returns (kept: Log)
    ensures |kept| <= |log| && kept == log[|log| - |kept|..]
    ensures forall i :: 0 <= i < |log| - |kept| ==> Expired(log[i], now)
    ensures kept != [] ==> !Expired(kept[0], now)
    ensures kept == Trim(log, now)
  {
    kept := log;
    var popped := 0;
    while kept != [] && Expired(kept[0], now)
      invariant popped <= ExpiredHead(log, now)
      invariant kept == log[popped..]
      decreases |kept|
    {
      kept := kept[1..];
      popped := popped + 1;
    }
  }

  /** Whether a call at `now` finds room in `log` once it is trimmed. */
  predicate HasRoom(log: Log, now: Timestamp)
  {
    |Trim(log, now)| < MaxRequests
  }

  /** The log stored for the caller after a call at `now`: the trimmed log,
      with `now` appended when the call is admitted. */
  function Stored(log: Log, now: Timestamp): (next: Log)
    ensures |log| <= MaxRequests ==> |next| <= MaxRequests
  {
    if HasRoom(log, now) then Trim(log, now) + [now] else Trim(log, now)
  }

  /** One call: trim the caller's log, reject when it is full, otherwise log the
      call and reply. The trimmed log is stored even when the call is rejected,
      and a user never seen before gets an entry. */
  function Step(s: State, c: Call): (res: (State, Outcome))
    ensures res.0.Keys == s.Keys + {c.user}
    ensures forall u :: u != c.user ==> LogOf(res.0, u) == LogOf(s, u)
    ensures |LogOf(s, c.user)| <= MaxRequests ==> |LogOf(res.0, c.user)| <= MaxRequests
  {
    var log := LogOf(s, c.user);
    var outcome := if HasRoom(log, c.now) then Admitted(Reply(c.user, c.prompt, c.now)) else RateLimited(TooManyRequests);
    (s[c.user := Stored(log, c.now)], outcome)
  }

  /** In a log ordered oldest first, trimming leaves only records inside the
      window, the one exactly at its edge included. */
  lemma TrimKeepsWindow(log: Log, now: Timestamp)
    requires Sorted(log)
    ensures forall t :: t in Trim(log, now) ==> now - WindowSeconds <= t
  {
    var kept := Trim(log, now);
    forall t | t in kept
      ensures now - WindowSeconds <= t
    {
      var k :| 0 <= k < |kept| && kept[k] == t;
      assert kept[0] <= kept[k];
    }
  }

  /** The edge convention: a single record survives trimming exactly when it is
      no more than `WindowSeconds` old. */
  lemma TrimBoundaryIsStrict(t: Timestamp, now: Timestamp)
    ensures Trim([t], now) == [t] <==> now - WindowSeconds <= t
    ensures Trim([t], now) == [] <==> t < now - WindowSeconds
  {
  }

  /** Trimming twice at the same instant drops nothing more. */
  lemma TrimIdempotent(log: Log, now: Timestamp)
    ensures Trim(Trim(log, now), now) == Trim(log, now)
  {
  }

  /** Trimming only drops records: every kept record was in the log. */
  lemma {:induction false} TrimSubset(log: Log, now: Timestamp)
    ensures forall t :: t in Trim(log, now) ==> t in log
  {
    var kept := Trim(log, now);
    forall t | t in kept
      ensures t in log
    {
      var k :| 0 <= k < |kept| && kept[k] == t;
      var j := |log| - |kept| + k;
      assert log[j] == t;
    }
  }

  /** A call stores only records of the old log and its own time. */
  lemma StoredRecords(log: Log, now: Timestamp)
    ensures forall t :: t in Stored(log, now) ==> t in log || t == now
  {
    TrimSubset(log, now);
  }

  /** An example of `FreshRecordStopsTrim`: without ordering the trim is not a
      window, since a stale record behind a fresh one survives; this is why the
      window lemmas assume sorted logs. */
  lemma StaleRecordBehindFreshOneSurvives(now: Timestamp)
    ensures Expired(now - 2.0 * WindowSeconds, now)
    ensures Trim([now, now - 2.0 * WindowSeconds], now) == [now, now - 2.0 * WindowSeconds]
  {
  }

  /** The trim stops at the first record still inside the window: whatever
      follows a fresh record, expired or not, is kept, in order, as the tail of
      the trimmed log. */
  lemma FreshRecordStopsTrim(log: Log, now: Timestamp, k: nat)
    requires k < |log| && !Expired(log[k], now)
    ensures |log| - k <= |Trim(log, now)|
    ensures Trim(log, now)[|Trim(log, now)| - (|log| - k)..] == log[k..]
  {
    var n := ExpiredHead(log, now);
    assert n <= k;
    assert Trim(log, now) == log[n..];
  }

  /** A call whose trimmed log is full is rejected with status 429, and the
      stored log is the trimmed one, with nothing appended. */
  lemma StepRejectsWhenFull(s: State, c: Call)
    requires |Trim(LogOf(s, c.user), c.now)| >= MaxRequests
    ensures Step(s, c).1 == RateLimited(TooManyRequests)
    ensures LogOf(Step(s, c).0, c.user) == Trim(LogOf(s, c.user), c.now)
    ensures |LogOf(Step(s, c).0, c.user)| == |Trim(LogOf(s, c.user), c.now)| <= |LogOf(s, c.user)|
  {
  }

  /** A call whose trimmed log has room is admitted; its own time is appended at
      the end of the trimmed log, which grows by exactly one. */
  lemma StepAdmitsWithRoom(s: State, c: Call)
    requires |Trim(LogOf(s, c.user), c.now)| < MaxRequests
    ensures Step(s, c).1.Admitted?
    ensures LogOf(Step(s, c).0, c.user) == Trim(LogOf(s, c.user), c.now) + [c.now]
    ensures |LogOf(Step(s, c).0, c.user)| == |Trim(LogOf(s, c.user), c.now)| + 1
  {
  }

  /** The reply of an admitted call echoes the caller, the prompt and the clock
      reading, and its text embeds the prompt. */
  lemma AdmittedReplyEchoesCall(s: State, c: Call)
    requires Step(s, c).1.Admitted?
    ensures Step(s, c).1.reply.userId == c.user
    ensures Step(s, c).1.reply.input == c.prompt
    ensures Step(s, c).1.reply.timestamp == c.now
    ensures Step(s, c).1.reply.Response() == "Mocked response for: '" + c.prompt + "'"
  {
  }

  /** The prompt can be read back from the mocked answer text. */
  lemma ResponseRecoversPrompt(r: Reply)
    ensures |r.Response()| == |r.input| + 23
    ensures r.Response()[22..|r.Response()| - 1] == r.input
  {
  }

  /** A user never seen before starts from an empty log: the first call is
      admitted and leaves a log holding only its own time. */
  lemma FirstCallAdmitted(s: State, c: Call)
    requires c.user !in s
    ensures Step(s, c).1.Admitted?
    ensures Step(s, c).0[c.user] == [c.now]
  {
    assert LogOf(s, c.user) == [];
    assert Trim([], c.now) == [];
  }

  /** Calls of different users do not influence each other: either order gives
      the same table and each call the same outcome as on its own. */
  lemma StepsOfDifferentUsersCommute(s: State, a: Call, b: Call)
    requires a.user != b.user
    ensures Step(Step(s, a).0, b).1 == Step(s, b).1
    ensures Step(Step(s, b).0, a).1 == Step(s, a).1
    ensures Step(Step(s, a).0, b).0 == Step(Step(s, b).0, a).0
  {
    assert LogOf(Step(s, a).0, b.user) == LogOf(s, b.user);
    assert LogOf(Step(s, b).0, a.user) == LogOf(s, a.user);
  }

  /** A rejection at some instant repeats at the same instant and then changes
      nothing: rejected calls do not consume quota. */
  lemma RejectionIsStable(s: State, c: Call, again: Call)
    requires Step(s, c).1.RateLimited?
    requires again.user == c.user && again.now == c.now
    ensures Step(Step(s, c).0, again).1 == Step(s, c).1
    ensures Step(Step(s, c).0, again).0 == Step(s, c).0
  {
    TrimIdempotent(LogOf(s, c.user), c.now);
  }

  /** A full log has room again exactly when its first record, the front of
      the queue, has expired: the earliest admission after hitting the limit
      comes once that record is strictly more than `WindowSeconds` old. */
  lemma FullLogRecovers(log: Log, now: Timestamp)
    requires |log| == MaxRequests
    ensures HasRoom(log, now) <==> Expired(log[0], now)
  {
    if Expired(log[0], now) {
      assert ExpiredHead(log, now) >= 1;
    } else {
      assert ExpiredHead(log, now) == 0;
    }
  }

  /** The edge case with the source's constants: after 78 calls at time 0 a
      call at time 0 or at exactly 60 is rejected, one at 60.0001 is admitted. */
  lemma BoundaryScenario()
    ensures var full := seq(MaxRequests, _ => 0.0);
      && !HasRoom(full, 0.0)
      && !HasRoom(full, 60.0)
      && HasRoom(full, 60.0001)
  {
    var full := seq(MaxRequests, _ => 0.0);
    FullLogRecovers(full, 0.0);
    FullLogRecovers(full, 60.0);
    FullLogRecovers(full, 60.0001);
  }

  /** Appending a time no earlier than any record keeps a log ordered. */
  lemma SortedAppend(h: Log, t: Timestamp)
    requires Sorted(h)
    requires forall x :: x in h ==> x <= t
    ensures Sorted(h + [t])
  {
    var n := h + [t];
    forall i, j | 0 <= i < j < |n|
      ensures n[i] <= n[j]
    {
      if j == |h| {
        assert n[i] in h;
      }
    }
  }

  /** A log ordered oldest first stays ordered after a call at a time no earlier
      than any record in it. */
  lemma StepKeepsLogSorted(s: State, c: Call)
    requires Sorted(LogOf(s, c.user))
    requires forall t :: t in LogOf(s, c.user) ==> t <= c.now
    ensures Sorted(LogOf(Step(s, c).0, c.user))
  {
    var log := LogOf(s, c.user);
    var kept := Trim(log, c.now);
    TrimSubset(log, c.now);
    assert Sorted(kept) by {
      forall i, j | 0 <= i < j < |kept|
        ensures kept[i] <= kept[j]
      {
        assert log[|log| - |kept| + i] <= log[|log| - |kept| + j];
      }
    }
    if |kept| < MaxRequests {
      SortedAppend(kept, c.now);
    }
  }
}
