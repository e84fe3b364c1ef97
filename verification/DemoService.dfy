/** The demo service's keyed error-mode endpoint, and the executor that resets it over a lossy network.

    Requests of other clients may arrive before every attempt; what the network does to an attempt is
    arbitrary. */
module DemoService {
  import opened Wrappers

  // ----- The server -----

  /** The two module globals; a cached payload is represented by its `error_mode`. */
  datatype Server = Server(mode: bool, processed: map<string, bool>)

  /** A POST to the endpoint with its `X-Idempotency-Key` header. */
  datatype Request = Request(enabled: bool, key: Option<string>)

  predicate Keyed(r: Request) {
    r.key.Some? && r.key.value != ""
  }

  function Key(r: Request): set<string> {
    if Keyed(r) then {r.key.value} else {}
  }

  predicate Repeats(s: Server, r: Request) {
    Keyed(r) && r.key.value in s.processed
  }

  function Handle(s: Server, r: Request): Server {
    if Repeats(s, r) then s
    else Server(r.enabled, if Keyed(r) then s.processed[r.key.value := r.enabled] else s.processed)
  }

  /** The `error_mode` the reply reports. */
  function Reported(s: Server, r: Request): bool {
    if Repeats(s, r) then s.processed[r.key.value] else r.enabled
  }

  function Replay(s: Server, log: seq<Request>): Server
    decreases |log|
  {
    if log == [] then s else Replay(Handle(s, log[0]), log[1..])
  }

  lemma ReplayNothing(s: Server)
    ensures Replay(s, []) == s
  {
  }

  /** The log without the requests whose key was already used, in it or in `used`. */
  function Dedup(log: seq<Request>, used: set<string>): seq<Request>
    decreases |log|
  {
    if log == [] then []
    else if Key(log[0]) !! used then [log[0]] + Dedup(log[1..], used + Key(log[0]))
    else Dedup(log[1..], used)
  }

  lemma HandleKeys(s: Server, r: Request)
    ensures Handle(s, r).processed.Keys == s.processed.Keys + Key(r)
    ensures Repeats(s, r) <==> !(Key(r) !! s.processed.Keys)
  {
  }

  /** Repeating a key changes nothing: for every log, the state is that of the log without repeats. */
  lemma {:induction false} ReplayIgnoresRepeats(s: Server, log: seq<Request>)
    ensures Replay(s, log) == Replay(s, Dedup(log, s.processed.Keys))
    decreases |log|
  {
    if log == [] {
    } else {
      HandleKeys(s, log[0]);
      ReplayIgnoresRepeats(Handle(s, log[0]), log[1..]);
      if Repeats(s, log[0]) {
        assert s.processed.Keys + Key(log[0]) == s.processed.Keys;
      } else {
        var d := Dedup(log[1..], s.processed.Keys + Key(log[0]));
        assert ([log[0]] + d)[0] == log[0] && ([log[0]] + d)[1..] == d;
      }
    }
  }

  /** What is left uses each key once, and no key used before. */
  lemma {:induction false} DedupUsesKeysOnce(log: seq<Request>, used: set<string>)
    ensures forall i | 0 <= i < |Dedup(log, used)| :: Key(Dedup(log, used)[i]) !! used
    ensures forall i, j | 0 <= i < j < |Dedup(log, used)| :: Key(Dedup(log, used)[i]) !! Key(Dedup(log, used)[j])
    ensures forall i | 0 <= i < |Dedup(log, used)| :: Dedup(log, used)[i] in log
    decreases |log|
  {
    if log == [] {
    } else {
      DedupUsesKeysOnce(log[1..], used);
      DedupUsesKeysOnce(log[1..], used + Key(log[0]));
    }
  }

  /** So the mode is what the last request without a used key asked for. */
  lemma {:induction false} ModeIsLastEffective(s: Server, log: seq<Request>)
    ensures var d := Dedup(log, s.processed.Keys);
            Replay(s, log).mode == if d == [] then s.mode else d[|d| - 1].enabled
    decreases |log|
  {
    if log == [] {
    } else {
      HandleKeys(s, log[0]);
      ModeIsLastEffective(Handle(s, log[0]), log[1..]);
      if Repeats(s, log[0]) {
        assert s.processed.Keys + Key(log[0]) == s.processed.Keys;
      }
    }
  }

  lemma {:induction false} ReplayConcat(s: Server, a: seq<Request>, b: seq<Request>)
    ensures Replay(s, a + b) == Replay(Replay(s, a), b)
    decreases |a|
  {
    if a == [] {
      assert a + b == b;
    } else {
      assert (a + b)[0] == a[0] && (a + b)[1..] == a[1..] + b;
      ReplayConcat(Handle(s, a[0]), a[1..], b);
    }
  }

  /** A cached payload never changes, and every reply under a key reports what its first use set. */
  lemma {:induction false} CacheIsStable(s: Server, log: seq<Request>, key: string)
    requires key in s.processed
    ensures key in Replay(s, log).processed && Replay(s, log).processed[key] == s.processed[key]
    decreases |log|
  {
    if log == [] {
    } else {
      CacheIsStable(Handle(s, log[0]), log[1..], key);
    }
  }

  /** After the first use of a key, later replies under it report that first value, whatever the mode is by then. */
  lemma LaterRepliesRepeatFirst(s: Server, first: Request, between: seq<Request>, again: Request)
    requires Keyed(first) && again.key == first.key
    ensures Reported(Replay(Handle(s, first), between), again) == Reported(s, first)
    ensures Handle(Replay(Handle(s, first), between), again) == Replay(Handle(s, first), between)
  {
    CacheIsStable(Handle(s, first), between, first.key.value);
  }

  /** A reply tells the truth about the mode it leaves behind unless it is a cached one gone stale. */
  lemma ReplyTruthfulIff(s: Server, r: Request)
    ensures Reported(s, r) == Handle(s, r).mode <==> !(Repeats(s, r) && s.processed[r.key.value] != s.mode)
  {
  }

  /** Such staleness is reachable: a retried reset can be told `false` while the fault is on again. */
  lemma StaleReplyExists()
    ensures exists s: Server, reset: Request, log: seq<Request> ::
              && Keyed(reset) && !reset.enabled && !Repeats(s, reset)
              && Reported(Replay(Handle(s, reset), log), reset) == false && Replay(Handle(s, reset), log).mode
  {
    var s := Server(true, map[]);
    var reset := Request(false, Some("k"));
    var on := Request(true, None);
    assert Replay(Handle(s, reset), [on]) == Handle(Handle(s, reset), on);
    assert Keyed(reset) && !Repeats(s, reset);
  }

  // ----- The client -----

  /** How much of the expected JSON a response body holds. */
  datatype Body = Malformed | ModeOnly(mode: bool) | Full(mode: bool)

  datatype Response = Response(code: nat, body: Body)

  datatype Fate =
    | Answered                                    // the server's own reply arrives
    | Intercepted(response: Response, reached: bool)  // something else answers
    | Dropped(reached: bool)                      // connection error or timeout: retried
    | Broken(reached: bool)                       // any other transport error: raised

  datatype Attempt = Attempt(others: seq<Request>, fate: Fate)

  datatype Answer = Got(response: Response) | Exhausted | Raised

  /** GET reads the mode; POST carries a request. */
  datatype Call = Get | Post(request: Request)

  /** `server` after the call, what the client saw, the requests the server handled, the attempts made. */
  datatype Outcome = Outcome(server: Server, answer: Answer, log: seq<Request>, attempts: nat)

  const MAX_RETRIES := 2

  function Arriving(call: Call, fate: Fate): seq<Request> {
    if call.Post? && (fate.Answered? || fate.reached) then [call.request] else []
  }

  function ServerReply(s: Server, call: Call): Response {
    if call.Get? then Response(200, ModeOnly(s.mode)) else Response(200, Full(Reported(s, call.request)))
  }

  /** `_request_with_retry` from its `i`-th attempt on. */
  function Tries(s: Server, call: Call, script: nat -> Attempt, i: nat): Outcome
    requires i <= 1 + MAX_RETRIES
    decreases 1 + MAX_RETRIES - i
  {
    if i == 1 + MAX_RETRIES then Outcome(s, Exhausted, [], i)
    else
      var here := Replay(s, script(i).others);
      var log := script(i).others + Arriving(call, script(i).fate);
      var after := Replay(here, Arriving(call, script(i).fate));
      match script(i).fate
      case Answered => Outcome(after, Got(ServerReply(here, call)), log, i + 1)
      case Intercepted(response, _) => Outcome(after, Got(response), log, i + 1)
      case Broken(_) => Outcome(after, Raised, log, i + 1)
      case Dropped(_) =>
        var rest := Tries(after, call, script, i + 1);
        rest.(log := log + rest.log)
  }

  /** The server ends as its log says, and sees the request at most once for each of three attempts. */
  lemma {:induction false} TriesReplay(s: Server, call: Call, script: nat -> Attempt, i: nat)
    requires i <= 1 + MAX_RETRIES
    ensures Tries(s, call, script, i).server == Replay(s, Tries(s, call, script, i).log)
    ensures Tries(s, call, script, i).attempts <= 1 + MAX_RETRIES
    decreases 1 + MAX_RETRIES - i
  {
    if i < 1 + MAX_RETRIES {
      var arriving := Arriving(call, script(i).fate);
      ReplayConcat(s, script(i).others, arriving);
      if script(i).fate.Dropped? {
        var after := Replay(Replay(s, script(i).others), arriving);
        TriesReplay(after, call, script, i + 1);
        ReplayConcat(s, script(i).others + arriving, Tries(after, call, script, i + 1).log);
      }
    }
  }

  /** The requests under `key`. */
  function Mine(log: seq<Request>, key: string): seq<Request>
    decreases |log|
  {
    if log == [] then [] else (if key in Key(log[0]) then [log[0]] else []) + Mine(log[1..], key)
  }

  /** However the network mangles a keyed POST, it takes effect at most once: the server is left as if it
      had seen a log in which no key occurs twice. */
  lemma RetriedPostTakesEffectOnce(s: Server, request: Request, script: nat -> Attempt)
    requires Keyed(request)
    ensures var o := Tries(s, Post(request), script, 0);
            var effective := Dedup(o.log, s.processed.Keys);
            && o.server == Replay(s, effective)
            && o.server.mode == (if effective == [] then s.mode else effective[|effective| - 1].enabled)
            && |Mine(effective, request.key.value)| <= 1
            && (request.key.value in s.processed ==> Mine(effective, request.key.value) == [])
            && o.attempts <= 3
  {
    var o := Tries(s, Post(request), script, 0);
    TriesReplay(s, Post(request), script, 0);
    ReplayIgnoresRepeats(s, o.log);
    ModeIsLastEffective(s, o.log);
    MineOnce(o.log, s.processed.Keys, request.key.value);
  }

  lemma {:induction false} MineOnce(log: seq<Request>, used: set<string>, key: string)
    ensures |Mine(Dedup(log, used), key)| <= if key in used then 0 else 1
    decreases |log|
  {
    if log == [] {
    } else {
      MineOnce(log[1..], used, key);
      MineOnce(log[1..], used + Key(log[0]), key);
      var d := Dedup(log[1..], used + Key(log[0]));
      assert ([log[0]] + d)[0] == log[0] && ([log[0]] + d)[1..] == d;
    }
  }

  /** The cache holds the first use of every key. */
  lemma {:induction false} CacheHoldsFirstUse(s: Server, log: seq<Request>, key: string)
    requires key !in s.processed
    ensures key in Replay(s, log).processed <==> Mine(log, key) != []
    ensures Mine(log, key) != [] ==> Replay(s, log).processed[key] == Mine(log, key)[0].enabled
    decreases |log|
  {
    if log == [] {
    } else {
      if key in Key(log[0]) {
        CacheIsStable(Handle(s, log[0]), log[1..], key);
      } else {
        CacheHoldsFirstUse(Handle(s, log[0]), log[1..], key);
      }
    }
  }

  // ----- The executor -----

  datatype Status = Succeeded | Failed | TimedOut

  datatype Report = Report(status: Status, success: bool, before: Option<bool>, after: Option<bool>)

  function ResetCall(key: string): Call {
    Post(Request(false, if key == "" then None else Some(key)))
  }

  /** The GET's answer lets the executor go on to the POST. */
  predicate Inspected(answer: Answer) {
    answer.Got? && answer.response.code == 200 && !answer.response.body.Malformed?
  }

  /** The POST's answer has the reply's schema. */
  predicate Understood(answer: Answer) {
    answer.Got? && answer.response.code == 200 && answer.response.body.Full?
  }

  predicate Confirmed(answer: Answer) {
    Understood(answer) && !answer.response.body.mode
  }

  /** What `reset_failure_mode` must report for the two answers; `None` is a raised transport error. */
  ghost predicate Reports(inspection: Answer, reset: Answer, report: Option<Report>) {
    && (report.None? <==> inspection.Raised? || (Inspected(inspection) && reset.Raised?))
    && (report.Some? ==>
          var r := report.value;
          && (r.status.Succeeded? <==> Inspected(inspection) && Confirmed(reset))
          && (r.status.TimedOut? <==> inspection.Exhausted? || (Inspected(inspection) && reset.Exhausted?))
          && (r.success <==> r.status.Succeeded?)
          && r.before == (if Inspected(inspection) then Some(inspection.response.body.mode) else None)
          && r.after == (if Inspected(inspection) && Understood(reset) then Some(reset.response.body.mode) else None))
  }

  /** The two calls of one execution: the POST starts where the GET left the server. */
  function Inspection(s: Server, gets: nat -> Attempt): Outcome {
    Tries(s, Get, gets, 0)
  }

  function Reset(s: Server, key: string, gets: nat -> Attempt, posts: nat -> Attempt): Outcome {
    Tries(Inspection(s, gets).server, ResetCall(key), posts, 0)
  }

  lemma {:induction false} GotFromServer(s: Server, call: Call, script: nat -> Attempt, i: nat)
    requires i <= 1 + MAX_RETRIES && call.Post? && Keyed(call.request)
    requires forall k :: !script(k).fate.Intercepted?
    ensures var o := Tries(s, call, script, i);
            o.answer.Got? ==>
              && call.request.key.value in o.server.processed
              && o.answer.response == Response(200, Full(o.server.processed[call.request.key.value]))
    decreases 1 + MAX_RETRIES - i
  {
    if i < 1 + MAX_RETRIES {
      var here := Replay(s, script(i).others);
      if script(i).fate.Dropped? {
        GotFromServer(Replay(here, Arriving(call, script(i).fate)), call, script, i + 1);
      } else if script(i).fate.Answered? {
        assert Replay(here, [call.request]) == Handle(here, call.request);
      }
    }
  }

  /** If only the server answers, a confirmed keyed reset was applied: the first request under its key,
      and the only one that counted, turned the fault off. */
  lemma ConfirmedResetWasApplied(s: Server, key: string, script: nat -> Attempt)
    requires key != "" && key !in s.processed && forall k :: !script(k).fate.Intercepted?
    requires Confirmed(Tries(s, ResetCall(key), script, 0).answer)
    ensures var mine := Mine(Tries(s, ResetCall(key), script, 0).log, key);
            mine != [] && !mine[0].enabled
  {
    var o := Tries(s, ResetCall(key), script, 0);
    GotFromServer(s, ResetCall(key), script, 0);
    TriesReplay(s, ResetCall(key), script, 0);
    CacheHoldsFirstUse(s, o.log, key);
  }

  // ----- What the client sees, and what its requests do -----

  /** The attempts made: all before the `k`-th were dropped. */
  predicate Reached(script: nat -> Attempt, k: nat) {
    forall j: nat | j < k :: script(j).fate.Dropped?
  }

  predicate Arrives(fate: Fate) {
    fate.Answered? || fate.reached
  }

  /** The first attempt that is not dropped, of three, decides what the client sees; when all are dropped the
      retries are exhausted. */
  lemma {:induction false} TriesIff(s: Server, call: Call, script: nat -> Attempt, i: nat)
    requires i <= 3
    ensures Tries(s, call, script, i).answer == Exhausted <==> forall k: nat | i <= k < 3 :: script(k).fate.Dropped?
    ensures Tries(s, call, script, i).answer == Exhausted ==> Tries(s, call, script, i).attempts == 3
    ensures forall k: nat | i <= k < 3 && !script(k).fate.Dropped? && (forall j: nat | i <= j < k :: script(j).fate.Dropped?) ::
              DecidedBy(Tries(s, call, script, i), k, script(k).fate)
    decreases 3 - i
  {
    hide Replay, ServerReply, Arriving;
    if i == 3 {
    } else if script(i).fate.Dropped? {
      TriesIff(Replay(Replay(s, script(i).others), Arriving(call, script(i).fate)), call, script, i + 1);
    } else {
      ReplyIsOk(Replay(s, script(i).others), call);
    }
  }

  ghost predicate DecidedBy(o: Outcome, k: nat, fate: Fate) {
    && o.attempts == k + 1
    && (o.answer == Raised <==> fate.Broken?)
    && (fate.Intercepted? ==> o.answer == Got(fate.response))
    && (fate.Answered? ==> o.answer.Got? && o.answer.response.code == 200)
  }

  lemma ReplyIsOk(s: Server, call: Call)
    ensures ServerReply(s, call).code == 200
  {
  }

  /** No other client interferes. */
  ghost predicate Undisturbed(script: nat -> Attempt) {
    forall k: nat :: script(k).others == []
  }

  /** A reset request under `key`. */
  predicate Resets(r: Request, key: string) {
    !r.enabled && (if key == "" then !Keyed(r) else r.key == Some(key))
  }

  /** What a POST sends is a reset. */
  predicate ResetsBy(call: Call, key: string) {
    call.Post? && Resets(call.request, key)
  }

  /** The server has carried out the reset: the mode is off, and a keyed reset is remembered as off. */
  predicate IsReset(s: Server, key: string) {
    !s.mode && (key != "" ==> key in s.processed && !s.processed[key])
  }

  lemma ResetOnce(s: Server, r: Request, key: string)
    requires Resets(r, key) && (key == "" || key !in s.processed || IsReset(s, key))
    ensures IsReset(Handle(s, r), key)
  {
  }

  /** Without interference, a reset under a fresh key that reaches the server in some attempt leaves it reset,
      however often it is repeated. */
  lemma {:induction false} ResetTakesEffect(s: Server, call: Call, key: string, script: nat -> Attempt, i: nat)
    requires i <= 3 && ResetsBy(call, key) && Undisturbed(script)
    requires key == "" || key !in s.processed || IsReset(s, key)
    ensures IsReset(s, key) ==> IsReset(Tries(s, call, script, i).server, key)
    ensures (exists k: nat | i <= k < 3 :: Arrives(script(k).fate) && forall j: nat | i <= j < k :: script(j).fate.Dropped?) ==>
              IsReset(Tries(s, call, script, i).server, key)
    decreases 3 - i
  {
    if i == 3 {
    } else {
      var r := call.request;
      assert Replay(s, script(i).others) == s;
      ReplayNothing(s);
      assert Replay(s, [r]) == Handle(s, r);
      ResetOnce(s, r, key);
      var after := Replay(s, Arriving(call, script(i).fate));
      if script(i).fate.Dropped? {
        ResetTakesEffect(after, call, key, script, i + 1);
      }
    }
  }

  /** If the first attempt is answered by an undisturbed server with a fresh key, the answer says off. */
  lemma ResetIsConfirmed(s: Server, call: Call, key: string, script: nat -> Attempt)
    requires ResetsBy(call, key) && Undisturbed(script) && (key == "" || key !in s.processed) && script(0).fate.Answered?
    ensures Tries(s, call, script, 0).answer == Got(Response(200, Full(false)))
  {
  }

  /** Whatever the network does, the client adds nothing under the key but resets. */
  lemma {:induction false} OnlyResetsSent(s: Server, call: Call, key: string, script: nat -> Attempt, i: nat)
    requires i <= 3 && ResetsBy(call, key)
    requires forall k: nat, r | r in script(k).others :: key !in Key(r)
    ensures forall r | r in Tries(s, call, script, i).log && key in Key(r) :: !r.enabled
    decreases 3 - i
  {
    if i == 3 {
    } else {
      var after := Replay(Replay(s, script(i).others), Arriving(call, script(i).fate));
      if script(i).fate.Dropped? {
        OnlyResetsSent(after, call, key, script, i + 1);
      }
    }
  }

  /** A GET leaves an undisturbed server as it is, and its answer tells the mode. */
  lemma {:induction false} GetChangesNothing(s: Server, script: nat -> Attempt, i: nat)
    requires i <= 3 && Undisturbed(script)
    ensures Tries(s, Get, script, i).server == s
    ensures i < 3 && script(i).fate.Answered? ==> Tries(s, Get, script, i).answer == Got(Response(200, ModeOnly(s.mode)))
    decreases 3 - i
  {
    if i == 3 {
    } else {
      ReplayNothing(s);
      if script(i).fate.Dropped? {
        GetChangesNothing(s, script, i + 1);
      }
    }
  }

  /** The executor's POST is a reset under the action's key. */
  lemma ResetCallResets(key: string)
    ensures ResetsBy(ResetCall(key), key)
  {
  }

  /** So no execution ever asks the server, under its key, to switch the fault on. */
  lemma ExecutorOnlyResets(s: Server, key: string, gets: nat -> Attempt, posts: nat -> Attempt)
    requires forall k: nat, r | r in posts(k).others :: key !in Key(r)
    ensures forall r | r in Reset(s, key, gets, posts).log && key in Key(r) :: !r.enabled
  {
    ResetCallResets(key);
    OnlyResetsSent(Inspection(s, gets).server, ResetCall(key), key, posts, 0);
  }

  /** One execution with a fresh key and no other clients, told by what the network does. */
  lemma UndisturbedExecution(s: Server, key: string, gets: nat -> Attempt, posts: nat -> Attempt)
    requires Undisturbed(gets) && Undisturbed(posts) && (key == "" || key !in s.processed)
    ensures Inspection(s, gets).server == s
    ensures (exists k: nat | k < 3 :: Reached(posts, k) && Arrives(posts(k).fate)) ==> IsReset(Reset(s, key, gets, posts).server, key)
    ensures gets(0).fate.Answered? ==> Inspection(s, gets).answer == Got(Response(200, ModeOnly(s.mode)))
    ensures posts(0).fate.Answered? ==> Reset(s, key, gets, posts).answer == Got(Response(200, Full(false)))
  {
    hide Tries;
    GetChangesNothing(s, gets, 0);
    ResetCallResets(key);
    ResetTakesEffect(s, ResetCall(key), key, posts, 0);
    if posts(0).fate.Answered? {
      ResetIsConfirmed(s, ResetCall(key), key, posts);
    }
  }
}
