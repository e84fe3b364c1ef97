/** The endpoint's module globals and the executor's calls, in the imperative form of the source. */
module DemoExecutor {
  import opened Wrappers
  import opened DemoService

  class DemoServer {
    var errorMode: bool
    var processedKeys: map<string, bool>

    ghost function State(): Server
      reads this
    {
      Server(errorMode, processedKeys)
    }

    constructor ()
      ensures State() == Server(false, map[])
    {
      errorMode, processedKeys := false, map[];
    }

    /** `set_error_mode`. */
    method SetErrorMode(enabled: bool, key: Option<string>) returns (reported: bool)
      modifies this
      ensures State() == Handle(old(State()), Request(enabled, key))
      ensures reported == Reported(old(State()), Request(enabled, key))
    {
      if key.Some? && key.value != "" && key.value in processedKeys {
        return processedKeys[key.value];
      }
      errorMode := enabled;
      reported := errorMode;
      if key.Some? && key.value != "" {
        processedKeys := processedKeys[key.value := reported];
      }
    }

    /** Other clients' requests, in order. */
    method HandleAll(log: seq<Request>)
      modifies this
      ensures State() == Replay(old(State()), log)
    {
      for i := 0 to |log|
        invariant Replay(State(), log[i..]) == Replay(old(State()), log)
      {
        assert log[i..][0] == log[i] && log[i..][1..] == log[i + 1..];
        var _ := SetErrorMode(log[i].enabled, log[i].key);
      }
    }

    /** One exchange that reaches the server. */
    method Serve(call: Call) returns (response: Response)
      modifies this
      ensures response == ServerReply(old(State()), call)
      ensures State() == Replay(old(State()), Arriving(call, Answered))
    {
      match call
      case Get =>
        response := Response(200, ModeOnly(errorMode));
      case Post(request) =>
        var reported := SetErrorMode(request.enabled, request.key);
        response := Response(200, Full(reported));
    }
  }

  class DemoServiceExecutor {
    const server: DemoServer

    constructor (server: DemoServer)
      ensures this.server == server
    {
      this.server := server;
    }

    /** `_request_with_retry`, with the network's part given by `script`. */
    method RequestWithRetry(call: Call, script: nat -> Attempt) returns (answer: Answer, attempts: nat)
      modifies server
      ensures attempts == Tries(old(server.State()), call, script, 0).attempts && 1 <= attempts <= 3
      ensures server.State() == Tries(old(server.State()), call, script, 0).server
      ensures answer == Tries(old(server.State()), call, script, 0).answer
    {
      hide Replay;
      ghost var before := server.State();
      attempts := 0;
      for attempt := 0 to 1 + MAX_RETRIES
        invariant attempts == attempt
        invariant Tries(before, call, script, 0).attempts == Tries(server.State(), call, script, attempt).attempts
        invariant Tries(before, call, script, 0).server == Tries(server.State(), call, script, attempt).server
        invariant Tries(before, call, script, 0).answer == Tries(server.State(), call, script, attempt).answer
      {
        attempts := attempts + 1;
        server.HandleAll(script(attempt).others);
        ReplayNothing(server.State());
        var fate := script(attempt).fate;
        var response := Response(0, Malformed);
        if fate.Answered? || fate.reached {
          response := server.Serve(call);
        }
        match fate
        case Answered => return Got(response), attempts;
        case Intercepted(other, _) => return Got(other), attempts;
        case Broken(_) => return Raised, attempts;
        case Dropped(_) =>
      }
      answer := Exhausted;
    }

    /** `reset_failure_mode`; `None` is a transport error that comes through. */
    method ResetFailureMode(key: string, gets: nat -> Attempt, posts: nat -> Attempt) returns (report: Option<Report>)
      modifies server
      ensures Undisturbed(gets) && Undisturbed(posts) && (key == "" || key !in old(server.processedKeys)) ==>
                && (Inspected(Inspection(old(server.State()), gets).answer)
                    && (exists k: nat | k < 3 :: Reached(posts, k) && Arrives(posts(k).fate)) ==>
                      !server.errorMode && (key != "" ==> key in server.processedKeys && !server.processedKeys[key]))
                && (gets(0).fate.Answered? && posts(0).fate.Answered? ==>
                      report == Some(Report(Succeeded, true, Some(old(server.errorMode)), Some(false))))
                && (!Inspected(Inspection(old(server.State()), gets).answer) ==> server.State() == old(server.State()))
      ensures Reports(Inspection(old(server.State()), gets).answer, Reset(old(server.State()), key, gets, posts).answer, report)
      ensures server.State() ==
              if Inspected(Inspection(old(server.State()), gets).answer) then Reset(old(server.State()), key, gets, posts).server
              else Inspection(old(server.State()), gets).server
    {
      hide Tries, Undisturbed, Reached;
      if Undisturbed(gets) && Undisturbed(posts) && (key == "" || key !in server.processedKeys) {
        UndisturbedExecution(server.State(), key, gets, posts);
      }
      var inspection, _ := RequestWithRetry(Get, gets);
      if inspection.Raised? {
        return None;
      }
      if inspection.Exhausted? {
        return Some(Report(TimedOut, false, None, None));
      }
      if inspection.response.code != 200 || inspection.response.body.Malformed? {
        return Some(Report(Failed, false, None, None));
      }
      var found := Some(inspection.response.body.mode);

      var reset, _ := RequestWithRetry(ResetCall(key), posts);
      if reset.Raised? {
        return None;
      }
      if reset.Exhausted? {
        return Some(Report(TimedOut, false, found, None));
      }
      if reset.response.code != 200 || !reset.response.body.Full? {
        return Some(Report(Failed, false, found, None));
      }
      var after := reset.response.body.mode;
      if after {
        return Some(Report(Failed, false, found, Some(after)));
      }
      report := Some(Report(Succeeded, true, found, Some(after)));
    }

    /** `check_recovered`. */
    method CheckRecovered(script: nat -> Attempt) returns (recovered: Option<bool>)
      modifies server
      ensures var answer := Inspection(old(server.State()), script).answer;
              recovered == if answer.Raised? then None else Some(Inspected(answer) && !answer.response.body.mode)
      ensures Undisturbed(script) && script(0).fate.Answered? ==> recovered == Some(!old(server.errorMode))
    {
      ghost var before := server.State();
      if Undisturbed(script) {
        GetChangesNothing(before, script, 0);
      }
      var answer, _ := RequestWithRetry(Get, script);
      if answer.Raised? {
        return None;
      }
      if answer.Exhausted? || answer.response.code != 200 {
        return Some(false);
      }
      recovered := Some(!answer.response.body.Malformed? && !answer.response.body.mode);
    }
  }
}
