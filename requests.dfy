/** The path request manager: callers queue requests for paths, and the
    manager hands them to the pathfinder one at a time, in the order they
    arrived, passing each result back to the request's callback. The
    pathfinder and the callbacks are outside the model; what the manager
    does to them is recorded as a log of events. */
module PathRequests {

  /** A world position; the manager only carries positions along. */
  datatype Vector3 = Vector3(x: real, y: real, z: real)

  /** A callback is known by its identity. */
  type Callback = nat

  datatype PathRequest = PathRequest(pathStart: Vector3, pathEnd: Vector3, callback: Callback)

  datatype Option<T> = None | Some(value: T)

  /** What the manager does to the outside world: it starts the pathfinder
      on a request, or it invokes a request's callback with a result. */
  datatype Event =
    | Dispatched(request: PathRequest)
    | CallbackInvoked(request: PathRequest, path: seq<Vector3>, success: bool)

  /** The requests handed to the pathfinder, in order. */
  function Dispatches(log: seq<Event>): (r: seq<PathRequest>)
    ensures |r| <= |log|
  {
    if log == [] then []
    else Dispatches(log[..|log| - 1]) + (if log[|log| - 1].Dispatched? then [log[|log| - 1].request] else [])
  }

  /** The requests whose callbacks were invoked, in order. */
  function Answered(log: seq<Event>): (r: seq<PathRequest>)
    ensures |r| <= |log|
  {
    if log == [] then []
    else Answered(log[..|log| - 1]) + (if log[|log| - 1].CallbackInvoked? then [log[|log| - 1].request] else [])
  }

  /** The log alternates: a dispatch, then the callback of that same
      request, then the next dispatch, and so on. */
  ghost predicate Alternates(log: seq<Event>)
  {
    forall i :: 0 <= i < |log| ==>
      (log[i].Dispatched? <==> i % 2 == 0) && (log[i].CallbackInvoked? ==> log[i].request == log[i - 1].request)
  }

  /** In an alternating log every callback answers the dispatch before
      it: the answered requests are the dispatched ones in the same order,
      less at most the last, which is still in flight exactly when the
      log has odd length. So no request is answered twice or out of turn,
      and at most one is in flight. */
  lemma {:induction false} AnsweredInOrder(log: seq<Event>)
    requires Alternates(log)
    ensures |Dispatches(log)| == |Answered(log)| + |log| % 2
    ensures Answered(log) == Dispatches(log)[..|Answered(log)|]
    ensures |log| % 2 == 1 ==> Dispatches(log)[|Dispatches(log)| - 1] == log[|log| - 1].request
    decreases |log|
  {
    if log != [] {
      var init := log[..|log| - 1];
      AlternatesPrefix(log);
      AnsweredInOrder(init);
      var last := log[|log| - 1];
      if last.Dispatched? {
        assert |init| % 2 == 0;
      } else {
        assert |init| % 2 == 1 && log[|log| - 2] == init[|init| - 1];
      }
    }
  }

  /** Dropping the last event of an alternating log leaves it alternating. */
  lemma AlternatesPrefix(log: seq<Event>)
    requires Alternates(log) && log != []
    ensures Alternates(log[..|log| - 1])
  {
    var init := log[..|log| - 1];
    forall i | 0 <= i < |init|
      ensures (init[i].Dispatched? <==> i % 2 == 0)
              && (init[i].CallbackInvoked? ==> init[i].request == init[i - 1].request)
    {
      assert init[i] == log[i];
      if init[i].CallbackInvoked? {
        assert init[i - 1] == log[i - 1];
      }
    }
  }

  class PathRequestManager {
    var pathRequestQueue: seq<PathRequest>
    var currentPathRequest: Option<PathRequest>
    var isProcessingPath: bool
    /** Everything done to the pathfinder and the callbacks so far. */
    ghost var Log: seq<Event>
    /** Every request made so far, in order. */
    ghost var Submitted: seq<PathRequest>

    /** The manager's state between calls, less the rule that an idle
        manager has nothing queued (which holds again once the manager has
        tried to dispatch). */
    ghost predicate Consistent()
      reads this
    {
      && Alternates(Log)
      && (isProcessingPath <==> |Log| % 2 == 1)
      && (isProcessingPath ==> currentPathRequest == Some(Log[|Log| - 1].request))
      && Dispatches(Log) + pathRequestQueue == Submitted
    }

    ghost predicate Valid()
      reads this
    {
      Consistent() && (!isProcessingPath ==> pathRequestQueue == [])
    }

    constructor ()
      ensures Valid()
      ensures pathRequestQueue == [] && currentPathRequest == None && !isProcessingPath
      ensures Log == [] && Submitted == []
    {
      pathRequestQueue := [];
      currentPathRequest := None;
      isProcessingPath := false;
      Log := [];
      Submitted := [];
    }

    /** Queues a request and dispatches it at once if the manager is idle. */
    method RequestPath(pathStart: Vector3, pathEnd: Vector3, callback: Callback)
      requires Valid()
      modifies this
      ensures Valid()
      ensures Submitted == old(Submitted) + [PathRequest(pathStart, pathEnd, callback)]
      ensures isProcessingPath
      ensures old(isProcessingPath) ==>
                && pathRequestQueue == old(pathRequestQueue) + [PathRequest(pathStart, pathEnd, callback)]
                && currentPathRequest == old(currentPathRequest) && Log == old(Log)
      ensures !old(isProcessingPath) ==>
                && pathRequestQueue == []
                && currentPathRequest == Some(PathRequest(pathStart, pathEnd, callback))
                && Log == old(Log) + [Dispatched(PathRequest(pathStart, pathEnd, callback))]
    {
      var newRequest := PathRequest(pathStart, pathEnd, callback);
      pathRequestQueue := pathRequestQueue + [newRequest];
      Submitted := Submitted + [newRequest];
      TryProcessNext();
    }

    /** Dispatches the request at the head of the queue, unless one is in
        flight or the queue is empty. */
    method TryProcessNext()
      requires Consistent()
      modifies this
      ensures Valid()
      ensures Submitted == old(Submitted)
      ensures if !old(isProcessingPath) && old(pathRequestQueue) != []
              then && pathRequestQueue == old(pathRequestQueue)[1..]
                   && currentPathRequest == Some(old(pathRequestQueue)[0])
                   && isProcessingPath
                   && Log == old(Log) + [Dispatched(old(pathRequestQueue)[0])]
              else && pathRequestQueue == old(pathRequestQueue)
                   && currentPathRequest == old(currentPathRequest)
                   && isProcessingPath == old(isProcessingPath)
                   && Log == old(Log)
    {
      if !isProcessingPath && |pathRequestQueue| > 0 {
        var next := pathRequestQueue[0];
        DispatchStep(Log, next);
        assert Dispatches(Log) + pathRequestQueue == Dispatches(Log) + [next] + pathRequestQueue[1..];
        currentPathRequest := Some(next);
        pathRequestQueue := pathRequestQueue[1..];
        isProcessingPath := true;
        Log := Log + [Dispatched(next)];
      }
    }

    /** The pathfinder's answer to the request in flight: the request's
        callback receives it, and the next queued request, if any, is
        dispatched. */
    method FinishedProcessingPath(path: seq<Vector3>, success: bool)
      requires Valid() && isProcessingPath
      modifies this
      ensures Valid()
      ensures Submitted == old(Submitted)
      ensures var answered := CallbackInvoked(old(currentPathRequest).value, path, success);
              if old(pathRequestQueue) == []
              then && Log == old(Log) + [answered]
                   && !isProcessingPath && pathRequestQueue == []
              else && Log == old(Log) + [answered, Dispatched(old(pathRequestQueue)[0])]
                   && isProcessingPath && pathRequestQueue == old(pathRequestQueue)[1..]
                   && currentPathRequest == Some(old(pathRequestQueue)[0])
    {
      var answered := CallbackInvoked(currentPathRequest.value, path, success);
      AnswerStep(Log, answered);
      Log := Log + [answered];
      isProcessingPath := false;
      TryProcessNext();
    }
  }

  /** Appending a dispatch to an alternating log of even length keeps it
      alternating and adds the request to the dispatches. */
  lemma DispatchStep(log: seq<Event>, next: PathRequest)
    requires Alternates(log) && |log| % 2 == 0
    ensures Alternates(log + [Dispatched(next)])
    ensures Dispatches(log + [Dispatched(next)]) == Dispatches(log) + [next]
  {
    var log' := log + [Dispatched(next)];
    assert log'[..|log|] == log;
    forall i | 0 <= i < |log'|
      ensures (log'[i].Dispatched? <==> i % 2 == 0)
              && (log'[i].CallbackInvoked? ==> log'[i].request == log'[i - 1].request)
    {
      if i < |log| {
        assert log'[i] == log[i];
        if log[i].CallbackInvoked? {
          assert log'[i - 1] == log[i - 1];
        }
      }
    }
  }

  /** Appending the callback of the request in flight to an alternating log
      of odd length keeps it alternating and leaves the dispatches alone. */
  lemma AnswerStep(log: seq<Event>, answered: Event)
    requires Alternates(log) && |log| % 2 == 1
    requires answered.CallbackInvoked? && answered.request == log[|log| - 1].request
    ensures Alternates(log + [answered])
    ensures Dispatches(log + [answered]) == Dispatches(log)
  {
    var log' := log + [answered];
    assert log'[..|log|] == log;
    forall i | 0 <= i < |log'|
      ensures (log'[i].Dispatched? <==> i % 2 == 0)
              && (log'[i].CallbackInvoked? ==> log'[i].request == log'[i - 1].request)
    {
      if i < |log| {
        assert log'[i] == log[i];
        if log[i].CallbackInvoked? {
          assert log'[i - 1] == log[i - 1];
        }
      }
    }
  }
}
