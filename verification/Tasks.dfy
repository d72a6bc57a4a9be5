/** The request and task protocol of the client library: the queue of accepted requests and the table of running
    tasks of lib/linyaps_task.c, driven by the requests of lib/linyaps_context.c. */
module Tasks {
  import opened Bytes

  const MAX_TASKS := 16

  /** A progress callback with its user data; cb 0 is the null callback. */
  datatype Request = Request(cb: nat, userdata: int)

  datatype TaskEntry = TaskEntry(active: bool, path: Text, request: Request)

  const CLEARED := TaskEntry(false, [], Request(0, 0))

  datatype Reason = InvalidRequest | CallFailed(code: int) | TooManyTasks
                  | NoProgressMatch(code: int) | NoInteractionMatch(code: int)

  const EINVAL := 22
  const ENOSPC := 28

  /** notify_failed: the error code the callback is given, which is never 0. */
  function ErrorCode(reason: Reason): int {
    var code := match reason
      case InvalidRequest => -EINVAL
      case TooManyTasks => -ENOSPC
      case CallFailed(r) => r
      case NoProgressMatch(r) => r
      case NoInteractionMatch(r) => r;
    if code == 0 then -1 else code
  }

  /** One call of a progress callback. */
  datatype Notice = Failed(request: Request, reason: Reason)
                  | Started(request: Request, path: Text)
                  | Finished(request: Request, path: Text)

  /** The conversion of a 64-bit code to int, which keeps the low 32 bits. */
  function ToInt(code: int): (n: int)
    ensures -0x8000_0000 <= n < 0x8000_0000
  {
    (code + 0x8000_0000) % 0x1_0000_0000 - 0x8000_0000
  }

  /** The outcome of a method call on the bus: of the call, of reading the reply, and the code in the reply. */
  datatype Reply = Reply(call: int, parsed: int, code: int) {
    predicate Accepts() { call >= 0 && parsed >= 0 && code == 0 }

    function Error(): int { if call < 0 then call else if parsed < 0 then parsed else ToInt(code) }
  }

  datatype Event =
    | Requested(request: Request, appId: Option<Text>, reply: Reply)
    | TaskAdded(path: Option<Text>, progressMatch: int, interactionMatch: int)
    | TaskRemoved(path: Option<Text>)

  /** A context with its history: the requests accepted so far, those taken off the queue by a task, those
      settled, and the callbacks made, each in order. */
  datatype State = State(pending: seq<Request>, tasks: seq<TaskEntry>, notices: seq<Notice>,
                         accepted: seq<Request>, bound: seq<Request>, settled: seq<Request>)

  function NoTasks(): (tasks: seq<TaskEntry>)
    ensures |tasks| == MAX_TASKS && forall k :: 0 <= k < MAX_TASKS ==> tasks[k] == CLEARED
  {
    seq(MAX_TASKS, _ => CLEARED)
  }

  function Initial(): State { State([], NoTasks(), [], [], [], []) }

  // ---------------------------------------------------------------- one step

  /** The first free slot, or the number of slots. */
  function FirstFree(tasks: seq<TaskEntry>): (k: nat)
    ensures k <= |tasks| && (k < |tasks| ==> !tasks[k].active)
    ensures forall j :: 0 <= j < k ==> tasks[j].active
  {
    if tasks == [] || !tasks[0].active then 0 else 1 + FirstFree(tasks[1..])
  }

  predicate Runs(task: TaskEntry, path: Text) { task.active && task.path == path }

  /** The first slot that runs `path`, or the number of slots. */
  function FirstRunning(tasks: seq<TaskEntry>, path: Text): (k: nat)
    ensures k <= |tasks| && (k < |tasks| ==> Runs(tasks[k], path))
    ensures forall j :: 0 <= j < k ==> !Runs(tasks[j], path)
  {
    if tasks == [] || Runs(tasks[0], path) then 0 else 1 + FirstRunning(tasks[1..], path)
  }

  function Told(notices: seq<Notice>, notice: Notice): seq<Notice> {
    if notice.request.cb == 0 then notices else notices + [notice]
  }

  /** The request is over; its callback is told. */
  function Settle(s: State, notice: Notice): State {
    s.(settled := s.settled + [notice.request], notices := Told(s.notices, notice))
  }

  predicate ValidId(appId: Option<Text>) { appId.Some? && appId.value != [] }

  function OnRequest(s: State, r: Request, appId: Option<Text>, reply: Reply): State {
    if !ValidId(appId) then Settle(s, Failed(r, InvalidRequest))
    else if reply.Accepts() then s.(pending := s.pending + [r], accepted := s.accepted + [r])
    else Settle(s, Failed(r, CallFailed(reply.Error())))
  }

  /** Request r gets the first free slot. */
  function Bind(s: State, r: Request, path: Text, progressMatch: int, interactionMatch: int): State {
    var k := FirstFree(s.tasks);
    if k == |s.tasks| then Settle(s, Failed(r, TooManyTasks))
    else if progressMatch < 0 then Settle(s.(tasks := s.tasks[k := CLEARED]), Failed(r, NoProgressMatch(progressMatch)))
    else if interactionMatch < 0 then
      Settle(s.(tasks := s.tasks[k := CLEARED]), Failed(r, NoInteractionMatch(interactionMatch)))
    else s.(tasks := s.tasks[k := TaskEntry(true, path, r)], notices := Told(s.notices, Started(r, path)))
  }

  /** The first request of the queue leaves it. */
  function Dequeue(s: State): State
    requires s.pending != []
  {
    s.(pending := s.pending[1..], bound := s.bound + [s.pending[0]])
  }

  function OnTaskAdded(s: State, path: Option<Text>, progressMatch: int, interactionMatch: int): State {
    if path.None? || s.pending == [] then s
    else Bind(Dequeue(s), s.pending[0], path.value, progressMatch, interactionMatch)
  }

  function OnTaskRemoved(s: State, path: Option<Text>): State {
    if path.None? || FirstRunning(s.tasks, path.value) == |s.tasks| then s
    else
      var k := FirstRunning(s.tasks, path.value);
      Settle(s.(tasks := s.tasks[k := CLEARED]), Finished(s.tasks[k].request, path.value))
  }

  function Step(s: State, e: Event): State {
    match e
    case Requested(r, appId, reply) => OnRequest(s, r, appId, reply)
    case TaskAdded(path, progressMatch, interactionMatch) => OnTaskAdded(s, path, progressMatch, interactionMatch)
    case TaskRemoved(path) => OnTaskRemoved(s, path)
  }

  /** What closing a context leaves of its state. */
  function Closed(s: State): State {
    s.(pending := [], tasks := NoTasks())
  }

  // ---------------------------------------------------------------- the context

  class PendingOp {
    const request: Request
    var next: PendingOp?

    constructor (request: Request)
      ensures this.request == request && next == null
    {
      this.request, next := request, null;
    }
  }

  ghost function Requests(ops: seq<PendingOp>): (rs: seq<Request>)
    ensures |rs| == |ops| && forall i :: 0 <= i < |ops| ==> rs[i] == ops[i].request
  {
    if ops == [] then [] else [ops[0].request] + Requests(ops[1..])
  }

  class Context {
    var pendingHead: PendingOp?
    var pendingTail: PendingOp?
    const tasks: array<TaskEntry>
    var notices: seq<Notice>
    ghost var ops: seq<PendingOp>
    ghost var accepted: seq<Request>
    ghost var bound: seq<Request>
    ghost var settled: seq<Request>

    /** head and tail span exactly the chain of the queued operations. */
    ghost predicate Valid()
      reads this`pendingHead, this`pendingTail, this`ops, ops
    {
      && tasks.Length == MAX_TASKS
      && (if ops == [] then pendingHead == null == pendingTail
          else pendingHead == ops[0] && pendingTail == ops[|ops| - 1] && pendingTail.next == null)
      && (forall i :: 0 <= i < |ops| - 1 ==> ops[i].next == ops[i + 1])
      && (forall i, j :: 0 <= i < j < |ops| ==> ops[i] != ops[j])
    }

    ghost function Current(): State
      reads this, tasks
    {
      State(Requests(ops), tasks[..], notices, accepted, bound, settled)
    }

    constructor ()
      ensures Valid() && fresh(tasks) && Current() == Initial()
    {
      pendingHead, pendingTail, notices := null, null, [];
      ops, accepted, bound, settled := [], [], [], [];
      tasks := new TaskEntry[MAX_TASKS](_ => CLEARED);
    }

    method PendingPush(request: Request)
      requires Valid()
      modifies this`pendingHead, this`pendingTail, this`ops, ops
      ensures Valid() && Requests(ops) == old(Requests(ops)) + [request]
      ensures ops[..|ops| - 1] == old(ops) && fresh(ops[|ops| - 1])
    {
      var op := new PendingOp(request);
      if pendingTail != null {
        pendingTail.next := op;
      } else {
        pendingHead := op;
      }
      pendingTail := op;
      ops := ops + [op];
    }

    method PendingPop() returns (request: Option<Request>)
      requires Valid()
      modifies this`pendingHead, this`pendingTail, this`ops
      ensures Valid()
      ensures old(Requests(ops)) == [] ==> request == None && ops == []
      ensures old(Requests(ops)) != [] ==> request == Some(old(Requests(ops))[0])
                                           && Requests(ops) == old(Requests(ops))[1..] && |ops| < |old(ops)|
    {
      var op := pendingHead;
      if op == null {
        return None;
      }
      pendingHead := op.next;
      if pendingHead == null {
        pendingTail := null;
      }
      ops := ops[1..];
      request := Some(op.request);
    }

    method PendingPopTail()
      requires Valid()
      modifies this`pendingHead, this`pendingTail, this`ops, ops
      ensures Valid()
      ensures ops == if old(ops) == [] then [] else old(ops)[..|old(ops)| - 1]
    {
      var prev: PendingOp?, it := null, pendingHead;
      ghost var i := 0;
      while it != null && it.next != null
        invariant ops == old(ops) && Valid()
        invariant ops == [] ==> it == null == prev
        invariant ops != [] ==> 0 <= i < |ops| && it == ops[i] && prev == if i == 0 then null else ops[i - 1]
        invariant ops != [] ==> it.next == if i < |ops| - 1 then ops[i + 1] else null
        invariant forall op :: op in ops ==> unchanged(op)
        decreases |ops| - i
      {
        prev := it;
        it := it.next;
        i := i + 1;
      }
      if it == null {
        return;
      }
      ops := ops[..|ops| - 1];
      if prev != null {
        prev.next := null;
        pendingTail := prev;
      } else {
        pendingHead := null;
        pendingTail := null;
      }
    }

    method NotifyFailed(request: Request, reason: Reason)
      modifies this`notices
      ensures notices == Told(old(notices), Failed(request, reason))
    {
      Tell(Failed(request, reason));
    }

    /** A callback is made, unless it is null. */
    method Tell(notice: Notice)
      modifies this`notices
      ensures notices == Told(old(notices), notice)
    {
      if notice.request.cb != 0 {
        notices := notices + [notice];
      }
    }

    method AllocTask() returns (k: nat)
      requires Valid()
      ensures k == FirstFree(tasks[..]) <= tasks.Length == MAX_TASKS
    {
      k := 0;
      while k < MAX_TASKS
        invariant k <= MAX_TASKS && forall j :: 0 <= j < k ==> tasks[j].active
      {
        if !tasks[k].active {
          return;
        }
        k := k + 1;
      }
    }

    method FindTask(path: Text) returns (k: nat)
      requires Valid()
      ensures k == FirstRunning(tasks[..], path) <= tasks.Length == MAX_TASKS
    {
      k := 0;
      while k < MAX_TASKS
        invariant k <= MAX_TASKS && forall j :: 0 <= j < k ==> !Runs(tasks[j], path)
      {
        if tasks[k].active && tasks[k].path == path {
          return;
        }
        k := k + 1;
      }
    }

    method ClearTask(k: nat)
      requires k < tasks.Length
      modifies tasks
      ensures tasks[..] == old(tasks[..])[k := CLEARED]
    {
      tasks[k] := CLEARED;
    }

    /** call_task_method and linyaps_update: the request is queued, the bus is called, and if the call fails the
        last request of the queue is withdrawn. */
    method CallTaskMethod(request: Request, appId: Option<Text>, reply: Reply)
      requires Valid()
      modifies this`pendingHead, this`pendingTail, this`notices, this`ops, this`accepted, this`settled, ops
      ensures Valid() && Current() == Step(old(Current()), Requested(request, appId, reply))
    {
      hide Valid, Requests;
      if appId.None? || appId.value == [] {
        NotifyFailed(request, InvalidRequest);
        settled := settled + [request];
        return;
      }
      PendingPush(request);
      if reply.call < 0 {
        Withdraw(request, reply.call);
      } else if reply.parsed < 0 || reply.code != 0 {
        Withdraw(request, if reply.parsed < 0 then reply.parsed else ToInt(reply.code));
      } else {
        accepted := accepted + [request];
      }
    }

    /** A failed call: the last request leaves the queue, and `request` is told. */
    method Withdraw(request: Request, error: int)
      requires Valid() && Requests(ops) != []
      modifies this`pendingHead, this`pendingTail, this`notices, this`ops, this`settled, ops
      ensures Valid() && Requests(ops) == old(Requests(ops))[..|old(Requests(ops))| - 1]
      ensures notices == Told(old(notices), Failed(request, CallFailed(error))) && settled == old(settled) + [request]
    {
      hide Valid;
      PendingPopTail();
      NotifyFailed(request, CallFailed(error));
      settled := settled + [request];
    }

    /** on_task_added from the slot allocation on. */
    method BindTask(request: Request, path: Text, progressMatch: int, interactionMatch: int)
      requires Valid()
      modifies this`notices, this`settled, tasks
      ensures Current() == Bind(old(Current()), request, path, progressMatch, interactionMatch)
    {
      hide Requests, FirstFree;
      var k := AllocTask();
      hide Valid;
      if k == MAX_TASKS {
        NotifyFailed(request, TooManyTasks);
        settled := settled + [request];
        return;
      }
      tasks[k] := TaskEntry(true, path, request);
      if progressMatch < 0 {
        NotifyFailed(request, NoProgressMatch(progressMatch));
        ClearTask(k);
        settled := settled + [request];
        return;
      }
      if interactionMatch < 0 {
        NotifyFailed(request, NoInteractionMatch(interactionMatch));
        ClearTask(k);
        settled := settled + [request];
        return;
      }
      Tell(Started(request, path));
    }

    method OnTaskAdded(path: Option<Text>, progressMatch: int, interactionMatch: int)
      requires Valid()
      modifies this`pendingHead, this`pendingTail, this`notices, this`ops, this`bound, this`settled, tasks
      ensures Valid() && Current() == Step(old(Current()), TaskAdded(path, progressMatch, interactionMatch))
    {
      hide Valid, Requests, Bind;
      if path.None? {
        return;
      }
      var popped := PendingPop();
      if popped.None? {
        return;
      }
      bound := bound + [popped.value];
      BindTask(popped.value, path.value, progressMatch, interactionMatch);
    }

    method OnTaskRemoved(path: Option<Text>)
      requires Valid()
      modifies this`notices, this`settled, tasks
      ensures Valid() && Current() == Step(old(Current()), TaskRemoved(path))
    {
      hide Valid, Requests, FirstRunning;
      if path.None? {
        return;
      }
      var k := FindTask(path.value);
      if k == MAX_TASKS {
        return;
      }
      Tell(Finished(tasks[k].request, path.value));
      settled := settled + [tasks[k].request];
      ClearTask(k);
    }

    /** linyaps_context_free: what is left is dropped, and no callback is made. */
    method Free()
      requires Valid()
      modifies this`pendingHead, this`pendingTail, this`ops, tasks
      ensures Valid() && Current() == Closed(old(Current()))
    {
      while pendingHead != null
        invariant Valid() && unchanged(tasks)
        decreases |ops|
      {
        var popped := PendingPop();
      }
      var i := 0;
      while i < MAX_TASKS
        invariant i <= MAX_TASKS && Valid() && ops == []
        invariant forall j :: 0 <= j < i ==> tasks[j] == CLEARED
      {
        ClearTask(i);
        i := i + 1;
      }
    }
  }
}
