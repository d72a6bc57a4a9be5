/** What every run of requests, failed calls, TaskAdded and TaskRemoved signals keeps. */
module TaskRuns {
  import opened Bytes
  import opened Tasks

  ghost function Run(es: seq<Event>): State {
    if es == [] then Initial() else Step(Run(es[..|es| - 1]), es[|es| - 1])
  }

  // ---------------------------------------------------------------- what the events alone say

  function Issued(es: seq<Event>): seq<Request> {
    if es == [] then []
    else
      var e := es[|es| - 1];
      Issued(es[..|es| - 1]) + if e.Requested? then [e.request] else []
  }

  /** A request with an id that is not empty, whose call, reply and code are all good. */
  predicate IsAccepted(e: Event) {
    e.Requested? && e.appId.Some? && |e.appId.value| > 0
    && e.reply.call >= 0 && e.reply.parsed >= 0 && e.reply.code == 0
  }

  function Accepted(es: seq<Event>): seq<Request> {
    if es == [] then []
    else
      var e := es[|es| - 1];
      Accepted(es[..|es| - 1]) + if IsAccepted(e) then [e.request] else []
  }

  /** The events without the requests that are refused. */
  function Effective(es: seq<Event>): seq<Event> {
    if es == [] then []
    else
      var e := es[|es| - 1];
      Effective(es[..|es| - 1]) + if e.Requested? && !IsAccepted(e) then [] else [e]
  }

  // ---------------------------------------------------------------- the requests in the table

  function Held(task: TaskEntry): multiset<Request> {
    if task.active then multiset{task.request} else multiset{}
  }

  /** The requests of the active slots. */
  function Active(tasks: seq<TaskEntry>): multiset<Request> {
    if tasks == [] then multiset{} else Active(tasks[..|tasks| - 1]) + Held(tasks[|tasks| - 1])
  }

  lemma {:induction false} ActiveUpdate(tasks: seq<TaskEntry>, k: nat, task: TaskEntry)
    requires k < |tasks|
    ensures Active(tasks[k := task]) + Held(tasks[k]) == Active(tasks) + Held(task)
  {
    hide Held;
    var n, updated := |tasks| - 1, tasks[k := task];
    if k == n {
      assert updated[..n] == tasks[..n];
    } else {
      ActiveUpdate(tasks[..n], k, task);
      assert updated[..n] == tasks[..n][k := task];
      Swapped(Held(tasks[n]), Active(updated[..n]), Held(tasks[k]), Active(tasks[..n]), Held(task));
    }
  }

  lemma Swapped(last: multiset<Request>, a: multiset<Request>, b: multiset<Request>, c: multiset<Request>,
                d: multiset<Request>)
    requires a + b == c + d
    ensures a + last + b == c + last + d
  {
    assert a + last + b == a + b + last;
  }

  lemma SlotTaken(tasks: seq<TaskEntry>, k: nat, task: TaskEntry)
    requires k < |tasks| && !tasks[k].active
    ensures Active(tasks[k := task]) == Active(tasks) + Held(task)
  {
    ActiveUpdate(tasks, k, task);
    hide Active;
  }

  lemma SlotFreed(tasks: seq<TaskEntry>, k: nat)
    requires k < |tasks| && tasks[k].active
    ensures Active(tasks[k := CLEARED]) + multiset{tasks[k].request} == Active(tasks)
  {
    ActiveUpdate(tasks, k, CLEARED);
    hide Active;
  }

  lemma {:induction false} NoneActive(tasks: seq<TaskEntry>)
    requires forall k :: 0 <= k < |tasks| ==> !tasks[k].active
    ensures Active(tasks) == multiset{}
  {
    if tasks != [] {
      NoneActive(tasks[..|tasks| - 1]);
    }
  }

  /** The slots that hold request r. */
  function Holders(tasks: seq<TaskEntry>, r: Request): set<nat> {
    set k: nat | k < |tasks| && tasks[k].active && tasks[k].request == r
  }

  lemma {:induction false} ActiveCounts(tasks: seq<TaskEntry>, r: Request)
    ensures |Holders(tasks, r)| == Active(tasks)[r]
  {
    if tasks == [] {
      assert Holders(tasks, r) == {};
    } else {
      var n := |tasks| - 1;
      ActiveCounts(tasks[..n], r);
      LastHolder(tasks, n, r);
    }
  }

  lemma LastHolder(tasks: seq<TaskEntry>, n: nat, r: Request)
    ensures n == |tasks| - 1 ==>
              Holders(tasks, r) == Holders(tasks[..n], r) + if tasks[n].active && tasks[n].request == r then {n} else {}
  {
  }

  // ---------------------------------------------------------------- every run

  /** Free slots are clear, and there are always sixteen of them. */
  ghost predicate Tidy(s: State) {
    |s.tasks| == MAX_TASKS && forall k :: 0 <= k < MAX_TASKS && !s.tasks[k].active ==> s.tasks[k] == CLEARED
  }

  lemma {:induction false} AlwaysTidy(es: seq<Event>)
    ensures Tidy(Run(es))
  {
    if es != [] {
      AlwaysTidy(es[..|es| - 1]);
      var s, e := Run(es[..|es| - 1]), es[|es| - 1];
    }
  }

  /** Where the requests of a state are. */
  ghost function Places(s: State): multiset<Request> {
    multiset(s.pending) + Active(s.tasks) + multiset(s.settled)
  }

  lemma RequestPlaced(s: State, r: Request, appId: Option<Text>, reply: Reply)
    ensures Places(OnRequest(s, r, appId, reply)) == Places(s) + multiset{r}
  {
  }

  lemma BindPlaces(s: State, r: Request, path: Text, progressMatch: int, interactionMatch: int)
    requires Tidy(s)
    ensures Places(Bind(s, r, path, progressMatch, interactionMatch)) == Places(s) + multiset{r}
  {
    hide Active, FirstFree, Told;
    var k := FirstFree(s.tasks);
    if k < |s.tasks| {
      SlotTaken(s.tasks, k, CLEARED);
      SlotTaken(s.tasks, k, TaskEntry(true, path, r));
    }
  }

  lemma DequeuePlaces(s: State)
    requires s.pending != []
    ensures Places(Dequeue(s)) + multiset{s.pending[0]} == Places(s)
  {
    assert s.pending == [s.pending[0]] + s.pending[1..];
  }

  lemma RemovedPlaces(s: State, path: Option<Text>)
    ensures Places(OnTaskRemoved(s, path)) == Places(s)
  {
    hide Active, FirstRunning, Told;
    if path.Some? {
      var k := FirstRunning(s.tasks, path.value);
      if k < |s.tasks| {
        SlotFreed(s.tasks, k);
      }
    }
  }

  lemma StepPlaces(s: State, e: Event)
    requires Tidy(s)
    ensures Places(Step(s, e)) == Places(s) + if e.Requested? then multiset{e.request} else multiset{}
  {
    hide Places, Bind, OnRequest, OnTaskRemoved;
    match e
    case Requested(r, appId, reply) => RequestPlaced(s, r, appId, reply);
    case TaskAdded(path, m, n) =>
      if path.Some? && s.pending != [] {
        DequeuePlaces(s);
        BindPlaces(Dequeue(s), s.pending[0], path.value, m, n);
      }
    case TaskRemoved(path) => RemovedPlaces(s, path);
  }

  /** Conservation: on every run the issued requests are those queued, those in an active slot and those settled. */
  lemma {:induction false} RequestsConserved(es: seq<Event>)
    ensures multiset(Issued(es)) == Places(Run(es))
  {
    hide Step, Places;
    if es == [] {
      NothingPlaced();
    } else {
      RequestsConserved(es[..|es| - 1]);
      AlwaysTidy(es[..|es| - 1]);
      StepPlaces(Run(es[..|es| - 1]), es[|es| - 1]);
    }
  }

  lemma NothingPlaced()
    ensures Places(Initial()) == multiset{}
  {
    NoneActive(NoTasks());
  }

  /** If no request is issued twice, each issued one is in exactly one place: in the queue once, in one active
      slot, or settled once. A request that was not issued is nowhere. */
  lemma ExactlyOnePlace(es: seq<Event>, r: Request)
    requires multiset(Issued(es))[r] <= 1
    ensures var s := Run(es);
            multiset(s.pending)[r] + |Holders(s.tasks, r)| + multiset(s.settled)[r] == if r in Issued(es) then 1 else 0
  {
    RequestsConserved(es);
    ActiveCounts(Run(es).tasks, r);
    assert r in Issued(es) <==> r in multiset(Issued(es));
    hide Run, Issued, Holders, Active;
  }

  /** Tasks take the accepted requests in the order of acceptance: those taken and those queued are together the
      accepted ones. */
  lemma {:induction false} BoundInOrder(es: seq<Event>)
    ensures Run(es).bound + Run(es).pending == Run(es).accepted == Accepted(es)
  {
    hide Settle, FirstFree, FirstRunning;
    if es != [] {
      BoundInOrder(es[..|es| - 1]);
      StepOrder(Run(es[..|es| - 1]), es[|es| - 1]);
    }
  }

  lemma StepOrder(s: State, e: Event)
    requires s.bound + s.pending == s.accepted
    ensures var t := Step(s, e);
            t.bound + t.pending == t.accepted == s.accepted + if IsAccepted(e) then [e.request] else []
  {
    hide FirstFree, FirstRunning;
    if e.TaskAdded? && s.pending != [] {
      assert s.pending == [s.pending[0]] + s.pending[1..];
    }
  }

  /** Refused requests leave no trace but their own settlement: without them the queue and the table are the same. */
  lemma {:induction false} RefusedLeaveNoTrace(es: seq<Event>)
    ensures var s, t := Run(es), Run(Effective(es));
            s.pending == t.pending && s.tasks == t.tasks && s.bound == t.bound && s.accepted == t.accepted
  {
    if es != [] {
      var init, e := es[..|es| - 1], es[|es| - 1];
      RefusedLeaveNoTrace(init);
      if !e.Requested? || IsAccepted(e) {
        assert (Effective(init) + [e])[..|Effective(init)|] == Effective(init);
        SameStep(Run(init), Run(Effective(init)), e);
      } else {
        assert Effective(es) == Effective(init);
      }
    }
  }

  lemma SameStep(s: State, t: State, e: Event)
    requires s.pending == t.pending && s.tasks == t.tasks && s.bound == t.bound && s.accepted == t.accepted
    ensures var u, v := Step(s, e), Step(t, e);
            u.pending == v.pending && u.tasks == v.tasks && u.bound == v.bound && u.accepted == v.accepted
  {
    hide FirstFree, FirstRunning;
  }

  // ---------------------------------------------------------------- callbacks

  /** The requests of the last callbacks, in order: a failure or the end of a task. */
  function LastWords(notices: seq<Notice>): seq<Request> {
    if notices == [] then []
    else
      var n := notices[|notices| - 1];
      LastWords(notices[..|notices| - 1]) + if n.Started? then [] else [n.request]
  }

  function WithCallback(rs: seq<Request>): seq<Request> {
    if rs == [] then []
    else
      var r := rs[|rs| - 1];
      WithCallback(rs[..|rs| - 1]) + if r.cb == 0 then [] else [r]
  }

  lemma SettledTold(s: State, notice: Notice)
    requires LastWords(s.notices) == WithCallback(s.settled) && !notice.Started?
    ensures LastWords(Settle(s, notice).notices) == WithCallback(Settle(s, notice).settled)
  {
    assert (s.settled + [notice.request])[..|s.settled|] == s.settled;
    assert (s.notices + [notice])[..|s.notices|] == s.notices;
  }

  lemma StartedTold(notices: seq<Notice>, notice: Notice)
    requires notice.Started?
    ensures LastWords(Told(notices, notice)) == LastWords(notices)
  {
    assert (notices + [notice])[..|notices|] == notices;
  }

  lemma BindTold(s: State, r: Request, path: Text, m: int, n: int)
    requires LastWords(s.notices) == WithCallback(s.settled)
    ensures var t := Bind(s, r, path, m, n); LastWords(t.notices) == WithCallback(t.settled)
  {
    hide LastWords, WithCallback, FirstFree, Settle;
    var k := FirstFree(s.tasks);
    var t := if k < |s.tasks| then s.(tasks := s.tasks[k := CLEARED]) else s;
    SettledTold(t, Failed(r, TooManyTasks));
    SettledTold(t, Failed(r, NoProgressMatch(m)));
    SettledTold(t, Failed(r, NoInteractionMatch(n)));
    StartedTold(s.notices, Started(r, path));
  }

  lemma StepTold(s: State, e: Event)
    requires LastWords(s.notices) == WithCallback(s.settled)
    ensures var t := Step(s, e); LastWords(t.notices) == WithCallback(t.settled)
  {
    hide LastWords, WithCallback, FirstRunning, Settle, Bind;
    match e
    case Requested(r, appId, reply) =>
      SettledTold(s, Failed(r, InvalidRequest));
      SettledTold(s, Failed(r, CallFailed(reply.Error())));
    case TaskAdded(path, m, n) =>
      if path.Some? && s.pending != [] {
        BindTold(Dequeue(s), s.pending[0], path.value, m, n);
      }
    case TaskRemoved(path) =>
      if path.Some? && FirstRunning(s.tasks, path.value) < |s.tasks| {
        var k := FirstRunning(s.tasks, path.value);
        SettledTold(s.(tasks := s.tasks[k := CLEARED]), Finished(s.tasks[k].request, path.value));
      }
  }

  /** On every run each settled request that has a callback gets its last callback exactly once, in the order of
      settlement, and no other request does. */
  lemma {:induction false} LastWordsOnce(es: seq<Event>)
    ensures LastWords(Run(es).notices) == WithCallback(Run(es).settled)
  {
    hide Step, LastWords, WithCallback;
    if es == [] {
      AtFirst([]);
    } else {
      LastWordsOnce(es[..|es| - 1]);
      StepTold(Run(es[..|es| - 1]), es[|es| - 1]);
    }
  }

  /** "too many active tasks" is said exactly when a task is added for a queued request and all slots are active. */
  lemma TooManyExactlyWhenFull(es: seq<Event>, e: Event, r: Request)
    ensures var s := Run(es);
            |s.tasks| == 16
            && (Step(s, e).notices == s.notices + [Failed(r, TooManyTasks)] <==>
                e.TaskAdded? && e.path.Some? && s.pending != [] && r == s.pending[0] && r.cb != 0
                && forall k :: 0 <= k < 16 ==> s.tasks[k].active)
  {
    AlwaysTidy(es);
    hide Run, FirstRunning;
    var s := Run(es);
    if Step(s, e).notices != s.notices {
      assert Step(s, e).notices[|s.notices|] == (s.notices + [Failed(r, TooManyTasks)])[|s.notices|]
             <==> Step(s, e).notices == s.notices + [Failed(r, TooManyTasks)];
    }
  }

  // ---------------------------------------------------------------- closing

  /** Closing after any run: each issued request was settled before, or is dropped without its last callback. */
  lemma ClosingDrops(es: seq<Event>)
    ensures var s, t := Run(es), Closed(Run(es));
            multiset(Issued(es)) == multiset(t.settled) + (multiset(s.pending) + Active(s.tasks))
            && t.pending == [] && Active(t.tasks) == multiset{} && LastWords(t.notices) == WithCallback(t.settled)
  {
    RequestsConserved(es);
    LastWordsOnce(es);
    NoneActive(NoTasks());
  }

  // ---------------------------------------------------------------- object paths

  function AddedPaths(es: seq<Event>): seq<Text> {
    if es == [] then []
    else
      var e := es[|es| - 1];
      AddedPaths(es[..|es| - 1]) + if e.TaskAdded? && e.path.Some? then [e.path.value] else []
  }

  ghost predicate Distinct(paths: seq<Text>) {
    forall i, j :: 0 <= i < j < |paths| ==> paths[i] != paths[j]
  }

  lemma RunExtended(es: seq<Event>, e: Event)
    ensures Run(es + [e]) == Step(Run(es), e)
  {
    hide Step;
    assert (es + [e])[..|es|] == es;
  }

  /** After TaskRemoved no slot runs the path exactly when at most one did before. */
  lemma RemovedIsGoneExactly(es: seq<Event>, path: Text)
    ensures var was, tasks := Run(es).tasks, Run(es + [TaskRemoved(Some(path))]).tasks;
            (forall k :: 0 <= k < |tasks| ==> !Runs(tasks[k], path))
            <==> forall j, k :: 0 <= j < k < |was| ==> !(Runs(was[j], path) && Runs(was[k], path))
  {
    RunExtended(es, TaskRemoved(Some(path)));
    hide Run;
    var was, tasks := Run(es).tasks, Run(es + [TaskRemoved(Some(path))]).tasks;
    var i := FirstRunning(was, path);
    hide FirstRunning;
    if i < |was| {
      assert tasks == was[i := CLEARED];
      if j, k :| 0 <= j < k < |was| && Runs(was[j], path) && Runs(was[k], path) {
        assert Runs(tasks[k], path);
      }
    }
  }

  /** e starts a task for the path: its signal arrives while a request is queued and a slot is free, and both
      subscriptions succeed. */
  predicate Starts(s: State, e: Event, path: Text) {
    e.TaskAdded? && e.path == Some(path) && s.pending != [] && FirstFree(s.tasks) < |s.tasks|
    && e.progressMatch >= 0 && e.interactionMatch >= 0
  }

  /** The tasks started for the path and not removed since, counted over the run. */
  ghost function Balance(es: seq<Event>, path: Text): nat {
    if es == [] then 0
    else
      var init, e := es[..|es| - 1], es[|es| - 1];
      var n := Balance(init, path);
      if Starts(Run(init), e, path) then n + 1
      else if e == TaskRemoved(Some(path)) && n > 0 then n - 1
      else n
  }

  function Slots(tasks: seq<TaskEntry>, path: Text): set<nat> {
    set k: nat | k < |tasks| && Runs(tasks[k], path)
  }

  lemma StepSlots(s: State, e: Event, path: Text)
    requires Tidy(s)
    ensures var was, now := Slots(s.tasks, path), Slots(Step(s, e).tasks, path);
            |now| == if Starts(s, e, path) then |was| + 1
                     else if e == TaskRemoved(Some(path)) && |was| > 0 then |was| - 1
                     else |was|
  {
    match e
    case Requested(_, _, _) =>
    case TaskAdded(p, m, n) =>
      if p.Some? && s.pending != [] {
        BindSlots(Dequeue(s), s.pending[0], p.value, m, n, path);
      }
    case TaskRemoved(p) =>
      if p.Some? {
        RemoveSlots(s.tasks, p.value, path);
      }
  }

  lemma BindSlots(s: State, r: Request, p: Text, m: int, n: int, path: Text)
    requires Tidy(s)
    ensures var k, was, now := FirstFree(s.tasks), Slots(s.tasks, path), Slots(Bind(s, r, p, m, n).tasks, path);
            |now| == |was| + if k < |s.tasks| && m >= 0 && n >= 0 && p == path then 1 else 0
  {
    hide FirstFree, Told;
    var k, tasks := FirstFree(s.tasks), Bind(s, r, p, m, n).tasks;
    if k < |s.tasks| {
      assert Slots(tasks, path) == Slots(s.tasks, path) + if m >= 0 && n >= 0 && p == path then {k} else {};
    }
  }

  lemma RemoveSlots(tasks: seq<TaskEntry>, p: Text, path: Text)
    ensures var k := FirstRunning(tasks, p);
            k < |tasks| ==> |Slots(tasks[k := CLEARED], path)| == |Slots(tasks, path)| - if p == path then 1 else 0
    ensures p == path ==> (FirstRunning(tasks, p) < |tasks| <==> |Slots(tasks, path)| > 0)
  {
    hide FirstRunning;
    var k := FirstRunning(tasks, p);
    if k < |tasks| {
      assert Slots(tasks[k := CLEARED], path) == Slots(tasks, path) - if p == path then {k} else {};
      assert p == path ==> k in Slots(tasks, path);
    } else if p == path {
      assert Slots(tasks, path) == {};
    }
  }

  /** On every run as many slots run the path as tasks for it were started and not removed. */
  lemma {:induction false} SlotsAreBalance(es: seq<Event>, path: Text)
    ensures |Slots(Run(es).tasks, path)| == Balance(es, path)
  {
    hide Step, Slots, Starts;
    if es == [] {
      AtFirst(path);
    } else {
      var init := es[..|es| - 1];
      SlotsAreBalance(init, path);
      AlwaysTidy(init);
      StepSlots(Run(init), es[|es| - 1], path);
    }
  }

  lemma AtMostOne(tasks: seq<TaskEntry>, path: Text)
    ensures |Slots(tasks, path)| <= 1 <==>
            forall j, k :: 0 <= j < k < |tasks| ==> !(Runs(tasks[j], path) && Runs(tasks[k], path))
  {
    var slots := Slots(tasks, path);
    if j, k :| 0 <= j < k < |tasks| && Runs(tasks[j], path) && Runs(tasks[k], path) {
      assert {j, k} <= slots;
      SubsetSize({j, k}, slots);
    } else if slots != {} {
      var i :| i in slots;
      assert slots == {i};
    }
  }

  lemma {:induction false} SubsetSize(a: set<nat>, b: set<nat>)
    requires a <= b
    ensures |a| <= |b|
  {
    if a != {} {
      var x :| x in a;
      SubsetSize(a - {x}, b - {x});
    }
  }

  /** On every run, a removed task is gone exactly when at most one task for its path was started and not removed
      before, whatever happened to other paths and however often this one was used. */
  lemma RemovedIsGoneByBalance(es: seq<Event>, path: Text)
    ensures var tasks := Run(es + [TaskRemoved(Some(path))]).tasks;
            (forall k :: 0 <= k < |tasks| ==> !Runs(tasks[k], path)) <==> Balance(es, path) <= 1
  {
    hide Run, Balance, Slots, Runs;
    RemovedIsGoneExactly(es, path);
    SlotsAreBalance(es, path);
    AtMostOne(Run(es).tasks, path);
  }

  lemma {:induction false} BalanceOfDistinct(es: seq<Event>, path: Text)
    requires Distinct(AddedPaths(es))
    ensures Balance(es, path) <= 1 && (path !in AddedPaths(es) ==> Balance(es, path) == 0)
  {
    hide Run;
    if es != [] {
      var init, e := es[..|es| - 1], es[|es| - 1];
      assert AddedPaths(init) == AddedPaths(es)[..|AddedPaths(init)|];
      BalanceOfDistinct(init, path);
      assert e.TaskAdded? && e.path.Some? ==> AddedPaths(es)[|AddedPaths(init)|] == e.path.value;
      assert path in AddedPaths(init) ==> path in AddedPaths(es);
    }
  }

  /** In particular if no object path is announced twice. */
  lemma RemovedIsGone(es: seq<Event>, path: Text)
    requires Distinct(AddedPaths(es))
    ensures var tasks := Run(es + [TaskRemoved(Some(path))]).tasks;
            forall k :: 0 <= k < |tasks| ==> !Runs(tasks[k], path)
  {
    hide Run, Balance, Distinct, AddedPaths;
    BalanceOfDistinct(es, path);
    RemovedIsGoneByBalance(es, path);
  }

  /** Before the first event nothing was said and nothing runs. */
  lemma AtFirst(path: Text)
    ensures Run([]) == Initial() && LastWords(Initial().notices) == WithCallback(Initial().settled)
    ensures Slots(NoTasks(), path) == {}
  {
  }

  lemma FirstSlots(task: TaskEntry)
    ensures task.active ==> FirstFree(NoTasks()) == 0 && FirstFree(NoTasks()[0 := task]) == 1
  {
  }

  /** If one is announced twice, a slot may go on running it. */
  lemma RemovedMayStay(path: Text)
    ensures var ask, add := Requested(Request(1, 1), Some(path), Reply(0, 0, 0)), TaskAdded(Some(path), 0, 0);
            var tasks := Run([ask, ask, add, add, TaskRemoved(Some(path))]).tasks;
            path != [] ==> |tasks| == MAX_TASKS && Runs(tasks[1], path)
  {
    var ask, add := Requested(Request(1, 1), Some(path), Reply(0, 0, 0)), TaskAdded(Some(path), 0, 0);
    if path != [] {
      hide Run, FirstFree;
      var r, task := Request(1, 1), TaskEntry(true, path, Request(1, 1));
      AtFirst([]);
      RunExtended([], ask);
      RunExtended([ask], ask);
      assert [] + [ask] == [ask] && [ask] + [ask] == [ask, ask];
      assert Run([ask, ask]).pending == [r, r] && Run([ask, ask]).tasks == NoTasks();
      RunExtended([ask, ask], add);
      RunExtended([ask, ask, add], add);
      assert [ask, ask] + [add] == [ask, ask, add] && [ask, ask, add] + [add] == [ask, ask, add, add];
      FirstSlots(task);
      assert Run([ask, ask, add, add]).tasks == NoTasks()[0 := task][1 := task];
      RunExtended([ask, ask, add, add], TaskRemoved(Some(path)));
      assert [ask, ask, add, add] + [TaskRemoved(Some(path))] == [ask, ask, add, add, TaskRemoved(Some(path))];
    }
  }

  // ---------------------------------------------------------------- the code told

  /** A request whose reply holds an error code is told of the failure with the very code exactly when the code fits
      an int, and never with 0. */
  lemma CodeTold(s: State, r: Request, appId: Option<Text>, reply: Reply)
    requires ValidId(appId) && r.cb != 0 && reply.call >= 0 && reply.parsed >= 0 && reply.code != 0
    ensures var t := OnRequest(s, r, appId, reply);
            |t.notices| == |s.notices| + 1 && var notice := t.notices[|s.notices|];
            notice.Failed? && notice.request == r && ErrorCode(notice.reason) != 0
            && (ErrorCode(notice.reason) == reply.code <==> -0x8000_0000 <= reply.code < 0x8000_0000)
  {
    assert ToInt(reply.code) == 0 <==> reply.code % 0x1_0000_0000 == 0;
    assert ToInt(reply.code) == reply.code <==> -0x8000_0000 <= reply.code < 0x8000_0000;
  }

  // ---------------------------------------------------------------- each event on the fields

  /** A request is over: it is settled, and its callback, if it has one, is made with this notice. */
  ghost predicate Ends(s: State, t: State, notice: Notice) {
    t.settled == s.settled + [notice.request] && Says(s, t, notice)
  }

  /** One callback is made, unless it is null. */
  ghost predicate Says(s: State, t: State, notice: Notice) {
    t.notices == if notice.request.cb != 0 then s.notices + [notice] else s.notices
  }

  /** A request enters the queue, at its end, exactly if it is accepted; otherwise it is over, and its callback is
      told of the call if that failed, else of the reply if it could not be read, else of the code in it: the number
      that a 32-bit int holds for the code. */
  lemma RequestExactly(s: State, r: Request, appId: Option<Text>, reply: Reply)
    ensures var e, t := Requested(r, appId, reply), Step(s, Requested(r, appId, reply));
            t.tasks == s.tasks && t.bound == s.bound
            && (IsAccepted(e) ==> t.pending == s.pending + [r] && t.accepted == s.accepted + [r]
                                  && t.settled == s.settled && t.notices == s.notices)
            && (!IsAccepted(e) ==> t.pending == s.pending && t.accepted == s.accepted)
            && (appId == None || appId == Some([]) ==> Ends(s, t, Failed(r, InvalidRequest)))
            && (appId != None && appId != Some([]) && !IsAccepted(e) ==>
                  exists n: int :: Ends(s, t, Failed(r, CallFailed(n)))
                                   && (reply.call < 0 ==> n == reply.call)
                                   && (reply.call >= 0 && reply.parsed < 0 ==> n == reply.parsed)
                                   && (reply.call >= 0 && reply.parsed >= 0 ==>
                                         -0x8000_0000 <= n < 0x8000_0000 && (n - reply.code) % 0x1_0000_0000 == 0))
  {
    var t := Step(s, Requested(r, appId, reply));
    IntOf(reply.code);
    hide ToInt;
    if appId != None && appId != Some([]) && !IsAccepted(Requested(r, appId, reply)) {
      assert Ends(s, t, Failed(r, CallFailed(reply.Error())));
    }
  }

  lemma IntOf(code: int)
    ensures -0x8000_0000 <= ToInt(code) < 0x8000_0000 && (ToInt(code) - code) % 0x1_0000_0000 == 0
  {
  }

  /** The codes the callbacks are given for a request that is over without a task. */
  lemma CodesTold(n: int)
    ensures ErrorCode(InvalidRequest) == -22 && ErrorCode(TooManyTasks) == -28
    ensures n != 0 ==>
              ErrorCode(CallFailed(n)) == ErrorCode(NoProgressMatch(n)) == ErrorCode(NoInteractionMatch(n)) == n
    ensures ErrorCode(CallFailed(0)) == -1
  {
  }

  /** A slot that is free and behind active ones only. */
  ghost predicate IsFirstFree(tasks: seq<TaskEntry>, k: nat) {
    k < |tasks| && !tasks[k].active && forall j :: 0 <= j < k ==> tasks[j].active
  }

  /** Without a path or a queued request nothing happens. Otherwise the first request leaves the queue; if all slots
      are active it is over, and else it gets the first free slot, or is over and leaves it clear if a subscription
      failed. */
  lemma AddedExactly(s: State, path: Option<Text>, m: int, n: int)
    ensures var t := Step(s, TaskAdded(path, m, n));
            (path == None || s.pending == [] ==> t == s)
            && (path != None && s.pending != [] ==>
                  var r := s.pending[0];
                  t.pending == s.pending[1..] && t.bound == s.bound + [r] && t.accepted == s.accepted
                  && ((forall k :: 0 <= k < |s.tasks| ==> s.tasks[k].active) ==>
                        t.tasks == s.tasks && Ends(s, t, Failed(r, TooManyTasks)))
                  && forall k: nat :: IsFirstFree(s.tasks, k) ==>
                       if m < 0 then
                         t.tasks == s.tasks[k := TaskEntry(false, [], Request(0, 0))]
                         && Ends(s, t, Failed(r, NoProgressMatch(m)))
                       else if n < 0 then
                         t.tasks == s.tasks[k := TaskEntry(false, [], Request(0, 0))]
                         && Ends(s, t, Failed(r, NoInteractionMatch(n)))
                       else
                         t.tasks == s.tasks[k := TaskEntry(true, path.value, r)] && t.settled == s.settled
                         && Says(s, t, Started(r, path.value)))
  {
    hide FirstFree;
    var i := FirstFree(s.tasks);
    assert forall k: nat :: IsFirstFree(s.tasks, k) ==> k == i;
  }

  /** A slot that is active with the path and behind others only. */
  ghost predicate IsFirstWith(tasks: seq<TaskEntry>, path: Text, k: nat) {
    k < |tasks| && tasks[k].active && tasks[k].path == path
    && forall j :: 0 <= j < k ==> !(tasks[j].active && tasks[j].path == path)
  }

  /** The first slot that is active with the path is cleared, and its request is over, finished with that path; if
      there is none nothing happens. */
  lemma RemovedExactly(s: State, path: Option<Text>)
    ensures var t := Step(s, TaskRemoved(path));
            t.pending == s.pending && t.bound == s.bound && t.accepted == s.accepted
            && (path == None || (forall k: nat :: !IsFirstWith(s.tasks, path.value, k)) ==> t == s)
            && (path != None ==>
                  forall k: nat :: IsFirstWith(s.tasks, path.value, k) ==>
                    t.tasks == s.tasks[k := TaskEntry(false, [], Request(0, 0))]
                    && Ends(s, t, Finished(s.tasks[k].request, path.value)))
  {
    hide FirstRunning;
    if path != None {
      var i := FirstRunning(s.tasks, path.value);
      assert i < |s.tasks| ==> IsFirstWith(s.tasks, path.value, i);
      assert forall k: nat :: IsFirstWith(s.tasks, path.value, k) ==> k == i;
    }
  }
}
