/** How the threads that post requests use the handle pool of lib/linyaps_remote.c: a temporary handle is the last
    resort, and a pooled one is used again. */
module PoolReuse {
  import opened Bytes
  import opened HandlePool
  import opened Threads = PoolThreads

  // ---------------------------------------------------------------- temporary handles

  /** A thread that has, or is about to make, a handle outside the pool. */
  predicate Temporary(l: Local) {
    l.PoolFull? || l.Appending? || l.Freeing? || ((l.Acquired? || l.Asked?) && l.from == None)
  }

  /** Action k is an acquisition by thread t, made while each of the four entries was lent to another thread. */
  ghost predicate FoundAllLent(steps: seq<(nat, Action)>, k: nat, t: nat) {
    k < |steps| && steps[k].0 == t && steps[k].1.Take? && Outcome(steps[..k]).Some?
    && var s := Outcome(steps[..k]).value;
       |s.pool| == 4 && forall i: nat :: i < 4 ==> s.pool[i].inUse && LentToOther(s, i, t)
  }

  ghost predicate LentToOther(s: State, i: nat, t: nat) {
    exists u: nat :: u != t && Borrowed(Threads.At(s, u)) == Some(i)
  }

  lemma AllLent(s: State, t: nat, place: map<Addr, Place>, lent: map<nat, nat>)
    requires Inv(s, place, lent) && Threads.At(s, t).Idle? && forall i :: 0 <= i < |s.pool| ==> s.pool[i].inUse
    ensures |s.pool| == 4 && forall i: nat :: i < 4 ==> s.pool[i].inUse && LentToOther(s, i, t)
  {
    hide LocalsOk, PlacedBy, Accounted;
    forall i: nat | i < 4 ensures s.pool[i].inUse && LentToOther(s, i, t) {
      assert i in lent && Borrowed(Threads.At(s, lent[i])) == Some(i);
    }
  }

  /** A thread becomes temporary only by an acquisition that finds all entries in use. */
  lemma StepTemporary(s: State, t: nat, a: Action, u: nat)
    requires Enabled(s, t, a) && LocalOk(s.pool, Threads.At(s, t)) && Temporary(Threads.At(Step(s, t, a), u))
    ensures u != t ==> Threads.At(s, u) == Threads.At(Step(s, t, a), u)
    ensures u == t && a.Take? ==> Threads.At(s, t).Idle? && forall i :: 0 <= i < |s.pool| ==> s.pool[i].inUse
    ensures u == t && !a.Take? ==> Temporary(Threads.At(s, t))
  {
    hide FirstIdle, EntryOf;
    if a.Take? {
      TakenExactly(s.pool, a.made, a.first, a.second);
    }
  }

  /** Whenever a thread has a temporary handle, the last acquisition it made found all four entries lent to other
      threads. */
  lemma {:induction false} TemporaryAfterFull(steps: seq<(nat, Action)>, s: State, t: nat) returns (k: nat)
    requires Reached(steps, s) && Temporary(Threads.At(s, t))
    ensures FoundAllLent(steps, k, t)
    ensures forall j :: k < j < |steps| ==> !(steps[j].0 == t && steps[j].1.Take?)
  {
    hide Step, Enabled, Inv, Temporary, LocalOk;
    if steps == [] {
      NoneAtFirst(t);
    } else {
      var init := steps[..|steps| - 1];
      var r := Outcome(init).value;
      var (u, a) := steps[|steps| - 1];
      var place, lent := AlwaysInv(init, r);
      LocalKnown(r, u, place, lent);
      StepTemporary(r, u, a, t);
      if u == t && a.Take? {
        k := |steps| - 1;
        AllLent(r, t, place, lent);
      } else {
        k := TemporaryAfterFull(init, r, t);
        assert init[..k] == steps[..k];
      }
    }
  }

  lemma NoneAtFirst(t: nat)
    ensures Outcome([]) == Some(Initial()) && !Temporary(Threads.At(Initial(), t))
  {
  }

  lemma LocalKnown(s: State, t: nat, place: map<Addr, Place>, lent: map<nat, nat>)
    requires Inv(s, place, lent)
    ensures LocalOk(s.pool, Threads.At(s, t))
  {
    hide LocalOk, PlacedBy, LentTo, Accounted, EntriesOk;
  }

  // ---------------------------------------------------------------- handles used again

  /** The handle and headers of a filled entry are lent as they are, and nothing is made for it. */
  lemma FilledIsLent(s: State, t: nat, made: Option<Addr>, first: Option<Addr>, second: Option<Addr>, i: nat)
    requires Enabled(s, t, Take(made, first, second)) && IsFirstIdle(s.pool, i) && s.pool[i].handle != None
    ensures var u := Step(s, t, Take(made, first, second));
            Enabled(u, t, ReadHandle)
            && var v := Step(u, t, ReadHandle);
               Threads.At(v, t) == Acquired(s.pool[i].handle.value, s.pool[i].headers, Some(i))
               && v.made == s.made && v.live == s.live && v.destroyed == s.destroyed
               && v.pool == s.pool[i := Entry(s.pool[i].handle, s.pool[i].headers, true)]
  {
    hide FirstIdle, EntryOf, Taken;
    TakenExactly(s.pool, made, first, second);
    FirstIdleIs(s.pool, i);
  }

  lemma FirstIdleIs(pool: seq<Entry>, i: nat)
    requires IsFirstIdle(pool, i)
    ensures FirstIdle(pool) == i
  {
  }

  /** A thread or an address that is not in use. */
  lemma Unused(used: set<nat>) returns (n: nat)
    ensures n !in used
  {
    n := 0;
    var rest := used;
    while rest != {}
      invariant rest <= used && forall m <- used :: m !in rest ==> m < n
    {
      var m :| m in rest;
      rest := rest - {m};
      if m >= n {
        n := m + 1;
      }
    }
  }

  /** A thread that was idle has taken the first idle entry; the idle entries behind it are as before. */
  lemma TakeFirst(s: State, t: nat, made: Option<Addr>, i: nat, j: nat)
    requires Threads.At(s, t).Idle? && Fresh(s, made) && made != None && IsFirstIdle(s.pool, j) && j < i < |s.pool|
    requires !s.pool[i].inUse
    ensures Enabled(s, t, Take(made, None, None))
    ensures var u := Step(s, t, Take(made, None, None));
            |u.pool| == |s.pool| && u.pool[i] == s.pool[i] && forall k :: 0 <= k <= j ==> u.pool[k].inUse
  {
    hide FirstIdle, EntryOf, Taken;
    TakenExactly(s.pool, made, None, None);
  }

  /** steps with more actions behind them. */
  predicate Continues(steps: seq<(nat, Action)>, more: seq<(nat, Action)>) {
    |steps| <= |more| && more[..|steps|] == steps
  }

  lemma ContinuesOn(steps: seq<(nat, Action)>, more: seq<(nat, Action)>, a: (nat, Action))
    ensures Continues(steps + [a], more) ==> Continues(steps, more)
    ensures Continues(steps, steps + [a])
  {
    if Continues(steps + [a], more) {
      assert more[..|steps|] == (steps + [a])[..|steps|];
    }
  }

  /** Whenever an entry with a handle is idle, some way of going on lends that very handle, with its headers, to a
      thread again. */
  lemma {:induction false} LentAgain(steps: seq<(nat, Action)>, s: State, i: nat)
    returns (more: seq<(nat, Action)>, s': State, t: nat)
    requires Reached(steps, s) && i < |s.pool| && !s.pool[i].inUse && s.pool[i].handle != None
    ensures Continues(steps, more) && Reached(more, s')
    ensures Threads.At(s', t) == Acquired(s.pool[i].handle.value, s.pool[i].headers, Some(i))
    decreases i - FirstIdle(s.pool)
  {
    hide Outcome, Step, Enabled, FirstIdle;
    var j := FirstIdle(s.pool);
    t := Unused(s.threads.Keys);
    var a := Unused(s.live.Keys);
    if j == i {
      TakeIsEnabled(s, t);
      FilledIsLent(s, t, None, None, None, i);
      Extended(steps, t, Take(None, None, None));
      ContinuesOn(steps, steps, (t, Take(None, None, None)));
      var once := steps + [(t, Take(None, None, None))];
      Extended(once, t, ReadHandle);
      more := once + [(t, ReadHandle)];
      ContinuesOn(once, more, (t, ReadHandle));
      ContinuesOn(steps, more, (t, Take(None, None, None)));
      s' := Outcome(more).value;
    } else {
      TakeFirst(s, t, Some(a), i, j);
      Extended(steps, t, Take(Some(a), None, None));
      var once := steps + [(t, Take(Some(a), None, None))];
      var u := Step(s, t, Take(Some(a), None, None));
      more, s', t := LentAgain(once, u, i);
      ContinuesOn(steps, more, (t, Take(Some(a), None, None)));
    }
  }

  lemma TakeIsEnabled(s: State, t: nat)
    ensures t !in s.threads ==> Enabled(s, t, Take(None, None, None))
  {
  }
}
