/** Any number of threads that post requests through the handle pool: http_post_json of lib/linyaps_remote.c, one
    action per section under the mutex and per call of the library outside it. */
module PoolThreads {
  import opened Bytes
  import opened HandlePool

  /** How far a thread is. `from` tells where an acquired handle came from: the pool entry, or None for a
      temporary handle. The code itself does not keep it: it asks curl_pool_contains instead. */
  datatype Local =
    | Idle
    | EntryChosen(entry: nat, headers: seq<Addr>)
    | PoolFull
    | Appending(curl: Addr, headers: seq<Addr>, calls: nat)
    | Acquired(curl: Addr, headers: seq<Addr>, from: Option<nat>)
    | Asked(curl: Addr, headers: seq<Addr>, from: Option<nat>, isPooled: bool)
    | Freeing(curl: Addr, headers: seq<Addr>)

  /** The actions of a thread; the parameters are the addresses the library returns, None if it fails. */
  datatype Action =
    | Take(made: Option<Addr>, first: Option<Addr>, second: Option<Addr>)
    | ReadHandle
    | MakeHandle(made: Option<Addr>)
    | AppendHeader(node: Option<Addr>)
    | AskPool
    | GiveBackEntry
    | FreeHeaders
    | FreeNode
    | CleanUp

  /** The pool, the objects alive with their serial numbers by address, the serial numbers of the destroyed ones
      in order, the number of destructions of something not alive, the list nodes nothing refers to any more, and
      the threads that are not idle. */
  datatype State = State(pool: seq<Entry>, live: map<Addr, nat>, made: nat, destroyed: seq<nat>, faults: nat,
                         lost: set<Addr>, threads: map<nat, Local>)

  function Initial(): State { State([VACANT, VACANT, VACANT, VACANT], map[], 0, [], 0, {}, map[]) }

  function LocalOf(threads: map<nat, Local>, t: nat): Local { if t in threads then threads[t] else Idle }

  function At(s: State, t: nat): Local { LocalOf(s.threads, t) }

  function Made(s: State, a: Option<Addr>): State {
    if a.None? then s else s.(live := s.live[a.value := s.made], made := s.made + 1)
  }

  function Destroyed(s: State, a: Addr): State {
    if a in s.live then s.(live := s.live - {a}, destroyed := s.destroyed + [s.live[a]])
    else s.(faults := s.faults + 1)
  }

  function Goes(s: State, t: nat, l: Local): State { s.(threads := s.threads[t := l]) }

  function Nodes(headers: seq<Addr>): set<Addr> { set a <- headers }

  /** The nodes that an append drops: the whole list, if the library makes no node. */
  function Dropped(headers: seq<Addr>, node: Option<Addr>): set<Addr> {
    if node.None? then Nodes(headers) else {}
  }

  predicate Fresh(s: State, a: Option<Addr>) { a.Some? ==> a.value !in s.live }

  predicate Differ(a: Option<Addr>, b: Option<Addr>) { a.Some? ==> a != b }

  /** The library returns addresses at which nothing is alive; they may have been used before. */
  predicate Enabled(s: State, t: nat, a: Action) {
    match a
    case Take(made, first, second) =>
      At(s, t).Idle? && Fresh(s, made) && Fresh(s, first) && Fresh(s, second)
      && Differ(made, first) && Differ(made, second) && Differ(first, second)
    case ReadHandle => At(s, t).EntryChosen?
    case MakeHandle(made) => At(s, t).PoolFull? && Fresh(s, made)
    case AppendHeader(node) => At(s, t).Appending? && Fresh(s, node)
    case AskPool => At(s, t).Acquired?
    case GiveBackEntry => At(s, t).Asked? && At(s, t).isPooled
    case FreeHeaders => At(s, t).Asked? && !At(s, t).isPooled
    case FreeNode => At(s, t).Freeing? && At(s, t).headers != []
    case CleanUp => At(s, t).Freeing? && At(s, t).headers == []
  }

  /** The first action of curl_pool_acquire makes a handle and headers for the entry it chooses. */
  predicate Furnishes(s: State, made: Option<Addr>) {
    FirstIdle(s.pool) < |s.pool| && s.pool[FirstIdle(s.pool)].handle.None? && made.Some?
  }

  /** The locked section of curl_pool_acquire, with the objects it makes. */
  function OnTake(s: State, t: nat, made: Option<Addr>, first: Option<Addr>, second: Option<Addr>): State {
    var (pool, found) := Taken(s.pool, made, first, second);
    var u := if Furnishes(s, made)
             then Made(Made(Made(s, made), first), second).(lost := s.lost + Dropped(Append([], first), second)) else s;
    match found
    case Chosen(i, headers) => Goes(u.(pool := pool), t, EntryChosen(i, headers))
    case NoHandle => s
    case Full => Goes(s, t, PoolFull)
  }

  function OnRead(s: State, t: nat, l: Local): State
    requires l.EntryChosen?
  {
    if l.entry < |s.pool| && s.pool[l.entry].handle.Some?
    then Goes(s, t, Acquired(s.pool[l.entry].handle.value, l.headers, Some(l.entry)))
    else Goes(s, t, Idle)
  }

  /** One of the two appends for a temporary handle. */
  function OnAppend(s: State, t: nat, l: Local, node: Option<Addr>): State
    requires l.Appending?
  {
    var headers := Append(l.headers, node);
    Goes(Made(s, node).(lost := s.lost + Dropped(l.headers, node)), t,
         if l.calls == 0 then Appending(l.curl, headers, 1) else Acquired(l.curl, headers, None))
  }

  function Step(s: State, t: nat, a: Action): State
    requires Enabled(s, t, a)
  {
    var l := At(s, t);
    match a
    case Take(made, first, second) => OnTake(s, t, made, first, second)
    case ReadHandle => OnRead(s, t, l)
    case MakeHandle(made) =>
      if made.None? then Goes(s, t, Idle) else Goes(Made(s, made), t, Appending(made.value, [], 0))
    case AppendHeader(node) => OnAppend(s, t, l, node)
    case AskPool => Goes(s, t, Asked(l.curl, l.headers, l.from, EntryOf(s.pool, l.curl) < |s.pool|))
    case GiveBackEntry => Goes(s.(pool := GivenBack(s.pool, l.curl)), t, Idle)
    case FreeHeaders => Goes(s, t, Freeing(l.curl, l.headers))
    case FreeNode => Goes(Destroyed(s, l.headers[0]), t, Freeing(l.curl, l.headers[1..]))
    case CleanUp => Goes(Destroyed(s, l.curl), t, Idle)
  }

  /** The state the actions lead to, any interleaving of any threads; None if one of them is not enabled. */
  function Outcome(steps: seq<(nat, Action)>): Option<State> {
    if steps == [] then Some(Initial())
    else
      var r, (t, a) := Outcome(steps[..|steps| - 1]), steps[|steps| - 1];
      if r.Some? && Enabled(r.value, t, a) then Some(Step(r.value, t, a)) else None
  }

  predicate Reached(steps: seq<(nat, Action)>, s: State) { Outcome(steps) == Some(s) }

  // ---------------------------------------------------------------- the invariant

  function EntryAddrs(e: Entry): set<Addr> {
    (if e.handle.Some? then {e.handle.value} else {}) + Nodes(e.headers)
  }

  /** What a thread owns itself: a temporary handle and its headers. */
  function OwnAddrs(l: Local): set<Addr> {
    match l
    case Appending(curl, headers, _) => {curl} + Nodes(headers)
    case Acquired(curl, headers, from) => if from.Some? then {} else {curl} + Nodes(headers)
    case Asked(curl, headers, from, _) => if from.Some? then {} else {curl} + Nodes(headers)
    case Freeing(curl, headers) => {curl} + Nodes(headers)
    case _ => {}
  }

  /** The pool entry lent to a thread. */
  function Borrowed(l: Local): Option<nat> {
    match l
    case EntryChosen(i, _) => Some(i)
    case Acquired(_, _, from) => from
    case Asked(_, _, from, _) => from
    case _ => None
  }

  /** Who has an object: a pool entry, a thread or nobody. */
  datatype Place = InEntry(i: nat) | With(t: nat) | Lost

  ghost predicate EntriesOk(pool: seq<Entry>) {
    && |pool| == CURL_POOL_SIZE
    && forall i: nat :: i < |pool| && pool[i].handle.None? ==> pool[i] == VACANT
  }

  predicate Has(pool: seq<Entry>, threads: map<nat, Local>, lost: set<Addr>, p: Place, a: Addr) {
    if p.Lost? then a in lost
    else if p.InEntry? then p.i < |pool| && a in EntryAddrs(pool[p.i])
    else a in OwnAddrs(LocalOf(threads, p.t))
  }

  /** Every live object is in exactly one place, and nothing else is anywhere. */
  ghost predicate PlacedBy(pool: seq<Entry>, threads: map<nat, Local>, live: set<Addr>, lost: set<Addr>,
                           place: map<Addr, Place>) {
    && place.Keys == live
    && (forall a <- place :: Has(pool, threads, lost, place[a], a))
    && (forall a <- lost :: a in place && place[a] == Lost)
    && (forall i: nat, a: Addr :: i < |pool| && a in EntryAddrs(pool[i]) ==> a in place && place[a] == InEntry(i))
    && forall t: nat, a: Addr :: a in OwnAddrs(LocalOf(threads, t)) ==> a in place && place[a] == With(t)
  }

  /** Every entry in use is lent to exactly one thread, and no other entry to any. */
  ghost predicate LentTo(pool: seq<Entry>, threads: map<nat, Local>, lent: map<nat, nat>) {
    && (forall i: nat :: i in lent <==> i < |pool| && pool[i].inUse)
    && (forall i <- lent :: Borrowed(LocalOf(threads, lent[i])) == Some(i))
    && forall t: nat :: var b := Borrowed(LocalOf(threads, t)); b.Some? ==> b.value in lent && lent[b.value] == t
  }

  predicate NoRepeats(nodes: seq<Addr>) { forall i, j :: 0 <= i < j < |nodes| ==> nodes[i] != nodes[j] }

  /** What a thread knows of its handle is right. */
  predicate LocalOk(pool: seq<Entry>, l: Local) {
    && (l.Asked? ==> (l.isPooled <==> l.from.Some?))
    && (OwnAddrs(l) != {} ==> l.curl !in l.headers && NoRepeats(l.headers))
    && (Borrowed(l).Some? ==>
          var i := Borrowed(l).value;
          i < |pool| && pool[i].handle.Some? && l.headers == pool[i].headers
          && (l.EntryChosen? || pool[i].handle == Some(l.curl)))
  }

  ghost predicate LocalsOk(pool: seq<Entry>, threads: map<nat, Local>) {
    forall t: nat :: LocalOk(pool, LocalOf(threads, t))
  }

  /** Every object made is alive at one address or was destroyed once. */
  ghost predicate Accounted(live: map<Addr, nat>, made: nat, destroyed: seq<nat>) {
    && (forall a <- live :: live[a] < made && live[a] !in destroyed)
    && (forall a <- live, b <- live :: a != b ==> live[a] != live[b])
    && (forall i, j :: 0 <= i < j < |destroyed| ==> destroyed[i] != destroyed[j])
    && (forall n <- destroyed :: n < made)
    && forall n: nat :: n < made && n !in destroyed ==> n in live.Values
  }

  ghost predicate Inv(s: State, place: map<Addr, Place>, lent: map<nat, nat>) {
    && EntriesOk(s.pool) && LocalsOk(s.pool, s.threads) && PlacedBy(s.pool, s.threads, s.live.Keys, s.lost, place)
    && LentTo(s.pool, s.threads, lent) && Accounted(s.live, s.made, s.destroyed) && s.faults == 0
  }

  lemma InitialInv()
    ensures Inv(Initial(), map[], map[])
  {
  }

  // ---------------------------------------------------------------- making and destroying objects

  lemma MadeAccounted(live: map<Addr, nat>, made: nat, destroyed: seq<nat>, a: Addr)
    requires Accounted(live, made, destroyed) && a !in live
    ensures Accounted(live[a := made], made + 1, destroyed)
  {
    var now := live[a := made];
    assert now[a] == made;
    forall n: nat | n < made && n !in destroyed
      ensures n in now.Values
    {
      var b :| b in live && live[b] == n;
      assert now[b] == n;
    }
  }

  lemma DestroyedAccounted(live: map<Addr, nat>, made: nat, destroyed: seq<nat>, a: Addr)
    requires Accounted(live, made, destroyed) && a in live
    ensures Accounted(live - {a}, made, destroyed + [live[a]])
  {
    var now, gone := live - {a}, destroyed + [live[a]];
    assert gone[|destroyed|] == live[a];
    forall n: nat | n < made && n !in gone
      ensures n in now.Values
    {
      assert n !in destroyed;
      var b :| b in live && live[b] == n;
      assert now[b] == n;
    }
  }

  lemma LocalSet(threads: map<nat, Local>, t: nat, l: Local, now: map<nat, Local>)
    ensures now == threads[t := l] ==> forall u: nat :: LocalOf(now, u) == if u == t then l else LocalOf(threads, u)
  {
  }

  /** A thread takes a new object. */
  lemma ThreadMakes(pool: seq<Entry>, threads: map<nat, Local>, live: set<Addr>, lost: set<Addr>,
                    place: map<Addr, Place>, t: nat, a: Addr, l: Local)
    requires PlacedBy(pool, threads, live, lost, place)
    requires a !in live && OwnAddrs(l) == OwnAddrs(LocalOf(threads, t)) + {a}
    ensures PlacedBy(pool, threads[t := l], live + {a}, lost, place[a := With(t)])
  {
    hide OwnAddrs, EntryAddrs;
    LocalSet(threads, t, l, threads[t := l]);
  }

  /** A thread destroys an object of its own. */
  lemma ThreadDestroys(pool: seq<Entry>, threads: map<nat, Local>, live: set<Addr>, lost: set<Addr>,
                       place: map<Addr, Place>, t: nat, a: Addr, l: Local)
    requires PlacedBy(pool, threads, live, lost, place)
    requires a in OwnAddrs(LocalOf(threads, t)) && OwnAddrs(l) == OwnAddrs(LocalOf(threads, t)) - {a}
    ensures a in live && PlacedBy(pool, threads[t := l], live - {a}, lost, place - {a})
  {
    hide OwnAddrs, EntryAddrs;
    LocalSet(threads, t, l, threads[t := l]);
  }

  /** A thread goes on with the objects it has. */
  lemma ThreadGoes(pool: seq<Entry>, threads: map<nat, Local>, live: set<Addr>, lost: set<Addr>,
                   place: map<Addr, Place>, t: nat, l: Local)
    requires PlacedBy(pool, threads, live, lost, place) && OwnAddrs(l) == OwnAddrs(LocalOf(threads, t))
    ensures PlacedBy(pool, threads[t := l], live, lost, place)
  {
    hide OwnAddrs, EntryAddrs;
    LocalSet(threads, t, l, threads[t := l]);
  }

  /** A thread goes on with the entry it has, if any. */
  lemma LoanGoes(pool: seq<Entry>, threads: map<nat, Local>, lent: map<nat, nat>, t: nat, l: Local)
    requires LentTo(pool, threads, lent) && Borrowed(l) == Borrowed(LocalOf(threads, t))
    ensures LentTo(pool, threads[t := l], lent)
  {
    hide Borrowed;
    LocalSet(threads, t, l, threads[t := l]);
  }

  lemma LoanStarts(pool: seq<Entry>, threads: map<nat, Local>, lent: map<nat, nat>, t: nat, l: Local, i: nat, e: Entry)
    requires LentTo(pool, threads, lent) && Borrowed(LocalOf(threads, t)) == None && Borrowed(l) == Some(i)
    requires i < |pool| && !pool[i].inUse && e.inUse
    ensures LentTo(pool[i := e], threads[t := l], lent[i := t])
  {
    hide Borrowed;
    LocalSet(threads, t, l, threads[t := l]);
  }

  lemma LoanEnds(pool: seq<Entry>, threads: map<nat, Local>, lent: map<nat, nat>, t: nat, l: Local, i: nat, e: Entry)
    requires LentTo(pool, threads, lent) && Borrowed(LocalOf(threads, t)) == Some(i) && Borrowed(l) == None
    requires i < |pool| && !e.inUse
    ensures LentTo(pool[i := e], threads[t := l], lent - {i})
  {
    hide Borrowed;
    LocalSet(threads, t, l, threads[t := l]);
  }

  // ---------------------------------------------------------------- the actions

  /** A thread that only moves on. */
  lemma Moves(s: State, t: nat, l: Local, place: map<Addr, Place>, lent: map<nat, nat>)
    requires Inv(s, place, lent) && LocalOk(s.pool, l)
    requires OwnAddrs(l) == OwnAddrs(At(s, t)) && Borrowed(l) == Borrowed(At(s, t))
    ensures Inv(Goes(s, t, l), place, lent)
  {
    hide EntriesOk, PlacedBy, LentTo, OwnAddrs, Borrowed, LocalOk, Accounted;
    LocalSet(s.threads, t, l, s.threads[t := l]);
    ThreadGoes(s.pool, s.threads, s.live.Keys, s.lost, place, t, l);
    LoanGoes(s.pool, s.threads, lent, t, l);
  }

  /** A thread that makes an object. */
  lemma Makes(s: State, t: nat, a: Addr, l: Local, place: map<Addr, Place>, lent: map<nat, nat>)
    requires Inv(s, place, lent) && LocalOk(s.pool, l) && a !in s.live
    requires OwnAddrs(l) == OwnAddrs(At(s, t)) + {a} && Borrowed(l) == Borrowed(At(s, t))
    ensures Inv(Goes(Made(s, Some(a)), t, l), place[a := With(t)], lent)
  {
    hide EntriesOk, PlacedBy, LentTo, OwnAddrs, Borrowed, LocalOk, Accounted;
    LocalSet(s.threads, t, l, s.threads[t := l]);
    MadeAccounted(s.live, s.made, s.destroyed, a);
    ThreadMakes(s.pool, s.threads, s.live.Keys, s.lost, place, t, a, l);
    assert s.live[a := s.made].Keys == s.live.Keys + {a};
    LoanGoes(s.pool, s.threads, lent, t, l);
  }

  /** A thread that destroys an object of its own. */
  lemma Destroys(s: State, t: nat, a: Addr, l: Local, place: map<Addr, Place>, lent: map<nat, nat>)
    requires Inv(s, place, lent) && LocalOk(s.pool, l) && a in OwnAddrs(At(s, t))
    requires OwnAddrs(l) == OwnAddrs(At(s, t)) - {a} && Borrowed(l) == Borrowed(At(s, t))
    ensures Inv(Goes(Destroyed(s, a), t, l), place - {a}, lent)
  {
    hide EntriesOk, PlacedBy, LentTo, OwnAddrs, Borrowed, LocalOk, Accounted;
    LocalSet(s.threads, t, l, s.threads[t := l]);
    ThreadDestroys(s.pool, s.threads, s.live.Keys, s.lost, place, t, a, l);
    DestroyedAccounted(s.live, s.made, s.destroyed, a);
    assert (s.live - {a}).Keys == s.live.Keys - {a};
    LoanGoes(s.pool, s.threads, lent, t, l);
  }

  /** Marking an entry in use or idle moves no object. */
  lemma Marked(pool: seq<Entry>, threads: map<nat, Local>, live: set<Addr>, lost: set<Addr>, place: map<Addr, Place>,
               i: nat, inUse: bool)
    requires EntriesOk(pool) && PlacedBy(pool, threads, live, lost, place) && LocalsOk(pool, threads)
    requires i < |pool| && pool[i].handle.Some?
    ensures var marked := pool[i := pool[i].(inUse := inUse)];
            EntriesOk(marked) && PlacedBy(marked, threads, live, lost, place) && LocalsOk(marked, threads)
  {
    hide OwnAddrs, LocalOf, Borrowed;
    var marked := pool[i := pool[i].(inUse := inUse)];
    assert forall j: nat :: j < |pool| ==> EntryAddrs(marked[j]) == EntryAddrs(pool[j]);
    hide EntryAddrs;
  }

  /** The idle entry i is lent to the thread, its handle having been made before. */
  lemma Lends(s: State, t: nat, i: nat, place: map<Addr, Place>, lent: map<nat, nat>)
    requires Inv(s, place, lent) && At(s, t).Idle? && i < |s.pool| && !s.pool[i].inUse && s.pool[i].handle.Some?
    ensures Inv(Goes(s.(pool := s.pool[i := s.pool[i].(inUse := true)]), t, EntryChosen(i, s.pool[i].headers)),
                place, lent[i := t])
  {
    hide EntriesOk, PlacedBy, LentTo, Accounted;
    var l, pool := EntryChosen(i, s.pool[i].headers), s.pool[i := s.pool[i].(inUse := true)];
    LocalSet(s.threads, t, l, s.threads[t := l]);
    Marked(s.pool, s.threads, s.live.Keys, s.lost, place, i, true);
    ThreadGoes(pool, s.threads, s.live.Keys, s.lost, place, t, l);
    LoanStarts(s.pool, s.threads, lent, t, l, i, pool[i]);
  }

  /** The thread gives its entry back. */
  lemma GivesBack(s: State, t: nat, i: nat, place: map<Addr, Place>, lent: map<nat, nat>)
    requires Inv(s, place, lent) && Borrowed(At(s, t)) == Some(i) && OwnAddrs(At(s, t)) == {}
    ensures i < |s.pool| && Inv(Goes(s.(pool := s.pool[i := s.pool[i].(inUse := false)]), t, Idle), place, lent - {i})
  {
    hide EntriesOk, PlacedBy, LentTo, Accounted;
    assert LocalOk(s.pool, At(s, t));
    var pool := s.pool[i := s.pool[i].(inUse := false)];
    LocalSet(s.threads, t, Idle, s.threads[t := Idle]);
    Marked(s.pool, s.threads, s.live.Keys, s.lost, place, i, false);
    ThreadGoes(pool, s.threads, s.live.Keys, s.lost, place, t, Idle);
    LoanEnds(s.pool, s.threads, lent, t, Idle, i, pool[i]);
  }

  /** An idle entry gets a new object. */
  lemma Fills(s: State, i: nat, a: Addr, e: Entry, place: map<Addr, Place>, lent: map<nat, nat>)
    requires Inv(s, place, lent) && i < |s.pool| && !s.pool[i].inUse && a !in s.live
    requires !e.inUse && e.handle.Some?
    requires EntryAddrs(e) == EntryAddrs(s.pool[i]) + {a}
    ensures Inv(Made(s, Some(a)).(pool := s.pool[i := e]), place[a := InEntry(i)], lent)
  {
    hide OwnAddrs, EntryAddrs, Accounted, PlacedBy, LentTo, Borrowed, LocalOk;
    MadeAccounted(s.live, s.made, s.destroyed, a);
    assert s.live[a := s.made].Keys == s.live.Keys + {a};
    FilledPlace(s.pool, s.threads, s.live.Keys, s.lost, place, i, a, e);
    FilledLocals(s.pool, s.threads, lent, i, e);
  }

  lemma FilledPlace(pool: seq<Entry>, threads: map<nat, Local>, live: set<Addr>, lost: set<Addr>,
                    place: map<Addr, Place>, i: nat, a: Addr, e: Entry)
    requires PlacedBy(pool, threads, live, lost, place) && i < |pool|
    requires a !in live && EntryAddrs(e) == EntryAddrs(pool[i]) + {a}
    ensures PlacedBy(pool[i := e], threads, live + {a}, lost, place[a := InEntry(i)])
  {
    hide OwnAddrs, EntryAddrs, LocalOf;
    var now := pool[i := e];
    assert forall j: nat :: j < |pool| ==> EntryAddrs(now[j]) == EntryAddrs(pool[j]) + if j == i then {a} else {};
  }

  /** No thread looks at an idle entry. */
  lemma FilledLocals(pool: seq<Entry>, threads: map<nat, Local>, lent: map<nat, nat>, i: nat, e: Entry)
    requires LocalsOk(pool, threads) && LentTo(pool, threads, lent) && i < |pool| && !pool[i].inUse && !e.inUse
    ensures LocalsOk(pool[i := e], threads) && LentTo(pool[i := e], threads, lent)
  {
    hide Borrowed, LocalOf;
  }

  /** The places when the objects `gone` are lost. */
  function Forgotten(place: map<Addr, Place>, gone: set<Addr>): (r: map<Addr, Place>)
    ensures r.Keys == place.Keys && forall a <- r :: r[a] == if a in gone then Lost else place[a]
  {
    map a | a in place :: if a in gone then Lost else place[a]
  }

  /** A thread drops objects of its own. */
  lemma ThreadDrops(pool: seq<Entry>, threads: map<nat, Local>, live: set<Addr>, lost: set<Addr>,
                    place: map<Addr, Place>, t: nat, gone: set<Addr>, l: Local)
    requires PlacedBy(pool, threads, live, lost, place)
    requires gone <= OwnAddrs(LocalOf(threads, t)) && OwnAddrs(l) == OwnAddrs(LocalOf(threads, t)) - gone
    ensures PlacedBy(pool, threads[t := l], live, lost + gone, Forgotten(place, gone))
  {
    hide OwnAddrs, EntryAddrs;
    LocalSet(threads, t, l, threads[t := l]);
    var now := Forgotten(place, gone);
    assert forall a <- gone :: a in OwnAddrs(LocalOf(threads, t)) && a in place && place[a] == With(t);
    forall a | a in now
      ensures Has(pool, threads[t := l], lost + gone, now[a], a)
    {
      assert Has(pool, threads, lost, place[a], a);
    }
  }

  lemma EntryDrops(pool: seq<Entry>, threads: map<nat, Local>, live: set<Addr>, lost: set<Addr>,
                   place: map<Addr, Place>, i: nat, gone: set<Addr>, e: Entry)
    requires PlacedBy(pool, threads, live, lost, place)
    requires i < |pool| && gone <= EntryAddrs(pool[i]) && EntryAddrs(e) == EntryAddrs(pool[i]) - gone
    ensures PlacedBy(pool[i := e], threads, live, lost + gone, Forgotten(place, gone))
  {
    hide OwnAddrs, EntryAddrs, LocalOf;
    var entries, now := pool[i := e], Forgotten(place, gone);
    assert forall j: nat :: j < |pool| ==> EntryAddrs(entries[j]) == EntryAddrs(pool[j]) - if j == i then gone else {};
    assert forall a <- gone :: a in EntryAddrs(pool[i]) && a in place && place[a] == InEntry(i);
    forall a | a in now
      ensures Has(entries, threads, lost + gone, now[a], a)
    {
      assert Has(pool, threads, lost, place[a], a);
    }
  }

  /** A thread that drops objects of its own. */
  lemma Drops(s: State, t: nat, gone: set<Addr>, l: Local, place: map<Addr, Place>, lent: map<nat, nat>)
    requires Inv(s, place, lent) && LocalOk(s.pool, l) && gone <= OwnAddrs(At(s, t))
    requires OwnAddrs(l) == OwnAddrs(At(s, t)) - gone && Borrowed(l) == Borrowed(At(s, t))
    ensures Inv(Goes(s.(lost := s.lost + gone), t, l), Forgotten(place, gone), lent)
  {
    hide EntriesOk, PlacedBy, LentTo, OwnAddrs, Borrowed, LocalOk, Accounted, Forgotten;
    LocalSet(s.threads, t, l, s.threads[t := l]);
    ThreadDrops(s.pool, s.threads, s.live.Keys, s.lost, place, t, gone, l);
    LoanGoes(s.pool, s.threads, lent, t, l);
  }

  /** One of the two appends for an idle entry whose handle was made: its list grows by a node, or is lost. */
  function EntryAppended(s: State, i: nat, node: Option<Addr>): State
    requires i < |s.pool|
  {
    var e := s.pool[i];
    Made(s, node).(lost := s.lost + Dropped(e.headers, node),
                   pool := s.pool[i := e.(headers := Append(e.headers, node))])
  }

  lemma EntryAppends(s: State, i: nat, node: Option<Addr>, place: map<Addr, Place>, lent: map<nat, nat>)
    returns (place': map<Addr, Place>)
    requires Inv(s, place, lent) && i < |s.pool| && !s.pool[i].inUse && s.pool[i].handle.Some? && Fresh(s, node)
    requires s.pool[i].handle.value !in s.pool[i].headers
    ensures Inv(EntryAppended(s, i, node), place', lent)
  {
    hide PlacedBy, LentTo, Accounted, LocalsOk, Forgotten;
    var e := s.pool[i].(headers := Append(s.pool[i].headers, node));
    if node.Some? {
      assert s.lost + {} == s.lost;
      Fills(s, i, node.value, e, place, lent);
      place' := place[node.value := InEntry(i)];
    } else {
      var gone := Nodes(s.pool[i].headers);
      EntryDrops(s.pool, s.threads, s.live.Keys, s.lost, place, i, gone, e);
      FilledLocals(s.pool, s.threads, lent, i, e);
      place' := Forgotten(place, gone);
    }
  }

  /** The handle and the two appends for the idle entry i. */
  lemma FurnishInv(s: State, i: nat, made: Addr, first: Option<Addr>, second: Option<Addr>, place: map<Addr, Place>,
                   lent: map<nat, nat>)
    returns (place': map<Addr, Place>)
    requires Inv(s, place, lent) && i < |s.pool| && s.pool[i] == VACANT && made !in s.live
    requires Fresh(s, first) && Fresh(s, second) && first != Some(made) && second != Some(made) && Differ(first, second)
    ensures var headers := Append(Append([], first), second);
            var all := Made(Made(Made(s, Some(made)), first), second);
            var lost := s.lost + Dropped(Append([], first), second);
            Inv(all.(lost := lost, pool := s.pool[i := Entry(Some(made), headers, false)]), place', lent)
  {
    hide PlacedBy, LentTo, Accounted, LocalsOk, EntriesOk, Inv;
    var e := Entry(Some(made), [], false);
    var r := Made(s, Some(made)).(pool := s.pool[i := e]);
    FillHandle(s, i, made, place, lent);
    place' := place[made := InEntry(i)];
    var u := EntryAppended(r, i, first);
    place' := EntryAppends(r, i, first, place', lent);
    assert s.lost + {} == s.lost;
    place' := EntryAppends(u, i, second, place', lent);
    var v := EntryAppended(u, i, second);
    assert v.pool == s.pool[i := Entry(Some(made), Append(Append([], first), second), false)];
    assert Nodes([]) == {};
    assert v.lost == s.lost + Dropped(Append([], first), second);
  }

  lemma FillHandle(s: State, i: nat, made: Addr, place: map<Addr, Place>, lent: map<nat, nat>)
    requires Inv(s, place, lent) && i < |s.pool| && s.pool[i] == VACANT && made !in s.live
    ensures Inv(Made(s, Some(made)).(pool := s.pool[i := Entry(Some(made), [], false)]),
                place[made := InEntry(i)], lent)
  {
    hide Inv;
    Fills(s, i, made, Entry(Some(made), [], false), place, lent);
  }

  /** The locked section of curl_pool_acquire. */
  lemma TakeInv(s: State, t: nat, made: Option<Addr>, first: Option<Addr>, second: Option<Addr>,
                place: map<Addr, Place>, lent: map<nat, nat>)
    returns (place': map<Addr, Place>, lent': map<nat, nat>)
    requires Inv(s, place, lent) && Enabled(s, t, Take(made, first, second))
    ensures Inv(OnTake(s, t, made, first, second), place', lent')
  {
    hide PlacedBy, LentTo, Accounted, LocalsOk, FirstIdle, Append, Dropped;
    place', lent' := place, lent;
    var i := FirstIdle(s.pool);
    if i == |s.pool| {
      Moves(s, t, PoolFull, place, lent);
    } else if s.pool[i].handle.Some? {
      Lends(s, t, i, place, lent);
      lent' := lent[i := t];
    } else if made.Some? {
      var headers := Append(Append([], first), second);
      var r := Made(Made(Made(s, made), first), second).(lost := s.lost + Dropped(Append([], first), second),
                                                         pool := s.pool[i := Entry(made, headers, false)]);
      place' := FurnishInv(s, i, made.value, first, second, place, lent);
      Lends(r, t, i, place', lent);
      lent' := lent[i := t];
      assert r.pool[i := r.pool[i].(inUse := true)] == s.pool[i := Entry(made, headers, true)];
    }
  }

  /** The handle a thread works with. */
  function HandleOf(pool: seq<Entry>, l: Local): Option<Addr> {
    match l
    case EntryChosen(i, _) => if i < |pool| then pool[i].handle else None
    case Appending(curl, _, _) => Some(curl)
    case Acquired(curl, _, _) => Some(curl)
    case Asked(curl, _, _, _) => Some(curl)
    case Freeing(curl, _) => Some(curl)
    case _ => None
  }

  lemma HandlePlaced(s: State, t: nat, place: map<Addr, Place>, lent: map<nat, nat>)
    requires Inv(s, place, lent) && HandleOf(s.pool, At(s, t)).Some?
    ensures var h, b := HandleOf(s.pool, At(s, t)).value, Borrowed(At(s, t));
            h in place && place[h] == if b.Some? then InEntry(b.value) else With(t)
  {
    hide LentTo, Accounted;
    var l := At(s, t);
    assert LocalOk(s.pool, l);
    var h := HandleOf(s.pool, l).value;
    assert Borrowed(l).Some? ==> h in EntryAddrs(s.pool[Borrowed(l).value]);
    assert Borrowed(l).None? ==> h in OwnAddrs(LocalOf(s.threads, t));
  }

  lemma EntryPlaced(s: State, i: nat, a: Addr, place: map<Addr, Place>)
    ensures PlacedBy(s.pool, s.threads, s.live.Keys, s.lost, place) && i < |s.pool| && a in EntryAddrs(s.pool[i]) ==>
              a in place && place[a] == InEntry(i)
  {
  }

  /** A lent handle is found in its own entry, a temporary one in none. */
  lemma FoundInPool(s: State, t: nat, place: map<Addr, Place>, lent: map<nat, nat>)
    requires Inv(s, place, lent) && (At(s, t).Acquired? || At(s, t).Asked?)
    ensures At(s, t).from.Some? ==> EntryOf(s.pool, At(s, t).curl) == At(s, t).from.value < |s.pool|
    ensures At(s, t).from.None? ==> EntryOf(s.pool, At(s, t).curl) == |s.pool|
  {
    hide LentTo, Accounted, EntryOf, PlacedBy, EntriesOk;
    var l := At(s, t);
    assert LocalOk(s.pool, l);
    hide LocalsOk;
    HandlePlaced(s, t, place, lent);
    var i := EntryOf(s.pool, l.curl);
    if i < |s.pool| {
      EntryPlaced(s, i, l.curl, place);
    }
  }

  lemma OwnedIsLive(s: State, t: nat, place: map<Addr, Place>)
    requires PlacedBy(s.pool, s.threads, s.live.Keys, s.lost, place)
    ensures OwnAddrs(At(s, t)) <= s.live.Keys
  {
    hide OwnAddrs;
  }

  /** One of the two appends for a temporary handle. */
  lemma AppendInv(s: State, t: nat, node: Option<Addr>, place: map<Addr, Place>, lent: map<nat, nat>)
    returns (place': map<Addr, Place>)
    requires Inv(s, place, lent) && Enabled(s, t, AppendHeader(node))
    ensures Inv(OnAppend(s, t, At(s, t), node), place', lent)
  {
    hide PlacedBy, LentTo, Accounted, EntriesOk, Forgotten;
    var l := At(s, t);
    assert LocalOk(s.pool, l);
    hide LocalsOk;
    OwnedIsLive(s, t, place);
    var headers := Append(l.headers, node);
    var l' := if l.calls == 0 then Appending(l.curl, headers, 1) else Acquired(l.curl, headers, None);
    if node.Some? {
      assert s.lost + {} == s.lost;
      Makes(s, t, node.value, l', place, lent);
      place' := place[node.value := With(t)];
    } else {
      Drops(s, t, Nodes(l.headers), l', place, lent);
      place' := Forgotten(place, Nodes(l.headers));
    }
  }

  /** Every action of every thread keeps the invariant. */
  lemma StepInv(s: State, t: nat, a: Action, place: map<Addr, Place>, lent: map<nat, nat>)
    returns (place': map<Addr, Place>, lent': map<nat, nat>)
    requires Inv(s, place, lent) && Enabled(s, t, a)
    ensures Inv(Step(s, t, a), place', lent')
  {
    hide PlacedBy, LentTo, Accounted, FirstIdle, EntryOf, OnTake;
    place', lent' := place, lent;
    OwnedIsLive(s, t, place);
    var l := At(s, t);
    assert LocalOk(s.pool, l);
    match a
    case Take(made, first, second) => place', lent' := TakeInv(s, t, made, first, second, place, lent);
    case ReadHandle => Moves(s, t, Acquired(s.pool[l.entry].handle.value, l.headers, Some(l.entry)), place, lent);
    case MakeHandle(made) =>
      if made.None? {
        Moves(s, t, Idle, place, lent);
      } else {
        Makes(s, t, made.value, Appending(made.value, [], 0), place, lent);
        place' := place[made.value := With(t)];
      }
    case AppendHeader(node) => place' := AppendInv(s, t, node, place, lent);
    case AskPool =>
      FoundInPool(s, t, place, lent);
      Moves(s, t, Asked(l.curl, l.headers, l.from, EntryOf(s.pool, l.curl) < |s.pool|), place, lent);
    case GiveBackEntry =>
      FoundInPool(s, t, place, lent);
      GivesBack(s, t, l.from.value, place, lent);
      lent' := lent - {l.from.value};
    case FreeHeaders => Moves(s, t, Freeing(l.curl, l.headers), place, lent);
    case FreeNode =>
      Destroys(s, t, l.headers[0], Freeing(l.curl, l.headers[1..]), place, lent);
      place' := place - {l.headers[0]};
    case CleanUp =>
      Destroys(s, t, l.curl, Idle, place, lent);
      place' := place - {l.curl};
  }

  lemma {:induction false} AlwaysInv(steps: seq<(nat, Action)>, s: State)
    returns (place: map<Addr, Place>, lent: map<nat, nat>)
    requires Reached(steps, s)
    ensures Inv(s, place, lent)
  {
    hide Inv, Step, Enabled;
    if steps == [] {
      InitialInv();
      place, lent := map[], map[];
    } else {
      var r := Outcome(steps[..|steps| - 1]).value;
      var (t, a) := steps[|steps| - 1];
      place, lent := AlwaysInv(steps[..|steps| - 1], r);
      place, lent := StepInv(r, t, a, place, lent);
    }
  }

  // ---------------------------------------------------------------- what every interleaving keeps

  /** No handle, pooled or temporary, is ever in the hands of two threads, and it is alive. */
  lemma NeverShared(steps: seq<(nat, Action)>, s: State, t: nat, u: nat)
    requires Reached(steps, s) && t != u
    ensures var h := HandleOf(s.pool, At(s, t));
            h.Some? ==> h != HandleOf(s.pool, At(s, u)) && h.value in s.live
  {
    var place, lent := AlwaysInv(steps, s);
    hide Reached, HandleOf, Borrowed, EntriesOk, LocalsOk, Accounted;
    if HandleOf(s.pool, At(s, t)).Some? {
      HandlePlaced(s, t, place, lent);
    }
    if HandleOf(s.pool, At(s, u)).Some? {
      HandlePlaced(s, u, place, lent);
    }
  }

  /** curl_pool_contains answers true exactly for a handle that was taken from the pool; when a thread has asked,
      the answer is still right. */
  lemma ContainsIsExact(steps: seq<(nat, Action)>, s: State, t: nat)
    requires Reached(steps, s) && (At(s, t).Acquired? || At(s, t).Asked?)
    ensures EntryOf(s.pool, At(s, t).curl) < |s.pool| <==> At(s, t).from.Some?
    ensures At(s, t).Asked? ==> (At(s, t).isPooled <==> At(s, t).from.Some?)
    ensures At(s, t).from.Some? ==> EntryOf(s.pool, At(s, t).curl) == At(s, t).from.value
  {
    var place, lent := AlwaysInv(steps, s);
    hide Reached, EntryOf, PlacedBy, LentTo, EntriesOk, Accounted;
    FoundInPool(s, t, place, lent);
    assert LocalOk(s.pool, At(s, t));
  }

  /** Nothing is destroyed twice, or while it is not alive; every object made is either alive or was destroyed. */
  lemma DestroyedOnce(steps: seq<(nat, Action)>, s: State, n: nat)
    requires Reached(steps, s)
    ensures s.faults == 0 && multiset(s.destroyed)[n] <= 1
    ensures n in s.destroyed || n in s.live.Values <==> n < s.made
    ensures !(n in s.destroyed && n in s.live.Values)
  {
    var place, lent := AlwaysInv(steps, s);
    hide Reached, PlacedBy, LentTo, EntriesOk, LocalsOk;
    DistinctOnce(s.destroyed, n);
  }

  lemma {:induction false} DistinctOnce(s: seq<nat>, n: nat)
    requires forall i, j :: 0 <= i < j < |s| ==> s[i] != s[j]
    ensures multiset(s)[n] <= 1
  {
    if s != [] {
      DistinctOnce(s[1..], n);
      assert s == [s[0]] + s[1..];
      assert s[0] in s[1..] <==> multiset(s[1..])[s[0]] > 0;
    }
  }

  lemma StepPool(s: State, t: nat, a: Action, i: nat)
    requires Enabled(s, t, a) && i < |s.pool| && s.pool[i].handle.Some?
    ensures var u := Step(s, t, a);
            i < |u.pool| && u.pool[i].handle == s.pool[i].handle && u.pool[i].headers == s.pool[i].headers
  {
    hide FirstIdle, EntryOf;
  }

  lemma StepLive(s: State, t: nat, a: Action, h: Addr)
    requires Enabled(s, t, a) && h in s.live && h !in OwnAddrs(At(s, t)) && LocalOk(s.pool, At(s, t))
    ensures h in Step(s, t, a).live && Step(s, t, a).live[h] == s.live[h]
  {
    hide FirstIdle, EntryOf;
  }

  /** No action touches the objects of a filled pool entry: they stay where they are, alive and the same. */
  lemma PoolSurvives(steps: seq<(nat, Action)>, s: State, t: nat, a: Action, i: nat, h: Addr)
    requires Reached(steps, s) && Enabled(s, t, a)
    ensures var u := Step(s, t, a);
            i < |s.pool| && s.pool[i].handle.Some? && h in EntryAddrs(s.pool[i]) ==>
              i < |u.pool| && u.pool[i].handle == s.pool[i].handle && u.pool[i].headers == s.pool[i].headers
              && h in s.live && h in u.live && u.live[h] == s.live[h]
  {
    hide Reached, LentTo, EntriesOk, Accounted, Step, Enabled, LocalOk, OwnAddrs, EntryAddrs;
    var place, lent := AlwaysInv(steps, s);
    if i < |s.pool| && s.pool[i].handle.Some? && h in EntryAddrs(s.pool[i]) {
      assert place[h] == InEntry(i);
      assert h !in OwnAddrs(LocalOf(s.threads, t));
      StepPool(s, t, a, i);
      StepLive(s, t, a, h);
    }
  }

  lemma NothingLent(pool: seq<Entry>, threads: map<nat, Local>, lent: map<nat, nat>, i: nat)
    requires LentTo(pool, threads, lent) && i < |pool| && forall t: nat :: LocalOf(threads, t).Idle?
    ensures !pool[i].inUse
  {
    assert i in lent ==> Borrowed(LocalOf(threads, lent[i])) == Some(i);
  }

  lemma OnlyThePool(pool: seq<Entry>, threads: map<nat, Local>, live: set<Addr>, lost: set<Addr>,
                    place: map<Addr, Place>, a: Addr)
    requires PlacedBy(pool, threads, live, lost, place) && forall t: nat :: LocalOf(threads, t).Idle?
    ensures a in live <==> a in lost || InPool(pool, a)
    ensures a in lost ==> !InPool(pool, a)
  {
    hide EntryAddrs;
    if a in live {
      assert Has(pool, threads, lost, place[a], a);
    }
  }

  predicate InPool(pool: seq<Entry>, a: Addr) { exists i: nat :: i < |pool| && a in EntryAddrs(pool[i]) }

  /** When all threads are idle no entry is in use, and the objects alive are those of the pool and the lost ones. */
  lemma WhatIsLeft(steps: seq<(nat, Action)>, s: State, a: Addr)
    requires Reached(steps, s) && forall t: nat :: LocalOf(s.threads, t).Idle?
    ensures forall i: nat :: i < |s.pool| ==> !s.pool[i].inUse
    ensures (a in s.live <==> a in s.lost || InPool(s.pool, a)) && (a in s.lost ==> !InPool(s.pool, a))
  {
    hide Reached, EntriesOk, LocalsOk, Accounted, EntryAddrs, PlacedBy, LentTo;
    var place, lent := AlwaysInv(steps, s);
    forall i: nat | i < |s.pool|
      ensures !s.pool[i].inUse
    {
      NothingLent(s.pool, s.threads, lent, i);
    }
    OnlyThePool(s.pool, s.threads, s.live.Keys, s.lost, place, a);
  }

  /** The library makes the first header of a list and not the second, so that the list is lost. */
  predicate LosesNode(s: State, t: nat, a: Action) {
    match a
    case Take(made, first, second) => Furnishes(s, made) && first.Some? && second.None?
    case AppendHeader(node) => At(s, t).Appending? && At(s, t).headers != [] && node.None?
    case _ => false
  }

  /** That happens somewhere in the run. */
  predicate NodeLost(steps: seq<(nat, Action)>) {
    steps != [] &&
    var init, (t, a) := steps[..|steps| - 1], steps[|steps| - 1];
    NodeLost(init) || (Outcome(init).Some? && LosesNode(Outcome(init).value, t, a))
  }

  lemma StepLoses(s: State, t: nat, a: Action)
    requires Enabled(s, t, a)
    ensures Step(s, t, a).lost != {} <==> s.lost != {} || LosesNode(s, t, a)
  {
    hide FirstIdle, EntryOf;
    match a
    case Take(made, first, second) =>
      NodesLost(Append([], first), second);
      assert s.lost + {} == s.lost;
    case AppendHeader(node) => NodesLost(At(s, t).headers, node);
    case _ =>
  }

  lemma NodesLost(headers: seq<Addr>, node: Option<Addr>)
    ensures Dropped(headers, node) != {} <==> node.None? && headers != []
    ensures forall lost: set<Addr> ::
              lost + Dropped(headers, node) != {} <==> lost != {} || Dropped(headers, node) != {}
  {
    if headers != [] {
      assert headers[0] in Nodes(headers);
    }
    forall lost: set<Addr>
      ensures lost + Dropped(headers, node) != {} <==> lost != {} || Dropped(headers, node) != {}
    {
      if a :| a in lost {
        assert a in lost + Dropped(headers, node);
      }
      if a :| a in Dropped(headers, node) {
        assert a in lost + Dropped(headers, node);
      }
    }
  }

  lemma {:induction false} LostExactly(steps: seq<(nat, Action)>, s: State)
    requires Reached(steps, s)
    ensures s.lost != {} <==> NodeLost(steps)
  {
    hide Step, Enabled, LosesNode;
    if steps != [] {
      var r := Outcome(steps[..|steps| - 1]).value;
      var (t, a) := steps[|steps| - 1];
      LostExactly(steps[..|steps| - 1], r);
      StepLoses(r, t, a);
    }
  }

  /** When all threads are idle, only the pool's objects are alive exactly if no append failed on a list that had
      its first node: curl_slist_append then returns NULL, and the code overwrites its only reference with it. */
  lemma NothingLeaks(steps: seq<(nat, Action)>, s: State)
    requires Reached(steps, s) && forall t: nat :: LocalOf(s.threads, t).Idle?
    ensures (forall a :: a in s.live <==> InPool(s.pool, a)) <==> !NodeLost(steps)
  {
    hide Reached, NodeLost, InPool;
    LostExactly(steps, s);
    forall a
      ensures (a in s.live <==> a in s.lost || InPool(s.pool, a)) && (a in s.lost ==> !InPool(s.pool, a))
    {
      WhatIsLeft(steps, s, a);
    }
    if a :| a in s.lost {
      assert a in s.live && !InPool(s.pool, a);
    }
  }

  lemma Extended(steps: seq<(nat, Action)>, t: nat, a: Action)
    requires Outcome(steps).Some? && Enabled(Outcome(steps).value, t, a)
    ensures Outcome(steps + [(t, a)]) == Some(Step(Outcome(steps).value, t, a))
  {
    hide Step, Enabled;
    assert (steps + [(t, a)])[..|steps|] == steps;
  }

  /** The state after the first append for the first entry succeeded and the second failed. */
  function OneLost(threads: map<nat, Local>, inUse: bool): State {
    State([Entry(Some(1), [], inUse), VACANT, VACANT, VACANT], map[1 := 0, 2 := 1], 2, [], 0, {2}, threads)
  }

  lemma FirstEntryTaken()
    ensures Step(Initial(), 0, Take(Some(1), Some(2), None)) == OneLost(map[0 := EntryChosen(0, [])], true)
  {
    assert FirstIdle([VACANT, VACANT, VACANT, VACANT]) == 0;
    hide FirstIdle;
    assert Append([], Some(2)) == [2] && Nodes([2]) == {2} && Append([2], None) == [];
  }

  lemma FirstEntryReturned()
    ensures EntryOf(OneLost(map[], true).pool, 1) == 0
    ensures GivenBack(OneLost(map[], true).pool, 1) == OneLost(map[], false).pool
    ensures !InPool(OneLost(map[], false).pool, 2)
  {
    assert Nodes([]) == {};
  }

  /** One thread, whose second append fails: it is done, and the first header stays alive, reachable from nowhere. */
  lemma SecondAppendLeaks()
    ensures var taken := [(0, Take(Some(1), Some(2), None))];
            var steps := taken + [(0, ReadHandle)] + [(0, AskPool)] + [(0, GiveBackEntry)];
            var r := Outcome(steps);
            r.Some? && (forall t: nat :: LocalOf(r.value.threads, t).Idle?)
            && 2 in r.value.live && !InPool(r.value.pool, 2)
  {
    hide Outcome, EntryOf, GivenBack, InPool, OnTake;
    var steps: seq<(nat, Action)> := [(0, Take(Some(1), Some(2), None))];
    NothingDone();
    FirstEntryTaken();
    FirstEntryReturned();
    Extended([], 0, Take(Some(1), Some(2), None));
    assert [] + steps == steps;
    Extended(steps, 0, ReadHandle);
    Extended(steps + [(0, ReadHandle)], 0, AskPool);
    Extended(steps + [(0, ReadHandle)] + [(0, AskPool)], 0, GiveBackEntry);
  }

  lemma NothingDone()
    ensures Outcome([]) == Some(Initial())
  {
  }
}
