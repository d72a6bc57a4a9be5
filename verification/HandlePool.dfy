/** The pool of connection handles of lib/linyaps_remote.c: the sections under its mutex. */
module HandlePool {
  import opened Bytes

  const CURL_POOL_SIZE := 4

  /** Address of a handle or of a node of a header list. */
  type Addr = nat

  /** The headers are the nodes of a linked list; the null list has none. */
  datatype Entry = Entry(handle: Option<Addr>, headers: seq<Addr>, inUse: bool)

  const VACANT := Entry(None, [], false)

  /** `list = curl_slist_append(list, ..)` with the node the library makes; if it makes none the result is the null
      list, whatever the list was. */
  function Append(list: seq<Addr>, node: Option<Addr>): seq<Addr> {
    if node.None? then [] else list + [node.value]
  }

  /** The first entry not in use, or the number of entries. */
  function FirstIdle(pool: seq<Entry>): (i: nat)
    ensures i <= |pool| && (i < |pool| ==> !pool[i].inUse)
    ensures forall j :: 0 <= j < i ==> pool[j].inUse
  {
    if pool == [] || !pool[0].inUse then 0 else 1 + FirstIdle(pool[1..])
  }

  /** The first entry with the handle, or the number of entries. */
  function EntryOf(pool: seq<Entry>, curl: Addr): (i: nat)
    ensures i <= |pool| && (i < |pool| ==> pool[i].handle == Some(curl))
    ensures forall j :: 0 <= j < i ==> pool[j].handle != Some(curl)
  {
    if pool == [] || pool[0].handle == Some(curl) then 0 else 1 + EntryOf(pool[1..], curl)
  }

  /** What the locked section of an acquisition finds. */
  datatype Found = Chosen(entry: nat, headers: seq<Addr>) | NoHandle | Full

  /** The idle entry is taken; a handle and two headers are made for it if it has no handle yet. */
  function Taken(pool: seq<Entry>, made: Option<Addr>, first: Option<Addr>, second: Option<Addr>): (seq<Entry>, Found) {
    var i := FirstIdle(pool);
    if i == |pool| then (pool, Full)
    else if pool[i].handle.Some? then (pool[i := pool[i].(inUse := true)], Chosen(i, pool[i].headers))
    else if made.None? then (pool, NoHandle)
    else
      var headers := Append(Append([], first), second);
      (pool[i := Entry(made, headers, true)], Chosen(i, headers))
  }

  /** The entry of a handle is given back. */
  function GivenBack(pool: seq<Entry>, curl: Addr): seq<Entry> {
    var i := EntryOf(pool, curl);
    if i == |pool| then pool else pool[i := pool[i].(inUse := false)]
  }

  // ---------------------------------------------------------------- the two sections on the entries

  /** Entry i is idle and all before it are in use. */
  predicate IsFirstIdle(pool: seq<Entry>, i: nat) {
    i < |pool| && !pool[i].inUse && forall j :: 0 <= j < i ==> pool[j].inUse
  }

  /** An acquisition finds the pool full exactly if all entries are in use. Otherwise it concerns the first idle
      entry: a filled one is lent as it is; an empty one gets a handle and the nodes of its headers, or stays empty if
      there is no handle. The other entries stay as they are. */
  lemma TakenExactly(pool: seq<Entry>, made: Option<Addr>, first: Option<Addr>, second: Option<Addr>)
    ensures var (after, found) := Taken(pool, made, first, second);
            (found == Full <==> forall k :: 0 <= k < |pool| ==> pool[k].inUse)
            && (found == Full || found == NoHandle ==> after == pool)
            && forall i: nat :: IsFirstIdle(pool, i) ==>
                 if pool[i].handle != None then
                   found == Chosen(i, pool[i].headers)
                   && after == pool[i := Entry(pool[i].handle, pool[i].headers, true)]
                 else if made == None then found == NoHandle
                 else
                   var nodes := if second == None then [] else if first == None then [second.value]
                                else [first.value, second.value];
                   found == Chosen(i, nodes) && after == pool[i := Entry(made, nodes, true)]
  {
    hide FirstIdle;
    var i := FirstIdle(pool);
    assert forall k: nat :: IsFirstIdle(pool, k) ==> k == i;
    TwoAppends(first, second);
    hide Append;
  }

  lemma TwoAppends(first: Option<Addr>, second: Option<Addr>)
    ensures Append(Append([], first), second) ==
            if second == None then [] else if first == None then [second.value] else [first.value, second.value]
  {
    if first.Some? && second.Some? {
      assert [] + [first.value] == [first.value];
      assert [first.value] + [second.value] == [first.value, second.value];
    } else if second.Some? {
      assert [] + [second.value] == [second.value];
    }
  }

  /** The first entry that has the handle becomes idle, with its handle and headers; the others stay as they are. */
  lemma GivenBackExactly(pool: seq<Entry>, curl: Addr)
    ensures (forall k :: 0 <= k < |pool| ==> pool[k].handle != Some(curl)) ==> GivenBack(pool, curl) == pool
    ensures forall i: nat :: i < |pool| && pool[i].handle == Some(curl)
                             && (forall j :: 0 <= j < i ==> pool[j].handle != Some(curl)) ==>
              GivenBack(pool, curl) == pool[i := Entry(Some(curl), pool[i].headers, false)]
  {
    hide EntryOf;
  }

  class CurlPool {
    const pool: array<Entry>
    var initialized: bool

    ghost predicate Valid()
      reads this, pool
    {
      pool.Length == CURL_POOL_SIZE && (!initialized ==> forall i :: 0 <= i < CURL_POOL_SIZE ==> pool[i] == VACANT)
    }

    constructor ()
      ensures Valid() && fresh(pool) && pool[..] == [VACANT, VACANT, VACANT, VACANT]
    {
      pool := new Entry[CURL_POOL_SIZE](_ => VACANT);
      initialized := false;
    }

    /** curl_pool_init. */
    method Init()
      requires Valid()
      modifies this, pool
      ensures Valid() && initialized && pool[..] == old(pool[..])
    {
      if initialized {
        return;
      }
      var i := 0;
      while i < CURL_POOL_SIZE
        invariant i <= CURL_POOL_SIZE && pool[..] == old(pool[..])
        invariant forall j :: 0 <= j < CURL_POOL_SIZE ==> pool[j] == VACANT
      {
        pool[i] := VACANT;
        i := i + 1;
      }
      initialized := true;
    }

    /** The locked section of curl_pool_acquire; `made`, `first` and `second` are what the library makes if asked. */
    method Take(made: Option<Addr>, first: Option<Addr>, second: Option<Addr>) returns (found: Found)
      requires Valid()
      modifies this, pool
      ensures Valid() && (pool[..], found) == Taken(old(pool[..]), made, first, second)
    {
      Init();
      var i := 0;
      while i < CURL_POOL_SIZE
        invariant i <= CURL_POOL_SIZE && forall j :: 0 <= j < i ==> pool[j].inUse
        invariant Valid() && initialized && pool[..] == old(pool[..])
      {
        if !pool[i].inUse {
          if pool[i].handle.None? {
            if made.None? {
              return NoHandle;
            }
            pool[i] := pool[i].(handle := made);
            pool[i] := pool[i].(headers := []);
            pool[i] := pool[i].(headers := Append(pool[i].headers, first));
            pool[i] := pool[i].(headers := Append(pool[i].headers, second));
          }
          pool[i] := pool[i].(inUse := true);
          assert pool[..] == old(pool[..])[i := pool[i]];
          return Chosen(i, pool[i].headers);
        }
        i := i + 1;
      }
      found := Full;
    }

    /** curl_pool_contains. */
    method Contains(curl: Addr) returns (found: bool)
      requires Valid()
      ensures found <==> EntryOf(pool[..], curl) < |pool[..]|
    {
      var i := 0;
      while i < CURL_POOL_SIZE
        invariant i <= CURL_POOL_SIZE && forall j :: 0 <= j < i ==> pool[j].handle != Some(curl)
      {
        if pool[i].handle == Some(curl) {
          return true;
        }
        i := i + 1;
      }
      found := false;
    }

    /** The locked section of curl_pool_release. */
    method GiveBack(curl: Addr)
      requires Valid()
      modifies this, pool
      ensures Valid() && pool[..] == GivenBack(old(pool[..]), curl)
    {
      var i := 0;
      while i < CURL_POOL_SIZE
        invariant i <= CURL_POOL_SIZE && forall j :: 0 <= j < i ==> pool[j].handle != Some(curl)
        invariant Valid() && pool[..] == old(pool[..])
      {
        if pool[i].handle == Some(curl) {
          pool[i] := pool[i].(inUse := false);
          break;
        }
        i := i + 1;
      }
    }
  }
}
