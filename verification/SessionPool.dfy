/** The database session pool and its client half (Data/src/SessionPool.cpp, PooledSessionImpl.cpp).
    Every method of the pool runs under its mutex and is one atomic step. Whether the factory succeeds, a connection drops
    or an idle time expires is decided from outside. */
module SessionPool {
  import opened Wrappers

  datatype Error = PoolShutDown | PoolExhausted | FactoryFailed

  datatype Result<+T> = Ok(value: T) | Failed(error: Error)

  /** PooledSessionHolder with its session. */
  class Holder {
    const owner: Pool
    var connected: bool
    var inTransaction: bool

    constructor (owner: Pool)
      ensures this.owner == owner && connected && !inTransaction
    {
      this.owner, connected, inTransaction := owner, true, false;
    }

    /** An open transaction is rolled back; when that fails, the session is closed. */
    method Settle(rollbackWorks: bool)
      modifies `connected, `inTransaction
      ensures connected == old(connected && (!inTransaction || rollbackWorks))
    {
      if inTransaction {
        if rollbackWorks {
          inTransaction := false;
        } else {
          connected := false;
        }
      }
    }
  }

  /** The holders of a list that belong to a set, in order. */
  function Filter(list: seq<Holder>, keep: set<Holder>): (r: seq<Holder>)
    ensures |r| <= |list| && multiset(r) <= multiset(list)
    ensures forall h :: h in r ==> h in list && h in keep
    ensures forall h :: h in list && h in keep ==> h in r
  {
    if list == [] then []
    else
      var n := |list| - 1;
      assert list == list[..n] + [list[n]];
      Filter(list[..n], keep) + if list[n] in keep then [list[n]] else []
  }

  /** The holders of a list whose sessions are connected. */
  function Alive(list: seq<Holder>): set<Holder>
    reads list
  {
    set h | h in list && h.connected
  }

  ghost predicate AllConnected(list: seq<Holder>)
    reads list
  {
    forall h :: h in list ==> h.connected
  }

  function Connected(list: seq<Holder>): seq<Holder>
    reads list
  {
    Filter(list, Alive(list))
  }

  function Erased<T>(list: seq<T>, i: nat): seq<T>
    requires i < |list|
  {
    list[..i] + list[i + 1..]
  }

  lemma ErasedOnce<T>(list: seq<T>, i: nat)
    requires i < |list|
    ensures multiset(Erased(list, i)) == multiset(list) - multiset{list[i]}
  {
    assert list == list[..i] + [list[i]] + list[i + 1..];
  }

  lemma ErasedOthers<T>(list: seq<T>, i: nat)
    requires i < |list|
    ensures forall x :: x in list ==> x == list[i] || x in Erased(list, i)
  {
    assert list == list[..i] + [list[i]] + list[i + 1..];
  }

  /** No holder occurs twice, neither in one list nor across both. */
  ghost predicate NoTwice(idle: seq<Holder>, active: seq<Holder>) {
    forall h: Holder :: h in idle + active ==> multiset(idle)[h] + multiset(active)[h] <= 1
  }

  lemma FewerAreNoTwice(idle: seq<Holder>, active: seq<Holder>, idle': seq<Holder>, active': seq<Holder>)
    requires NoTwice(idle, active) && multiset(idle') + multiset(active') <= multiset(idle) + multiset(active)
    ensures NoTwice(idle', active')
  {
    forall h: Holder | h in idle' + active' ensures multiset(idle')[h] + multiset(active')[h] <= 1 {
      assert (multiset(idle') + multiset(active'))[h] <= (multiset(idle) + multiset(active))[h];
      assert multiset(idle' + active') == multiset(idle') + multiset(active');
      assert multiset(idle + active) == multiset(idle) + multiset(active);
      assert h in multiset(idle' + active') && h in multiset(idle + active);
    }
  }

  ghost predicate Owned(list: seq<Holder>, pool: Pool) {
    forall h :: h in list ==> h.owner == pool
  }

  ghost predicate Sound(n: int, limit: int, idle: seq<Holder>, active: seq<Holder>, pool: Pool) {
    n == |idle| + |active| && (n <= limit || n == 0) && NoTwice(idle, active) && Owned(idle, pool) && Owned(active, pool)
  }

  lemma SoundCount(n: int, limit: int, idle: seq<Holder>, active: seq<Holder>, pool: Pool)
    requires Sound(n, limit, idle, active, pool)
    ensures n == |idle| + |active| && (n <= limit || n == 0)
  {
  }

  lemma OneMore(n: int, limit: int, active: seq<Holder>, h: Holder, pool: Pool)
    requires Sound(n, limit, [], active, pool) && n < limit && h.owner == pool && h !in active
    ensures Sound(n + 1, limit, [h], active, pool)
  {
    assert multiset([h]) == multiset{h};
  }

  /** Moving holders between the lists and dropping some keeps a pool sound. */
  lemma SoundAfter(n: int, limit: int, idle: seq<Holder>, active: seq<Holder>, pool: Pool,
                   n': int, idle': seq<Holder>, active': seq<Holder>)
    requires Sound(n, limit, idle, active, pool)
    requires multiset(idle') + multiset(active') <= multiset(idle) + multiset(active)
    requires n' == |idle'| + |active'| <= n
    ensures Sound(n', limit, idle', active', pool)
  {
    FewerAreNoTwice(idle, active, idle', active');
    forall h | h in idle' + active' ensures h.owner == pool {
      assert h in multiset(idle') + multiset(active');
      assert h in multiset(idle) + multiset(active);
    }
    assert forall h :: h in idle' ==> h in idle' + active';
    assert forall h :: h in active' ==> h in idle' + active';
  }

  class Pool {
    const minSessions: int
    const maxSessions: int
    var nSessions: int
    var idleSessions: seq<Holder>
    var activeSessions: seq<Holder>
    var isShutdown: bool

    /** Every client session ever handed out, and the open one of each active holder. */
    ghost var issued: set<PooledSession>
    ghost var clients: seq<PooledSession>

    /** The count is right and within the limit, no holder occurs twice, and all holders are the pool's own. */
    ghost predicate Counted()
      reads `nSessions, `idleSessions, `activeSessions, `isShutdown
    {
      if isShutdown then nSessions == 0 && idleSessions == [] && activeSessions == []
      else Sound(nSessions, maxSessions, idleSessions, activeSessions, this)
    }

    /** Before shutdown, open client sessions (all but the one being closed) and active holders correspond one to one. */
    ghost predicate Matched(closing: PooledSession?)
      reads this, issued
    {
      (forall c :: c in issued && c != closing && c.pHolder != null ==> c.pHolder.owner == this)
      && (!isShutdown ==>
            (forall c :: c in clients ==> c in issued && c != closing)
            && |clients| == |activeSessions|
            && (forall i :: 0 <= i < |clients| ==> clients[i].pHolder == activeSessions[i])
            && (forall c :: c in issued && c != closing && c.pHolder != null ==> c in clients))
    }

    ghost predicate Valid()
      reads this, issued
    {
      Counted() && Matched(null)
    }

    constructor (minSessions: int, maxSessions: int)
      ensures Valid() && !isShutdown && idleSessions == [] && activeSessions == [] && issued == {}
      ensures this.minSessions == minSessions && this.maxSessions == maxSessions
    {
      this.minSessions, this.maxSessions := minSessions, maxSessions;
      nSessions, idleSessions, activeSessions, isShutdown := 0, [], [], false;
      issued, clients := {}, [];
    }

    function Available(): int
      reads this
    {
      if isShutdown then 0 else maxSessions - |activeSessions|
    }

    method PurgeDeadSessions()
      requires Counted()
      modifies `idleSessions, `nSessions
      ensures Counted()
      ensures idleSessions == if isShutdown then old(idleSessions) else Connected(old(idleSessions))
      ensures !isShutdown ==> AllConnected(idleSessions)
    {
      hide Sound;
      if isShutdown { return; }
      FilterKeeps(nSessions, maxSessions, idleSessions, activeSessions, Alive(idleSessions), this);
      EraseDead();
    }

    method EraseDead()
      modifies `idleSessions, `nSessions
      ensures idleSessions == Connected(old(idleSessions))
      ensures nSessions - |idleSessions| == old(nSessions - |idleSessions|)
    {
      hide Erased, Filter;
      ghost var idle0, alive, done := idleSessions, Alive(idleSessions), 0;
      ghost var kept: seq<Holder> := [];
      EmptyFilter(idle0, alive);
      var it := 0;
      while it < |idleSessions|
        invariant done <= |idle0| && it == |kept| && kept == Filter(idle0[..done], alive)
        invariant idleSessions == kept + idle0[done..]
        invariant nSessions - |idleSessions| == old(nSessions - |idleSessions|)
        decreases |idleSessions| - it
      {
        PrefixStep(idle0, done, alive);
        SplitAt(kept, idle0, done);
        if !idleSessions[it].connected {
          idleSessions := Erased(idleSessions, it);
          nSessions := nSessions - 1;
        } else {
          kept := kept + [idleSessions[it]];
          it := it + 1;
        }
        done := done + 1;
      }
      assert idle0[..done] == idle0;
    }

    /** The first half of get: afterwards the front of the idle list is a connected session, or get fails. */
    method ProvideIdle(factoryWorks: bool) returns (error: Option<Error>)
      requires Counted() && !isShutdown
      modifies `idleSessions, `nSessions
      ensures Counted()
      ensures error == Some(PoolExhausted) <==> Available() <= 0
      ensures error == Some(FactoryFailed) ==> !factoryWorks
      ensures error != Some(PoolShutDown) && AllConnected(idleSessions)
      ensures if error == None && Connected(old(idleSessions)) == [] then |idleSessions| == 1 && fresh(idleSessions[0])
              else idleSessions == Connected(old(idleSessions)) && (error == None <==> idleSessions != [])
    {
      hide Connected, NoTwice, Owned;
      PurgeDeadSessions();
      if idleSessions == [] {
        if nSessions < maxSessions {
          if !factoryWorks { return Some(FactoryFailed); }
          var pHolder := new Holder(this);
          idleSessions := [pHolder] + idleSessions;
          nSessions := nSessions + 1;
          assert idleSessions == [pHolder];
          OneMore(nSessions - 1, maxSessions, activeSessions, pHolder, this);
        } else {
          return Some(PoolExhausted);
        }
      }
      return None;
    }

    /** The second half of get: the front of the idle list becomes active. */
    method HandOut() returns (pPSI: PooledSession)
      requires Valid() && !isShutdown && idleSessions != []
      modifies `idleSessions, `activeSessions, `issued, `clients
      ensures Valid() && fresh(pPSI) && pPSI.pHolder == old(idleSessions[0])
      ensures issued == old(issued) + {pPSI} && activeSessions == [old(idleSessions[0])] + old(activeSessions)
      ensures idleSessions == old(idleSessions)[1..]
      ensures old(AllConnected(idleSessions)) ==> AllConnected(idleSessions) && pPSI.pHolder.connected
    {
      hide NoTwice;
      pPSI := new PooledSession(idleSessions[0]);
      MoveFrontToActive();
      issued, clients := issued + {pPSI}, [pPSI] + clients;
    }

    method MoveFrontToActive()
      requires Counted() && !isShutdown && idleSessions != []
      modifies `idleSessions, `activeSessions
      ensures Counted() && activeSessions == [old(idleSessions)[0]] + old(activeSessions)
      ensures idleSessions == old(idleSessions)[1..]
    {
      hide Sound;
      ghost var n, idle0, active0 := nSessions, idleSessions, activeSessions;
      activeSessions := [idleSessions[0]] + activeSessions;
      idleSessions := idleSessions[1..];
      assert idle0 == [idle0[0]] + idleSessions;
      SoundCount(n, maxSessions, idle0, active0, this);
      SoundAfter(n, maxSessions, idle0, active0, this, nSessions, idleSessions, activeSessions);
    }

    method Get(factoryWorks: bool) returns (r: Result<PooledSession>)
      requires Valid()
      modifies this
      ensures Valid() && isShutdown == old(isShutdown)
      ensures isShutdown <==> r == Failed(PoolShutDown)
      ensures !isShutdown ==> (r == Failed(PoolExhausted) <==> |old(activeSessions)| >= maxSessions)
      ensures r == Failed(FactoryFailed) ==> !factoryWorks
      ensures r.Failed? ==> activeSessions == old(activeSessions) && issued == old(issued)
      ensures r.Failed? ==> idleSessions == if isShutdown then old(idleSessions) else Connected(old(idleSessions))
      ensures r.Ok? ==> fresh(r.value) && issued == old(issued) + {r.value} && r.value.pHolder != null
      ensures r.Ok? ==> activeSessions == [r.value.pHolder] + old(activeSessions) && r.value.pHolder.connected
      ensures r.Ok? ==> if Connected(old(idleSessions)) == [] then fresh(r.value.pHolder) && idleSessions == []
                        else [r.value.pHolder] + idleSessions == Connected(old(idleSessions))
      ensures AllConnected(idleSessions)
    {
      hide NoTwice, Connected, Owned;
      if isShutdown { return Failed(PoolShutDown); }
      var error := ProvideIdle(factoryWorks);
      if error.Some? { return Failed(error.value); }
      var pPSI := HandOut();
      return Ok(pPSI);
    }

    /** A session comes back: a connected one to the front of the idle list, a dead one nowhere. Before shutdown its holder is
        among the active ones, so the unknown-session bugcheck cannot be reached. */
    method PutBack(pHolder: Holder, ghost closing: PooledSession)
      requires Valid() && closing in issued && closing.pHolder == pHolder
      modifies this
      ensures Counted() && Matched(closing) && isShutdown == old(isShutdown) && issued == old(issued)
      ensures isShutdown ==> nSessions == 0 && idleSessions == [] && activeSessions == []
      ensures !isShutdown ==> multiset(activeSessions) == multiset(old(activeSessions)) - multiset{pHolder}
      ensures !isShutdown ==> pHolder in old(activeSessions)
      ensures !isShutdown ==> idleSessions == (if pHolder.connected then [pHolder] else []) + old(idleSessions)
      ensures old(AllConnected(idleSessions)) ==> AllConnected(idleSessions)
    {
      if isShutdown {
        return;
      }
      PutBackActive(pHolder, closing);
    }

    method PutBackActive(pHolder: Holder, ghost closing: PooledSession)
      requires Valid() && closing in issued && closing.pHolder == pHolder && !isShutdown
      modifies `idleSessions, `activeSessions, `nSessions, `clients
      ensures Counted() && Matched(closing) && pHolder in old(activeSessions)
      ensures multiset(activeSessions) == multiset(old(activeSessions)) - multiset{pHolder}
      ensures idleSessions == (if pHolder.connected then [pHolder] else []) + old(idleSessions)
    {
      hide NoTwice, Owned, Erased, Counted;
      var it := FindActive(pHolder);
      ghost var k := ClientIndex(closing);
      assert it == k by { SameActive(it, k); }
      ghost var clients0, active0 := clients, activeSessions;
      ReturnHolder(it);
      clients := Erased(clients, it);
      MatchedAfterErase(clients0, active0, it, closing);
    }

    lemma MatchedAfterErase(clients0: seq<PooledSession>, active0: seq<Holder>, it: nat, closing: PooledSession)
      requires |clients0| == |active0| && forall i :: 0 <= i < |clients0| ==> clients0[i].pHolder == active0[i]
      requires it < |clients0| && forall i :: 0 <= i < |clients0| ==> (clients0[i] == closing <==> i == it)
      requires clients == Erased(clients0, it) && activeSessions == Erased(active0, it)
      requires forall c :: c in clients0 ==> c in issued
      requires forall c :: c in issued && c.pHolder != null ==> c in clients0 && c.pHolder.owner == this
      ensures Matched(closing)
    {
      forall i | 0 <= i < |clients| ensures clients[i] != closing && clients[i] in issued && clients[i].pHolder == activeSessions[i] {
        var j := if i < it then i else i + 1;
        assert clients[i] == clients0[j] && activeSessions[i] == active0[j];
      }
      forall c | c in issued && c != closing && c.pHolder != null ensures c in clients {
        var j :| 0 <= j < |clients0| && clients0[j] == c;
        assert clients[if j < it then j else j - 1] == c;
      }
    }

    /** Where the one open client of an active holder stands. */
    lemma ClientIndex(closing: PooledSession) returns (k: nat)
      requires Valid() && !isShutdown && closing in issued && closing.pHolder != null
      ensures k < |clients| && clients[k] == closing && activeSessions[k] == closing.pHolder
      ensures forall i :: 0 <= i < |clients| && i != k ==> clients[i] != closing
    {
      k :| 0 <= k < |clients| && clients[k] == closing;
      forall i | 0 <= i < |clients| && clients[i] == closing ensures i == k {
        SameIndex(idleSessions, activeSessions, i, k);
      }
    }

    lemma SameActive(i: nat, k: nat)
      requires Counted() && i < |activeSessions| && k < |activeSessions| && activeSessions[i] == activeSessions[k]
      ensures i == k
    {
      SameIndex(idleSessions, activeSessions, i, k);
    }

    method FindActive(pHolder: Holder) returns (it: nat)
      ensures it <= |activeSessions| && (it < |activeSessions| ==> activeSessions[it] == pHolder)
      ensures it == |activeSessions| ==> pHolder !in activeSessions
    {
      it := 0;
      while it < |activeSessions| && activeSessions[it] != pHolder
        invariant it <= |activeSessions|
        invariant forall i :: 0 <= i < it ==> activeSessions[i] != pHolder
      {
        it := it + 1;
      }
    }

    /** The list part of putBack. */
    method ReturnHolder(it: nat)
      requires Counted() && !isShutdown && it < |activeSessions|
      modifies `idleSessions, `activeSessions, `nSessions
      ensures Counted() && activeSessions == Erased(old(activeSessions), it)
      ensures multiset(activeSessions) == multiset(old(activeSessions)) - multiset{old(activeSessions)[it]}
      ensures var h := old(activeSessions)[it];
              idleSessions == (if h.connected then [h] else []) + old(idleSessions)
    {
      hide Sound;
      var pHolder := activeSessions[it];
      ghost var n, idle0, active0 := nSessions, idleSessions, activeSessions;
      if pHolder.connected {
        idleSessions := [pHolder] + idleSessions;
      } else {
        nSessions := nSessions - 1;
      }
      ErasedOnce(activeSessions, it);
      activeSessions := Erased(activeSessions, it);
      SoundCount(n, maxSessions, idle0, active0, this);
      SoundAfter(n, maxSessions, idle0, active0, this, nSessions, idleSessions, activeSessions);
    }

    /** One pass of the janitor: the first expired or dead idle sessions are closed and dropped, as many as the count exceeds
        the minimum. */
    method OnJanitorTimer(expired: set<Holder>)
      requires Valid()
      modifies `idleSessions, `nSessions, idleSessions`connected
      ensures Valid()
      ensures forall h :: h in old(idleSessions) ==> h.connected == (h in idleSessions && old(h.connected))
      ensures forall h :: h in idleSessions ==> h in old(idleSessions)
      ensures !isShutdown ==>
                idleSessions == DropFirst(old(idleSessions), old(ToDrop(idleSessions, expired)), old(nSessions) - minSessions)
      ensures nSessions <= old(nSessions) && (nSessions < old(nSessions) ==> nSessions >= minSessions)
      ensures forall h :: h in old(idleSessions) && old(h.connected) && h !in expired ==> h in idleSessions
      ensures !isShutdown && nSessions > minSessions ==> forall h :: h in idleSessions ==> h !in expired
      ensures old(AllConnected(idleSessions)) || nSessions > minSessions ==> AllConnected(idleSessions)
    {
      if isShutdown { return; }
      hide Sound;
      DropFirstCount(idleSessions, ToDrop(idleSessions, expired), nSessions - minSessions);
      JanitorPass(expired);
    }

    method JanitorPass(expired: set<Holder>)
      requires Counted() && !isShutdown
      modifies `idleSessions, `nSessions, idleSessions`connected
      ensures Counted()
      ensures forall h :: h in idleSessions ==> h in old(idleSessions) && h.connected == old(h.connected)
      ensures forall h :: h in old(idleSessions) && h !in idleSessions ==> !h.connected
      ensures idleSessions == DropFirst(old(idleSessions), old(ToDrop(idleSessions, expired)), old(nSessions) - minSessions)
      ensures nSessions - |idleSessions| == old(nSessions - |idleSessions|)
    {
      ghost var kept: seq<Holder> := [];
      ghost var rest, drop, surplus := idleSessions, ToDrop(idleSessions, expired), nSessions - minSessions;
      assert forall h :: h in rest ==> (h in drop <==> h in expired || !h.connected);
      hide *;
      var it := 0;
      while nSessions > minSessions && it < |idleSessions|
        invariant it == |kept| && !isShutdown && Counted() && idleSessions == kept + rest
        invariant kept + DropFirst(rest, drop, nSessions - minSessions) == DropFirst(old(idleSessions), drop, surplus)
        invariant nSessions - |idleSessions| == old(nSessions - |idleSessions|)
        invariant forall h :: h in idleSessions ==> h in old(idleSessions) && h.connected == old(h.connected)
        invariant forall h :: h in old(idleSessions) && h !in idleSessions ==> !h.connected
        decreases |rest|
      {
        assert rest[0] in idleSessions && idleSessions[it] == rest[0];
        it, kept := JanitorStep(it, expired, kept, rest, drop);
        rest := rest[1..];
      }
      DropFirstEnd(rest, drop, nSessions - minSessions);
    }

    /** The janitor looks at one idle session. */
    method JanitorStep(it: nat, expired: set<Holder>, ghost kept: seq<Holder>, ghost rest: seq<Holder>, ghost drop: set<Holder>)
      returns (next: nat, ghost kept': seq<Holder>)
      requires Counted() && !isShutdown && idleSessions == kept + rest && it == |kept| && rest != [] && nSessions > minSessions
      requires rest[0] in drop <==> rest[0] in expired || !rest[0].connected
      modifies `idleSessions, `nSessions, {rest[0]}`connected
      ensures Counted() && idleSessions == kept' + rest[1..] && next == |kept'|
      ensures kept + DropFirst(rest, drop, old(nSessions) - minSessions) == kept' + DropFirst(rest[1..], drop, nSessions - minSessions)
      ensures nSessions - |idleSessions| == old(nSessions - |idleSessions|)
      ensures forall h :: h in idleSessions ==> h in old(idleSessions) && h.connected == old(h.connected)
      ensures forall h :: h in old(idleSessions) && h !in idleSessions ==> !h.connected
    {
      DropFirstStep(kept, rest, drop, nSessions - minSessions);
      SplitAt(kept, rest, 0);
      hide *;
      if idleSessions[it] in expired || !idleSessions[it].connected {
        DropIdle(it);
        next, kept' := it, kept;
      } else {
        next, kept' := it + 1, kept + [rest[0]];
      }
    }

    /** Close an idle session and forget its holder. */
    method DropIdle(it: nat)
      requires Counted() && !isShutdown && it < |idleSessions|
      modifies `idleSessions, `nSessions, {idleSessions[it]}`connected
      ensures Counted() && idleSessions == Erased(old(idleSessions), it) && nSessions == old(nSessions) - 1
      ensures multiset(idleSessions) == multiset(old(idleSessions)) - multiset{old(idleSessions)[it]}
      ensures old(idleSessions)[it] !in idleSessions && !old(idleSessions)[it].connected
      ensures forall h :: h in old(idleSessions) ==> h == old(idleSessions)[it] || h in idleSessions
      ensures forall h :: h in idleSessions ==> h in old(idleSessions) && h.connected == old(h.connected)
    {
      var h := idleSessions[it];
      IdleOnce(nSessions, maxSessions, idleSessions, activeSessions, this, it);
      hide Sound;
      h.connected := false;
      ghost var n, idle0 := nSessions, idleSessions;
      ErasedOnce(idleSessions, it);
      ErasedOthers(idleSessions, it);
      idleSessions := Erased(idleSessions, it);
      nSessions := nSessions - 1;
      SoundCount(n, maxSessions, idle0, activeSessions, this);
      SoundAfter(n, maxSessions, idle0, activeSessions, this, nSessions, idleSessions, activeSessions);
    }

    /** All sessions are closed and forgotten; later calls do nothing. */
    method Shutdown()
      requires Valid()
      modifies `isShutdown, `idleSessions, `activeSessions, `nSessions, idleSessions`connected, activeSessions`connected
      ensures Valid() && isShutdown && nSessions == 0 && idleSessions == [] && activeSessions == []
      ensures !old(isShutdown) ==> forall h :: h in old(idleSessions) || h in old(activeSessions) ==> !h.connected
    {
      if isShutdown { return; }
      SoundCount(nSessions, maxSessions, idleSessions, activeSessions, this);
      isShutdown := true;
      var closed, n := CloseAll(idleSessions, nSessions);
      idleSessions := closed;
      closed, n := CloseAll(activeSessions, n);
      activeSessions, nSessions := closed, n;
    }

    /** closeAll: the emptied list and the reduced count. */
    method CloseAll(list: seq<Holder>, count: int) returns (rest: seq<Holder>, n: int)
      requires count >= |list|
      modifies list`connected
      ensures rest == [] && n == count - |list| && forall h :: h in list ==> !h.connected
    {
      rest, n := list, count;
      ghost var done := 0;
      while rest != []
        invariant done <= |list| && rest == list[done..] && n == count - done
        invariant forall i :: 0 <= i < done ==> !list[i].connected
        decreases |rest|
      {
        rest[0].connected := false;
        rest := rest[1..];
        if n > 0 { n := n - 1; }
        done := done + 1;
      }
    }
  }

  /** Idle holders the janitor wants to drop. */
  function ToDrop(list: seq<Holder>, expired: set<Holder>): set<Holder>
    reads list
  {
    set h | h in list && (h in expired || !h.connected)
  }

  /** The list without its first k members from the set, or without all of them if they are fewer. */
  function DropFirst(list: seq<Holder>, drop: set<Holder>, k: int): seq<Holder> {
    if list == [] then []
    else if k > 0 && list[0] in drop then DropFirst(list[1..], drop, k - 1)
    else [list[0]] + DropFirst(list[1..], drop, k)
  }

  /** No more than k are dropped, nothing outside the set is, and if fewer than k are then no member of the set remains. */
  lemma {:induction false} DropFirstCount(list: seq<Holder>, drop: set<Holder>, k: int)
    ensures var r := DropFirst(list, drop, k);
            |r| <= |list| && (|r| < |list| ==> |list| - |r| <= k) &&
            (|list| - |r| < k ==> forall h :: h in r ==> h !in drop) &&
            (forall h :: h in list && h !in drop ==> h in r) && multiset(r) <= multiset(list)
  {
    if list != [] {
      assert list == [list[0]] + list[1..];
      DropFirstCount(list[1..], drop, if k > 0 && list[0] in drop then k - 1 else k);
    }
  }

  lemma DropFirstStep(kept: seq<Holder>, rest: seq<Holder>, drop: set<Holder>, k: int)
    requires rest != [] && k > 0
    ensures kept + DropFirst(rest, drop, k) ==
            if rest[0] in drop then kept + DropFirst(rest[1..], drop, k - 1)
            else kept + [rest[0]] + DropFirst(rest[1..], drop, k)
  {
  }

  lemma {:induction false} DropFirstEnd(list: seq<Holder>, drop: set<Holder>, k: int)
    requires k <= 0 || list == []
    ensures DropFirst(list, drop, k) == list
  {
    if list != [] { DropFirstEnd(list[1..], drop, k); }
  }

  lemma IdleOnce(n: int, limit: int, idle: seq<Holder>, active: seq<Holder>, pool: Pool, it: nat)
    requires Sound(n, limit, idle, active, pool) && it < |idle|
    ensures idle[it] !in Erased(idle, it)
  {
    ErasedOnce(idle, it);
    assert idle[it] in idle + active;
    assert multiset(Erased(idle, it))[idle[it]] == 0;
  }

  lemma SameIndex(idle: seq<Holder>, active: seq<Holder>, i: nat, k: nat)
    requires NoTwice(idle, active) && i < |active| && k < |active| && active[i] == active[k]
    ensures i == k
  {
    assert active[i] in idle + active;
    if i < k { Twice(active, i, k); }
    if k < i { Twice(active, k, i); }
  }

  lemma Twice(list: seq<Holder>, i: nat, k: nat)
    requires i < k < |list| && list[i] == list[k]
    ensures multiset(list)[list[i]] >= 2
  {
    assert list == list[..k] + list[k..];
    assert multiset(list) == multiset(list[..k]) + multiset(list[k..]);
    assert list[..k][i] == list[i] && list[k..][0] == list[i];
  }

  lemma FilterKeeps(n: int, limit: int, idle: seq<Holder>, active: seq<Holder>, keep: set<Holder>, pool: Pool)
    requires Sound(n, limit, idle, active, pool)
    ensures Sound(n - |idle| + |Filter(idle, keep)|, limit, Filter(idle, keep), active, pool)
  {
    hide Filter;
    SoundAfter(n, limit, idle, active, pool, n - |idle| + |Filter(idle, keep)|, Filter(idle, keep), active);
  }

  lemma PrefixStep(list: seq<Holder>, i: nat, keep: set<Holder>)
    requires i < |list|
    ensures Filter(list[..i + 1], keep) == Filter(list[..i], keep) + if list[i] in keep then [list[i]] else []
  {
    assert list[..i + 1][..i] == list[..i];
  }

  lemma EmptyFilter(list: seq<Holder>, keep: set<Holder>)
    ensures Filter(list[..0], keep) == []
  {
  }

  lemma SplitAt<T>(kept: seq<T>, list: seq<T>, i: nat)
    requires i < |list|
    ensures var l := kept + list[i..];
            l[|kept|] == list[i] && Erased(l, |kept|) == kept + list[i + 1..] && l == kept + [list[i]] + list[i + 1..]
  {
  }

  class PooledSession {
    var pHolder: Holder?

    constructor (pHolder: Holder)
      ensures this.pHolder == pHolder
    {
      this.pHolder := pHolder;
    }

    /** close: an open transaction is rolled back, or the session given up when that fails; then the holder goes back. */
    method Close(rollbackWorks: bool)
      requires pHolder != null ==> pHolder.owner.Valid() && this in pHolder.owner.issued
      modifies this, pHolder, if pHolder != null then {pHolder.owner} else {}
      ensures pHolder == null
      ensures old(pHolder) != null ==>
                var pool := old(pHolder).owner;
                pool.Valid() && pool.isShutdown == old(pool.isShutdown) && pool.issued == old(pool.issued) &&
                (!pool.isShutdown ==> multiset(pool.activeSessions) == multiset(old(pool.activeSessions)) - multiset{old(pHolder)})
      ensures old(pHolder) != null ==>
                var h, pool := old(pHolder), old(pHolder).owner;
                h.connected == old(pHolder.connected && (!pHolder.inTransaction || rollbackWorks)) &&
                (!pool.isShutdown ==> pool.idleSessions == (if h.connected then [h] else []) + old(pHolder.owner.idleSessions)) &&
                (pool.isShutdown ==> pool.idleSessions == [] && pool.activeSessions == [])
      ensures old(pHolder) != null && old(AllConnected(pHolder.owner.idleSessions)) ==>
                AllConnected(old(pHolder).owner.idleSessions)
    {
      hide Pool.Counted;
      if pHolder != null {
        ghost var idle := pHolder.owner.idleSessions;
        ActiveIsNotIdle(pHolder.owner, this);
        pHolder.Settle(rollbackWorks);
        assert old(AllConnected(idle)) ==> AllConnected(idle);
        hide AllConnected;
        pHolder.owner.PutBack(pHolder, this);
        pHolder := null;
      }
    }
  }

  datatype Event =
    | Acquire(factoryWorks: bool)
    | Begin(client: nat)
    | Release(client: nat, rollbackWorks: bool)
    | Drop(client: nat)
    | Decay(idle: nat)
    | Janitor(expired: set<Holder>)
    | ShutDown

  /** Before shutdown every open client session has an active holder of its own, and every active holder has one. */
  lemma OpenClientsAreActive(pool: Pool)
    requires pool.Valid() && !pool.isShutdown
    ensures pool.nSessions == |pool.idleSessions| + |pool.activeSessions|
    ensures pool.nSessions <= pool.maxSessions || pool.nSessions == 0
    ensures forall c :: c in pool.issued && c.pHolder != null ==> c.pHolder in pool.activeSessions && c.pHolder !in pool.idleSessions
    ensures forall c, d :: c in pool.issued && d in pool.issued && c.pHolder != null && c.pHolder == d.pHolder ==> c == d
    ensures forall h :: h in pool.activeSessions ==> exists c :: c in pool.issued && c.pHolder == h
  {
    forall c | c in pool.issued && c.pHolder != null
      ensures c.pHolder in pool.activeSessions && c.pHolder !in pool.idleSessions
    {
      var k := pool.ClientIndex(c);
      assert c.pHolder in pool.idleSessions + pool.activeSessions;
    }
    forall c, d | c in pool.issued && d in pool.issued && c.pHolder != null && c.pHolder == d.pHolder ensures c == d {
      var k := pool.ClientIndex(c);
      var l := pool.ClientIndex(d);
      pool.SameActive(k, l);
    }
    forall h | h in pool.activeSessions ensures exists c :: c in pool.issued && c.pHolder == h {
      var i :| 0 <= i < |pool.activeSessions| && pool.activeSessions[i] == h;
      assert pool.clients[i] in pool.issued;
    }
  }

  /** The client sessions are those the pool has handed out. */
  ghost predicate Holds(held: seq<PooledSession>, pool: Pool)
    reads pool
  {
    (forall c :: c in held ==> c in pool.issued) && (forall c :: c in pool.issued ==> c in held)
  }

  /** The objects of a pool and of the client sessions taken from it. */
  ghost function Footprint(pool: Pool, held: seq<PooledSession>): set<object>
    reads pool, held
  {
    var holders: set<object> := set h: Holder | h in pool.idleSessions + pool.activeSessions;
    var sessions: set<object> := set c: PooledSession | c in held;
    var taken: set<object> := set c | c in held && c.pHolder != null :: c.pHolder;
    {pool} + holders + sessions + taken
  }

  /** No session has lost its connection while idle since the last get, or ever if there was none. */
  predicate Intact(before: bool, events: seq<Event>)
    decreases events
  {
    if events == [] then before else Intact(events[0].Acquire? || (before && !events[0].Decay?), events[1..])
  }

  lemma FootprintHas(pool: Pool, held: seq<PooledSession>)
    ensures pool in Footprint(pool, held)
    ensures forall h :: h in pool.idleSessions || h in pool.activeSessions ==> h in Footprint(pool, held)
    ensures forall c :: c in held ==> c in Footprint(pool, held) && (c.pHolder != null ==> c.pHolder in Footprint(pool, held))
  {
    forall h | h in pool.idleSessions || h in pool.activeSessions ensures h in Footprint(pool, held) {
      assert h in pool.idleSessions + pool.activeSessions;
    }
  }

  lemma FootprintWithin(pool: Pool, held: seq<PooledSession>, s: set<object>)
    requires pool in s && forall h :: h in pool.idleSessions || h in pool.activeSessions ==> h in s
    requires forall c :: c in held ==> c in s && (c.pHolder != null ==> c.pHolder in s)
    ensures Footprint(pool, held) <= s
  {
  }

  /** Any run of clients, failing connections, the janitor and a shutdown over one pool. */
  method AnyRun(minSessions: int, maxSessions: int, events: seq<Event>) returns (pool: Pool, held: seq<PooledSession>)
    ensures fresh(pool) && pool.Valid() && pool.minSessions == minSessions && pool.maxSessions == maxSessions
    ensures Holds(held, pool) && (pool.isShutdown <==> ShutDown in events)
    ensures Intact(true, events) ==> AllConnected(pool.idleSessions)
  {
    pool := new Pool(minSessions, maxSessions);
    assert fresh(Footprint(pool, []));
    hide Pool.Counted, Pool.Matched, Footprint;
    held := RunOn(pool, [], events);
  }

  /** The events in order. */
  method RunOn(pool: Pool, held: seq<PooledSession>, events: seq<Event>) returns (held': seq<PooledSession>)
    requires pool.Valid() && Holds(held, pool)
    modifies Footprint(pool, held)
    ensures pool.Valid() && Holds(held', pool)
    ensures pool.isShutdown <==> old(pool.isShutdown) || ShutDown in events
    ensures Intact(old(AllConnected(pool.idleSessions)), events) ==> AllConnected(pool.idleSessions)
    ensures forall o :: o in Footprint(pool, held') ==> o in old(Footprint(pool, held)) || fresh(o)
    decreases |events|
  {
    hide Pool.Valid, Pool.Counted, Pool.Matched, Footprint, Holds, AllConnected, Intact;
    if events == [] {
      NothingHappens();
      return held;
    }
    ghost var before := AllConnected(pool.idleSessions);
    held' := Step(pool, held, events[0]);
    IntactAfter(before, AllConnected(pool.idleSessions), events);
    held' := RunOn(pool, held', events[1..]);
  }

  lemma NothingHappens()
    ensures forall before :: Intact(before, []) == before
  {
  }

  lemma IntactAfter(before: bool, after: bool, events: seq<Event>)
    requires events != [] && (events[0].Acquire? || (before && !events[0].Decay?) ==> after)
    ensures Intact(before, events) ==> Intact(after, events[1..])
  {
    StaysIntact(events[0].Acquire? || (before && !events[0].Decay?), after, events[1..]);
  }

  lemma {:induction false} StaysIntact(before: bool, better: bool, events: seq<Event>)
    requires before ==> better
    ensures Intact(before, events) ==> Intact(better, events)
    decreases events
  {
    if events != [] {
      var e := events[0];
      StaysIntact(e.Acquire? || (before && !e.Decay?), e.Acquire? || (better && !e.Decay?), events[1..]);
    }
  }

  /** One event; events that name no client the pool has handed out do nothing. */
  method Step(pool: Pool, held: seq<PooledSession>, event: Event) returns (held': seq<PooledSession>)
    requires pool.Valid() && Holds(held, pool)
    modifies Footprint(pool, held)
    ensures pool.Valid() && Holds(held', pool)
    ensures pool.isShutdown <==> old(pool.isShutdown) || event == ShutDown
    ensures event.Acquire? || (old(AllConnected(pool.idleSessions)) && !event.Decay?) ==> AllConnected(pool.idleSessions)
    ensures event.Decay? && event.idle < |old(pool.idleSessions)| ==> !AllConnected(pool.idleSessions)
    ensures forall o :: o in Footprint(pool, held') ==> o in old(Footprint(pool, held)) || fresh(o)
  {
    hide Pool.Counted, Pool.Matched, Connected, DropFirst, ToDrop;
    held' := held;
    match event
    case Acquire(factoryWorks) =>
      held' := AcquireStep(pool, held, factoryWorks);
    case Begin(client) =>
      if client < |held| && held[client].pHolder != null { held[client].pHolder.inTransaction := true; }
    case Release(client, rollbackWorks) =>
      if client < |held| { ReleaseStep(pool, held, held[client], rollbackWorks); }
    case Drop(client) =>
      if client < |held| && held[client].pHolder != null {
        ActiveIsNotIdle(pool, held[client]);
        held[client].pHolder.connected := false;
      }
    case Decay(idle) =>
      if idle < |pool.idleSessions| { pool.idleSessions[idle].connected := false; }
    case Janitor(expired) =>
      pool.OnJanitorTimer(expired);
    case ShutDown =>
      pool.Shutdown();
  }

  lemma ActiveIsNotIdle(pool: Pool, client: PooledSession)
    requires pool.Valid() && client in pool.issued && client.pHolder != null
    ensures client.pHolder !in pool.idleSessions
  {
    if !pool.isShutdown { OpenClientsAreActive(pool); }
  }

  lemma ConnectedAreThere(list: seq<Holder>)
    ensures forall h :: h in Connected(list) ==> h in list
  {
  }

  method AcquireStep(pool: Pool, held: seq<PooledSession>, factoryWorks: bool) returns (held': seq<PooledSession>)
    requires pool.Valid() && Holds(held, pool)
    modifies pool
    ensures pool.Valid() && Holds(held', pool) && pool.isShutdown == old(pool.isShutdown)
    ensures AllConnected(pool.idleSessions)
    ensures forall o :: o in Footprint(pool, held') ==> o in old(Footprint(pool, held)) || fresh(o)
  {
    hide Pool.Counted, Pool.Matched, Footprint, Connected, AllConnected;
    ghost var f0, idle0 := Footprint(pool, held), pool.idleSessions;
    FootprintHas(pool, held);
    ConnectedAreThere(idle0);
    var r := pool.Get(factoryWorks);
    held' := held;
    if r.Ok? {
      held' := held + [r.value];
      assert forall h :: h in pool.idleSessions ==> h in [r.value.pHolder] + pool.idleSessions;
      assert !fresh(r.value.pHolder) ==> r.value.pHolder == ([r.value.pHolder] + pool.idleSessions)[0];
      FootprintWithin(pool, held', f0 + {r.value, r.value.pHolder});
    } else {
      FootprintWithin(pool, held', f0);
    }
  }

  /** Giving a holder back brings no other into the lists. */
  lemma OnlyThese(idle: seq<Holder>, active: seq<Holder>, idle0: seq<Holder>, active0: seq<Holder>, pHolder: Holder)
    requires (idle == [] && active == []) ||
             (multiset(active) == multiset(active0) - multiset{pHolder} && (idle == idle0 || idle == [pHolder] + idle0))
    ensures forall h :: h in idle || h in active ==> h == pHolder || h in idle0 || h in active0
  {
    forall h | h in active ensures h == pHolder || h in active0 {
      assert h in multiset(active);
      if !(idle == [] && active == []) { assert h in multiset(active0); }
    }
  }

  method ReleaseStep(pool: Pool, held: seq<PooledSession>, client: PooledSession, rollbackWorks: bool)
    requires pool.Valid() && Holds(held, pool) && client in held
    modifies pool, client, client.pHolder
    ensures pool.Valid() && pool.isShutdown == old(pool.isShutdown) && pool.issued == old(pool.issued)
    ensures old(AllConnected(pool.idleSessions)) ==> AllConnected(pool.idleSessions)
    ensures forall o :: o in Footprint(pool, held) ==> o in old(Footprint(pool, held)) || fresh(o)
  {
    if client.pHolder == null {
      client.Close(rollbackWorks);
      return;
    }
    hide Pool.Counted, Connected, AllConnected, Footprint;
    ghost var f0 := Footprint(pool, held);
    FootprintHas(pool, held);
    ghost var pHolder, idle0, active0 := client.pHolder, pool.idleSessions, pool.activeSessions;
    client.Close(rollbackWorks);
    hide Pool.Valid, Pool.Matched;
    OnlyThese(pool.idleSessions, pool.activeSessions, idle0, active0, pHolder);
    FootprintWithin(pool, held, f0);
  }

  lemma WhyFailed(r: Result<PooledSession>)
    ensures r.Ok? || r == Failed(PoolShutDown) || r == Failed(PoolExhausted) || r == Failed(FactoryFailed)
  {
    match r
    case Ok(_) =>
    case Failed(error) =>
      match error
      case PoolShutDown =>
      case PoolExhausted =>
      case FactoryFailed =>
  }

  /** A session is fetched, returned and loses its connection while idle: an idle session that is not connected. A janitor pass
      removes it if and only if the pool may shrink, which with the default minimum of one it may not. */
  method DeadWhileIdle(minSessions: int, maxSessions: int) returns (pool: Pool)
    requires maxSessions > 0
    ensures pool.Valid() && !pool.isShutdown && (AllConnected(pool.idleSessions) <==> minSessions <= 0)
  {
    pool := new Pool(minSessions, maxSessions);
    var r := pool.Get(true);
    WhyFailed(r);
    r.value.Close(true);
    var dead := pool.idleSessions[0];
    dead.connected := false;
    pool.OnJanitorTimer({});
  }
}
