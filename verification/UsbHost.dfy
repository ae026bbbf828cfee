/**
 The USB host driver: its pools, queues and tables, changed by submissions, interrupts,
 callbacks and kills, while the host controller retires descriptors on its own.
 */
module UsbHost {
  import opened UsbState
  import opened UsbSteps
  import opened UsbSetup
  import opened UsbLive

  const RC_BUSY: nat := 0x101
  const NULL: int := -1

  /** A descriptor as a multiset; none if it is null. */
  ghost function Bag(td: int): multiset<nat> {
    if td >= 0 then var k: nat := td; multiset{k} else multiset{}
  }

  function Front(td: int): seq<nat> {
    if td >= 0 then [td] else []
  }

  ghost predicate Once(q: seq<nat>) {
    forall i, j :: 0 <= i < j < |q| ==> q[i] != q[j]
  }

  /** Every submission was called back or dropped, once, or is still under way. */
  ghost predicate Tally(submits: multiset<nat>, calls: multiset<nat>, drops: multiset<nat>, busy: set<nat>) {
    forall r: nat :: submits[r] == calls[r] + drops[r] + if r in busy then 1 else 0
  }

  lemma TallySubmit(submits: multiset<nat>, calls: multiset<nat>, drops: multiset<nat>, busy: set<nat>, r: nat)
    requires Tally(submits, calls, drops, busy) && r !in busy
    ensures Tally(submits + multiset{r}, calls, drops, busy + {r})
  {
  }

  lemma TallyEnd(submits: multiset<nat>, calls: multiset<nat>, drops: multiset<nat>, busy: set<nat>, r: nat)
    requires Tally(submits, calls, drops, busy) && r in busy
    ensures Tally(submits, calls + multiset{r}, drops, busy - {r})
    ensures Tally(submits, calls, drops + multiset{r}, busy - {r})
  {
  }

  lemma TallyDrops(submits: multiset<nat>, calls: multiset<nat>, drops: multiset<nat>, busy: set<nat>,
      drops': multiset<nat>, busy': set<nat>)
    requires Tally(submits, calls, drops, busy) && Tally(submits, calls, drops', busy') && busy' <= busy
    ensures drops' == drops + multiset(busy - busy')
  {
    forall r: nat
      ensures drops'[r] == (drops + multiset(busy - busy'))[r]
    {
      assert submits[r] == calls[r] + drops[r] + if r in busy then 1 else 0;
      assert submits[r] == calls[r] + drops'[r] + if r in busy' then 1 else 0;
    }
  }

  /** Only open endpoints wait, each once. */
  ghost predicate WaitOk(waiting: seq<nat>, eps: seq<Endpoint>) {
    Once(waiting) && forall f :: f in waiting ==> f < |eps| && eps[f].isOpen
  }

  /** The endpoint is neither halted nor skipped and has a request to set up. */
  predicate Runnable(ep: Endpoint) {
    !ep.halted && !ep.skipped && ep.queue != []
  }

  /** What setting up the first request of an endpoint comes to: all its descriptors, taken from the front of
      the free list, or nothing. */
  function Handled(s: State, e: nat, withData: set<nat>): State
    requires e < |s.eps|
  {
    var ep, q := s.eps[e], s.freeList;
    if !Runnable(ep) then s
    else if !ep.control then
      if q == [] then s else SetUp(s, e, [Td(ep.tail, true, 0, ep.queue[0], e)], q[0], q[1..])
    else if ep.queue[0] in withData then
      if |q| < 3 then s else SetUp(s, e, Stages(ep.tail, q[0], q[1], ep.queue[0], e), q[2], q[3..])
    else
      if |q| < 2 then s else SetUp(s, e, Stages(ep.tail, NULL, q[0], ep.queue[0], e), q[1], q[2..])
  }

  /** The free list is too short for the first request of an endpoint. */
  predicate Short(s: State, e: nat, withData: set<nat>)
    requires e < |s.eps| && s.eps[e].queue != []
  {
    |s.freeList| < if !s.eps[e].control then 1 else if s.eps[e].queue[0] in withData then 3 else 2
  }

  /** Field by field: the first request of endpoint `e` has left its queue, and `need` descriptors of its own stand at
      the end of the chain, of which the last is the final one; as many are gone from the free list. */
  ghost predicate Served(s: State, e: nat, need: nat, s': State) {
    && e < |s.eps| == |s'.eps| && s.eps[e].queue != [] && 0 < need <= |s.freeList|
    && s'.eps[e].queue == s.eps[e].queue[1..] && s'.freeList == s.freeList[need..]
    && s.eps[e].chain <= s'.eps[e].chain && |s'.eps[e].chain| == |s.eps[e].chain| + need
    && (forall f :: 0 <= f < |s.eps| && f != e ==> s'.eps[f] == s.eps[f])
    && forall i :: |s.eps[e].chain| <= i < |s'.eps[e].chain| ==>
         var td := s'.eps[e].chain[i];
         td.req == s.eps[e].queue[0] && td.ep == e && td.code == 0 && (td.final <==> i == |s'.eps[e].chain| - 1)
  }

  /** An endpoint that is neither halted nor skipped is served, if there are free descriptors: one for a bulk
      transfer, two for a control transfer, three if it has a data stage. */
  lemma HandledServes(s: State, e: nat, withData: set<nat>)
    requires e < |s.eps| && !s.eps[e].halted && !s.eps[e].skipped && s.eps[e].queue != []
    requires (if !s.eps[e].control then 1 else if s.eps[e].queue[0] in withData then 3 else 2) <= |s.freeList|
    ensures
      var need := if !s.eps[e].control then 1 else if s.eps[e].queue[0] in withData then 3 else 2;
      Served(s, e, need, Handled(s, e, withData))
  {
    hide WithGroup;
  }

  lemma EnqueueServed(s: State, e: nat, r: nat, need: nat, s': State)
    requires e < |s.eps| && Served(Enqueue(s, e, r), e, need, s') && s.eps[e].queue == []
    ensures s'.eps[e].queue == [] && |s'.eps[e].chain| == |s.eps[e].chain| + need && s.eps[e].chain <= s'.eps[e].chain
    ensures s'.freeList == s.freeList[need..]
    ensures forall i :: |s.eps[e].chain| <= i < |s'.eps[e].chain| ==>
              s'.eps[e].chain[i].req == r && (s'.eps[e].chain[i].final <==> i == |s'.eps[e].chain| - 1)
  {
    assert Enqueue(s, e, r).eps[e].queue == [r];
  }

  lemma AttachServes(s: State, e: nat, r: nat, data: bool, withData: set<nat>, s': State)
    requires e < |s.eps| && (data <==> r in withData) && s' == Handled(Enqueue(s, e, r), e, withData)
    ensures
      var ep, need := s.eps[e], if !s.eps[e].control then 1 else if data then 3 else 2;
      !ep.halted && !ep.skipped && ep.queue == [] && need <= |s.freeList| ==>
        && |s'.eps| == |s.eps| && s'.eps[e].queue == [] && s'.freeList == s.freeList[need..]
        && ep.chain <= s'.eps[e].chain && |s'.eps[e].chain| == |ep.chain| + need
        && forall i :: |ep.chain| <= i < |s'.eps[e].chain| ==>
             s'.eps[e].chain[i].req == r && (s'.eps[e].chain[i].final <==> i == |s'.eps[e].chain| - 1)
  {
    hide Handled, Served;
    var ep, need := s.eps[e], if !s.eps[e].control then 1 else if data then 3 else 2;
    if !ep.halted && !ep.skipped && ep.queue == [] && need <= |s.freeList| {
      var m := Enqueue(s, e, r);
      assert m.eps[e].queue == [r];
      HandledServes(m, e, withData);
      ServedSize(m, e, need, s');
      EnqueueServed(s, e, r, need, s');
    }
  }

  lemma ServedSize(s: State, e: nat, need: nat, s': State)
    requires Served(s, e, need, s')
    ensures |s'.eps| == |s.eps|
  {
  }

  /** `q` without the first `e`, and with `e` if it is not in there. */
  function Cut(q: seq<nat>, e: nat): seq<nat> {
    if q == [] then [] else if q[0] == e then q[1..] else [q[0]] + Cut(q[1..], e)
  }

  function Joined(q: seq<nat>, e: nat): seq<nat> {
    if e in q then q else q + [e]
  }

  lemma CutShift(q: seq<nat>, i: nat)
    requires 0 < i <= |q|
    ensures i < |q| ==> q[..i] + q[i + 1..] == [q[0]] + (q[1..][..i - 1] + q[1..][i..])
    ensures q == [q[0]] + q[1..]
  {
  }

  lemma {:induction false} CutAt(q: seq<nat>, e: nat, i: nat)
    requires i <= |q| && (forall j :: 0 <= j < i ==> q[j] != e) && (i < |q| ==> q[i] == e)
    ensures Cut(q, e) == if i < |q| then q[..i] + q[i + 1..] else q
  {
    if q != [] && i > 0 {
      CutAt(q[1..], e, i - 1);
      CutShift(q, i);
    }
  }

  /** Which endpoints wait after the first request of an endpoint was set up, or could not be. */
  function WaitAfter(s: State, e: nat, withData: set<nat>, waiting: seq<nat>): seq<nat>
    requires e < |s.eps|
  {
    if !Runnable(s.eps[e]) then Cut(waiting, e)
    else if Short(s, e, withData) then Joined(waiting, e)
    else if |s.eps[e].queue| == 1 then Cut(waiting, e) else waiting
  }

  ghost predicate SameOpen(eps: seq<Endpoint>, eps': seq<Endpoint>) {
    |eps'| == |eps| && forall f :: 0 <= f < |eps| ==> eps'[f].isOpen == eps[f].isOpen
  }

  lemma WaitSame(waiting: seq<nat>, eps: seq<Endpoint>, e: nat, ep: Endpoint)
    requires WaitOk(waiting, eps) && e < |eps| && ((eps[e].isOpen ==> ep.isOpen) || e !in waiting)
    ensures WaitOk(waiting, eps[e := ep])
  {
  }

  class Hcd {
    const maxTd: nat
    var pool: State           // descriptor pool, look-up table, endpoints and queues
    var withData: set<nat>    // requests that have a data stage
    var waiting: seq<nat>     // endpoints that wait for descriptors
    ghost var submits: multiset<nat>
    ghost var calls: multiset<nat>
    ghost var drops: multiset<nat>

    ghost predicate Valid()
      reads this
    {
      Sound(maxTd, pool) && Clear(pool) && Tally(submits, calls, drops, pool.busy) && WaitOk(waiting, pool.eps)
    }

    constructor (maxTd: nat, maxEp: nat)
      ensures Valid() && this.maxTd == maxTd && pool == Initial(maxTd, maxEp) 
      ensures withData == {} && waiting == [] && submits == calls == drops == multiset{}
    {
      this.maxTd := maxTd;
      pool := Initial(maxTd, maxEp);
      withData, waiting := {}, [];
      submits, calls, drops := multiset{}, multiset{}, multiset{};
      new;
      InitialSound(maxTd, maxEp);
    }

    // ----- descriptor pool -----

    method AllocTd() returns (td: int)
      modifies this`pool
      ensures pool == old(pool).(freeList := pool.freeList)
      ensures td >= NULL && old(pool).freeList == Front(td) + pool.freeList
      ensures td == NULL <==> old(pool).freeList == []
    {
      if pool.freeList == [] { return NULL; }
      td := pool.freeList[0];
      pool := pool.(freeList := pool.freeList[1..]);
    }

    /** Puts a descriptor back, unless it is free already. */
    method FreeTd(td: int)
      modifies this`pool
      ensures pool == old(pool).(freeList := pool.freeList)
      ensures td < 0 || td in old(pool).freeList ==> pool.freeList == old(pool).freeList
      ensures td >= 0 && td !in old(pool).freeList ==> pool.freeList == [td] + old(pool).freeList
    {
      if td < 0 { return; }
      var i := 0;
      while i < |pool.freeList|
        invariant 0 <= i <= |pool.freeList| && pool == old(pool) && forall j :: 0 <= j < i ==> pool.freeList[j] != td
      {
        if pool.freeList[i] == td { return; }
        i := i + 1;
      }
      pool := pool.(freeList := [td] + pool.freeList);
    }

    // ----- endpoints waiting for descriptors -----

    method EnqueueEndpoint(e: nat)
      requires e < |pool.eps| && pool.eps[e].isOpen && WaitOk(waiting, pool.eps)
      modifies this`waiting
      ensures WaitOk(waiting, pool.eps) && waiting == Joined(old(waiting), e)
    {
      if e in waiting { return; }
      waiting := waiting + [e];
    }

    method RemoveEndpoint(e: nat)
      requires WaitOk(waiting, pool.eps)
      modifies this`waiting
      ensures WaitOk(waiting, pool.eps) && waiting == Cut(old(waiting), e) && e !in waiting
    {
      var i := 0;
      while i < |waiting|
        invariant 0 <= i <= |waiting| && waiting == old(waiting) && forall j :: 0 <= j < i ==> waiting[j] != e
      {
        if waiting[i] == e {
          waiting := waiting[..i] + waiting[i + 1..];
          CutOne(old(waiting), i, waiting);
          CutAt(old(waiting), e, i);
          return;
        }
        i := i + 1;
      }
      CutAt(waiting, e, i);
    }

    // ----- submitting -----

    /** A request for an endpoint: refused while the device is gone or the request is under way. */
    method AttachIoReq(e: nat, r: nat, data: bool) returns (rc: nat)
      requires Valid() && e < |pool.eps| && pool.eps[e].isOpen
      modifies this
      ensures Valid() && SameOpen(old(pool).eps, pool.eps)
      ensures rc == 0 <==> old(pool).eps[e].attached && r !in old(pool).busy
      ensures rc == 0 ==> submits == old(submits) + multiset{r} && pool.busy == old(pool).busy + {r}
      ensures rc == 0 ==>
                && withData == (if data then old(withData) + {r} else old(withData) - {r})
                && pool == Handled(Enqueue(old(pool), e, r), e, withData)
      ensures
        var ep, need := old(pool).eps[e], if !old(pool).eps[e].control then 1 else if data then 3 else 2;
        rc == 0 && !ep.halted && !ep.skipped && ep.queue == [] && need <= |old(pool).freeList| ==>
          && pool.eps[e].queue == [] && pool.freeList == old(pool).freeList[need..]
          && ep.chain <= pool.eps[e].chain && |pool.eps[e].chain| == |ep.chain| + need
          && forall i :: |ep.chain| <= i < |pool.eps[e].chain| ==>
               pool.eps[e].chain[i].req == r && (pool.eps[e].chain[i].final <==> i == |pool.eps[e].chain| - 1)
      ensures rc == 0 ==> waiting == WaitAfter(Enqueue(old(pool), e, r), e, withData, old(waiting))
      ensures rc != 0 ==>
                && rc == RC_BUSY && pool == old(pool) && submits == old(submits) && withData == old(withData)
                && waiting == old(waiting)
      ensures calls == old(calls) && drops == old(drops)
    {
      hide Sound, Clear, Tally, WaitOk, SameOpen, Handled;
      OpenStays(pool.eps, e, pool.eps[e]);
      if !pool.eps[e].attached || r in pool.busy { return RC_BUSY; }
      ghost var s := pool;
      EnqueueKeeps(maxTd, pool, e, r);
      TallySubmit(submits, calls, drops, pool.busy, r);
      WaitSame(waiting, pool.eps, e, pool.eps[e].(queue := pool.eps[e].queue + [r]));
      OpenStays(pool.eps, e, pool.eps[e].(queue := pool.eps[e].queue + [r]));
      pool := pool.(eps := pool.eps[e := pool.eps[e].(queue := pool.eps[e].queue + [r])], epOf := pool.epOf[r := e],
          busy := pool.busy + {r});
      withData := if data then withData + {r} else withData - {r};
      submits := submits + multiset{r};
      ghost var mid := pool;
      HandleIoReqList(e);
      AttachServes(s, e, r, data, withData, pool);
      OpenTwice(s.eps, mid.eps, pool.eps);
      rc := 0;
    }

    /** Sets up the first request of an endpoint, if it can run and there are descriptors. */
    method HandleIoReqList(e: nat)
      requires Valid() && e < |pool.eps| && pool.eps[e].isOpen
      modifies this`pool, this`waiting
      ensures Valid() && SameOpen(old(pool).eps, pool.eps) && pool.busy == old(pool).busy
      ensures pool.calling == old(pool).calling
      ensures pool == Handled(old(pool), e, withData)
      ensures waiting == WaitAfter(old(pool), e, withData, old(waiting))
    {
      if pool.eps[e].control {
        SetupControl(e);
      } else {
        SetupBulk(e);
      }
    }

    method SetupBulk(e: nat)
      requires Valid() && e < |pool.eps| && pool.eps[e].isOpen && !pool.eps[e].control
      modifies this`pool, this`waiting
      ensures Valid() && SameOpen(old(pool).eps, pool.eps) && pool.busy == old(pool).busy
      ensures pool.calling == old(pool).calling
      ensures pool == Handled(old(pool), e, withData)
      ensures waiting == WaitAfter(old(pool), e, withData, old(waiting))
    {
      hide Sound, Clear, WithGroup, GroupFor, Tally, WaitOk, SameOpen;
      var ep := pool.eps[e];
      OpenStays(pool.eps, e, ep);
      if ep.halted || ep.skipped || ep.queue == [] {
        RemoveEndpoint(e);
        return;
      }
      ghost var s := pool;
      var newTd := AllocTd();
      if newTd == NULL {
        EnqueueEndpoint(e);
        return;
      }
      var r := ep.queue[0];
      var group := [Td(ep.tail, true, 0, r, e)];
      BulkGroup(s, e, group, newTd, pool.freeList);
      SetUpKeeps(maxTd, s, e, group, newTd, pool.freeList);
      Install(e, group, newTd, pool.lut[ep.tail := r], s);
    }

    /** Appends the descriptors of the first request to the endpoint. */
    method Install(e: nat, group: seq<Td>, tail: nat, lut: map<nat, nat>, ghost s: State)
      requires e < |s.eps| && s.eps[e].isOpen && s.eps[e].queue != [] && pool == s.(freeList := pool.freeList)
      requires lut == WithGroup(s.lut, group)
      requires Sound(maxTd, SetUp(s, e, group, tail, pool.freeList)) && Clear(SetUp(s, e, group, tail, pool.freeList))
      requires Tally(submits, calls, drops, pool.busy) && WaitOk(waiting, pool.eps)
      modifies this`pool, this`waiting
      ensures Valid() && SameOpen(old(pool).eps, pool.eps) && pool.busy == old(pool).busy
      ensures pool.calling == old(pool).calling
      ensures pool == SetUp(s, e, group, tail, old(pool).freeList)
      ensures waiting == if |s.eps[e].queue| == 1 then Cut(old(waiting), e) else old(waiting)
    {
      hide Sound, Clear, WithGroup, Tally, WaitOk, SameOpen;
      var ep := pool.eps[e];
      var ep' := ep.(chain := ep.chain + group, tail := tail, queue := ep.queue[1..]);
      WaitSame(waiting, pool.eps, e, ep');
      OpenStays(pool.eps, e, ep');
      pool := pool.(lut := lut, eps := pool.eps[e := ep']);
      if pool.eps[e].queue == [] { RemoveEndpoint(e); }
    }

    method SetupControl(e: nat)
      requires Valid() && e < |pool.eps| && pool.eps[e].isOpen && pool.eps[e].control
      modifies this`pool, this`waiting
      ensures Valid() && SameOpen(old(pool).eps, pool.eps) && pool.busy == old(pool).busy
      ensures pool.calling == old(pool).calling
      ensures pool == Handled(old(pool), e, withData)
      ensures waiting == WaitAfter(old(pool), e, withData, old(waiting))
    {
      hide Sound, Clear, Stages, WithGroup, GroupFor, Tally, WaitOk, SameOpen, Bag;
      var ep := pool.eps[e];
      OpenStays(pool.eps, e, ep);
      if ep.halted || ep.skipped || ep.queue == [] {
        RemoveEndpoint(e);
        return;
      }
      ghost var s := pool;
      var r := ep.queue[0];
      var ok, dataTd, statusTd, tailTd := AllocStages(r in withData);
      if !ok {
        EnqueueEndpoint(e);
        return;
      }
      FrontParts(s.freeList, dataTd, statusTd, tailTd, pool.freeList);
      var group := Stages(ep.tail, dataTd, statusTd, r, e);
      var lut := pool.lut[ep.tail := r];
      if dataTd >= 0 { lut := lut[dataTd := r]; }
      lut := lut[statusTd := r];
      StagesTable(s.lut, ep.tail, dataTd, statusTd, r, e);
      ControlGroup(s, e, dataTd, statusTd, tailTd, pool.freeList);
      SetUpKeeps(maxTd, s, e, group, tailTd, pool.freeList);
      Install(e, group, tailTd, lut, s);
    }

    /** Returns what an allocation that came too short has taken. */
    method GiveBack(statusTd: int, tailTd: int, dataTd: int, ghost q: seq<nat>)
      requires pool.freeList == [] && tailTd == NULL && dataTd >= NULL && statusTd >= NULL && Once(q)
      requires q == Front(dataTd) + Front(statusTd)
      modifies this`pool
      ensures pool == old(pool).(freeList := q)
    {
      hide Once;
      PutBack(q, dataTd, statusTd);
      FreeTd(statusTd);
      FreeTd(tailTd);
      FreeTd(dataTd);
    }

    /** Descriptors for the stages of a control transfer: all of them, or none. */
    method AllocStages(data: bool) returns (ok: bool, dataTd: int, statusTd: int, tailTd: int)
      requires Valid()
      modifies this`pool
      ensures pool == old(pool).(freeList := pool.freeList)
      ensures !ok ==> Valid()
      ensures ok ==> statusTd >= 0 && tailTd >= 0 && (data <==> dataTd >= 0) && dataTd >= NULL
      ensures ok ==> multiset(old(pool).freeList) == multiset(pool.freeList) + Bag(statusTd) + Bag(tailTd) + Bag(dataTd)
      ensures ok ==> old(pool).freeList == Front(dataTd) + (Front(statusTd) + (Front(tailTd) + pool.freeList))
      ensures ok <==> (if data then 3 else 2) <= |old(pool).freeList|
      ensures !ok ==> pool == old(pool)
    {
      hide Sound, Clear, Tally, WaitOk, Bag, Once, Front;
      FreeOnce(maxTd, pool);
      ghost var s := pool;
      dataTd, statusTd, tailTd := TakeStages(data);
      if data && dataTd == NULL { return false, dataTd, statusTd, tailTd; }
      if statusTd == NULL || tailTd == NULL {
        GiveBack(statusTd, tailTd, dataTd, s.freeList);
        return false, dataTd, statusTd, tailTd;
      }
      ok := true;
    }

    /** Takes what there is for the stages of a control transfer off the free list. */
    method TakeStages(data: bool) returns (dataTd: int, statusTd: int, tailTd: int)
      modifies this`pool
      ensures pool == old(pool).(freeList := pool.freeList)
      ensures dataTd >= NULL && statusTd >= NULL && tailTd >= NULL && (!data ==> dataTd == NULL)
      ensures data && dataTd == NULL ==> pool == old(pool) && pool.freeList == []
      ensures !data || dataTd != NULL ==>
                old(pool).freeList == Front(dataTd) + (Front(statusTd) + (Front(tailTd) + pool.freeList))
      ensures !data || dataTd != NULL ==>
                multiset(old(pool).freeList) == multiset(pool.freeList) + Bag(statusTd) + Bag(tailTd) + Bag(dataTd)
      ensures (!data || dataTd != NULL) && (statusTd == NULL || tailTd == NULL) ==>
                tailTd == NULL && pool.freeList == [] && old(pool).freeList == Front(dataTd) + Front(statusTd)
      ensures (data && dataTd == NULL) || statusTd == NULL || tailTd == NULL <==>
                |old(pool).freeList| < if data then 3 else 2
    {
      hide Bag, Front;
      ghost var q := pool.freeList;
      NoFront(q);
      dataTd, statusTd, tailTd := NULL, NULL, NULL;
      if data {
        dataTd := AllocTd();
        if dataTd == NULL { return; }
      }
      ghost var q1 := pool.freeList;
      statusTd := AllocTd();
      ghost var q2 := pool.freeList;
      tailTd := AllocTd();
      Taken(q, dataTd, statusTd, tailTd, q1, q2, pool.freeList);
    }

    // ----- the host controller -----

    /** The controller finishes the first descriptor of a running endpoint and puts it on its done queue. */
    method HcRetire(e: nat, code: nat)
      requires Valid() && e < |pool.eps| && pool.eps[e].isOpen && !pool.eps[e].halted && pool.eps[e].chain != []
      modifies this`pool
      ensures Valid() && SameOpen(old(pool).eps, pool.eps) && pool == Retire(old(pool), e, code)
    {
      hide Sound, Clear, Tally, WaitOk;
      var ep := pool.eps[e];
      var td := ep.chain[0].(code := code);
      var ep' := ep.(chain := ep.chain[1..], halted := ep.halted || code != 0);
      RetireKeeps(maxTd, pool, e, code);
      RetireClear(pool, e, code);
      WaitSame(waiting, pool.eps, e, ep');
      pool := pool.(eps := pool.eps[e := ep'], doneQueue := [td] + pool.doneQueue);
    }

    // ----- interrupts -----

    /** Takes over the done queue, which lists the newest descriptor first, and turns it round. */
    method TakeDoneQueue()
      requires Valid() && pool.pending == []
      modifies this`pool
      ensures Valid() && pool == TakeDone(old(pool))
    {
      hide Sound, Clear, Tally, WaitOk;
      TakeDoneKeeps(maxTd, pool);
      TakeDoneClear(pool);
      var queue, prev: seq<Td> := pool.doneQueue, [];
      ghost var all := pool.doneQueue;
      while queue != []
        invariant Reverse(all) == Reverse(queue) + prev
        decreases |queue|
      {
        assert Reverse(queue) == Reverse(queue[1..]) + [queue[0]];
        prev := [queue[0]] + prev;
        queue := queue[1..];
      }
      assert Reverse([]) + prev == prev;
      pool := pool.(pending := prev, doneQueue := []);
    }

    /** Deals with the oldest pending descriptor. A failed one has halted its endpoint, whose other descriptors
        are taken back; all requests concerned will be called back. */
    method ProcessDone()
      requires Valid() && pool.pending != [] && pool.calling == []
      modifies this`pool
      ensures Valid() && SameOpen(old(pool).eps, pool.eps) && pool.busy == old(pool).busy
      ensures pool.pending == old(pool).pending[1..]
      ensures old(pool).pending[0].id in old(pool).lut && pool == Processed(old(pool))
      ensures Dealt(old(pool), pool)
      ensures
        var td := old(pool).pending[0];
        && td.ep < |pool.eps| && td.id in pool.freeList && (td.final || td.code != 0 ==> td.req in pool.calling)
        && (td.code != 0 ==> !pool.eps[td.ep].halted && pool.eps[td.ep].chain == [])
    {
      hide Sound, Clear, Tally, WaitOk, SameOpen, Of, Retired, Line, Known;
      ghost var s := pool;
      DealKeeps(maxTd, pool);
      ProcessedDealt(maxTd, pool);
      KnownListed(pool, pool.pending[0]);
      var td := pool.pending[0];
      OpenStays(pool.eps, td.ep, pool.eps[td.ep]);
      var r := pool.lut[td.id];
      var e := pool.epOf[r];
      LutNotFree(maxTd, pool, td.id);
      pool := pool.(pending := pool.pending[1..], lut := pool.lut - {td.id});
      FreeTd(td.id);
      pool := pool.(calling := if td.code != 0 || td.final then [r] else []);
      assert pool == Deal(s);
      if td.code != 0 && pool.eps[e].halted {
        Flush(e);
      }
    }

    /** Takes back every descriptor of a halted endpoint. */
    method Flush(e: nat)
      requires Sound(maxTd, pool) && Tally(submits, calls, drops, pool.busy) && WaitOk(waiting, pool.eps)
      requires e < |pool.eps| && Of(Retired(pool), e) == []
      requires forall k :: 0 <= k < |pool.calling| ==> pool.calling[k] in pool.epOf && pool.epOf[pool.calling[k]] == e
      modifies this`pool
      ensures Valid() && SameOpen(old(pool).eps, pool.eps) && pool.busy == old(pool).busy
      ensures pool.pending == old(pool).pending
      ensures pool == Restart(FlushAll(old(pool), e), e)
    {
      hide Sound, Clear, Tally, WaitOk, SameOpen, Of, Retired, Line, Known, FlushOne;
      FlushCallsAll(maxTd, pool, e);
      OpenStays(pool.eps, e, pool.eps[e]);
      ghost var was := pool;
      while pool.eps[e].chain != []
        invariant Sound(maxTd, pool) && WaitOk(waiting, pool.eps) && pool.busy == was.busy && pool.epOf == was.epOf
        invariant pool.pending == was.pending
        invariant |pool.eps| == |was.eps| && Of(Retired(pool), e) == [] && SameOpen(was.eps, pool.eps)
        invariant FlushAll(pool, e) == FlushAll(was, e)
        invariant forall k :: 0 <= k < |pool.calling| ==>
                    pool.calling[k] in pool.epOf && pool.epOf[pool.calling[k]] == e
        decreases |pool.eps[e].chain|
      {
        ghost var before := pool;
        FlushTd(e);
        OpenTwice(was.eps, before.eps, pool.eps);
      }
      EmptyLine(pool, e);
      FlushedClear(maxTd, pool, e);
      RestartKeeps(maxTd, pool, e);
      WaitSame(waiting, pool.eps, e, pool.eps[e].(halted := false));
      OpenStays(pool.eps, e, pool.eps[e].(halted := false));
      OpenTwice(was.eps, pool.eps, pool.eps[e := pool.eps[e].(halted := false)]);
      pool := pool.(eps := pool.eps[e := pool.eps[e].(halted := false)]);
    }

    method FlushTd(e: nat)
      requires Sound(maxTd, pool) && WaitOk(waiting, pool.eps) && e < |pool.eps| && Of(Retired(pool), e) == []
      requires pool.eps[e].chain != []
      requires forall k :: 0 <= k < |pool.calling| ==> pool.calling[k] in pool.epOf && pool.epOf[pool.calling[k]] == e
      modifies this`pool
      ensures Sound(maxTd, pool) && WaitOk(waiting, pool.eps) && SameOpen(old(pool).eps, pool.eps)
      ensures |pool.eps| == |old(pool).eps|
      ensures Of(Retired(pool), e) == [] && pool.busy == old(pool).busy && pool.epOf == old(pool).epOf
      ensures pool.pending == old(pool).pending
      ensures pool.eps[e].chain == old(pool).eps[e].chain[1..]
      ensures old(pool).eps[e].chain[0].id in old(pool).lut && pool == FlushOne(old(pool), e)
      ensures forall k :: 0 <= k < |pool.calling| ==> pool.calling[k] in pool.epOf && pool.epOf[pool.calling[k]] == e
    {
      hide Sound, WaitOk, SameOpen, Of, Retired, Known;
      ghost var s := pool;
      FlushKeeps(maxTd, pool, e);
      var td := pool.eps[e].chain[0];
      KnownListed(pool, td);
      LutNotFree(maxTd, pool, td.id);
      var ep' := pool.eps[e].(chain := pool.eps[e].chain[1..]);
      WaitSame(waiting, pool.eps, e, ep');
      OpenStays(pool.eps, e, ep');
      FreeTd(td.id);
      var r := pool.lut[td.id];
      pool := pool.(lut := pool.lut - {td.id}, eps := pool.eps[e := ep']);
      if r !in pool.calling { pool := pool.(calling := pool.calling + [r]); }
      assert pool == FlushOne(s, e);
    }

    /** Runs the next callback, or drops the request if its device is gone. */
    method RunCallback() returns (r: nat)
      requires Valid() && pool.calling != []
      modifies this`pool, this`calls, this`drops
      ensures Valid() && pool == Finish(old(pool)) && r == old(pool).calling[0] && r in old(pool).busy
      ensures r !in pool.busy
      ensures r in pool.epOf && pool.epOf[r] < |pool.eps|
      ensures if pool.eps[pool.epOf[r]].attached then calls == old(calls) + multiset{r} && drops == old(drops)
              else drops == old(drops) + multiset{r} && calls == old(calls)
    {
      hide Sound, Clear, Tally, WaitOk;
      FinishKeeps(maxTd, pool);
      r := pool.calling[0];
      TallyEnd(submits, calls, drops, pool.busy, r);
      pool := pool.(calling := pool.calling[1..], busy := pool.busy - {r});
      if pool.eps[pool.epOf[r]].attached {
        calls := calls + multiset{r};
      } else {
        drops := drops + multiset{r};
      }
    }

    /** Gives free descriptors to the endpoint that waits longest. */
    method CheckTdQueue()
      requires Valid()
      modifies this`pool, this`waiting
      ensures Valid() && SameOpen(old(pool).eps, pool.eps) && pool.busy == old(pool).busy
      ensures pool.calling == old(pool).calling
      ensures old(pool).freeList == [] || old(waiting) == [] ==> pool == old(pool) && waiting == old(waiting)
      ensures old(pool).freeList != [] && old(waiting) != [] ==>
                && old(waiting)[0] < |old(pool).eps| && pool == Handled(old(pool), old(waiting)[0], withData)
                && waiting == WaitAfter(old(pool), old(waiting)[0], withData, old(waiting))
      ensures
        old(pool).freeList != [] && old(waiting) != [] ==>
          var e := old(waiting)[0];
          var ep := old(pool).eps[e];
          !ep.control && !ep.halted && !ep.skipped && ep.queue != [] ==> Served(old(pool), e, 1, pool)
    {
      if pool.freeList == [] { return; }
      if waiting != [] {
        assert waiting[0] in waiting;
        ghost var s, e := pool, waiting[0];
        HandleIoReqList(waiting[0]);
        if !s.eps[e].control && !s.eps[e].halted && !s.eps[e].skipped && s.eps[e].queue != [] {
          HandledServes(s, e, withData);
        }
      }
    }

    // ----- opening and closing -----

    method OpenEndpoint(e: nat, control: bool) returns (ok: bool)
      requires Valid() && e < |pool.eps| && !pool.eps[e].isOpen
      modifies this`pool
      ensures Valid() && (ok <==> old(pool).freeList != [])
      ensures pool == if ok then OpenEp(old(pool), e, control) else old(pool)
      ensures pool.busy == old(pool).busy
    {
      hide Sound, Clear, Tally, WaitOk;
      ghost var s := pool;
      var td := AllocTd();
      if td == NULL { return false; }
      OpenKeeps(maxTd, s, e, control);
      var ep := Endpoint(true, control, true, false, false, [], td, []);
      WaitSame(waiting, pool.eps, e, ep);
      pool := pool.(eps := pool.eps[e := ep]);
      ok := true;
    }

    /** The device is gone: the endpoint takes no more requests and is killed some time later. */
    method Detach(e: nat)
      requires Valid() && e < |pool.eps| && pool.eps[e].isOpen
      modifies this`pool
      ensures Valid()
      ensures pool == old(pool).(eps := old(pool).eps[e := old(pool).eps[e].(attached := false, skipped := true)])
    {
      hide Sound, Clear, Tally, WaitOk, SameOpen;
      var ep := pool.eps[e].(attached := false, skipped := true);
      FlagsKeep(maxTd, pool, e, ep);
      WaitSame(waiting, pool.eps, e, ep);
      OpenStays(pool.eps, e, ep);
      pool := pool.(eps := pool.eps[e := ep]);
    }

    method DropRequest(r: nat)
      requires Tally(submits, calls, drops, pool.busy)
      modifies this`pool, this`drops
      ensures pool == old(pool).(busy := old(pool).busy - {r}) && Tally(submits, calls, drops, pool.busy)
    {
      hide Tally;
      if r in pool.busy {
        TallyEnd(submits, calls, drops, pool.busy, r);
        drops := drops + multiset{r};
        pool := pool.(busy := pool.busy - {r});
      }
    }

    /** Frees the descriptors the look-up table has for an endpoint, and drops their requests. */
    method KillScan(e: nat)
      requires Valid() && e < |pool.eps|
      modifies this`pool, this`drops
      ensures Tally(submits, calls, drops, pool.busy) && Scanned(old(pool), pool, e, maxTd)
    {
      hide Sound, Clear, Tally, WaitOk, Scanned;
      ghost var s := pool;
      ScanStart(s, e);
      for i := 0 to maxTd
        invariant Tally(submits, calls, drops, pool.busy) && Scanned(s, pool, e, i)
      {
        ghost var t := pool;
        if i in pool.lut && pool.lut[i] in pool.epOf && pool.epOf[pool.lut[i]] == e {
          ScanNotFree(maxTd, s, pool, e, i);
          DropRequest(pool.lut[i]);
          pool := pool.(lut := pool.lut - {i});
          FreeTd(i);
          ScanTake(s, t, pool, e, i);
        } else {
          ScanSkip(s, pool, e, i);
        }
      }
    }

    /** Drops the requests that wait on an endpoint. */
    method DropQueue(e: nat)
      requires e < |pool.eps| && Tally(submits, calls, drops, pool.busy)
      modifies this`pool, this`drops
      ensures e < |old(pool).eps| && Tally(submits, calls, drops, pool.busy)
      ensures pool == old(pool).(eps := old(pool).eps[e := old(pool).eps[e].(queue := [])],
                  busy := old(pool).busy - Elems(old(pool).eps[e].queue))
    {
      hide Tally, Elems;
      ghost var t := pool;
      while pool.eps[e].queue != []
        invariant |pool.eps| == |t.eps| && Tally(submits, calls, drops, pool.busy)
        invariant pool == t.(eps := t.eps[e := t.eps[e].(queue := pool.eps[e].queue)], busy := pool.busy)
        invariant pool.busy - Elems(pool.eps[e].queue) == t.busy - Elems(t.eps[e].queue)
        decreases |pool.eps[e].queue|
      {
        var r := pool.eps[e].queue[0];
        ElemsFirst(pool.eps[e].queue);
        pool := pool.(eps := pool.eps[e := pool.eps[e].(queue := pool.eps[e].queue[1..])]);
        DropRequest(r);
      }
      NoElems();
    }

    /** Ends an endpoint. Requests and submissions stay in order; descriptors do exactly if none of this endpoint
        was in a done queue, for such a one is freed as well. */
    method KillEndpoint(e: nat)
      requires Valid() && e < |pool.eps| && pool.eps[e].isOpen
      requires forall k :: 0 <= k < |pool.calling| ==> pool.epOf[pool.calling[k]] != e
      modifies this`pool, this`drops, this`waiting
      ensures Killed(old(pool), pool, e) && Accounted(pool) && Tally(submits, calls, drops, pool.busy)
      ensures WaitOk(waiting, pool.eps)
      ensures Partitioned(maxTd, pool) <==> Of(Retired(old(pool)), e) == []
      ensures Of(Retired(old(pool)), e) == [] ==> Valid()
      ensures waiting == Cut(old(waiting), e) && drops == old(drops) + multiset(old(pool).busy - pool.busy)
    {
      hide Sound, Clear, Tally, WaitOk, Of, Retired, Own, Scanned, Doomed, Killed, Elems, Accounted, Partitioned, Line,
           Ids, Once;
      ghost var s := pool;
      KillScan(e);
      AllGone(maxTd, s, pool, e);
      ghost var t := pool;
      FreeTd(pool.eps[e].tail);
      DropQueue(e);
      WaitSame(waiting, s.eps, e, pool.eps[e]);
      RemoveEndpoint(e);
      WaitSame(waiting, pool.eps, e, SHUT);
      pool := pool.(eps := pool.eps[e := SHUT]);
      KilledNow(maxTd, s, t, pool, e);
      KillKeeps(maxTd, s, pool, e);
      KilledBusy(s, pool, e);
      TallyDrops(submits, calls, old(drops), s.busy, drops, pool.busy);
    }
  }

  lemma KilledBusy(s: State, s': State, e: nat)
    requires Killed(s, s', e)
    ensures s'.busy <= s.busy
  {
  }

  lemma NoElems()
    ensures Elems([]) == {}
  {
  }

  lemma ElemsFirst(q: seq<nat>)
    requires q != []
    ensures Elems(q) == {q[0]} + Elems(q[1..])
  {
  }

  lemma NoFront(q: seq<nat>)
    ensures Front(NULL) + q == q
  {
  }

  lemma PutBack(q: seq<nat>, d: int, s: int)
    requires d >= -1 && s >= -1 && Once(q)
    requires q == Front(d) + Front(s)
    ensures d >= 0 && s >= 0 ==> d !in [s] && [d] + [s] == q
    ensures d < 0 && s >= 0 ==> [s] == q
    ensures d >= 0 && s < 0 ==> [d] == q
    ensures d < 0 && s < 0 ==> q == []
  {
    if d >= 0 && s >= 0 { assert q[0] == d && q[1] == s; }
  }

  lemma CutOne(q: seq<nat>, i: nat, c: seq<nat>)
    requires i < |q| && Once(q) && c == q[..i] + q[i + 1..]
    ensures Once(c) && forall f: nat :: f in c <==> f in q && f != q[i]
  {
    forall f: nat | f in q && f != q[i]
      ensures f in c
    {
      var k :| 0 <= k < |q| && q[k] == f;
      assert c[if k < i then k else k - 1] == f;
    }
    assert forall k :: 0 <= k < |c| ==> c[k] == q[if k < i then k else k + 1];
  }

  lemma OpenStays(eps: seq<Endpoint>, e: nat, ep: Endpoint)
    requires e < |eps| && ep.isOpen == eps[e].isOpen
    ensures SameOpen(eps, eps[e := ep]) && SameOpen(eps, eps) && |eps[e := ep]| == |eps|
  {
  }

  lemma OpenTwice(a: seq<Endpoint>, b: seq<Endpoint>, c: seq<Endpoint>)
    requires SameOpen(a, b) && SameOpen(b, c)
    ensures SameOpen(a, c)
  {
  }

  lemma FrontSize(td: int)
    ensures |Front(td)| == if td >= 0 then 1 else 0
  {
  }

  /** The descriptors that were taken, by their place on the free list. */
  lemma FrontParts(q: seq<nat>, d: int, s: nat, t: nat, rest: seq<nat>)
    requires q == Front(d) + (Front(s) + (Front(t) + rest))
    ensures d >= 0 ==> 3 <= |q| && q[0] == d && q[1] == s && q[2] == t && q[3..] == rest
    ensures d < 0 ==> 2 <= |q| && q[0] == s && q[1] == t && q[2..] == rest
  {
  }

  lemma FrontBag(td: int, q: seq<nat>)
    ensures multiset(Front(td) + q) == multiset(q) + Bag(td) && (td < 0 ==> Front(td) + q == q)
  {
  }

  /** What three allocations took off the free list; if one of them failed, the list is empty. */
  lemma Taken(q: seq<nat>, d: int, s: int, t: int, q1: seq<nat>, q2: seq<nat>, q3: seq<nat>)
    requires d >= NULL && s >= NULL && t >= NULL && q == Front(d) + q1 && q1 == Front(s) + q2 && q2 == Front(t) + q3
    requires (s == NULL <==> q1 == []) && (t == NULL <==> q2 == [])
    ensures multiset(q) == multiset(q3) + Bag(s) + Bag(t) + Bag(d)
    ensures s == NULL || t == NULL ==> t == NULL && q3 == [] && q == Front(d) + Front(s)
    ensures (s == NULL || t == NULL) <==> |q| < if d >= 0 then 3 else 2
  {
    hide Front, Bag;
    FrontSize(d);
    FrontSize(s);
    FrontSize(t);
    FrontBag(d, q1);
    FrontBag(s, q2);
    FrontBag(t, q3);
    if t == NULL { assert q1 == Front(s); }
  }

  lemma FreeOnce(n: nat, s: State)
    requires Sound(n, s)
    ensures Once(s.freeList)
  {
    hide EpOk, TableOk, Accounted, Ids, Chains;
    forall i, j | 0 <= i < j < |s.freeList|
      ensures s.freeList[i] != s.freeList[j]
    {
      assert Places(s, s.freeList[i]) <= 1;
      if s.freeList[i] == s.freeList[j] { TwiceCounts(s.freeList, i, j); }
    }
  }

  lemma TwiceCounts(q: seq<nat>, i: nat, j: nat)
    requires i < j < |q| && q[i] == q[j]
    ensures multiset(q)[q[i]] >= 2
  {
    var a, b := q[..j], q[j..];
    assert q == a + b && a[i] == q[i] && b[0] == q[i];
    assert multiset(q) == multiset(a) + multiset(b);
    assert q[i] in a && q[i] in b;
  }

  lemma BulkGroup(s: State, e: nat, group: seq<Td>, tail: nat, free: seq<nat>)
    requires e < |s.eps| && s.eps[e].isOpen && s.eps[e].queue != []
    requires group == [Td(s.eps[e].tail, true, 0, s.eps[e].queue[0], e)]
    requires s.freeList == Front(tail) + free
    ensures GroupFor(s, e, group, tail, free) && WithGroup(s.lut, group) == s.lut[s.eps[e].tail := s.eps[e].queue[0]]
  {
    NoIds();
    assert group[1..] == [] && group[..0] == [];
    assert multiset(s.freeList) == multiset{tail} + multiset(free);
  }

  /** The stages of a control transfer: setup, perhaps data, and status. */
  function Stages(tail: nat, dataTd: int, statusTd: nat, r: nat, e: nat): seq<Td> {
    if dataTd >= 0 then [Td(tail, false, 0, r, e), Td(dataTd, false, 0, r, e), Td(statusTd, true, 0, r, e)]
    else [Td(tail, false, 0, r, e), Td(statusTd, true, 0, r, e)]
  }

  lemma StagesTable(lut: map<nat, nat>, tail: nat, dataTd: int, statusTd: nat, r: nat, e: nat)
    ensures WithGroup(lut, Stages(tail, dataTd, statusTd, r, e))
                == (if dataTd >= 0 then lut[tail := r][dataTd := r] else lut[tail := r])[statusTd := r]
  {
    var setup, status := Td(tail, false, 0, r, e), Td(statusTd, true, 0, r, e);
    var group := Stages(tail, dataTd, statusTd, r, e);
    assert WithGroup(lut, [setup]) == lut[tail := r] by { assert [setup][..0] == []; }
    if dataTd >= 0 {
      var data := Td(dataTd, false, 0, r, e);
      assert [setup, data][..1] == [setup];
      assert group[..2] == [setup, data];
    } else {
      assert group[..1] == [setup];
    }
  }

  lemma StagesIds(tail: nat, dataTd: int, statusTd: nat, r: nat, e: nat)
    ensures Ids(Stages(tail, dataTd, statusTd, r, e)[1..]) == Bag(dataTd) + Bag(statusTd)
  {
    hide Ids;
    var status := Td(statusTd, true, 0, r, e);
    IdsOne(status);
    if dataTd >= 0 {
      var data := Td(dataTd, false, 0, r, e);
      assert Stages(tail, dataTd, statusTd, r, e)[1..] == [data] + [status];
      IdsConcat([data], [status]);
      IdsOne(data);
    } else {
      assert Stages(tail, dataTd, statusTd, r, e)[1..] == [status];
    }
  }

  lemma ControlGroup(s: State, e: nat, dataTd: int, statusTd: nat, tail: nat, free: seq<nat>)
    requires e < |s.eps| && s.eps[e].isOpen && s.eps[e].queue != []
    requires multiset(s.freeList) == multiset(free) + Bag(statusTd) + Bag(tail) + Bag(dataTd)
    ensures GroupFor(s, e, Stages(s.eps[e].tail, dataTd, statusTd, s.eps[e].queue[0], e), tail, free)
  {
    hide Ids;
    StagesIds(s.eps[e].tail, dataTd, statusTd, s.eps[e].queue[0], e);
  }

  function Initial(n: nat, m: nat): State {
    State(seq(n, i requires 0 <= i < n => i), map[], seq(m, _ => SHUT), [], [], [], map[], {})
  }

  lemma InitialSound(n: nat, m: nat)
    ensures Sound(n, Initial(n, m)) && Clear(Initial(n, m))
  {
    var s := Initial(n, m);
    NoIds();
    EmptyGrouped();
    ShutSum(m);
    forall k: nat
      ensures Places(s, k) == (if k < n then 1 else 0) && Uses(s, k) == 0
    {
      CountUp(n, k);
    }
    assert Retired(s) == [];
    forall e | 0 <= e < |s.eps|
      ensures EpOk(s, e)
    {
      assert Line(s, e) == [];
    }
  }

  lemma {:induction false} CountUp(n: nat, k: nat)
    ensures multiset(seq(n, i requires 0 <= i < n => i))[k] == if k < n then 1 else 0
  {
    var q := seq(n, i requires 0 <= i < n => i);
    if n > 0 {
      CountUp(n - 1, k);
      var p := seq(n - 1, i requires 0 <= i < n - 1 => i);
      assert q == p + [n - 1];
      assert multiset(q) == multiset(p) + multiset{n - 1};
    }
  }

  lemma ShutSum(m: nat)
    ensures Chains(seq(m, _ => SHUT)) == multiset{} && Queued(seq(m, _ => SHUT)) == multiset{}
  {
    hide Sum;
    var eps: seq<Endpoint> := seq(m, _ => SHUT);
    NoSum(Owns(eps));
    NoSum(Queues(eps));
  }

  lemma {:induction false} NoSum(ms: seq<multiset<nat>>)
    requires forall i :: 0 <= i < |ms| ==> ms[i] == multiset{}
    ensures Sum(ms) == multiset{}
  {
    if ms != [] { NoSum(ms[..|ms| - 1]); }
  }

  lemma RetireClear(s: State, e: nat, code: nat)
    requires e < |s.eps| && s.eps[e].chain != [] && Clear(s)
    ensures Clear(Retire(s, e, code))
  {
  }

  lemma TakeDoneClear(s: State)
    requires Clear(s)
    ensures Clear(TakeDone(s))
  {
  }

  lemma EmptyLine(s: State, e: nat)
    requires e < |s.eps| && s.eps[e].chain == [] && Of(Retired(s), e) == []
    ensures Line(s, e) == []
  {
  }

  lemma LutNotFree(n: nat, s: State, id: nat)
    requires Sound(n, s) && id in s.lut
    ensures id !in s.freeList
  {
    hide Ids, Line, Chains, Uses, Places;
    assert Listed(s, id);
    var e := s.epOf[s.lut[id]];
    assert EpOk(s, e);
    LineSplit(s, e, id);
    if id in s.freeList { NotInTable(n, s, e, id); }
  }

  // ----- what killing an endpoint frees -----

  /** The descriptors below `i` that go with endpoint `e`. */
  function Gone(s: State, e: nat, i: nat): multiset<nat> {
    if i == 0 then multiset{} else Gone(s, e, i - 1) + if Goes(s, e, i - 1) then multiset{i - 1} else multiset{}
  }

  lemma {:induction false} GoneCount(s: State, e: nat, i: nat, k: nat)
    ensures Gone(s, e, i)[k] == if k < i && Goes(s, e, k) then 1 else 0
  {
    if i > 0 { GoneCount(s, e, i - 1, k); }
  }

  ghost predicate Scanned(s: State, t: State, e: nat, i: nat) {
    && t == s.(freeList := t.freeList, lut := t.lut, busy := t.busy)
    && (forall id: nat :: id in t.lut <==> id in s.lut && !(id < i && Goes(s, e, id)))
    && (forall id: nat :: id in t.lut ==> t.lut[id] == s.lut[id])
    && multiset(t.freeList) == multiset(s.freeList) + Gone(s, e, i)
    && t.busy == s.busy - set id | id in s.lut.Keys && id < i && Goes(s, e, id) :: s.lut[id]
  }

  lemma ScanStart(s: State, e: nat)
    ensures Scanned(s, s, e, 0)
  {
    assert multiset(s.freeList) + Gone(s, e, 0) == multiset(s.freeList);
  }

  lemma ScanSkip(s: State, t: State, e: nat, i: nat)
    requires Scanned(s, t, e, i) && !Goes(t, e, i)
    ensures Scanned(s, t, e, i + 1)
  {
    assert !Goes(s, e, i);
  }

  lemma ScanTake(s: State, t: State, t': State, e: nat, i: nat)
    requires Scanned(s, t, e, i) && Goes(t, e, i)
    requires t' == t.(freeList := [i] + t.freeList, lut := t.lut - {i}, busy := t.busy - {t.lut[i]})
    ensures Scanned(s, t', e, i + 1)
  {
    assert Goes(s, e, i);
    assert multiset(t'.freeList) == multiset(t.freeList) + multiset{i};
  }

  lemma ScanNotFree(n: nat, s: State, t: State, e: nat, i: nat)
    requires Sound(n, s) && Scanned(s, t, e, i) && i in t.lut
    ensures i !in t.freeList
  {
    hide Sound;
    LutNotFree(n, s, i);
    GoneCount(s, e, i, i);
    assert multiset(t.freeList)[i] == (multiset(s.freeList) + Gone(s, e, i))[i];
  }

  /** The table's descriptors for an endpoint are those of its line. */
  lemma GoesLine(n: nat, s: State, e: nat, k: nat)
    requires Sound(n, s) && e < |s.eps| && s.eps[e].isOpen
    ensures Ids(Line(s, e))[k] == (if k < n && Goes(s, e, k) then 1 else 0)
    ensures k == s.eps[e].tail ==> multiset(s.freeList)[k] + Ids(Line(s, e))[k] == 0
  {
    hide Ids, Of, Retired, Line, Uses, Chains, Grouped, FailsLast;
    assert EpOk(s, e);
    LineIds(s, e, k);
    assert Places(s, k) == if k < n then 1 else 0;
    if k in Ids(Line(s, e)) {
      var i := IdsIndex(Line(s, e), k);
      assert Known(s, Line(s, e)[i]);
    }
    if Goes(s, e, k) { assert Listed(s, k); }
    if k == s.eps[e].tail {
      NotInTable(n, s, e, k);
      OwnTwo(s.eps, e, e, k);
    }
  }

  lemma LineBags(s: State, e: nat)
    requires e < |s.eps|
    ensures Ids(Line(s, e)) == Ids(Of(Retired(s), e)) + Ids(s.eps[e].chain)
  {
    IdsConcat(Of(Retired(s), e), s.eps[e].chain);
  }

  lemma AllGone(n: nat, s: State, t: State, e: nat)
    requires Sound(n, s) && e < |s.eps| && s.eps[e].isOpen && Scanned(s, t, e, n)
    ensures t == s.(freeList := t.freeList, lut := t.lut, busy := t.busy)
    ensures multiset(t.freeList) == multiset(s.freeList) + Ids(Line(s, e)) && s.eps[e].tail !in t.freeList
    ensures (forall id: nat :: Goes(s, e, id) ==> id < n) && forall id: nat :: id in s.lut ==> s.lut[id] in s.epOf
  {
    hide Sound, Ids, Line, Gone;
    forall id: nat | id in s.lut
      ensures s.lut[id] in s.epOf
    {
      InTable(n, s, id);
    }
    forall k: nat
      ensures multiset(t.freeList)[k] == (multiset(s.freeList) + Ids(Line(s, e)))[k]
    {
      GoesLine(n, s, e, k);
      GoneCount(s, e, n, k);
      assert multiset(t.freeList)[k] == (multiset(s.freeList) + Gone(s, e, n))[k];
    }
    GoesLine(n, s, e, s.eps[e].tail);
    assert multiset(t.freeList)[s.eps[e].tail] == 0;
    forall id: nat | Goes(s, e, id)
      ensures id < n
    {
      GoesBelow(n, s, e, id);
    }
  }

  lemma GoesBelow(n: nat, s: State, e: nat, id: nat)
    requires Sound(n, s) && Goes(s, e, id)
    ensures id < n
  {
    hide Ids, Line, Chains, Uses;
    assert Listed(s, id) && EpOk(s, e);
    LineIds(s, e, id);
    assert Places(s, id) == if id < n then 1 else 0;
  }

  lemma KilledNow(n: nat, s: State, t: State, u: State, e: nat)
    requires e < |s.eps| && s.eps[e].isOpen && Scanned(s, t, e, n) && (forall id: nat :: Goes(s, e, id) ==> id < n)
    requires multiset(t.freeList) == multiset(s.freeList) + Ids(Line(s, e))
    requires forall id: nat :: id in s.lut ==> s.lut[id] in s.epOf
    requires u == t.(freeList := [s.eps[e].tail] + t.freeList, eps := s.eps[e := SHUT], busy := u.busy)
    requires u.busy == t.busy - Elems(s.eps[e].queue)
    ensures Killed(s, u, e)
  {
    hide Ids, Gone, Line, Of, Retired;
    LineBags(s, e);
    assert multiset(u.freeList) == multiset{s.eps[e].tail} + multiset(t.freeList);
    forall id: nat | id in s.lut && s.lut[id] in s.epOf && s.epOf[s.lut[id]] != e
      ensures id in u.lut
    {
      assert !Goes(s, e, id);
    }
    forall id: nat | id in u.lut
      ensures id in s.lut && u.lut[id] == s.lut[id] && s.lut[id] in s.epOf && s.epOf[s.lut[id]] != e
    {
      assert !Goes(s, e, id);
    }
    assert (set id | id in s.lut.Keys && id < n && Goes(s, e, id) :: s.lut[id])
           == (set id | id in s.lut.Keys && Goes(s, e, id) :: s.lut[id]);
    assert u.busy == s.busy - Doomed(s, e);
    assert multiset(u.freeList) == multiset(s.freeList) + Own(s.eps[e]) + Ids(Of(Retired(s), e));
  }

  // ----- whole runs -----

  /** Everything that can happen, in any order: what driver clients and the interrupt thread do, and what the
      controller does on its own. */
  datatype Step =
    | DoOpen(ep: nat, control: bool) | DoSubmit(ep: nat, req: nat, data: bool) | DoRetire(ep: nat, code: nat)
    | DoInterrupt | DoProcess | DoCallback | DoCheckQueue | DoDetach(ep: nat) | DoKill(ep: nat)

  /** When a step can happen. Callbacks of an endpoint are over when it is killed, as one thread does both. */
  predicate Enabled(s: State, step: Step) {
    match step
    case DoOpen(ep, control) => ep < |s.eps| && !s.eps[ep].isOpen
    case DoSubmit(ep, req, data) => ep < |s.eps| && s.eps[ep].isOpen
    case DoRetire(ep, code) => ep < |s.eps| && s.eps[ep].isOpen && !s.eps[ep].halted && s.eps[ep].chain != []
    case DoInterrupt => s.pending == []
    case DoProcess => s.pending != [] && s.calling == []
    case DoCallback => s.calling != []
    case DoCheckQueue => true
    case DoDetach(ep) => ep < |s.eps| && s.eps[ep].isOpen
    case DoKill(ep) =>
      && ep < |s.eps| && s.eps[ep].isOpen
      && forall k :: 0 <= k < |s.calling| ==> s.calling[k] in s.epOf && s.epOf[s.calling[k]] != ep
  }

  /** The step kills an endpoint that has a descriptor in a done queue. */
  predicate KillsTooEarly(s: State, step: Step) {
    step.DoKill? && Of(Retired(s), step.ep) != []
  }

  /** Everything the driver keeps, with the tallies of submissions, callbacks and dropped requests. */
  datatype Snap = Snap(pool: State, withData: set<nat>, waiting: seq<nat>, submits: multiset<nat>, calls: multiset<nat>,
      drops: multiset<nat>)

  ghost function Now(h: Hcd): Snap
    reads h
  {
    Snap(h.pool, h.withData, h.waiting, h.submits, h.calls, h.drops)
  }

  /** The first request of an endpoint is set up, if that is possible. */
  function Tried(s: Snap, e: nat): Snap
    requires e < |s.pool.eps|
  {
    s.(pool := Handled(s.pool, e, s.withData), waiting := WaitAfter(s.pool, e, s.withData, s.waiting))
  }

  function Submitted(s: Snap, e: nat, r: nat, data: bool): Snap
    requires e < |s.pool.eps|
  {
    if !s.pool.eps[e].attached || r in s.pool.busy then s
    else
      Tried(s.(pool := Enqueue(s.pool, e, r), withData := if data then s.withData + {r} else s.withData - {r},
               submits := s.submits + multiset{r}), e)
  }

  function CalledBack(s: Snap): Snap
    requires s.pool.calling != [] && s.pool.calling[0] in s.pool.epOf && s.pool.epOf[s.pool.calling[0]] < |s.pool.eps|
  {
    var r := s.pool.calling[0];
    var t := s.(pool := Finish(s.pool));
    if s.pool.eps[s.pool.epOf[r]].attached then t.(calls := s.calls + multiset{r})
        else t.(drops := s.drops + multiset{r})
  }

  /** What a step does. Where it cannot happen, nothing does; a kill may put descriptors back in any order. */
  ghost predicate Stepped(s: Snap, step: Step, s': Snap) {
    if !Enabled(s.pool, step) then s' == s
    else
      match step
      case DoOpen(ep, control) => s' == if s.pool.freeList == [] then s else s.(pool := OpenEp(s.pool, ep, control))
      case DoSubmit(ep, req, data) => s' == Submitted(s, ep, req, data)
      case DoRetire(ep, code) => s' == s.(pool := Retire(s.pool, ep, code))
      case DoInterrupt => s' == s.(pool := TakeDone(s.pool))
      case DoProcess => s.pool.pending[0].id in s.pool.lut && s' == s.(pool := Processed(s.pool))
      case DoCallback =>
        s.pool.calling[0] in s.pool.epOf && s.pool.epOf[s.pool.calling[0]] < |s.pool.eps| && s' == CalledBack(s)
      case DoCheckQueue =>
        if s.pool.freeList == [] || s.waiting == [] then s' == s
        else s.waiting[0] < |s.pool.eps| && s' == Tried(s, s.waiting[0])
      case DoDetach(ep) => s'
          == s.(pool := s.pool.(eps := s.pool.eps[ep := s.pool.eps[ep].(attached := false, skipped := true)]))
      case DoKill(ep) =>
        && Killed(s.pool, s'.pool, ep)
        && s' == s.(pool := s'.pool, waiting := Cut(s.waiting, ep),
            drops := s.drops + multiset(s.pool.busy - s'.pool.busy))
  }

  // ----- no endpoint is forgotten -----

  /** Steps leave no endpoint halted without a failed descriptor to be dealt with. */
  lemma SteppedAwake(n: nat, s: Snap, step: Step, s': Snap)
    requires Sound(n, s.pool) && Awake(s.pool) && Stepped(s, step, s')
    ensures Awake(s'.pool)
  {
    hide Sound, Of, Killed, Processed, Handled, WaitAfter, AwakeAt, Awake, Enabled;
    if Enabled(s.pool, step) {
      OnlyAwake(s.pool, step);
      match step {
        case DoOpen(ep, control) => AwakeSame(s.pool, s'.pool);
        case DoSubmit(ep, req, data) => SubmitAwake(s, ep, req, data);
        case DoRetire(ep, code) => AwakeRetire(n, s.pool, ep, code);
        case DoInterrupt => TakeDoneAwake(s.pool);
        case DoProcess => AwakeProcessed(n, s.pool);
        case DoCallback => AwakeSame(s.pool, s'.pool);
        case DoCheckQueue =>
          if s.pool.freeList != [] && s.waiting != [] { HandledAwake(s.pool, s.waiting[0], s.withData); }
        case DoDetach(ep) => AwakeSame(s.pool, s'.pool);
        case DoKill(ep) => KillAwake(s.pool, s'.pool, ep);
      }
    }
  }

  lemma OnlyAwake(s: State, step: Step)
    requires Enabled(s, step)
    ensures step.DoRetire? ==>
              && step.ep < |s.eps| && s.eps[step.ep].isOpen && !s.eps[step.ep].halted && s.eps[step.ep].chain != []
    ensures step.DoInterrupt? ==> s.pending == []
    ensures step.DoProcess? ==> s.pending != [] && s.calling == []
    ensures step.DoOpen? || step.DoSubmit? || step.DoDetach? ==> step.ep < |s.eps|
  {
  }

  lemma HandledAwake(s: State, e: nat, withData: set<nat>)
    requires e < |s.eps| && Awake(s)
    ensures Awake(Handled(s, e, withData))
  {
    hide Awake, Of;
    AwakeSame(s, Handled(s, e, withData));
  }

  lemma SubmitAwake(s: Snap, e: nat, r: nat, data: bool)
    requires e < |s.pool.eps| && Awake(s.pool)
    ensures Awake(Submitted(s, e, r, data).pool)
  {
    hide Awake, Of, Handled, WaitAfter;
    var m := Enqueue(s.pool, e, r);
    AwakeSame(s.pool, m);
    HandledAwake(m, e, if data then s.withData + {r} else s.withData - {r});
  }

  lemma TakeDoneAwake(s: State)
    requires Awake(s) && s.pending == []
    ensures Awake(TakeDone(s))
  {
    hide Awake, Of;
    assert Reverse([]) == [];
    assert Retired(TakeDone(s)) == Retired(s);
    AwakeSame(s, TakeDone(s));
  }

  lemma KillAwake(s: State, s': State, e: nat)
    requires Awake(s) && Killed(s, s', e)
    ensures Awake(s')
  {
    hide Awake, Of;
    AwakeSame(s, s');
  }

  /** Endpoints attended to: whoever has requests and is not skipped waits for descriptors. */
  ghost predicate Attended(s: Snap) {
    forall e: nat :: e < |s.pool.eps| && s.pool.eps[e].queue != [] && !s.pool.eps[e].skipped ==> e in s.waiting
  }

  /** The step tries to set up a request on an endpoint that is halted, which takes it off the waiting list. */
  predicate TriesHalted(s: Snap, step: Step) {
    match step
    case DoSubmit(ep, req, data) =>
      && ep < |s.pool.eps| && s.pool.eps[ep].isOpen && s.pool.eps[ep].attached && req !in s.pool.busy
      && s.pool.eps[ep].halted && !s.pool.eps[ep].skipped
    case DoCheckQueue =>
      && s.pool.freeList != [] && s.waiting != [] && s.waiting[0] < |s.pool.eps|
      && s.pool.eps[s.waiting[0]].halted && !s.pool.eps[s.waiting[0]].skipped && s.pool.eps[s.waiting[0]].queue != []
    case _ => false
  }

  lemma {:induction false} CutHas(q: seq<nat>, e: nat, f: nat)
    ensures f != e ==> (f in Cut(q, e) <==> f in q)
    ensures Once(q) ==> e !in Cut(q, e)
  {
    if q != [] {
      assert q == [q[0]] + q[1..];
      if q[0] != e { CutHas(q[1..], e, f); }
    }
  }

  ghost predicate AttendedBut(s: Snap, e: nat) {
    forall f: nat :: f < |s.pool.eps| && f != e && s.pool.eps[f].queue != [] && !s.pool.eps[f].skipped ==>
      f in s.waiting
  }

  lemma TriedAttends(s: Snap, e: nat)
    requires e < |s.pool.eps| && AttendedBut(s, e) && Once(s.waiting)
    requires |s.pool.eps[e].queue| >= 2 && !s.pool.eps[e].skipped ==> e in s.waiting
    ensures Attended(Tried(s, e)) <==> !(s.pool.eps[e].halted && !s.pool.eps[e].skipped && s.pool.eps[e].queue != [])
  {
    hide Once, Handled, Cut;
    var t := Tried(s, e);
    HandledQueues(s.pool, e, s.withData);
    forall f: nat
      ensures f != e ==> (f in Cut(s.waiting, e) <==> f in s.waiting)
      ensures e !in Cut(s.waiting, e)
    {
      CutHas(s.waiting, e, f);
    }
  }

  lemma HandledQueues(s: State, e: nat, withData: set<nat>)
    requires e < |s.eps|
    ensures
      var s' := Handled(s, e, withData);
      && |s'.eps| == |s.eps| && (forall f :: 0 <= f < |s.eps| && f != e ==> s'.eps[f] == s.eps[f])
      && s'.eps[e].skipped == s.eps[e].skipped
      && s'.eps[e].queue == if Runnable(s.eps[e]) && !Short(s, e, withData) then s.eps[e].queue[1..] else s.eps[e].queue
  {
    hide WithGroup;
  }

  /** Everybody stays attended to, unless a request is tried on a halted endpoint. */
  lemma SteppedAttends(n: nat, s: Snap, step: Step, s': Snap)
    requires Sound(n, s.pool) && WaitOk(s.waiting, s.pool.eps) && Attended(s) && Stepped(s, step, s')
    ensures Attended(s') <==> !TriesHalted(s, step)
  {
    hide Sound, Of, Killed, Processed, Handled, WaitAfter, Cut, Once;
    if Enabled(s.pool, step) {
      match step {
        case DoSubmit(ep, req, data) => SubmitAttends(s, ep, req, data);
        case DoCheckQueue =>
          if s.pool.freeList != [] && s.waiting != [] {
            assert s.waiting[0] in s.waiting;
            TriedAttends(s, s.waiting[0]);
          }
        case DoProcess =>
          ProcessedDealt(n, s.pool);
          DealtQueues(s.pool, s'.pool);
        case DoKill(ep) => KillAttends(s, s', ep);
        case DoOpen(ep, control) => OpenAttends(n, s, ep);
        case _ =>
      }
    }
  }

  lemma SubmitAttends(s: Snap, e: nat, r: nat, data: bool)
    requires e < |s.pool.eps| && Attended(s) && Once(s.waiting)
    ensures
      var ep := s.pool.eps[e];
      Attended(Submitted(s, e, r, data)) <==> !(ep.attached && r !in s.pool.busy && ep.halted && !ep.skipped)
  {
    hide Handled, WaitAfter, Once;
    var m := s.(pool := Enqueue(s.pool, e, r), withData := if data then s.withData + {r} else s.withData - {r},
                submits := s.submits + multiset{r});
    TriedAttends(m, e);
  }

  lemma DealtQueues(s: State, s': State)
    requires s.pending != [] && Dealt(s, s')
    ensures |s'.eps| == |s.eps|
    ensures forall f :: 0 <= f < |s.eps| ==> s'.eps[f].queue == s.eps[f].queue && s'.eps[f].skipped == s.eps[f].skipped
  {
  }

  lemma KillAttends(s: Snap, s': Snap, e: nat)
    requires Attended(s) && Killed(s.pool, s'.pool, e) && s'.waiting == Cut(s.waiting, e)
    ensures Attended(s')
  {
    hide Cut, Of, Retired, Ids, Own;
    forall f: nat
      ensures f != e ==> (f in Cut(s.waiting, e) <==> f in s.waiting)
    {
      CutHas(s.waiting, e, f);
    }
  }

  lemma OpenAttends(n: nat, s: Snap, e: nat)
    requires Attended(s) && e < |s.pool.eps|
    ensures forall control: bool :: s.pool.freeList != [] ==> Attended(s.(pool := OpenEp(s.pool, e, control)))
  {
  }

  method Perform(h: Hcd, step: Step)
    requires h.Valid()
    modifies h
    ensures Stepped(old(Now(h)), step, Now(h)) && Tally(h.submits, h.calls, h.drops, h.pool.busy)
    ensures h.Valid() <==> !(Enabled(old(h.pool), step) && KillsTooEarly(old(h.pool), step))
    ensures Partitioned(h.maxTd, h.pool) <==> h.Valid()
  {
    hide Sound, Clear, Tally, WaitOk, Of, Retired, SameOpen, Killed, Accounted, Partitioned, Handled, WaitAfter,
         Processed;
    ValidPlaces(h);
    if !Enabled(h.pool, step) { return; }
    match step {
      case DoOpen(ep, control) => var _ := h.OpenEndpoint(ep, control);
      case DoSubmit(ep, req, data) => var _ := h.AttachIoReq(ep, req, data);
      case DoRetire(ep, code) => h.HcRetire(ep, code);
      case DoInterrupt => h.TakeDoneQueue();
      case DoProcess => h.ProcessDone();
      case DoCallback => var _ := h.RunCallback();
      case DoCheckQueue => h.CheckTdQueue();
      case DoDetach(ep) => h.Detach(ep);
      case DoKill(ep) => h.KillEndpoint(ep);
    }
    if h.Valid() { ValidPlaces(h); }
  }

  /** A kill, which can happen, of an endpoint that has a descriptor in a done queue. */
  predicate Breaks(s: Snap, step: Step) {
    Enabled(s.pool, step) && KillsTooEarly(s.pool, step)
  }

  /** Every run, from the empty pools on, up to a first kill that comes too early, if there is one. `trace[k]` is the
      state before step `k`. As long as no kill comes too early, every descriptor is in one place; such a kill leaves
      one in two. Callbacks never outnumber submissions. */
  method RunAll(maxTd: nat, maxEp: nat, steps: seq<Step>) returns (h: Hcd, done: nat, ghost trace: seq<Snap>)
    ensures h.maxTd == maxTd && done <= |steps| && |trace| == done + 1
    ensures trace[0] == Snap(Initial(maxTd, maxEp), {}, [], multiset{}, multiset{}, multiset{})
    ensures forall k :: 0 <= k < done ==> Stepped(trace[k], steps[k], trace[k + 1]) && !Breaks(trace[k], steps[k])
    ensures forall k :: 0 <= k <= done ==> Partitioned(maxTd, trace[k].pool) && Awake(trace[k].pool)
    ensures (forall k :: 0 <= k < done ==> !TriesHalted(trace[k], steps[k])) ==>
              forall k :: 0 <= k <= done ==> Attended(trace[k])
    ensures if done == |steps| then Now(h) == trace[done] && h.Valid()
            else
              && Breaks(trace[done], steps[done]) && Stepped(trace[done], steps[done], Now(h))
              && !Partitioned(maxTd, h.pool)
    ensures forall r: nat :: h.calls[r] <= h.submits[r]
  {
    hide Sound, Clear, Tally, WaitOk, Places, Accounted, Partitioned, Stepped, Enabled, KillsTooEarly, Awake,
         Attended, TriesHalted;
    h := new Hcd(maxTd, maxEp);
    done := 0;
    trace := [Now(h)];
    InitialAwake(maxTd, maxEp);
    while done < |steps|
      invariant h.Valid() && fresh(h) && done <= |steps| && h.maxTd == maxTd && |trace| == done + 1
      invariant trace[done] == Now(h)
      invariant trace[0] == Snap(Initial(maxTd, maxEp), {}, [], multiset{}, multiset{}, multiset{})
      invariant forall k :: 0 <= k < done ==> Stepped(trace[k], steps[k], trace[k + 1]) && !Breaks(trace[k], steps[k])
      invariant forall k :: 0 <= k < done ==> Partitioned(maxTd, trace[k].pool)
      invariant forall k :: 0 <= k <= done ==> Awake(trace[k].pool)
      invariant (forall k :: 0 <= k < done ==> !TriesHalted(trace[k], steps[k])) ==>
                  forall k :: 0 <= k <= done ==> Attended(trace[k])
    {
      ValidPlaces(h);
      ValidParts(h);
      var breaks := Enabled(h.pool, steps[done]) && KillsTooEarly(h.pool, steps[done]);
      Perform(h, steps[done]);
      CallsWithin(h.submits, h.calls, h.drops, h.pool.busy);
      if breaks { return; }
      SteppedAwake(maxTd, trace[done], steps[done], Now(h));
      if Attended(trace[done]) { SteppedAttends(maxTd, trace[done], steps[done], Now(h)); }
      trace := trace + [Now(h)];
      done := done + 1;
    }
    CallsWithin(h.submits, h.calls, h.drops, h.pool.busy);
    ValidPlaces(h);
  }

  lemma ValidParts(h: Hcd)
    requires h.Valid()
    ensures Sound(h.maxTd, h.pool) && WaitOk(h.waiting, h.pool.eps)
  {
  }

  lemma InitialAwake(n: nat, m: nat)
    ensures Awake(Initial(n, m)) && Attended(Snap(Initial(n, m), {}, [], multiset{}, multiset{}, multiset{}))
  {
  }

  lemma CallsWithin(submits: multiset<nat>, calls: multiset<nat>, drops: multiset<nat>, busy: set<nat>)
    requires Tally(submits, calls, drops, busy)
    ensures forall r: nat :: calls[r] <= submits[r]
  {
  }

  lemma ValidPlaces(h: Hcd)
    requires h.Valid()
    ensures Partitioned(h.maxTd, h.pool)
  {
  }

  /** A bulk transfer fails, and after its callback the next request of the endpoint is served. */
  method ServedAfterFailure(code: nat) returns (h: Hcd)
    requires code != 0
    ensures |h.pool.eps| == 1 && !h.pool.eps[0].halted && h.pool.eps[0].queue == [] && h.calls == multiset{1}
    ensures |h.pool.eps[0].chain| == 1 && h.pool.eps[0].chain[0].req == 2 && h.pool.eps[0].chain[0].final
  {
    hide Sound, Clear, Tally, WaitOk, Killed, Places, Partitioned, SameOpen, Dealt;
    h := FailedTransfer(code);
    ghost var s := h.pool;
    h.TakeDoneQueue();
    FailurePending(s, h.pool, code);
    s := h.pool;
    h.ProcessDone();
    FailureDealt(s, h.pool, code);
    var r := h.RunCallback();
    var rc := h.AttachIoReq(0, 2, false);
    assert h.pool.eps[0].chain[0].req == 2;
  }

  /** The same, but the next request comes before the failure has been dealt with. It stays in the queue, although the
      endpoint could run and there are free descriptors, and is not waited for. */
  method QueuedWhileHalted(code: nat) returns (h: Hcd)
    requires code != 0
    ensures |h.pool.eps| == 1 && Runnable(h.pool.eps[0]) && h.pool.eps[0].queue == [2] && h.pool.eps[0].chain == []
    ensures h.pool.freeList != [] && h.waiting == []
    ensures h.pool.pending == [] && h.pool.doneQueue == [] && h.pool.calling == []
  {
    hide Sound, Clear, Tally, WaitOk, Killed, Places, Partitioned, SameOpen, Dealt;
    h := FailedTransfer(code);
    var rc := h.AttachIoReq(0, 2, false);
    ghost var s := h.pool;
    h.TakeDoneQueue();
    FailurePending(s, h.pool, code);
    s := h.pool;
    h.ProcessDone();
    FailureDealt(s, h.pool, code);
    var r := h.RunCallback();
    h.CheckTdQueue();
  }

  /** A bulk endpoint is opened and its first transfer fails. */
  method FailedTransfer(code: nat) returns (h: Hcd)
    requires code != 0
    ensures fresh(h) && h.Valid() && h.maxTd == 3 && h.waiting == [] && h.calls == multiset{} && h.withData == {}
    ensures h.pool.pending == [] && h.pool.calling == [] && h.pool.doneQueue == [Td(0, true, code, 1, 0)]
    ensures |h.pool.eps| == 1 && h.pool.eps[0] == Endpoint(true, false, true, false, true, [], 1, [])
    ensures h.pool.freeList == [2]
    ensures h.pool.lut == map[0 := 1] && h.pool.epOf == map[1 := 0] && h.pool.busy == {1}
  {
    hide Sound, Clear, Tally, WaitOk, Killed, Places, Partitioned, SameOpen;
    h := new Hcd(3, 1);
    ghost var s := h.pool;
    var ok := h.OpenEndpoint(0, false);
    var rc := h.AttachIoReq(0, 1, false);
    BulkStarted(s, h.pool, h.withData);
    h.HcRetire(0, code);
  }

  lemma BulkStarted(s: State, t: State, withData: set<nat>)
    requires s == Initial(3, 1) && t == Handled(Enqueue(OpenEp(s, 0, false), 0, 1), 0, withData)
    ensures |t.eps| == 1 && t.eps[0] == Endpoint(true, false, true, false, false, [Td(0, true, 0, 1, 0)], 1, [])
    ensures t.pending == [] && t.doneQueue == [] && t.calling == [] && t.freeList == [2]
    ensures t.lut == map[0 := 1] && t.epOf == map[1 := 0] && t.busy == {1}
  {
    var s1 := Enqueue(OpenEp(s, 0, false), 0, 1);
    assert s.freeList == [0, 1, 2];
    assert s1.freeList == [1, 2];
    var queue: seq<nat> := [1];
    assert [] + queue == queue && queue[1..] == [];
    assert |s1.eps| == 1 && s1.eps[0] == Endpoint(true, false, true, false, false, [], 0, queue);
    var td := Td(0, true, 0, 1, 0);
    assert [td][..0] == [];
  }

  lemma FailurePending(s: State, t: State, code: nat)
    requires s.doneQueue == [Td(0, true, code, 1, 0)] && t == TakeDone(s)
    ensures t.pending == [Td(0, true, code, 1, 0)] && t.doneQueue == []
  {
    assert s.doneQueue[1..] == [];
    assert Reverse([]) == [];
  }

  lemma FailureDealt(s: State, t: State, code: nat)
    requires s.pending == [Td(0, true, code, 1, 0)] && code != 0 && t == Processed(s)
    requires |s.eps| == 1 && s.eps[0].chain == [] && s.lut == map[0 := 1]
    ensures t.pending == [] && t.calling == [1]
    ensures t.eps == [s.eps[0].(halted := false)] && t.freeList == [0] + s.freeList
    ensures t.lut == map[] && t.epOf == s.epOf && t.doneQueue == s.doneQueue && t.busy == s.busy
  {
  }

  /** A run to such a kill: the setup stage of a control transfer, which asks for no interrupt, is retired, and
      the device goes before anything else is. The endpoint is killed with descriptor 0 still in the done queue,
      so that it is in two places. */
  method KillInTransfer() returns (h: Hcd)
    ensures Places(h.pool, 0) == 2 && !Partitioned(3, h.pool)
  {
    hide Sound, Clear, Tally, WaitOk, Of, Retired, SameOpen, Killed, Places, Partitioned;
    h := new Hcd(3, 1);
    ghost var s := h.pool;
    var ok := h.OpenEndpoint(0, true);
    var rc := h.AttachIoReq(0, 7, false);
    TransferStarted(s, h.pool, h.withData);
    h.HcRetire(0, 0);
    h.Detach(0);
    s := h.pool;
    SetupRetired(s);
    ValidMeans(h, 0, 0);
    h.KillEndpoint(0);
    KillPlaces(s, h.pool, 0, 0);
  }

  lemma TransferStarted(s: State, t: State, withData: set<nat>)
    requires s == Initial(3, 1) && 7 !in withData && t == Handled(Enqueue(OpenEp(s, 0, true), 0, 7), 0, withData)
    ensures |t.eps| == 1 && t.eps[0].isOpen && !t.eps[0].halted && t.eps[0].chain == Stages(0, NULL, 1, 7, 0)
    ensures t.pending == [] && t.doneQueue == [] && t.calling == []
  {
    hide WithGroup;
    var s1 := Enqueue(OpenEp(s, 0, true), 0, 7);
    assert s.freeList == [0, 1, 2];
    assert s1.freeList == [1, 2];
    var queue: seq<nat> := [7];
    assert [] + queue == queue;
    assert |s1.eps| == 1 && s1.eps[0] == Endpoint(true, true, true, false, false, [], 0, queue);
  }

  lemma SetupRetired(s: State)
    requires s.pending == [] && s.doneQueue == [Td(0, false, 0, 7, 0)]
    ensures Of(Retired(s), 0) == [Td(0, false, 0, 7, 0)] && Ids(Of(Retired(s), 0))[0] == 1
  {
    var td := Td(0, false, 0, 7, 0);
    IdsOne(td);
    assert s.doneQueue[1..] == [];
    assert Reverse(s.doneQueue) == [td];
    assert Retired(s) == [td];
    assert [td][..0] == [];
  }

  /** What the invariant means for one descriptor and one request: the descriptor is in exactly one place, and
      the request was called back at most as often as it was submitted. */
  lemma ValidMeans(h: Hcd, td: nat, r: nat)
    requires h.Valid()
    ensures Places(h.pool, td) == if td < h.maxTd then 1 else 0
    ensures h.calls[r] <= h.submits[r] && (r !in h.pool.busy ==> h.calls[r] + h.drops[r] == h.submits[r])
  {
  }
}
