/**
 The remaining steps of the USB host driver: taking requests, setting up descriptors for them,
 opening and killing endpoints.
 */
module UsbSetup {
  import opened UsbState
  import opened UsbSteps

  // ----- steps that leave all lines alone -----

  /** `s'` has the lines of `s`, and requests in descriptors kept their endpoints. */
  ghost predicate SameLines(s: State, s': State) {
    && |s'.eps| == |s.eps| && s'.lut == s.lut && s'.pending == s.pending && s'.doneQueue == s.doneQueue
    && (forall f :: 0 <= f < |s.eps| ==> SameLine(s.eps[f], s'.eps[f]))
    && (forall r :: r in s.lut.Values && r in s.epOf ==> r in s'.epOf && s'.epOf[r] == s.epOf[r])
  }

  ghost predicate SameLine(e: Endpoint, e': Endpoint) {
    e'.chain == e.chain && e'.isOpen == e.isOpen && e'.halted == e.halted
  }

  lemma SameLinesKeep(n: nat, s: State, s': State)
    requires Sound(n, s) && SameLines(s, s')
    ensures TableOk(s') && forall f :: 0 <= f < |s'.eps| ==> LineOk(s', f)
  {
    hide Of, Ids, Reverse, Grouped, FailsLast, Places, Uses;
    assert Retired(s') == Retired(s);
    forall f: nat | f < |s'.eps|
      ensures LineOk(s', f) && Line(s', f) == Line(s, f)
    {
      assert EpOk(s, f) && SameLine(s.eps[f], s'.eps[f]);
      forall i | 0 <= i < |Line(s, f)|
        ensures Known(s', Line(s, f)[i])
      {
        var td := Line(s, f)[i];
        assert Known(s, td) && td.req in s.lut.Values;
        assert SameLine(s.eps[td.ep], s'.eps[td.ep]);
      }
    }
    forall id: nat | id in s'.lut
      ensures Listed(s', id)
    {
      assert Listed(s, id);
    }
  }

  /** A request joins the queue of an endpoint. */
  function Enqueue(s: State, e: nat, r: nat): State
    requires e < |s.eps|
  {
    s.(eps := s.eps[e := s.eps[e].(queue := s.eps[e].queue + [r])], epOf := s.epOf[r := e], busy := s.busy + {r})
  }

  lemma NotBusy(n: nat, s: State, r: nat)
    requires Sound(n, s) && r !in s.busy
    ensures r !in s.lut.Values && r !in s.calling && forall f :: 0 <= f < |s.eps| ==> r !in s.eps[f].queue
  {
    hide Queued, Chains, EpOk, TableOk, Places;
    assert Uses(s, r) == 0;
    forall f | 0 <= f < |s.eps|
      ensures r !in s.eps[f].queue
    {
      QueuedUpdate(s.eps, f, s.eps[f]);
      assert multiset(s.eps[f].queue)[r] == 0;
    }
  }

  lemma EnqueueKeeps(n: nat, s: State, e: nat, r: nat)
    requires Sound(n, s) && Clear(s) && e < |s.eps| && s.eps[e].isOpen && r !in s.busy
    ensures Sound(n, Enqueue(s, e, r)) && Clear(Enqueue(s, e, r))
  {
    hide Queued, Chains, Ids, TableOk, LineOk, Places, Uses;
    var s' := Enqueue(s, e, r);
    NotBusy(n, s, r);
    SameLinesKeep(n, s, s');
    forall k: nat
      ensures Places(s', k) == Places(s, k) && Uses(s', k) == if k in s'.busy then 1 else 0
    {
      EnqueueCounts(s, e, r, k);
      assert Uses(s, k) == if k in s.busy then 1 else 0;
    }
    forall f | 0 <= f < |s'.eps|
      ensures EpOk(s', f)
    {
      assert EpOk(s, f);
    }
  }

  lemma EnqueueCounts(s: State, e: nat, r: nat, k: nat)
    requires e < |s.eps|
    ensures Places(Enqueue(s, e, r), k) == Places(s, k)
    ensures Uses(Enqueue(s, e, r), k) == Uses(s, k) + if k == r then 1 else 0
  {
    hide Queued, Chains, Ids;
    var ep := Enqueue(s, e, r).eps[e];
    ChainsSame(s.eps, e, ep);
    QueuedUpdate(s.eps, e, ep);
  }

  /** Flags of an endpoint change that no invariant speaks of. */
  lemma FlagsKeep(n: nat, s: State, e: nat, ep: Endpoint)
    requires Sound(n, s) && Clear(s) && e < |s.eps| && ep == s.eps[e].(attached := ep.attached, skipped := ep.skipped)
    ensures Sound(n, s.(eps := s.eps[e := ep])) && Clear(s.(eps := s.eps[e := ep]))
  {
    hide Queued, Chains, Ids, TableOk, LineOk;
    var s' := s.(eps := s.eps[e := ep]);
    SameLinesKeep(n, s, s');
    ChainsSame(s.eps, e, ep);
    QueuedSame(s.eps, e, ep);
    forall k: nat
      ensures Places(s', k) == Places(s, k) && Uses(s', k) == Uses(s, k)
    {
    }
    forall f | 0 <= f < |s'.eps|
      ensures EpOk(s', f)
    {
      assert EpOk(s, f);
    }
  }

  // ----- setting up descriptors -----

  function WithGroup(lut: map<nat, nat>, group: seq<Td>): map<nat, nat> {
    if group == [] then lut else WithGroup(lut, group[..|group| - 1])[group[|group| - 1].id := group[|group| - 1].req]
  }

  lemma {:induction false} WithGroupHas(lut: map<nat, nat>, group: seq<Td>, r: nat)
    requires forall i :: 0 <= i < |group| ==> group[i].req == r
    ensures forall id: nat :: id in Ids(group) ==> id in WithGroup(lut, group) && WithGroup(lut, group)[id] == r
    ensures forall id: nat :: id !in Ids(group) ==>
              (id in WithGroup(lut, group) <==> id in lut) && (id in lut ==> WithGroup(lut, group)[id] == lut[id])
  {
    if group != [] { WithGroupHas(lut, group[..|group| - 1], r); }
  }

  /** `group` is what the first request of the queue is set up with: it begins with the tail, only its last
      descriptor is final, and the others and the new tail were free. */
  ghost predicate GroupFor(s: State, e: nat, group: seq<Td>, tail: nat, free: seq<nat>) {
    && e < |s.eps| && s.eps[e].isOpen && s.eps[e].queue != [] && group != [] && group[0].id == s.eps[e].tail
    && (forall i :: 0 <= i < |group| ==> group[i].req == s.eps[e].queue[0] && group[i].ep == e && group[i].code == 0)
    && (forall i :: 0 <= i < |group| ==> (group[i].final <==> i == |group| - 1))
    && multiset(s.freeList) == multiset(free) + Ids(group[1..]) + multiset{tail}
  }

  function SetUp(s: State, e: nat, group: seq<Td>, tail: nat, free: seq<nat>): State
    requires e < |s.eps| && s.eps[e].queue != []
  {
    var ep := s.eps[e];
    s.(freeList := free, lut := WithGroup(s.lut, group),
       eps := s.eps[e := ep.(chain := ep.chain + group, tail := tail, queue := ep.queue[1..])])
  }

  /** Free descriptors and tails are not in the look-up table. */
  lemma NotInTable(n: nat, s: State, e: nat, id: nat)
    requires Sound(n, s) && e < |s.eps| && s.eps[e].isOpen && (id in s.freeList || id == s.eps[e].tail)
    ensures id !in s.lut
  {
    hide Queued, Chains, Ids, Of, Uses, Grouped, FailsLast, Line, Retired;
    assert Places(s, id) <= 1;
    if id in s.lut {
      assert Listed(s, id);
      var f := s.epOf[s.lut[id]];
      assert EpOk(s, f);
      LineSplit(s, f, id);
      OwnTwo(s.eps, e, f, id);
    }
  }

  lemma OwnTwo(eps: seq<Endpoint>, e: nat, f: nat, k: nat)
    requires e < |eps| && f < |eps|
    ensures Own(eps[e])[k] <= Chains(eps)[k] && (e != f ==> Own(eps[e])[k] + Own(eps[f])[k] <= Chains(eps)[k])
  {
    hide Chains;
    var shut := eps[e].(isOpen := false);
    ChainsUpdate(eps, e, shut);
    ChainsUpdate(eps[e := shut], f, eps[e := shut][f]);
    assert Chains(eps[e := shut])[k] + Own(eps[e])[k] == Chains(eps)[k] + Own(shut)[k];
  }

  lemma LineSplit(s: State, e: nat, k: nat)
    requires e < |s.eps| && LineOk(s, e) && k in Ids(Line(s, e))
    ensures Ids(s.pending)[k] + Ids(s.doneQueue)[k] + Ids(s.eps[e].chain)[k] >= 1
    ensures s.eps[e].isOpen
  {
    hide Ids, Of, Grouped, FailsLast;
    var r, c := Retired(s), s.eps[e].chain;
    IdsConcat(Of(r, e), c);
    OfIds(r, e, k);
    IdsConcat(s.pending, Reverse(s.doneQueue));
    ReverseIds(s.doneQueue);
    NoIds();
    var i := IdsIndex(Line(s, e), k);
    OpenIfKnown(s, Line(s, e)[i]);
  }

  lemma SetUpLines(s: State, e: nat, group: seq<Td>, tail: nat, free: seq<nat>, f: nat)
    requires GroupFor(s, e, group, tail, free) && f < |s.eps|
    ensures Retired(SetUp(s, e, group, tail, free)) == Retired(s)
    ensures Line(SetUp(s, e, group, tail, free), f) == if f == e then Line(s, e) + group else Line(s, f)
  {
    hide Of, Reverse;
  }

  lemma {:induction false} GroupIds(n: nat, s: State, e: nat, group: seq<Td>, tail: nat, free: seq<nat>, id: nat)
    requires Sound(n, s) && GroupFor(s, e, group, tail, free) && id in Ids(group)
    ensures id !in s.lut
  {
    hide Ids, Sound;
    IdsFirst(group);
    if id != s.eps[e].tail {
      assert id in multiset(s.freeList);
    }
    NotInTable(n, s, e, id);
  }

  lemma SetUpTable(n: nat, s: State, e: nat, group: seq<Td>, tail: nat, free: seq<nat>)
    requires Sound(n, s) && GroupFor(s, e, group, tail, free)
    ensures
      var lut := SetUp(s, e, group, tail, free).lut;
      && (forall id: nat :: id in Ids(group) ==> id in lut && lut[id] == s.eps[e].queue[0])
      && (forall id: nat :: id in s.lut ==> id in lut && lut[id] == s.lut[id])
      && (forall id: nat :: id in lut ==> id in Ids(group) || id in s.lut)
      && (forall r: nat :: r in lut.Values <==> r in s.lut.Values || r == s.eps[e].queue[0])
  {
    hide Ids, Sound, WithGroup;
    var lut, r0 := WithGroup(s.lut, group), s.eps[e].queue[0];
    WithGroupHas(s.lut, group, r0);
    forall id: nat | id in s.lut
      ensures id in lut && lut[id] == s.lut[id]
    {
      if id in Ids(group) { GroupIds(n, s, e, group, tail, free, id); }
    }
    IdsHas(group, 0);
    assert lut[group[0].id] == r0;
    forall r: nat
      ensures r in lut.Values <==> r in s.lut.Values || r == r0
    {
      if r in s.lut.Values {
        var id :| id in s.lut && s.lut[id] == r;
        assert lut[id] == r;
      }
    }
  }

  lemma SetUpLineOk(n: nat, s: State, e: nat, group: seq<Td>, tail: nat, free: seq<nat>, f: nat)
    requires Sound(n, s) && GroupFor(s, e, group, tail, free) && f < |s.eps| && s.eps[e].queue[0] !in s.lut.Values
    ensures EpOk(SetUp(s, e, group, tail, free), f)
  {
    hide Ids, Of, Retired, Line, WithGroup, Uses, Places, Grouped, FailsLast;
    var s', r0 := SetUp(s, e, group, tail, free), s.eps[e].queue[0];
    assert EpOk(s, f) && EpOk(s, e);
    SetUpLines(s, e, group, tail, free, f);
    SetUpTable(n, s, e, group, tail, free);
    forall i: nat | i < |Line(s', f)|
      ensures Known(s', Line(s', f)[i]) && Line(s', f)[i].ep == f
    {
      if i < |Line(s, f)| {
        assert Known(s, Line(s, f)[i]);
      } else {
        IdsHas(group, i - |Line(s, f)|);
      }
    }
    if f == e {
      forall i | 0 <= i < |Line(s, e)|
        ensures Line(s, e)[i].req != r0
      {
        assert Known(s, Line(s, e)[i]);
      }
      GroupIsGrouped(s, e, group, tail, free);
      GroupedMore(Line(s, e), group);
    }
  }

  lemma GroupIsGrouped(s: State, e: nat, group: seq<Td>, tail: nat, free: seq<nat>)
    requires GroupFor(s, e, group, tail, free)
    ensures Grouped(group)
  {
    hide Ids;
  }

  lemma SetUpUses(n: nat, s: State, e: nat, group: seq<Td>, tail: nat, free: seq<nat>, r: nat)
    requires Sound(n, s) && GroupFor(s, e, group, tail, free)
    ensures Uses(SetUp(s, e, group, tail, free), r) == Uses(s, r)
    ensures s.eps[e].queue[0] !in s.lut.Values || s.eps[e].queue[0] in s.calling
    ensures s.eps[e].queue[0] !in s.calling
  {
    hide Ids, Queued, WithGroup, EpOk, TableOk, Places;
    var s', q := SetUp(s, e, group, tail, free), s.eps[e].queue;
    SetUpTable(n, s, e, group, tail, free);
    QueuedUpdate(s.eps, e, s'.eps[e]);
    assert q == [q[0]] + q[1..];
    assert multiset(q) == multiset{q[0]} + multiset(q[1..]);
    assert Uses(s, q[0]) <= 1;
  }

  lemma SetUpPlaces(s: State, e: nat, group: seq<Td>, tail: nat, free: seq<nat>, k: nat)
    requires GroupFor(s, e, group, tail, free)
    ensures Places(SetUp(s, e, group, tail, free), k) == Places(s, k)
  {
    hide Ids, Chains, WithGroup;
    var s', ep := SetUp(s, e, group, tail, free), s.eps[e];
    ChainsUpdate(s.eps, e, s'.eps[e]);
    IdsConcat(ep.chain, group);
    IdsFirst(group);
    assert multiset(s.freeList)[k] == (multiset(free) + Ids(group[1..]) + multiset{tail})[k];
  }

  lemma SetUpKeeps(n: nat, s: State, e: nat, group: seq<Td>, tail: nat, free: seq<nat>)
    requires Sound(n, s) && Clear(s) && GroupFor(s, e, group, tail, free)
    ensures Sound(n, SetUp(s, e, group, tail, free)) && Clear(SetUp(s, e, group, tail, free))
  {
    hide Ids, Of, Retired, Line, WithGroup, Uses, Places, LineOk;
    var s' := SetUp(s, e, group, tail, free);
    SetUpUses(n, s, e, group, tail, free, 0);
    forall k: nat
      ensures Places(s', k) == Places(s, k) && Uses(s', k) == Uses(s, k)
    {
      SetUpPlaces(s, e, group, tail, free, k);
      SetUpUses(n, s, e, group, tail, free, k);
    }
    SetUpLines(s, e, group, tail, free, e);
    SetUpTable(n, s, e, group, tail, free);
    forall f: nat | f < |s'.eps|
      ensures EpOk(s', f)
    {
      SetUpLineOk(n, s, e, group, tail, free, f);
    }
    forall id: nat | id in s'.lut
      ensures Listed(s', id)
    {
      SetUpListed(n, s, e, group, tail, free, id);
    }
  }

  lemma SetUpListed(n: nat, s: State, e: nat, group: seq<Td>, tail: nat, free: seq<nat>, id: nat)
    requires Sound(n, s) && GroupFor(s, e, group, tail, free) && id in SetUp(s, e, group, tail, free).lut
    ensures Listed(SetUp(s, e, group, tail, free), id)
  {
    hide Ids, Of, Retired, Line, WithGroup, Uses, Places, LineOk;
    SetUpTable(n, s, e, group, tail, free);
    IdsConcat(Line(s, e), group);
    assert EpOk(s, e);
    if id in s.lut {
      assert Listed(s, id);
      SetUpLines(s, e, group, tail, free, s.epOf[s.lut[id]]);
    } else {
      SetUpLines(s, e, group, tail, free, e);
    }
  }

  // ----- opening and killing endpoints -----

  const SHUT := Endpoint(false, false, false, false, false, [], 0, [])

  /** An endpoint gets a free descriptor as its tail. */
  function OpenEp(s: State, e: nat, control: bool): State
    requires e < |s.eps| && s.freeList != []
  {
    s.(freeList := s.freeList[1..],
        eps := s.eps[e := Endpoint(true, control, true, false, false, [], s.freeList[0], [])])
  }

  lemma ClosedLine(s: State, e: nat)
    requires e < |s.eps| && LineOk(s, e) && !s.eps[e].isOpen
    ensures Line(s, e) == [] && s.eps[e].chain == [] && Of(Retired(s), e) == []
  {
    hide Of, Retired, Grouped, FailsLast;
    if Line(s, e) != [] { OpenIfKnown(s, Line(s, e)[0]); }
  }

  lemma OpenCounts(s: State, e: nat, control: bool, k: nat)
    requires e < |s.eps| && s.freeList != [] && !s.eps[e].isOpen && s.eps[e].queue == []
    ensures Places(OpenEp(s, e, control), k) == Places(s, k) && Uses(OpenEp(s, e, control), k) == Uses(s, k)
  {
    hide Queued, Chains;
    var s' := OpenEp(s, e, control);
    ChainsUpdate(s.eps, e, s'.eps[e]);
    QueuedSame(s.eps, e, s'.eps[e]);
    assert s.freeList == [s.freeList[0]] + s'.freeList;
    assert multiset(s.freeList) == multiset{s.freeList[0]} + multiset(s'.freeList);
  }

  /** Same lines everywhere, if endpoint `e`, whose line is empty, is taken out of account. */
  lemma ExceptOne(n: nat, s: State, s': State, e: nat)
    requires Sound(n, s) && e < |s.eps| == |s'.eps| && s'.eps == s.eps[e := s'.eps[e]] && s'.epOf == s.epOf
    requires s'.pending == s.pending && s'.doneQueue == s.doneQueue && Of(Retired(s), e) == [] && s'.eps[e].chain == []
    requires forall id: nat :: id in s.lut && s.epOf[s.lut[id]] != e ==> id in s'.lut
    requires forall id: nat :: id in s'.lut ==> id in s.lut && s'.lut[id] == s.lut[id] && s.epOf[s.lut[id]] != e
    ensures TableOk(s') && forall f :: 0 <= f < |s'.eps| ==> LineOk(s', f)
  {
    hide Of, Ids, Reverse, Grouped, Places, Uses;
    assert Retired(s') == Retired(s);
    forall f: nat | f < |s'.eps|
      ensures LineOk(s', f) && (f != e ==> Line(s', f) == Line(s, f))
    {
      assert EpOk(s, f);
      if f == e {
        EmptyGrouped();
      } else {
        forall i | 0 <= i < |Line(s, f)|
          ensures Known(s', Line(s, f)[i])
        {
          assert Known(s, Line(s, f)[i]);
        }
      }
    }
    forall id: nat | id in s'.lut
      ensures Listed(s', id)
    {
      assert Listed(s, id);
    }
  }

  lemma EmptyGrouped()
    ensures Grouped([])
  {
  }

  lemma OpenKeeps(n: nat, s: State, e: nat, control: bool)
    requires Sound(n, s) && Clear(s) && e < |s.eps| && s.freeList != [] && !s.eps[e].isOpen
    ensures Sound(n, OpenEp(s, e, control)) && Clear(OpenEp(s, e, control))
  {
    hide Queued, Chains, Ids, TableOk, LineOk, Of, Retired, Places, Uses, Line;
    var s' := OpenEp(s, e, control);
    assert EpOk(s, e);
    ClosedLine(s, e);
    forall id: nat | id in s.lut
      ensures id in s.lut && s.lut[id] in s.epOf && s.epOf[s.lut[id]] != e
    {
      InTable(n, s, id);
      NoIds();
    }
    ExceptOne(n, s, s', e);
    forall k: nat
      ensures Places(s', k) == Places(s, k) && Uses(s', k) == Uses(s, k)
    {
      OpenCounts(s, e, control, k);
    }
    forall f | 0 <= f < |s'.eps|
      ensures EpOk(s', f)
    {
      assert EpOk(s, f);
    }
  }

  lemma InTable(n: nat, s: State, id: nat)
    requires Sound(n, s) && id in s.lut
    ensures s.lut[id] in s.epOf && s.epOf[s.lut[id]] < |s.eps| && id in Ids(Line(s, s.epOf[s.lut[id]]))
  {
    assert Listed(s, id);
  }

  /** Descriptor `id` is set up for endpoint `e`. */
  predicate Goes(s: State, e: nat, id: nat) {
    id in s.lut && s.lut[id] in s.epOf && s.epOf[s.lut[id]] == e
  }

  /** Requests that go with an endpoint: those in its descriptors and in its queue. */
  ghost function Doomed(s: State, e: nat): set<nat>
    requires e < |s.eps|
  {
    (set id | id in s.lut.Keys && Goes(s, e, id) :: s.lut[id]) + Elems(s.eps[e].queue)
  }

  ghost function Elems(q: seq<nat>): set<nat> {
    set r | r in q
  }

  /** The endpoint is gone: its descriptors and those the controller has retired are free, its requests dropped. */
  ghost predicate Killed(s: State, s': State, e: nat) {
    && e < |s.eps| && s'.eps == s.eps[e := SHUT] && s'.epOf == s.epOf && s'.pending == s.pending
    && s'.doneQueue == s.doneQueue
    && s'.calling == s.calling && s'.busy == s.busy - Doomed(s, e)
    && multiset(s'.freeList) == multiset(s.freeList) + Own(s.eps[e]) + Ids(Of(Retired(s), e))
    && (forall id: nat :: id in s.lut && s.lut[id] in s.epOf && s.epOf[s.lut[id]] != e ==> id in s'.lut)
    && (forall id: nat :: id in s'.lut ==>
        id in s.lut && s'.lut[id] == s.lut[id] && s.lut[id] in s.epOf && s.epOf[s.lut[id]] != e)
  }

  lemma KillPlaces(s: State, s': State, e: nat, k: nat)
    requires Killed(s, s', e)
    ensures Places(s', k) == Places(s, k) + Ids(Of(Retired(s), e))[k]
  {
    hide Chains, Ids, Own, Of, Retired;
    ChainsUpdate(s.eps, e, SHUT);
    assert Own(SHUT) == multiset{} by { ShutOwns(); }
    assert multiset(s'.freeList)[k] == (multiset(s.freeList) + Own(s.eps[e]) + Ids(Of(Retired(s), e)))[k];
    assert Chains(s.eps[e := SHUT])[k] + Own(s.eps[e])[k] == Chains(s.eps)[k] + Own(SHUT)[k];
  }

  lemma ShutOwns()
    ensures Own(SHUT) == multiset{}
  {
  }

  lemma KillValues(n: nat, s: State, s': State, e: nat, r: nat)
    requires Sound(n, s) && Killed(s, s', e)
    ensures r in s'.lut.Values <==> r in s.lut.Values && r in s.epOf && s.epOf[r] != e
    ensures r in s.lut.Values && r in s.epOf && s.epOf[r] == e ==> r in Doomed(s, e)
    ensures r in Doomed(s, e) ==> (r in s.lut.Values && r in s.epOf && s.epOf[r] == e) || r in s.eps[e].queue
    ensures r in s.lut.Values ==> r in s.epOf
  {
    hide EpOk, Places, Uses, Queued, Own, Line, Ids;
    if r in s.lut.Values {
      var id :| id in s.lut && s.lut[id] == r;
      assert Listed(s, id);
    }
  }

  lemma KillUses(n: nat, s: State, s': State, e: nat, r: nat)
    requires Sound(n, s) && Clear(s) && Killed(s, s', e)
    requires forall k :: 0 <= k < |s.calling| ==> s.epOf[s.calling[k]] != e
    ensures Uses(s', r) == if r in s'.busy then 1 else 0
  {
    hide Queued, Own, TableOk, LineOk, Places;
    assert EpOk(s, e);
    KillValues(n, s, s', e, r);
    QueuedUpdate(s.eps, e, SHUT);
    assert Uses(s, r) == if r in s.busy then 1 else 0;
    assert multiset(SHUT.queue)[r] == 0;
    assert r in s.eps[e].queue <==> multiset(s.eps[e].queue)[r] > 0;
    assert Queued(s.eps[e := SHUT])[r] + multiset(s.eps[e].queue)[r] == Queued(s.eps)[r] + multiset(SHUT.queue)[r];
  }

  /** Requests stay accounted for. But a retired descriptor is free now and still in the done queue, so every
      descriptor is in one place exactly if there was none. */
  lemma KillKeeps(n: nat, s: State, s': State, e: nat)
    requires Sound(n, s) && Clear(s) && Killed(s, s', e)
    requires forall k :: 0 <= k < |s.calling| ==> s.epOf[s.calling[k]] != e
    ensures Accounted(s') && (Partitioned(n, s') <==> Of(Retired(s), e) == [])
    ensures Of(Retired(s), e) == [] ==> Sound(n, s') && Clear(s')
  {
    hide Queued, Chains, Ids, TableOk, EpOk, Of, Retired, Places, Uses, Own, Doomed;
    NoIds();
    forall k: nat
      ensures Places(s', k) == Places(s, k) + Ids(Of(Retired(s), e))[k] && Uses(s', k) == if k in s'.busy then 1 else 0
    {
      KillPlaces(s, s', e, k);
      KillUses(n, s, s', e, k);
    }
    if Of(Retired(s), e) == [] {
      KillSound(n, s, s', e);
    } else {
      var id: nat := Of(Retired(s), e)[0].id;
      IdsHas(Of(Retired(s), e), 0);
      assert Places(s', id) > Places(s, id);
    }
  }

  lemma KillSound(n: nat, s: State, s': State, e: nat)
    requires Sound(n, s) && Clear(s) && Killed(s, s', e) && Partitioned(n, s') && Accounted(s')
    requires Of(Retired(s), e) == []
    requires forall k :: 0 <= k < |s.calling| ==> s.epOf[s.calling[k]] != e
    ensures Sound(n, s') && Clear(s')
  {
    hide Queued, Chains, Ids, TableOk, LineOk, Of, Retired, Places, Uses, Line, Own, Doomed;
    forall id: nat | id in s.lut
      ensures id in s.lut && s.lut[id] in s.epOf
    {
      InTable(n, s, id);
    }
    ExceptOne(n, s, s', e);
    forall f | 0 <= f < |s'.eps|
      ensures EpOk(s', f)
    {
      assert EpOk(s, f);
    }
    forall r: nat | r in s'.calling
      ensures r !in s'.lut.Values
    {
      KillValues(n, s, s', e, r);
    }
  }
}
