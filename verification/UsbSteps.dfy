/**
 The steps of the USB host driver as functions of its state, each with the proof that it
 keeps descriptors and requests accounted for.
 */
module UsbSteps {
  import opened UsbState

  // ----- interrupts -----

  /** An interrupt takes the controller's done queue and turns it round. */
  function TakeDone(s: State): State {
    s.(pending := Reverse(s.doneQueue), doneQueue := [])
  }

  lemma TakeDoneKeeps(n: nat, s: State)
    requires Sound(n, s) && s.pending == []
    ensures Sound(n, TakeDone(s))
  {
    hide Chains, Queued, Ids, Of;
    var s' := TakeDone(s);
    assert Retired(s') == Retired(s);
    ReverseIds(s.doneQueue);
    assert Ids([]) == multiset{} by { NoIds(); }
    forall k: nat
      ensures Places(s', k) == Places(s, k) && Uses(s', k) == Uses(s, k)
    {
    }
    forall f | 0 <= f < |s'.eps|
      ensures EpOk(s', f) && Line(s', f) == Line(s, f)
    {
      assert EpOk(s, f);
    }
    forall id: nat | id in s'.lut
      ensures Listed(s', id)
    {
      assert Listed(s, id);
    }
  }

  lemma NoIds()
    ensures Ids([]) == multiset{}
  {
  }

  // ----- a descriptor leaves its line -----

  lemma IdsOne(td: Td)
    ensures Ids([td]) == multiset{td.id}
  {
    assert [td][..0] == [];
  }

  lemma {:induction false} OfIds(s: seq<Td>, e: nat, k: nat)
    ensures Ids(Of(s, e))[k] <= Ids(s)[k]
  {
    if s != [] {
      var front, td := s[..|s| - 1], s[|s| - 1];
      OfIds(front, e, k);
      assert s == front + [td];
      IdsConcat(front, [td]);
      IdsOne(td);
      if td.ep == e {
        IdsConcat(Of(front, e), [td]);
      } else {
        assert Of(s, e) == Of(front, e);
      }
    }
  }

  lemma LineIds(s: State, e: nat, k: nat)
    requires e < |s.eps| && LineOk(s, e)
    ensures Ids(Line(s, e))[k] <= Places(s, k)
  {
    hide Chains, Ids, Of, Grouped, FailsLast;
    var r, c := Retired(s), s.eps[e].chain;
    IdsConcat(Of(r, e), c);
    OfIds(r, e, k);
    IdsConcat(s.pending, Reverse(s.doneQueue));
    ReverseIds(s.doneQueue);
    NoIds();
    ChainsUpdate(s.eps, e, s.eps[e]);
    if c != [] { HeadOfChain(s, e); }
  }

  lemma HeadOnce(n: nat, s: State, e: nat)
    requires Partitioned(n, s) && e < |s.eps| && LineOk(s, e) && Line(s, e) != []
    ensures Line(s, e)[0].id !in Ids(Line(s, e)[1..])
  {
    hide Ids, Places, Grouped, FailsLast;
    var l := Line(s, e);
    IdsFirst(l);
    LineIds(s, e, l[0].id);
    assert Places(s, l[0].id) <= 1;
  }

  /** `s'` is `s` after the head of the line of endpoint `e` left it and the look-up table. */
  ghost predicate LeftLine(s: State, s': State, e: nat) {
    && e < |s.eps| == |s'.eps| && Line(s, e) != [] && s'.epOf == s.epOf && s'.lut == s.lut - {Line(s, e)[0].id}
    && (forall f :: 0 <= f < |s.eps| ==> Line(s', f) == if f == e then Line(s, e)[1..] else Line(s, f))
    && (forall f :: 0 <= f < |s.eps| ==> OutOf(s, s', e, f))
  }

  /** What has left is the first retired descriptor or, if there is none, the first of the chain. */
  ghost predicate OutOf(s: State, s': State, e: nat, f: nat)
    requires f < |s.eps| == |s'.eps|
  {
    var r, r', mine := Of(Retired(s), f), Of(Retired(s'), f), f == e;
    && s'.eps[f].isOpen == s.eps[f].isOpen && s'.eps[f].queue == s.eps[f].queue && s'.eps[f].halted == s.eps[f].halted
    && (if mine && r != [] then r' == r[1..] else r' == r)
    && (if mine && r == [] then s.eps[f].chain != [] && s'.eps[f].chain == s.eps[f].chain[1..]
        else s'.eps[f].chain == s.eps[f].chain)
  }

  lemma LeftKnown(n: nat, s: State, s': State, e: nat, f: nat, i: nat)
    requires Sound(n, s) && LeftLine(s, s', e) && f < |s.eps| && i < |Line(s', f)|
    ensures Known(s', Line(s', f)[i]) && Line(s', f)[i].ep == f
  {
    hide Ids, Places, Uses, Grouped, FailsLast, Of, Retired, Line;
    assert EpOk(s, e) && EpOk(s, f);
    var td := Line(s', f)[i];
    assert td == if f == e then Line(s, e)[i + 1] else Line(s, f)[i];
    HeadOnce(n, s, e);
    if f == e { IdsHas(Line(s, e)[1..], i); }
    assert OutOf(s, s', e, f);
  }

  lemma LeftLineOk(n: nat, s: State, s': State, e: nat, f: nat)
    requires Sound(n, s) && LeftLine(s, s', e) && f < |s.eps|
    ensures EpOk(s', f)
  {
    hide Ids, Places, Uses, Of, Retired, Line, Known, Grouped;
    assert EpOk(s, e) && EpOk(s, f);
    forall i: nat | i < |Line(s', f)|
      ensures Known(s', Line(s', f)[i]) && Line(s', f)[i].ep == f
    {
      LeftKnown(n, s, s', e, f, i);
    }
    if f == e { GroupedTail(Line(s, e)); }
    assert OutOf(s, s', e, f);
  }

  lemma LeftListed(n: nat, s: State, s': State, e: nat, id: nat)
    requires Sound(n, s) && LeftLine(s, s', e) && id in s'.lut
    ensures Listed(s', id)
  {
    hide Ids, Places, Uses, Of, Retired, Line, LineOk;
    assert Listed(s, id);
    IdsFirst(Line(s, e));
  }

  lemma LeftValues(n: nat, s: State, s': State, e: nat, r: nat)
    requires Sound(n, s) && LeftLine(s, s', e)
    ensures
      var td := Line(s, e)[0];
      && td.req in s.lut.Values && Known(s, td) && td.ep == e
      && (r != td.req ==> (r in s'.lut.Values <==> r in s.lut.Values))
      && (!td.final ==> td.req in s'.lut.Values)
      && (td.final ==> td.req !in s'.lut.Values)
  {
    hide Ids, Places, Uses, Of, Retired, Line, Grouped, FailsLast;
    assert EpOk(s, e);
    var l := Line(s, e);
    var td := l[0];
    assert Known(s, td);
    GroupedTail(l);
    if !td.final {
      LeftKnown(n, s, s', e, e, 0);
    } else if td.req in s'.lut.Values {
      var id :| id in s'.lut && s'.lut[id] == td.req;
      LeftListed(n, s, s', e, id);
      var i := IdsIndex(l[1..], id);
      LeftKnown(n, s, s', e, e, i);
    }
    if r != td.req && r in s.lut.Values {
      var id :| id in s.lut && s.lut[id] == r;
      assert id in s'.lut;
    }
  }

  /** All invariants about lines and the table after a descriptor left its line. */
  lemma LeftKeeps(n: nat, s: State, s': State, e: nat)
    requires Sound(n, s) && LeftLine(s, s', e)
    ensures forall f :: 0 <= f < |s'.eps| ==> EpOk(s', f)
    ensures forall id: nat :: id in s'.lut ==> Listed(s', id)
  {
    hide Ids, Places, Uses, Of, Retired, Line, LineOk;
    forall f: nat | f < |s'.eps|
      ensures EpOk(s', f)
    {
      LeftLineOk(n, s, s', e, f);
    }
    forall id: nat | id in s'.lut
      ensures Listed(s', id)
    {
      LeftListed(n, s, s', e, id);
    }
  }

  // ----- dealing with a retired descriptor -----

  /** The first pending descriptor is freed; unless it went well and is not the final one of its request, the
      request will be called back. */
  function Deal(s: State): State
    requires s.pending != [] && s.pending[0].id in s.lut
  {
    var td := s.pending[0];
    s.(pending := s.pending[1..], freeList := [td.id] + s.freeList, lut := s.lut - {td.id},
       calling := if td.code != 0 || td.final then [s.lut[td.id]] else [])
  }

  lemma PendingHead(s: State)
    requires s.pending != [] && s.pending[0].ep < |s.eps|
    ensures Line(s, s.pending[0].ep) != [] && Line(s, s.pending[0].ep)[0] == s.pending[0]
    ensures Of(Retired(s), s.pending[0].ep) != [] && Of(Retired(s), s.pending[0].ep)[0] == s.pending[0]
  {
    hide Reverse;
    OfFirst(Retired(s), s.pending[0].ep);
  }

  lemma DealLeft(s: State)
    requires s.pending != [] && s.pending[0].id in s.lut && s.pending[0].ep < |s.eps|
    ensures LeftLine(s, Deal(s), s.pending[0].ep)
    ensures Retired(Deal(s)) == Retired(s)[1..]
  {
    hide Reverse, Of;
    var s', td := Deal(s), s.pending[0];
    assert Retired(s)[1..] == Retired(s') && Retired(s)[0] == td;
    PendingHead(s);
    forall f: nat | f < |s.eps|
      ensures OutOf(s, s', td.ep, f) && Line(s', f) == if f == td.ep then Line(s, td.ep)[1..] else Line(s, f)
    {
      OfFirst(Retired(s), f);
    }
  }

  lemma DealPlaces(s: State, k: nat)
    requires s.pending != [] && s.pending[0].id in s.lut
    ensures Places(Deal(s), k) == Places(s, k)
  {
    hide Chains, Ids;
    IdsFirst(s.pending);
  }

  lemma DealUses(n: nat, s: State, r: nat)
    requires Sound(n, s) && s.calling == [] && s.pending != [] && s.pending[0].id in s.lut && s.pending[0].ep < |s.eps|
    ensures Uses(Deal(s), r) == Uses(s, r)
  {
    hide Queued, Line, Of, Retired, LeftLine, EpOk;
    DealLeft(s);
    PendingHead(s);
    LeftValues(n, s, Deal(s), s.pending[0].ep, r);
  }

  lemma DealKeeps(n: nat, s: State)
    requires Sound(n, s) && s.calling == [] && s.pending != []
    ensures s.pending[0].ep < |s.eps| && Known(s, s.pending[0]) && Sound(n, Deal(s))
    ensures s.pending[0].code == 0 ==> Clear(Deal(s))
    ensures s.pending[0].code != 0 ==> s.eps[s.pending[0].ep].halted && Of(Retired(Deal(s)), s.pending[0].ep) == []
  {
    hide Queued, Chains, Ids, Of, Places, Uses, Reverse, LeftLine, Known, Listed, Line, Grouped;
    var td := s.pending[0];
    assert Retired(s)[0] == td && EpOk(s, td.ep);
    PendingHead(s);
    assert Known(s, td);
    KnownListed(s, td);
    DealLeft(s);
    var s' := Deal(s);
    LeftKeeps(n, s, s', td.ep);
    forall k: nat
      ensures Places(s', k) == Places(s, k) && Uses(s', k) == Uses(s, k)
    {
      DealPlaces(s, k);
      DealUses(n, s, k);
    }
    LeftValues(n, s, s', td.ep, td.req);
    DealRetired(s);
  }

  lemma KnownListed(s: State, td: Td)
    requires Known(s, td)
    ensures td.id in s.lut && s.lut[td.id] == td.req && td.req in s.epOf && s.epOf[td.req] == td.ep < |s.eps|
  {
  }

  lemma DealRetired(s: State)
    requires s.pending != [] && s.pending[0].id in s.lut && s.pending[0].ep < |s.eps|
    ensures Of(Retired(s), s.pending[0].ep) == [s.pending[0]] + Of(Retired(Deal(s)), s.pending[0].ep)
  {
    hide Reverse, Of;
    assert Retired(s)[1..] == Retired(Deal(s));
    OfFirst(Retired(s), s.pending[0].ep);
  }

  // ----- flushing a halted endpoint -----

  /** The first descriptor of a halted endpoint is freed, and its request is going to be called back. */
  function FlushOne(s: State, e: nat): State
    requires e < |s.eps| && s.eps[e].chain != [] && s.eps[e].chain[0].id in s.lut
  {
    var td := s.eps[e].chain[0];
    var r := s.lut[td.id];
    s.(eps := s.eps[e := s.eps[e].(chain := s.eps[e].chain[1..])], freeList := [td.id] + s.freeList,
        lut := s.lut - {td.id},
       calling := if r in s.calling then s.calling else s.calling + [r])
  }

  lemma FlushLeft(s: State, e: nat)
    requires e < |s.eps| && s.eps[e].chain != [] && s.eps[e].chain[0].id in s.lut && Of(Retired(s), e) == []
    ensures LeftLine(s, FlushOne(s, e), e) && Line(s, e)[0] == s.eps[e].chain[0]
    ensures Retired(FlushOne(s, e)) == Retired(s)
  {
    hide Reverse, Of;
  }

  lemma FlushPlaces(s: State, e: nat, k: nat)
    requires e < |s.eps| && s.eps[e].isOpen && s.eps[e].chain != [] && s.eps[e].chain[0].id in s.lut
    ensures Places(FlushOne(s, e), k) == Places(s, k)
  {
    hide Chains, Ids;
    IdsFirst(s.eps[e].chain);
    ChainsUpdate(s.eps, e, FlushOne(s, e).eps[e]);
  }

  lemma FlushUses(n: nat, s: State, e: nat, r: nat)
    requires Sound(n, s) && e < |s.eps| && s.eps[e].chain != [] && s.eps[e].chain[0].id in s.lut
    requires Of(Retired(s), e) == []
    ensures Uses(FlushOne(s, e), r) == Uses(s, r)
  {
    hide Queued, Line, Of, Retired, LeftLine, EpOk;
    FlushLeft(s, e);
    QueuedSame(s.eps, e, FlushOne(s, e).eps[e]);
    LeftValues(n, s, FlushOne(s, e), e, r);
  }

  lemma FlushKeeps(n: nat, s: State, e: nat)
    requires Sound(n, s) && e < |s.eps| && s.eps[e].chain != [] && Of(Retired(s), e) == []
    ensures Known(s, s.eps[e].chain[0]) && s.eps[e].chain[0].ep == e && Sound(n, FlushOne(s, e))
    ensures Of(Retired(FlushOne(s, e)), e) == []
  {
    hide Queued, Chains, Ids, Of, Places, Uses, Reverse, LeftLine, Known, Listed, LineOk, Line;
    assert EpOk(s, e);
    HeadOfChain(s, e);
    KnownListed(s, s.eps[e].chain[0]);
    OpenIfKnown(s, s.eps[e].chain[0]);
    FlushLeft(s, e);
    var s' := FlushOne(s, e);
    LeftKeeps(n, s, s', e);
    forall k: nat
      ensures Places(s', k) == Places(s, k) && Uses(s', k) == Uses(s, k)
    {
      FlushPlaces(s, e, k);
      FlushUses(n, s, e, k);
    }
  }

  lemma OpenIfKnown(s: State, td: Td)
    requires Known(s, td)
    ensures s.eps[td.ep].isOpen
  {
  }

  /** With nothing left in its line, the requests of an endpoint are in no descriptor. */
  lemma FlushedClear(n: nat, s: State, e: nat)
    requires Sound(n, s) && e < |s.eps| && Line(s, e) == []
    requires forall k :: 0 <= k < |s.calling| ==> s.epOf[s.calling[k]] == e
    ensures Clear(s)
  {
    hide Line, Uses, Places, EpOk;
    NoIds();
    forall id: nat | id in s.lut
      ensures s.lut[id] !in s.calling
    {
      assert Listed(s, id);
    }
  }

  /** All of it. */
  function FlushAll(s: State, e: nat): (t: State)
    requires e < |s.eps|
    ensures |t.eps| == |s.eps|
    decreases |s.eps[e].chain|
  {
    if s.eps[e].chain == [] || s.eps[e].chain[0].id !in s.lut then s else FlushAll(FlushOne(s, e), e)
  }

  /** A flush empties the endpoint, and every request that had descriptors there is called back, after those
      that were on the list already. */
  lemma {:induction false} FlushCallsAll(n: nat, s: State, e: nat)
    requires Sound(n, s) && e < |s.eps| && Of(Retired(s), e) == []
    ensures
      var t := FlushAll(s, e);
      && |t.eps| == |s.eps| && t.eps == s.eps[e := s.eps[e].(chain := [])] && s.calling <= t.calling
      && forall i :: 0 <= i < |s.eps[e].chain| ==> s.eps[e].chain[i].req in t.calling
    decreases |s.eps[e].chain|
  {
    hide Sound, Of, Retired, Known, FlushOne;
    var c := s.eps[e].chain;
    if c != [] {
      FlushKeeps(n, s, e);
      KnownListed(s, c[0]);
      FlushOneDoes(s, e);
      var u := FlushOne(s, e);
      FlushCallsAll(n, u, e);
      var t := FlushAll(u, e);
      assert t == FlushAll(s, e);
      forall i | 0 <= i < |c|
        ensures c[i].req in t.calling
      {
        if i > 0 { assert c[i] == u.eps[e].chain[i - 1]; }
      }
    } else {
      assert s.eps[e].(chain := []) == s.eps[e];
    }
  }

  lemma FlushOneDoes(s: State, e: nat)
    requires e < |s.eps| && s.eps[e].chain != [] && s.eps[e].chain[0].id in s.lut
    ensures
      var u := FlushOne(s, e);
      && |u.eps| == |s.eps| && u.eps == s.eps[e := s.eps[e].(chain := s.eps[e].chain[1..])]
      && s.calling <= u.calling && s.lut[s.eps[e].chain[0].id] in u.calling
  {
  }

  /** The endpoint may run again. */
  function Restart(s: State, e: nat): State
    requires e < |s.eps|
  {
    s.(eps := s.eps[e := s.eps[e].(halted := false)])
  }

  lemma RestartKeeps(n: nat, s: State, e: nat)
    requires Sound(n, s) && e < |s.eps| && Line(s, e) == []
    ensures Sound(n, Restart(s, e)) && (Clear(s) ==> Clear(Restart(s, e)))
  {
    hide Queued, Chains, Ids, Of, Reverse, Grouped, Places, Uses;
    var s' := Restart(s, e);
    assert Retired(s') == Retired(s);
    forall f | 0 <= f < |s'.eps|
      ensures EpOk(s', f) && Line(s', f) == Line(s, f)
    {
      assert EpOk(s, f);
    }
    forall k: nat
      ensures Places(s', k) == Places(s, k) && Uses(s', k) == Uses(s, k)
    {
      RestartCounts(s, e, k);
    }
    forall id: nat | id in s'.lut
      ensures Listed(s', id)
    {
      assert Listed(s, id);
    }
  }

  lemma RestartCounts(s: State, e: nat, k: nat)
    requires e < |s.eps|
    ensures Places(Restart(s, e), k) == Places(s, k) && Uses(Restart(s, e), k) == Uses(s, k)
  {
    hide Queued, Chains, Ids;
    ChainsSame(s.eps, e, Restart(s, e).eps[e]);
    QueuedSame(s.eps, e, Restart(s, e).eps[e]);
  }

  /** Everything that is done about the first pending descriptor; one that the table does not know is left. */
  function Processed(s: State): State
    requires s.pending != []
  {
    var td := s.pending[0];
    if td.id !in s.lut then s.(pending := s.pending[1..])
    else if td.code == 0 || |s.eps| <= td.ep then Deal(s)
    else Restart(FlushAll(Deal(s), td.ep), td.ep)
  }

  // ----- calling back -----

  /** The first request of the list is no longer busy; its callback runs. */
  function Finish(s: State): State
    requires s.calling != []
  {
    s.(calling := s.calling[1..], busy := s.busy - {s.calling[0]})
  }

  lemma FinishKeeps(n: nat, s: State)
    requires Sound(n, s) && Clear(s) && s.calling != []
    ensures s.calling[0] in s.busy && s.calling[0] in s.epOf && s.epOf[s.calling[0]] < |s.eps|
    ensures Sound(n, Finish(s)) && Clear(Finish(s))
  {
    hide Queued, Chains, Ids, Of, Reverse, Grouped, FailsLast, Places, Uses;
    var s', r := Finish(s), s.calling[0];
    assert Retired(s') == Retired(s) && forall k :: 0 <= k < |s'.calling| ==> s'.calling[k] == s.calling[k + 1];
    FinishClear(n, s);
    forall q: nat
      ensures Places(s', q) == Places(s, q) && Uses(s', q) == if q in s'.busy then 1 else 0
    {
      FinishCounts(s, q);
      assert Uses(s, q) == if q in s.busy then 1 else 0;
    }
    forall f | 0 <= f < |s'.eps|
      ensures EpOk(s', f)
    {
      assert EpOk(s, f) && Line(s', f) == Line(s, f);
    }
    forall id: nat | id in s'.lut
      ensures Listed(s', id)
    {
      assert Listed(s, id);
    }
  }

  lemma FinishCounts(s: State, q: nat)
    requires Clear(s) && s.calling != []
    ensures Places(Finish(s), q) == Places(s, q)
    ensures Uses(Finish(s), q) + (if q == s.calling[0] then 1 else 0) == Uses(s, q)
  {
    hide Queued, Chains, Ids;
    var s', r := Finish(s), s.calling[0];
    assert s.calling == [r] + s'.calling;
    assert multiset(s.calling) == multiset{r} + multiset(s'.calling);
  }

  lemma FinishClear(n: nat, s: State)
    requires Sound(n, s) && Clear(s) && s.calling != []
    ensures Clear(Finish(s)) && s.calling[0] in s.busy && s.calling[0] !in s.calling[1..]
  {
    hide Queued, Chains, Ids, EpOk, TableOk, Places;
    var r := s.calling[0];
    assert s.calling == [r] + s.calling[1..];
    assert multiset(s.calling) == multiset{r} + multiset(s.calling[1..]);
    assert Uses(s, r) == if r in s.busy then 1 else 0;
  }
}
