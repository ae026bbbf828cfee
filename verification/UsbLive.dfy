/**
 What the steps of the USB host driver do to the fields, and that a failed endpoint comes to
 life again: it is halted only as long as the descriptor that failed waits to be dealt with.
 */
module UsbLive {
  import opened UsbState
  import opened UsbSteps
  import opened UsbSetup

  ghost predicate AwakeAt(s: State, e: nat)
    requires e < |s.eps|
  {
    s.eps[e].halted ==>
      var r := Of(Retired(s), e);
      r != [] && r[|r| - 1].code != 0
  }

  ghost predicate Awake(s: State) {
    forall e :: 0 <= e < |s.eps| ==> AwakeAt(s, e)
  }

  lemma AwakeSame(s: State, s': State)
    requires Awake(s) && |s'.eps| == |s.eps| && Retired(s') == Retired(s)
    requires forall f :: 0 <= f < |s.eps| ==> s'.eps[f].halted ==> s.eps[f].halted
    ensures Awake(s')
  {
    hide Of, Retired;
    forall f | 0 <= f < |s'.eps|
      ensures AwakeAt(s', f)
    {
      assert AwakeAt(s, f);
    }
  }

  lemma AwakeRetire(n: nat, s: State, e: nat, code: nat)
    requires Sound(n, s) && Awake(s) && e < |s.eps| && s.eps[e].isOpen && !s.eps[e].halted && s.eps[e].chain != []
    ensures Awake(Retire(s, e, code))
  {
    hide Of, Retired, LineOk, Places, Uses;
    assert EpOk(s, e);
    HeadOfChain(s, e);
    var s' := Retire(s, e, code);
    forall f: nat | f < |s'.eps|
      ensures AwakeAt(s', f)
    {
      RetireLines(s, e, code, f);
      assert AwakeAt(s, f);
    }
  }

  /** What has been done about the first pending descriptor, field by field. It is free, and the table has forgotten
      it. If it went well, no endpoint changes, and its request is called back if it was the final one. If it
      failed, its endpoint has no descriptors but the tail and may run again, and all requests that had some there
      are called back. */
  ghost predicate Dealt(s: State, s': State)
    requires s.pending != []
  {
    var td := s.pending[0];
    var e := td.ep;
    && e < |s.eps| == |s'.eps| && s'.pending == s.pending[1..] && s'.doneQueue == s.doneQueue
    && td.id in s'.freeList && td.id !in s'.lut
    && (forall f :: 0 <= f < |s.eps| && f != e ==> s'.eps[f] == s.eps[f])
    && if td.code == 0 then s'.eps[e] == s.eps[e] && s'.calling == if td.final then [td.req] else []
       else
         && s'.eps[e] == s.eps[e].(chain := [], halted := false) && td.req in s'.calling
         && forall i :: 0 <= i < |s.eps[e].chain| ==>
              s.eps[e].chain[i].id in s'.freeList && s.eps[e].chain[i].req in s'.calling
  }

  lemma ProcessedDealt(n: nat, s: State)
    requires Sound(n, s) && s.calling == [] && s.pending != []
    ensures Dealt(s, Processed(s))
  {
    hide Of, Retired, LineOk, Places, Uses, Sound, Known;
    DealKeeps(n, s);
    var td := s.pending[0];
    KnownListed(s, td);
    var d := Deal(s);
    assert d.freeList[0] == td.id;
    if td.code != 0 {
      FlushCallsAll(n, d, td.ep);
      FlushFrees(n, d, td.ep);
    }
  }

  lemma FlushTakes(s: State, e: nat)
    requires e < |s.eps| && s.eps[e].chain != [] && Known(s, s.eps[e].chain[0]) && s.eps[e].chain[0].id in s.lut
    ensures
      var u := FlushOne(s, e);
      && u.pending == s.pending && u.doneQueue == s.doneQueue && u.lut.Keys <= s.lut.Keys && |u.eps| == |s.eps|
      && u.eps[e].chain == s.eps[e].chain[1..] && s.eps[e].chain[0].id in u.freeList
      && forall id :: id in s.freeList ==> id in u.freeList
  {
    var u := FlushOne(s, e);
    assert u.freeList[0] == s.eps[e].chain[0].id;
    assert forall k :: 0 <= k < |s.freeList| ==> u.freeList[k + 1] == s.freeList[k];
  }

  /** A flush frees all that it takes, and leaves the queues of the controller alone. */
  lemma {:induction false} FlushFrees(n: nat, s: State, e: nat)
    requires Sound(n, s) && e < |s.eps| && Of(Retired(s), e) == []
    ensures
      var t := FlushAll(s, e);
      && t.pending == s.pending && t.doneQueue == s.doneQueue && t.lut.Keys <= s.lut.Keys
      && (forall id :: id in s.freeList ==> id in t.freeList)
      && forall i :: 0 <= i < |s.eps[e].chain| ==> s.eps[e].chain[i].id in t.freeList
    decreases |s.eps[e].chain|
  {
    hide Sound, Of, Retired, Known, FlushOne;
    var c := s.eps[e].chain;
    if c != [] {
      FlushKeeps(n, s, e);
      KnownListed(s, c[0]);
      var u := FlushOne(s, e);
      FlushTakes(s, e);
      FlushFrees(n, u, e);
      forall i | 0 <= i < |c|
        ensures c[i].id in FlushAll(u, e).freeList
      {
        if i > 0 { assert c[i] == u.eps[e].chain[i - 1]; }
      }
    }
  }

  lemma AwakeProcessed(n: nat, s: State)
    requires Sound(n, s) && s.calling == [] && s.pending != [] && Awake(s)
    ensures Awake(Processed(s))
  {
    hide Of, Retired, LineOk, Places, Uses, Known, Processed, Sound;
    DealKeeps(n, s);
    ProcessedDealt(n, s);
    KnownListed(s, s.pending[0]);
    var s', e := Processed(s), s.pending[0].ep;
    forall f: nat | f < |s'.eps|
      ensures AwakeAt(s', f)
    {
      assert AwakeAt(s, f);
      ProcessedRetired(s, s', f);
      PendingHead(s);
    }
  }

  lemma ProcessedRetired(s: State, s': State, f: nat)
    requires s.pending != [] && f < |s.eps| && s'.pending == s.pending[1..] && s'.doneQueue == s.doneQueue
    ensures Of(Retired(s), f) == (if s.pending[0].ep == f then [s.pending[0]] else []) + Of(Retired(s'), f)
  {
    hide Of, Reverse;
    assert Retired(s)[0] == s.pending[0] && Retired(s)[1..] == Retired(s');
    OfFirst(Retired(s), f);
  }
}
