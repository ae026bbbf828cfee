/**
 Bookkeeping of the USB host driver: transfer descriptors, endpoints and requests, as values.
 What must hold of them between any two steps of driver and host controller.
 */
module UsbState {

  /** A general transfer descriptor in the hands of the host controller: `final` unless it asks for no
      interrupt, `code` the completion code, and for whom it was set up. */
  datatype Td = Td(id: nat, final: bool, code: nat, req: nat, ep: nat)

  datatype Endpoint = Endpoint(isOpen: bool, control: bool, attached: bool, skipped: bool, halted: bool,
                               chain: seq<Td>, tail: nat, queue: seq<nat>)

  /** `doneQueue` is the controller's, newest first; `pending` what an interrupt took from it, oldest first;
      `calling` the requests whose callbacks are about to run. */
  datatype State = State(freeList: seq<nat>, lut: map<nat, nat>, eps: seq<Endpoint>, doneQueue: seq<Td>,
      pending: seq<Td>,
                         calling: seq<nat>, epOf: map<nat, nat>, busy: set<nat>)

  // ----- counting -----

  function Ids(s: seq<Td>): multiset<nat> {
    if s == [] then multiset{} else Ids(s[..|s| - 1]) + multiset{s[|s| - 1].id}
  }

  lemma {:induction false} IdsConcat(a: seq<Td>, b: seq<Td>)
    ensures Ids(a + b) == Ids(a) + Ids(b)
    decreases |b|
  {
    if b == [] {
      assert a + b == a;
    } else {
      assert (a + b)[..|a + b| - 1] == a + b[..|b| - 1];
      IdsConcat(a, b[..|b| - 1]);
    }
  }

  lemma IdsFirst(s: seq<Td>)
    requires s != []
    ensures Ids(s) == multiset{s[0].id} + Ids(s[1..])
  {
    assert s == [s[0]] + s[1..];
    IdsConcat([s[0]], s[1..]);
    assert Ids([s[0]]) == multiset{s[0].id};
  }

  lemma {:induction false} IdsHas(s: seq<Td>, i: nat)
    requires i < |s|
    ensures s[i].id in Ids(s)
  {
    if i < |s| - 1 { IdsHas(s[..|s| - 1], i); }
  }

  function Sum(ms: seq<multiset<nat>>): multiset<nat> {
    if ms == [] then multiset{} else Sum(ms[..|ms| - 1]) + ms[|ms| - 1]
  }

  lemma Exchange(a: multiset<nat>, x: multiset<nat>, b: multiset<nat>, y: multiset<nat>, c: multiset<nat>)
    requires a + x == b + y
    ensures a + c + x == b + c + y
  {
    forall k: nat
      ensures (a + c + x)[k] == (b + c + y)[k]
    {
      assert (a + x)[k] == (b + y)[k];
    }
  }

  lemma {:induction false} SumUpdate(ms: seq<multiset<nat>>, i: nat, m: multiset<nat>)
    requires i < |ms|
    ensures Sum(ms[i := m]) + ms[i] == Sum(ms) + m
  {
    var n := |ms| - 1;
    if i == n {
      assert ms[i := m][..n] == ms[..n];
    } else {
      SumUpdate(ms[..n], i, m);
      var ms' := ms[i := m];
      assert ms'[..n] == ms[..n][i := m] && ms'[n] == ms[n];
      Exchange(Sum(ms'[..n]), ms[i], Sum(ms[..n]), m, ms[n]);
    }
  }

  lemma {:induction false} SumHas(ms: seq<multiset<nat>>, i: nat)
    requires i < |ms|
    ensures ms[i] <= Sum(ms)
  {
    if i < |ms| - 1 { SumHas(ms[..|ms| - 1], i); }
  }

  /** Descriptors that belong to an endpoint: those from head to tail, and the tail. */
  function Own(e: Endpoint): multiset<nat> {
    if e.isOpen then Ids(e.chain) + multiset{e.tail} else multiset{}
  }

  function Owns(eps: seq<Endpoint>): (ms: seq<multiset<nat>>)
    ensures |ms| == |eps| && forall i :: 0 <= i < |eps| ==> ms[i] == Own(eps[i])
  {
    seq(|eps|, i requires 0 <= i < |eps| => Own(eps[i]))
  }

  function Queues(eps: seq<Endpoint>): (ms: seq<multiset<nat>>)
    ensures |ms| == |eps| && forall i :: 0 <= i < |eps| ==> ms[i] == multiset(eps[i].queue)
  {
    seq(|eps|, i requires 0 <= i < |eps| => multiset(eps[i].queue))
  }

  function Chains(eps: seq<Endpoint>): multiset<nat> { Sum(Owns(eps)) }

  function Queued(eps: seq<Endpoint>): multiset<nat> { Sum(Queues(eps)) }

  lemma ChainsUpdate(eps: seq<Endpoint>, i: nat, e: Endpoint)
    requires i < |eps|
    ensures Chains(eps[i := e]) + Own(eps[i]) == Chains(eps) + Own(e) && Own(eps[i]) <= Chains(eps)
    ensures forall k: nat {:trigger Chains(eps[i := e])[k]} ::
              Chains(eps[i := e])[k] + Own(eps[i])[k] == Chains(eps)[k] + Own(e)[k]
  {
    hide Own, Sum;
    assert Owns(eps[i := e]) == Owns(eps)[i := Own(e)];
    SumUpdate(Owns(eps), i, Own(e));
    SumHas(Owns(eps), i);
    forall k: nat
      ensures Chains(eps[i := e])[k] + Own(eps[i])[k] == Chains(eps)[k] + Own(e)[k]
    {
      assert (Chains(eps[i := e]) + Own(eps[i]))[k] == (Chains(eps) + Own(e))[k];
    }
  }

  lemma QueuedUpdate(eps: seq<Endpoint>, i: nat, e: Endpoint)
    requires i < |eps|
    ensures Queued(eps[i := e]) + multiset(eps[i].queue) == Queued(eps) + multiset(e.queue)
    ensures multiset(eps[i].queue) <= Queued(eps)
    ensures forall k: nat {:trigger Queued(eps[i := e])[k]} ::
              Queued(eps[i := e])[k] + multiset(eps[i].queue)[k] == Queued(eps)[k] + multiset(e.queue)[k]
  {
    hide Sum;
    assert Queues(eps[i := e]) == Queues(eps)[i := multiset(e.queue)];
    SumUpdate(Queues(eps), i, multiset(e.queue));
    SumHas(Queues(eps), i);
    forall k: nat
      ensures Queued(eps[i := e])[k] + multiset(eps[i].queue)[k] == Queued(eps)[k] + multiset(e.queue)[k]
    {
      assert (Queued(eps[i := e]) + multiset(eps[i].queue))[k] == (Queued(eps) + multiset(e.queue))[k];
    }
  }

  lemma QueuedSame(eps: seq<Endpoint>, i: nat, e: Endpoint)
    requires i < |eps| && e.queue == eps[i].queue
    ensures Queued(eps[i := e]) == Queued(eps)
  {
    hide Sum;
    assert Queues(eps[i := e]) == Queues(eps);
  }

  lemma ChainsSame(eps: seq<Endpoint>, i: nat, e: Endpoint)
    requires i < |eps| && Own(e) == Own(eps[i])
    ensures Chains(eps[i := e]) == Chains(eps)
  {
    hide Sum, Own;
    assert Owns(eps[i := e]) == Owns(eps);
  }

  // ----- lines -----

  /** The descriptors of endpoint `e` in `s`. */
  function Of(s: seq<Td>, e: nat): seq<Td> {
    if s == [] then [] else Of(s[..|s| - 1], e) + (if s[|s| - 1].ep == e then [s[|s| - 1]] else [])
  }

  lemma {:induction false} OfConcat(a: seq<Td>, b: seq<Td>, e: nat)
    ensures Of(a + b, e) == Of(a, e) + Of(b, e)
    decreases |b|
  {
    if b == [] {
      assert a + b == a;
    } else {
      assert (a + b)[..|a + b| - 1] == a + b[..|b| - 1];
      OfConcat(a, b[..|b| - 1], e);
    }
  }

  lemma OfFirst(s: seq<Td>, e: nat)
    requires s != []
    ensures Of(s, e) == (if s[0].ep == e then [s[0]] else []) + Of(s[1..], e)
  {
    assert s == [s[0]] + s[1..];
    OfConcat([s[0]], s[1..], e);
    assert Of([s[0]], e) == if s[0].ep == e then [s[0]] else [];
  }

  function Reverse(s: seq<Td>): seq<Td> {
    if s == [] then [] else Reverse(s[1..]) + [s[0]]
  }

  lemma {:induction false} ReverseIds(s: seq<Td>)
    ensures Ids(Reverse(s)) == Ids(s)
  {
    if s != [] {
      ReverseIds(s[1..]);
      IdsFirst(s);
      IdsConcat(Reverse(s[1..]), [s[0]]);
      assert Ids([s[0]]) == multiset{s[0].id};
    }
  }

  /** Retired descriptors in the order in which the controller retired them. */
  function Retired(s: State): seq<Td> {
    s.pending + Reverse(s.doneQueue)
  }

  /** Everything set up on endpoint `e` that the driver has not dealt with, oldest first. */
  function Line(s: State, e: nat): seq<Td>
    requires e < |s.eps|
  {
    Of(Retired(s), e) + s.eps[e].chain
  }

  /** Descriptors come in groups, one per request; only the last of a group is final. */
  ghost predicate Grouped(l: seq<Td>) {
    && (forall i :: 0 <= i < |l| && !l[i].final ==> i + 1 < |l| && l[i + 1].req == l[i].req)
    && (forall i, j :: 0 <= i < j < |l| && l[i].final && l[j].final ==> l[i].req != l[j].req)
  }

  /** Among the retired descriptors of an endpoint only the last one can have failed, and then it is halted. */
  ghost predicate FailsLast(r: seq<Td>, halted: bool) {
    forall i :: 0 <= i < |r| && r[i].code != 0 ==> i == |r| - 1 && halted
  }

  /** The group of a descriptor ends in a final one. */
  lemma {:induction false} GroupEnds(l: seq<Td>, i: nat) returns (k: nat)
    requires Grouped(l) && i < |l|
    ensures i <= k < |l| && l[k].final && l[k].req == l[i].req
    decreases |l| - i
  {
    if l[i].final {
      k := i;
    } else {
      k := GroupEnds(l, i + 1);
    }
  }

  /** After the final descriptor of a request nothing of that request follows. */
  lemma NothingFollows(l: seq<Td>, j: nat)
    requires Grouped(l) && l != [] && l[0].final && 0 < j < |l|
    ensures l[j].req != l[0].req
  {
    var k := GroupEnds(l, j);
  }

  lemma GroupedTail(l: seq<Td>)
    requires Grouped(l) && l != []
    ensures Grouped(l[1..])
    ensures !l[0].final ==> 1 < |l| && l[1].req == l[0].req
    ensures l[0].final ==> forall j :: 0 <= j < |l| - 1 ==> l[1..][j].req != l[0].req
  {
    if l[0].final {
      forall j | 0 <= j < |l| - 1
        ensures l[1..][j].req != l[0].req
      {
        NothingFollows(l, j + 1);
      }
    }
  }

  lemma GroupedMore(l: seq<Td>, m: seq<Td>)
    requires Grouped(l) && Grouped(m) && forall i, j :: 0 <= i < |l| && 0 <= j < |m| ==> l[i].req != m[j].req
    ensures Grouped(l + m)
  {
    if l != [] { assert l[|l| - 1].final; }
  }

  // ----- the invariant -----

  /** In how many places descriptor `k` is. */
  function Places(s: State, k: nat): nat {
    multiset(s.freeList)[k] + Ids(s.pending)[k] + Ids(s.doneQueue)[k] + Chains(s.eps)[k]
  }

  /** Every descriptor is in exactly one place: free, with one endpoint, in the controller's done queue, or
      taken from it and not yet dealt with. */
  ghost predicate Partitioned(n: nat, s: State) {
    forall k: nat :: Places(s, k) == if k < n then 1 else 0
  }

  /** In how many places request `r` is: waiting in the queue of an endpoint, set up in descriptors, or about to
      be called back. While an endpoint is flushed it may be both of the last two, which counts once. */
  function Uses(s: State, r: nat): nat {
    Queued(s.eps)[r] + (if r in s.lut.Values && r !in s.calling then 1 else 0) + multiset(s.calling)[r]
  }

  /** Every busy request is in exactly one place, every other one in none. */
  ghost predicate Accounted(s: State) {
    forall r: nat :: Uses(s, r) == if r in s.busy then 1 else 0
  }

  /** No request is both set up and about to be called back. */
  ghost predicate Clear(s: State) {
    forall r: nat :: r in s.calling ==> r !in s.lut.Values
  }

  ghost predicate Known(s: State, td: Td) {
    && td.id in s.lut && s.lut[td.id] == td.req && td.req in s.epOf && s.epOf[td.req] == td.ep
    && td.ep < |s.eps| && s.eps[td.ep].isOpen
  }

  /** The look-up table tells of every descriptor that is set up whose it is ... */
  ghost predicate LineOk(s: State, e: nat)
    requires e < |s.eps|
  {
    && (forall i :: 0 <= i < |Line(s, e)| ==> Known(s, Line(s, e)[i]) && Line(s, e)[i].ep == e)
    && (forall i :: 0 <= i < |s.eps[e].chain| ==> s.eps[e].chain[i].code == 0)
    && Grouped(Line(s, e)) && FailsLast(Of(Retired(s), e), s.eps[e].halted)
  }

  ghost predicate EpOk(s: State, e: nat)
    requires e < |s.eps|
  {
    && LineOk(s, e)
    && (!s.eps[e].isOpen ==> s.eps[e].queue == [])
    && (forall k :: 0 <= k < |s.eps[e].queue| ==> s.eps[e].queue[k] in s.epOf && s.epOf[s.eps[e].queue[k]] == e)
  }

  /** ... and of nothing else; retired descriptors are of some endpoint. */
  ghost predicate Listed(s: State, id: nat) {
    && id in s.lut && s.lut[id] in s.epOf && s.epOf[s.lut[id]] < |s.eps|
    && id in Ids(Line(s, s.epOf[s.lut[id]]))
  }

  ghost predicate TableOk(s: State) {
    && (forall id: nat :: id in s.lut ==> Listed(s, id))
    && (forall i :: 0 <= i < |Retired(s)| ==> Retired(s)[i].ep < |s.eps|)
  }

  ghost predicate Sound(n: nat, s: State) {
    && Partitioned(n, s) && Accounted(s) && TableOk(s)
    && (forall e :: 0 <= e < |s.eps| ==> EpOk(s, e))
    && (forall k :: 0 <= k < |s.calling| ==> s.calling[k] in s.epOf && s.epOf[s.calling[k]] < |s.eps|)
  }

  /** The head of a line is what its endpoint dealt with first, so it can be told apart from the rest. */
  lemma {:induction false} IdsIndex(l: seq<Td>, id: nat) returns (i: nat)
    requires id in Ids(l)
    ensures i < |l| && l[i].id == id
  {
    if l[|l| - 1].id == id {
      i := |l| - 1;
    } else {
      i := IdsIndex(l[..|l| - 1], id);
    }
  }

  // ----- steps -----

  /** The controller is through with the first descriptor of an endpoint; a failure halts the endpoint. */
  function Retire(s: State, e: nat, code: nat): State
    requires e < |s.eps| && s.eps[e].chain != []
  {
    var ep := s.eps[e];
    s.(eps := s.eps[e := ep.(chain := ep.chain[1..], halted := ep.halted || code != 0)],
       doneQueue := [ep.chain[0].(code := code)] + s.doneQueue)
  }

  lemma RetireLines(s: State, e: nat, code: nat, f: nat)
    requires e < |s.eps| && s.eps[e].chain != [] && s.eps[e].chain[0].ep == e && f < |s.eps|
    ensures
      var s', td := Retire(s, e, code), s.eps[e].chain[0].(code := code);
      && Retired(s') == Retired(s) + [td]
      && Of(Retired(s'), f) == (if f == e then Of(Retired(s), e) + [td] else Of(Retired(s), f))
      && Line(s', f) == (if f == e then Of(Retired(s), e) + [td] + s.eps[e].chain[1..] else Line(s, f))
  {
    var s', td := Retire(s, e, code), s.eps[e].chain[0].(code := code);
    assert s'.doneQueue[1..] == s.doneQueue;
    assert Retired(s') == Retired(s) + [td];
    OfConcat(Retired(s), [td], f);
    assert Of([td], f) == if td.ep == f then [td] else [];
  }

  lemma RetireLineOk(s: State, e: nat, code: nat, f: nat)
    requires e < |s.eps| && s.eps[e].chain != [] && f < |s.eps| && LineOk(s, e) && LineOk(s, f) && !s.eps[e].halted
    ensures LineOk(Retire(s, e, code), f) && Ids(Line(Retire(s, e, code), f)) == Ids(Line(s, f))
  {
    hide Of, Ids, Retired, Grouped, FailsLast;
    var s', td, r := Retire(s, e, code), s.eps[e].chain[0].(code := code), Of(Retired(s), e);
    assert Line(s, e)[|r|] == s.eps[e].chain[0];
    RetireLines(s, e, code, f);
    if f == e {
      var l, l' := Line(s, e), Line(s', e);
      assert l' == l[|r| := td];
      SameIds(l, l');
      GroupedSame(l, l');
      FailsMore(r, td);
    }
  }

  lemma GroupedSame(l: seq<Td>, m: seq<Td>)
    requires Grouped(l) && |l| == |m| && forall i :: 0 <= i < |l| ==> l[i].req == m[i].req && l[i].final == m[i].final
    ensures Grouped(m)
  {
  }

  lemma FailsMore(r: seq<Td>, td: Td)
    requires FailsLast(r, false)
    ensures FailsLast(r + [td], td.code != 0)
  {
  }

  lemma {:induction false} SameIds(l: seq<Td>, m: seq<Td>)
    requires |l| == |m| && forall i :: 0 <= i < |l| ==> l[i].id == m[i].id
    ensures Ids(l) == Ids(m)
  {
    if l != [] { SameIds(l[..|l| - 1], m[..|m| - 1]); }
  }

  lemma RetirePlaces(s: State, e: nat, code: nat, k: nat)
    requires e < |s.eps| && s.eps[e].isOpen && s.eps[e].chain != []
    ensures Places(Retire(s, e, code), k) == Places(s, k)
  {
    hide Chains, Ids;
    var s', ep := Retire(s, e, code), s.eps[e];
    ChainsUpdate(s.eps, e, s'.eps[e]);
    IdsFirst(ep.chain);
    IdsFirst(s'.doneQueue);
    assert s'.doneQueue[1..] == s.doneQueue;
  }

  lemma RetireKeeps(n: nat, s: State, e: nat, code: nat)
    requires Sound(n, s) && e < |s.eps| && s.eps[e].isOpen && !s.eps[e].halted && s.eps[e].chain != []
    ensures Sound(n, Retire(s, e, code))
  {
    hide Chains, Queued, Ids, Of, Retired, LineOk, Line, Places, Uses;
    var s' := Retire(s, e, code);
    forall k: nat
      ensures Places(s', k) == Places(s, k) && Uses(s', k) == Uses(s, k)
    {
      RetirePlaces(s, e, code, k);
      UsesSame(s, s', e, k);
    }
    assert EpOk(s, e);
    HeadOfChain(s, e);
    RetireLines(s, e, code, e);
    forall f | 0 <= f < |s'.eps|
      ensures EpOk(s', f) && Ids(Line(s', f)) == Ids(Line(s, f))
    {
      assert EpOk(s, f);
      RetireLineOk(s, e, code, f);
    }
    forall id: nat | id in s'.lut
      ensures Listed(s', id)
    {
      assert Listed(s, id);
    }
  }

  lemma UsesSame(s: State, s': State, e: nat, r: nat)
    requires e < |s.eps| && |s'.eps| == |s.eps| && s'.eps == s.eps[e := s'.eps[e]] && s'.eps[e].queue == s.eps[e].queue
    requires s'.lut == s.lut && s'.calling == s.calling
    ensures Uses(s', r) == Uses(s, r)
  {
    hide Queued;
    QueuedSame(s.eps, e, s'.eps[e]);
  }

  lemma HeadOfChain(s: State, e: nat)
    requires e < |s.eps| && s.eps[e].chain != [] && LineOk(s, e)
    ensures s.eps[e].chain[0].ep == e && Known(s, s.eps[e].chain[0])
  {
    var r := Of(Retired(s), e);
    assert Line(s, e)[|r|] == s.eps[e].chain[0];
  }
}
