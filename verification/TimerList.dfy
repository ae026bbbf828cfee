/**
 The timer list of the USB driver: each timer stores the ticks it has to wait after the one
 before it.
 */
module TimerList {

  datatype Timer = Timer(id: nat, delay: nat)

  /** The delays that the first `n` timers store. */
  function Total(l: seq<Timer>, n: nat): nat
    requires n <= |l|
  {
    if n == 0 then 0 else Total(l, n - 1) + l[n - 1].delay
  }

  /** The delays stored up to timer `i`. */
  function Wait(l: seq<Timer>, i: nat): nat
    requires i < |l|
  {
    Total(l, i + 1)
  }

  /** Where a timer with `delay` ticks to go belongs: before the first one that would fire no earlier than it,
      with what is left of its delay. */
  function Place(l: seq<Timer>, i: nat, delay: nat): (p: (nat, nat))
    requires i <= |l|
    decreases |l| - i
  {
    if i < |l| && l[i].delay < delay then Place(l, i + 1, delay - l[i].delay) else (i, delay)
  }

  lemma {:induction false} PlaceIs(l: seq<Timer>, i: nat, delay: nat)
    requires i <= |l|
    ensures
      var (k, d) := Place(l, i, delay);
      && i <= k <= |l| && d <= delay && Total(l, i) + delay == Total(l, k) + d && (delay > 0 ==> d > 0)
      && (k < |l| ==> d <= l[k].delay)
    decreases |l| - i
  {
    if i < |l| && l[i].delay < delay { PlaceIs(l, i + 1, delay - l[i].delay); }
  }

  /** `l` with a new timer before position `k`, which gives the new one's delay up. */
  function Inserted(l: seq<Timer>, k: nat, t: Timer): seq<Timer>
    requires k <= |l| && (k < |l| ==> t.delay <= l[k].delay)
  {
    if k < |l| then l[..k] + [t, l[k].(delay := l[k].delay - t.delay)] + l[k + 1..] else l + [t]
  }

  /** Inserting gives the new timer its time and moves no other one. */
  lemma {:induction false} InsertedWaits(l: seq<Timer>, k: nat, t: Timer, n: nat)
    requires k <= |l| && (k < |l| ==> t.delay <= l[k].delay) && n <= |l| + 1
    ensures |Inserted(l, k, t)| == |l| + 1
    ensures Total(Inserted(l, k, t), n) ==
            if n <= k then Total(l, n) else if n == k + 1 then Total(l, k) + t.delay else Total(l, n - 1)
  {
    var m := Inserted(l, k, t);
    if n > 0 {
      InsertedWaits(l, k, t, n - 1);
      if n - 1 < k {
        assert m[n - 1] == l[n - 1];
      } else if n - 1 == k {
        assert m[n - 1] == t;
      } else if n - 1 == k + 1 {
        assert m[n - 1].delay == l[k].delay - t.delay && Total(l, n - 1) == Total(l, k) + l[k].delay;
      } else {
        assert m[n - 1] == l[n - 2];
      }
    }
  }

  lemma {:induction false} RemovedWaits(l: seq<Timer>, k: nat, n: nat)
    requires k < |l| && n < |l|
    ensures Total(l[..k] + l[k + 1..], n) + (if n <= k then 0 else l[k].delay) == Total(l, if n <= k then n else n + 1)
  {
    var m := l[..k] + l[k + 1..];
    if n > 0 {
      RemovedWaits(l, k, n - 1);
      assert m[n - 1] == l[if n - 1 < k then n - 1 else n];
    }
  }

  lemma FirstTotal(l: seq<Timer>)
    requires l != []
    ensures Total(l, 1) == l[0].delay
  {
    assert Total(l, 0) == 0;
  }

  lemma {:induction false} HeadCounts(l: seq<Timer>, n: nat)
    requires l != [] && l[0].delay > 0 && n <= |l|
    ensures Total(l[0 := l[0].(delay := l[0].delay - 1)], n) == if n == 0 then 0 else Total(l, n) - 1
    ensures n > 0 ==> Total(l, n) > 0
  {
    if n > 1 {
      HeadCounts(l, n - 1);
    } else if n == 1 {
      FirstTotal(l);
      FirstTotal(l[0 := l[0].(delay := l[0].delay - 1)]);
    }
  }

  lemma {:induction false} TotalMonotone(l: seq<Timer>, m: nat, n: nat)
    requires m <= n <= |l|
    ensures Total(l, m) <= Total(l, n)
  {
    if m < n { TotalMonotone(l, m, n - 1); }
  }

  lemma {:induction false} TailTotal(l: seq<Timer>, n: nat)
    requires l != [] && n < |l|
    ensures Total(l[1..], n) + l[0].delay == Total(l, n + 1)
  {
    if n == 0 {
      FirstTotal(l);
    } else {
      TailTotal(l, n - 1);
    }
  }

  // ----- when timers fire -----

  /** One tick late: between ticks a first timer that stores 0 is not counted down but fires, and the tick is
      lost for all others. A cancel or a delay of 0 can leave such a list. */
  function Lag(l: seq<Timer>): nat {
    if l != [] && l[0].delay == 0 then 1 else 0
  }

  /** Ticks until timer `i` fires, seen between two ticks. */
  function Fires(l: seq<Timer>, i: nat): nat
    requires i < |l|
  {
    Wait(l, i) + Lag(l)
  }

  /** The list after the count-down of a tick ... */
  function CountedDown(l: seq<Timer>): (m: seq<Timer>)
    ensures |m| == |l| && forall i :: 0 <= i < |l| ==> m[i].id == l[i].id
  {
    if l != [] && l[0].delay > 0 then l[0 := l[0].(delay := l[0].delay - 1)] else l
  }

  /** ... of which the first timers, those that store 0, fire. */
  function Expired(l: seq<Timer>): (n: nat)
    ensures n <= |l|
  {
    if l == [] || l[0].delay > 0 then 0 else 1 + Expired(l[1..])
  }

  function Ticked(l: seq<Timer>): seq<Timer> {
    var m := CountedDown(l);
    m[Expired(m)..]
  }

  lemma CountedDownWaits(l: seq<Timer>, i: nat)
    requires i < |l|
    ensures Wait(CountedDown(l), i) + 1 == Fires(l, i)
  {
    if l[0].delay > 0 { HeadCounts(l, i + 1); }
  }

  lemma {:induction false} ExpiredWaits(l: seq<Timer>, i: nat)
    requires i < |l|
    ensures i < Expired(l) <==> Wait(l, i) == 0
    ensures Expired(l) <= i ==> Wait(l[Expired(l)..], i - Expired(l)) == Wait(l, i) && l[Expired(l)].delay > 0
    decreases |l|
  {
    FirstTotal(l);
    if l[0].delay > 0 {
      TotalMonotone(l, 1, i + 1);
      assert l[0..] == l;
    } else if i > 0 {
      ExpiredWaits(l[1..], i - 1);
      TailTotal(l, i);
      assert l[1..][Expired(l[1..])..] == l[Expired(l)..];
    }
  }

  /** A tick fires exactly the timers that fire in one tick, and brings all others one tick nearer. */
  lemma TickFires(l: seq<Timer>, i: nat)
    requires i < |l|
    ensures
      var n := Expired(CountedDown(l));
      if i < n then Fires(l, i) == 1
      else
        && i - n < |Ticked(l)| && Ticked(l)[i - n].id == l[i].id
        && Fires(Ticked(l), i - n) + 1 == Fires(l, i)
    ensures Fires(l, i) >= 1
  {
    hide Total;
    var m := CountedDown(l);
    CountedDownWaits(l, i);
    ExpiredWaits(m, i);
  }

  function Ticks(l: seq<Timer>, t: nat): seq<Timer>
    decreases t
  {
    if t == 0 then l else Ticks(Ticked(l), t - 1)
  }

  /** Left alone, a timer is still in the list after `t` ticks exactly if it fires later than that. */
  lemma {:induction false} FiresThen(l: seq<Timer>, i: nat, t: nat)
    requires i < |l| && DistinctIds(l)
    ensures HasId(Ticks(l, t), l[i].id) <==> t < Fires(l, i)
    decreases t
  {
    hide Ticked, Fires;
    TickFires(l, i);
    TickedDistinct(l);
    if t > 0 {
      var n := Expired(CountedDown(l));
      if i < n {
        ExpiredGone(l, i);
        GoneStaysGone(Ticked(l), l[i].id, t - 1);
      } else {
        FiresThen(Ticked(l), i - n, t - 1);
      }
    } else {
      FiresAtLeastOnce(l, i);
    }
  }

  lemma FiresAtLeastOnce(l: seq<Timer>, i: nat)
    requires i < |l|
    ensures Fires(l, i) >= 1 && HasId(l, l[i].id)
  {
    TickFires(l, i);
  }

  /** A tick keeps the order of what it leaves. */
  lemma TickedAt(l: seq<Timer>, j: nat)
    requires j < |Ticked(l)|
    ensures
      var n := Expired(CountedDown(l));
      j + n < |l| && Ticked(l)[j].id == l[j + n].id
  {
  }

  lemma TickedDistinct(l: seq<Timer>)
    requires DistinctIds(l)
    ensures DistinctIds(Ticked(l))
  {
    hide Ticked;
    forall i, j | 0 <= i < j < |Ticked(l)|
      ensures Ticked(l)[i].id != Ticked(l)[j].id
    {
      TickedAt(l, i);
      TickedAt(l, j);
    }
  }

  lemma ExpiredGone(l: seq<Timer>, i: nat)
    requires DistinctIds(l) && i < Expired(CountedDown(l))
    ensures !HasId(Ticked(l), l[i].id)
  {
    hide Ticked;
    forall j | 0 <= j < |Ticked(l)|
      ensures Ticked(l)[j].id != l[i].id
    {
      TickedAt(l, j);
    }
  }

  lemma TickedIds(l: seq<Timer>, id: nat)
    requires !HasId(l, id)
    ensures !HasId(Ticked(l), id)
  {
    hide Ticked;
    forall j | 0 <= j < |Ticked(l)|
      ensures Ticked(l)[j].id != id
    {
      TickedAt(l, j);
    }
  }

  lemma {:induction false} GoneStaysGone(l: seq<Timer>, id: nat, t: nat)
    requires !HasId(l, id)
    ensures !HasId(Ticks(l, t), id)
    decreases t
  {
    hide HasId, Ticked;
    if t > 0 {
      TickedIds(l, id);
      GoneStaysGone(Ticked(l), id, t - 1);
    }
  }

  // ----- cancelling -----

  /** The list without timer `k`. */
  function Without(l: seq<Timer>, k: nat): seq<Timer>
    requires k < |l|
  {
    l[..k] + l[k + 1..]
  }

  /** Cancelling a timer takes what it had stored off the sums of those after it, and of no other. */
  lemma CancelShifts(l: seq<Timer>, k: nat, i: nat)
    requires k < |l| && i < |l| && i != k
    ensures if i < k then Wait(Without(l, k), i) == Wait(l, i)
            else Wait(Without(l, k), i - 1) + l[k].delay == Wait(l, i)
  {
    if i < k {
      RemovedWaits(l, k, i + 1);
    } else {
      RemovedWaits(l, k, i);
    }
  }

  /** What a cancel between ticks does to the tick at which another timer fires. */
  lemma CancelMoves(l: seq<Timer>, k: nat, i: nat)
    requires k < |l| && i < |l| && i != k
    ensures
      var m := Without(l, k);
      if i < k then Fires(m, i) == Fires(l, i) else Fires(m, i - 1) + l[k].delay + Lag(l) == Fires(l, i) + Lag(m)
  {
    hide Total;
    CancelShifts(l, k, i);
  }

  /** There is no timer after the cancelled one, or it stored 0 and was not first when seen between ticks, or
      between ticks it was first, stored at most 1, and the next one stores 0. */
  ghost predicate Harmless(l: seq<Timer>, k: nat, firing: bool)
    requires k < |l|
  {
    || k == |l| - 1
    || ((firing || k > 0) && l[k].delay == 0)
    || (!firing && k == 0 && l[0].delay <= 1 && l[1].delay == 0)
  }

  /** So a cancel between ticks leaves all other timers alone exactly if it is harmless. */
  lemma CancelHarmless(l: seq<Timer>, k: nat)
    requires k < |l|
    ensures OthersUnmoved(l, k) <==> Harmless(l, k, false)
  {
    hide Fires;
    var m := Without(l, k);
    if k < |l| - 1 {
      CancelMoves(l, k, k + 1);
      assert m[0] == if k == 0 then l[1] else l[0];
      assert Unmoved(l, k, k + 1) <==> l[k].delay + Lag(l) == Lag(m);
    }
    forall i | 0 <= i < |l| && i != k && (i < k || l[k].delay + Lag(l) == Lag(m))
      ensures Unmoved(l, k, i)
    {
      CancelMoves(l, k, i);
    }
  }

  /** During a tick stored delays count from now, and a cancel from a callback leaves all others alone exactly if
      there is none after it or it stored 0. */
  lemma CancelHarmlessInTick(l: seq<Timer>, k: nat)
    requires k < |l|
    ensures (forall i :: 0 <= i < |l| && i != k ==> Unshifted(l, k, i)) <==> Harmless(l, k, true)
  {
    hide Unshifted;
    forall i | 0 <= i < |l| && i != k
      ensures Unshifted(l, k, i) <==> i < k || l[k].delay == 0
    {
      ShiftedIf(l, k, i);
    }
    if k < |l| - 1 { assert Unshifted(l, k, k + 1) <==> l[k].delay == 0; }
  }

  ghost predicate Unshifted(l: seq<Timer>, k: nat, i: nat)
    requires k < |l| && i < |l| && i != k
  {
    Wait(Without(l, k), if i < k then i else i - 1) == Wait(l, i)
  }

  lemma ShiftedIf(l: seq<Timer>, k: nat, i: nat)
    requires k < |l| && i < |l| && i != k
    ensures Unshifted(l, k, i) <==> i < k || l[k].delay == 0
  {
    CancelShifts(l, k, i);
  }

  /** Timer `i` still fires at the same tick when timer `k` is cancelled between ticks. */
  ghost predicate Unmoved(l: seq<Timer>, k: nat, i: nat)
    requires k < |l| && i < |l| && i != k
  {
    Fires(Without(l, k), if i < k then i else i - 1) == Fires(l, i)
  }

  ghost predicate OthersUnmoved(l: seq<Timer>, k: nat)
    requires k < |l|
  {
    forall i :: 0 <= i < |l| && i != k ==> Unmoved(l, k, i)
  }

  /** An instance: with timers firing in 3 and 5 ticks, cancelling the first makes the second fire in 2. */
  lemma CancelTooEarly()
    ensures
      var l := [Timer(1, 3), Timer(2, 2)];
      Fires(l, 1) == 5 && Fires(Without(l, 0), 0) == 2
  {
    var l := [Timer(1, 3), Timer(2, 2)];
    assert Without(l, 0) == [Timer(2, 2)];
    assert Total(l, 1) == 3;
    assert Total([Timer(2, 2)], 0) == 0;
  }

  /** Another one: of timers firing in 3, 3 and 5 ticks the first is cancelled; the second now fires in 1 and the
      third in 3, a tick later than the delays stored before it say. */
  lemma CancelLeavesLag()
    ensures
      var l := [Timer(1, 3), Timer(2, 0), Timer(3, 2)];
      var m := Without(l, 0);
      Fires(l, 1) == 3 && Fires(l, 2) == 5 && Fires(m, 0) == 1 && Fires(m, 1) == 3 && Wait(m, 1) == 2
  {
    var l := [Timer(1, 3), Timer(2, 0), Timer(3, 2)];
    var m := Without(l, 0);
    assert m == [Timer(2, 0), Timer(3, 2)];
    assert Total(l, 1) == 3 && Total(l, 2) == 3;
    assert Total(m, 0) == 0 && Total(m, 1) == 0;
  }

  // ----- timers and the ticks at which they are due -----

  ghost predicate HasId(l: seq<Timer>, id: nat) {
    exists i :: 0 <= i < |l| && l[i].id == id
  }

  ghost predicate DistinctIds(l: seq<Timer>) {
    forall i, j :: 0 <= i < j < |l| ==> l[i].id != l[j].id
  }

  /** Timer `i` is due at tick `now` plus what is stored up to it. */
  ghost predicate DueAt(l: seq<Timer>, due: map<nat, nat>, now: nat, i: nat)
    requires i < |l|
  {
    l[i].id in due && due[l[i].id] == now + Wait(l, i)
  }

  /** The list is in step with the ticks at which its timers are due. */
  ghost predicate InStep(l: seq<Timer>, due: map<nat, nat>, now: nat) {
    && DistinctIds(l) && (forall i :: 0 <= i < |l| ==> DueAt(l, due, now, i))
    && (forall id: nat :: id in due ==> HasId(l, id))
  }

  lemma InStepIds(l: seq<Timer>, due: map<nat, nat>, now: nat, id: nat)
    requires InStep(l, due, now)
    ensures HasId(l, id) <==> id in due
  {
    hide DistinctIds;
    if HasId(l, id) {
      var i :| 0 <= i < |l| && l[i].id == id;
      assert DueAt(l, due, now, i);
    }
  }

  function InsertedId(l: seq<Timer>, k: nat, t: Timer, i: nat): nat
    requires k <= |l| && i <= |l|
  {
    if i < k then l[i].id else if i == k then t.id else l[i - 1].id
  }

  lemma InsertedIds(l: seq<Timer>, k: nat, t: Timer, i: nat)
    requires k <= |l| && (k < |l| ==> t.delay <= l[k].delay) && i <= |l|
    ensures |Inserted(l, k, t)| == |l| + 1 && Inserted(l, k, t)[i].id == InsertedId(l, k, t, i)
  {
  }

  lemma AddedInStep(l: seq<Timer>, k: nat, t: Timer, due: map<nat, nat>, now: nat, delay: nat)
    requires InStep(l, due, now) && !HasId(l, t.id)
    requires k <= |l| && (k < |l| ==> t.delay <= l[k].delay) && Total(l, k) + t.delay == delay
    ensures InStep(Inserted(l, k, t), due[t.id := now + delay], now)
  {
    hide Inserted, Total;
    var m, due' := Inserted(l, k, t), due[t.id := now + delay];
    InsertedIds(l, k, t, 0);
    forall i, j | 0 <= i < j < |m|
      ensures m[i].id != m[j].id
    {
      InsertedIds(l, k, t, i);
      InsertedIds(l, k, t, j);
    }
    forall i | 0 <= i < |m|
      ensures DueAt(m, due', now, i)
    {
      InsertedIds(l, k, t, i);
      InsertedWaits(l, k, t, i + 1);
      if i != k { assert DueAt(l, due, now, if i < k then i else i - 1); }
    }
    forall id: nat | id in due'
      ensures HasId(m, id)
    {
      if id == t.id {
        InsertedIds(l, k, t, k);
      } else {
        var i :| 0 <= i < |l| && l[i].id == id;
        InsertedIds(l, k, t, if i < k then i else i + 1);
      }
    }
  }

  lemma TickedInStep(l: seq<Timer>, due: map<nat, nat>, now: nat)
    requires InStep(l, due, now) && l != [] && l[0].delay > 0
    ensures InStep(l[0 := l[0].(delay := l[0].delay - 1)], due, now + 1)
  {
    hide Total;
    var m, t := l[0 := l[0].(delay := l[0].delay - 1)], now + 1;
    assert forall i :: 0 <= i < |l| ==> m[i].id == l[i].id;
    forall i | 0 <= i < |m|
      ensures DueAt(m, due, t, i)
    {
      assert DueAt(l, due, now, i);
      HeadCounts(l, i + 1);
    }
    forall id: nat | id in due
      ensures HasId(m, id)
    {
      var i :| 0 <= i < |l| && l[i].id == id;
      assert m[i].id == id;
    }
  }

  lemma ExpiredInStep(l: seq<Timer>, due: map<nat, nat>, now: nat)
    requires InStep(l, due, now) && l != [] && l[0].delay == 0
    ensures l[0].id in due && due[l[0].id] == now && InStep(l[1..], due - {l[0].id}, now)
  {
    hide Total;
    var m, due' := l[1..], due - {l[0].id};
    FirstTotal(l);
    assert DueAt(l, due, now, 0);
    forall i | 0 <= i < |m|
      ensures DueAt(m, due', now, i)
    {
      assert DueAt(l, due, now, i + 1);
      TailTotal(l, i + 1);
    }
    forall id: nat | id in due'
      ensures HasId(m, id)
    {
      var i :| 0 <= i < |l| && l[i].id == id;
      assert m[i - 1].id == id;
    }
  }

  lemma NoneExpired(l: seq<Timer>, due: map<nat, nat>, now: nat, id: nat)
    requires InStep(l, due, now) && (l != [] ==> l[0].delay > 0) && id in due
    ensures due[id] > now
  {
    hide Total;
    assert HasId(l, id);
    var i :| 0 <= i < |l| && l[i].id == id;
    assert DueAt(l, due, now, i);
    FirstTotal(l);
    TotalMonotone(l, 1, i + 1);
  }

  /** The due ticks a list stands for. */
  ghost function DueMap(l: seq<Timer>, now: nat): map<nat, nat> {
    if l == [] then map[] else DueMap(l[..|l| - 1], now)[l[|l| - 1].id := now + Total(l, |l|)]
  }

  lemma {:induction false} TotalFront(l: seq<Timer>, n: nat)
    requires n < |l|
    ensures Total(l[..|l| - 1], n) == Total(l, n)
  {
    if n > 0 { TotalFront(l, n - 1); }
  }

  lemma {:induction false} DueMapInStep(l: seq<Timer>, now: nat)
    requires DistinctIds(l)
    ensures InStep(l, DueMap(l, now), now)
  {
    hide Total;
    if l != [] {
      var n := |l| - 1;
      var front := l[..n];
      DueMapInStep(front, now);
      var due := DueMap(l, now);
      forall i | 0 <= i < |l|
        ensures DueAt(l, due, now, i)
      {
        if i < n {
          assert DueAt(front, DueMap(front, now), now, i);
          TotalFront(l, i + 1);
        }
      }
      forall id: nat | id in due
        ensures HasId(l, id)
      {
        if id != l[n].id {
          var i :| 0 <= i < |front| && front[i].id == id;
          assert l[i].id == id;
        } else {
          assert l[n].id == id;
        }
      }
    }
  }

  /** All due ticks one later. */
  ghost function Later(due: map<nat, nat>): map<nat, nat> {
    map id | id in due :: due[id] + 1
  }

  lemma LaterInStep(l: seq<Timer>, due: map<nat, nat>, now: nat)
    requires InStep(l, due, now)
    ensures InStep(l, Later(due), now + 1)
  {
    hide Total;
    var t := now + 1;
    forall i | 0 <= i < |l|
      ensures DueAt(l, Later(due), t, i)
    {
      assert DueAt(l, due, now, i);
    }
  }

  /** The due ticks after a cancel, timer by timer. */
  lemma CancelledInStep(l: seq<Timer>, k: nat, due: map<nat, nat>, base: nat, base': nat)
    requires InStep(l, due, base) && k < |l|
    ensures
      var m := Without(l, k);
      var due' := DueMap(m, base');
      && InStep(m, due', base') && due'.Keys == due.Keys - {l[k].id}
      && forall i :: 0 <= i < |l| && i != k ==>
           && l[i].id in due && l[i].id in due'
           && due'[l[i].id] + base + (if i < k then 0 else l[k].delay) == due[l[i].id] + base'
  {
    hide Total, DueMap;
    var m := Without(l, k);
    var due' := DueMap(m, base');
    assert forall j :: 0 <= j < |m| ==> m[j] == l[if j < k then j else j + 1];
    DueMapInStep(m, base');
    forall i | 0 <= i < |l| && i != k
      ensures l[i].id in due && l[i].id in due'
      ensures due'[l[i].id] + base + (if i < k then 0 else l[k].delay) == due[l[i].id] + base'
    {
      CancelShifts(l, k, i);
      assert DueAt(l, due, base, i) && DueAt(m, due', base', if i < k then i else i - 1);
    }
    assert DueAt(l, due, base, k);
    CancelledIds(l, k, due, base, due', base');
  }

  lemma CancelledIds(l: seq<Timer>, k: nat, due: map<nat, nat>, base: nat, due': map<nat, nat>, base': nat)
    requires InStep(l, due, base) && k < |l| && InStep(Without(l, k), due', base')
    ensures due'.Keys == due.Keys - {l[k].id}
  {
    var m := Without(l, k);
    assert forall j :: 0 <= j < |m| ==> m[j] == l[if j < k then j else j + 1];
    hide DueAt, Without;
    forall id: nat
      ensures id in due' <==> id in due && id != l[k].id
    {
      InStepIds(l, due, base, id);
      InStepIds(m, due', base', id);
      if HasId(l, id) && id != l[k].id {
        var i :| 0 <= i < |l| && l[i].id == id;
        assert m[if i < k then i else i - 1].id == id;
      }
    }
  }

  /** What a harmless cancel takes off the sums it gives back by the tick that a first timer storing 0 costs. */
  lemma HarmlessShift(l: seq<Timer>, k: nat, firing: bool)
    requires k < |l| - 1 && Harmless(l, k, firing)
    ensures l[k].delay + (if firing then 0 else Lag(l)) == if firing then 0 else Lag(Without(l, k))
  {
    assert Without(l, k)[0] == if k == 0 then l[1] else l[0];
  }

  /** A first timer before the cancelled one stays first. */
  lemma LagBefore(l: seq<Timer>, k: nat)
    requires 0 < k < |l|
    ensures Lag(Without(l, k)) == Lag(l)
  {
    assert Without(l, k)[0] == l[0];
  }

  /** A harmless cancel leaves the due ticks of all others. */
  lemma HarmlessDue(l: seq<Timer>, k: nat, due: map<nat, nat>, now: nat, firing: bool)
    requires k < |l| && Harmless(l, k, firing)
    requires InStep(l, due, now + if firing then 0 else Lag(l))
    ensures DueMap(Without(l, k), now + if firing then 0 else Lag(Without(l, k))) == due - {l[k].id}
  {
    hide DueMap, Total, DueAt, Harmless, Lag, Without;
    var base, base' := now + (if firing then 0 else Lag(l)), now + (if firing then 0 else Lag(Without(l, k)));
    if k < |l| - 1 { HarmlessShift(l, k, firing); }
    if k > 0 { LagBefore(l, k); }
    CancelledInStep(l, k, due, base, base');
    var due' := DueMap(Without(l, k), base');
    forall id: nat | id in due'
      ensures due'[id] == due[id]
    {
      assert HasId(l, id);
      var i :| 0 <= i < |l| && l[i].id == id;
    }
  }

  /** What was promised is what will happen, as long as all was calm. */
  ghost predicate Kept(promise: map<nat, nat>, due: map<nat, nat>, calm: bool) {
    promise.Keys == due.Keys && (calm ==> promise == due)
  }

  /** The due ticks after a timer was started. */
  ghost function AddedDue(due: map<nat, nat>, id: nat, delay: nat, now: nat, firing: bool, lag: nat): map<nat, nat> {
    (if !firing && delay == 0 && lag == 0 then Later(due) else due)
      [id := now + delay + if !firing && (delay == 0 || lag == 1) then 1 else 0]
  }

  /** Whether starting a timer moves none and gives it the tick asked for. */
  ghost predicate CalmStart(delay: nat, firing: bool, lag: nat) {
    firing || (delay > 0 && lag == 0)
  }

  lemma KeptAdded(promise: map<nat, nat>, due: map<nat, nat>, calm: bool, id: nat, delay: nat, now: nat, firing: bool,
      lag: nat)
    requires Kept(promise, due, calm) && lag <= 1
    ensures Kept(promise[id := now + delay], AddedDue(due, id, delay, now, firing, lag),
                 calm && CalmStart(delay, firing, lag))
  {
  }

  lemma KeptRemoved(promise: map<nat, nat>, due: map<nat, nat>, calm: bool, id: nat)
    requires Kept(promise, due, calm)
    ensures Kept(promise - {id}, due - {id}, calm) && (id in promise <==> id in due)
  {
  }

  lemma KeptCancelled(promise: map<nat, nat>, l: seq<Timer>, k: nat, due: map<nat, nat>, now: nat, firing: bool,
      calm: bool)
    requires k < |l| && InStep(l, due, now + if firing then 0 else Lag(l)) && Kept(promise, due, calm)
    ensures Kept(promise - {l[k].id}, DueMap(Without(l, k), now + if firing then 0 else Lag(Without(l, k))),
                 calm && Harmless(l, k, firing))
  {
    hide DueMap, InStep, Without, Harmless;
    CancelledInStep(l, k, due, now + (if firing then 0 else Lag(l)), now + if firing then 0 else Lag(Without(l, k)));
    if Harmless(l, k, firing) { HarmlessDue(l, k, due, now, firing); }
  }

  /** The list with a new timer in its place. */
  ghost function Put(l: seq<Timer>, id: nat, delay: nat): (m: seq<Timer>)
    ensures |m| == |l| + 1
  {
    PlaceIs(l, 0, delay);
    var (k, d) := Place(l, 0, delay);
    Inserted(l, k, Timer(id, d))
  }

  lemma PutIs(l: seq<Timer>, id: nat, delay: nat, k: nat, d: nat)
    requires k <= |l| && Place(l, k, d) == Place(l, 0, delay) && !(k < |l| && l[k].delay < d)
    ensures (k < |l| ==> d <= l[k].delay) && Put(l, id, delay) == Inserted(l, k, Timer(id, d))
  {
  }

  /** The place of a timer in the list, or past its end. */
  function IndexOf(l: seq<Timer>, id: nat): (k: nat)
    ensures k <= |l| && (k < |l| <==> HasId(l, id)) && (k < |l| ==> l[k].id == id)
  {
    if l == [] || l[0].id == id then 0
    else
      assert l == [l[0]] + l[1..];
      1 + IndexOf(l[1..], id)
  }

  lemma IndexIs(l: seq<Timer>, id: nat, k: nat)
    requires k < |l| && l[k].id == id && DistinctIds(l)
    ensures IndexOf(l, id) == k
  {
  }

  /** The state after a timer was put in its place. */
  lemma AddedAll(l: seq<Timer>, due: map<nat, nat>, now: nat, firing: bool, id: nat, delay: nat, k: nat, d: nat)
    requires InStep(l, due, now + if firing then 0 else Lag(l)) && !HasId(l, id)
    requires k <= |l| && Place(l, k, d) == Place(l, 0, delay) && !(k < |l| && l[k].delay < d)
    ensures k < |l| ==> d <= l[k].delay
    ensures
      var m := Inserted(l, k, Timer(id, d));
      && |m| == |l| + 1 && Lag(m) == (if delay == 0 || Lag(l) == 1 then 1 else 0)
      && InStep(m, AddedDue(due, id, delay, now, firing, Lag(l)), now + if firing then 0 else Lag(m))
  {
    hide InStep, Place, Total, Inserted, Later;
    Placed(l, 0, delay, k, d);
    PlacedLag(l, delay, k, d, id);
    var m, base := Inserted(l, k, Timer(id, d)), now + if firing then 0 else Lag(l);
    InsertedIds(l, k, Timer(id, d), 0);
    AddedInStep(l, k, Timer(id, d), due, base, delay);
    if !firing && delay == 0 && Lag(l) == 0 {
      LaterInStep(m, due[id := base + delay], base);
      LaterAdded(due, id, base + delay);
    }
  }

  class Timers {
    var list: seq<Timer>
    ghost var now: nat              // ticks so far
    ghost var due: map<nat, nat>    // the tick at which each active timer fires if nothing else happens
    ghost var firing: bool          // a tick is being handled
    ghost var promise: map<nat, nat> // the tick asked for when each active timer was started
    ghost var calm: bool            // whether nothing was done so far that moves a timer

    /** The tick from which stored delays count. */
    ghost function Base(): nat
      reads this
    {
      now + if firing then 0 else Lag(list)
    }

    ghost predicate Valid()
      reads this
    {
      InStep(list, due, Base()) && Kept(promise, due, calm)
    }

    constructor ()
      ensures Valid() && list == [] && !firing && due == promise == map[] && now == 0 && calm
    {
      list, now, due, firing, promise, calm := [], 0, map[], false, map[], true;
    }

    /** Starts a timer, also from a callback. It fires exactly `delay` ticks from now if it is started from a
        callback, or if the delay is not 0 and no first timer stores 0; else one tick later. No other timer
        moves, but for a delay of 0 between ticks, which holds all others back by one. */
    method Add(id: nat, delay: nat) returns (rc: int)
      requires Valid()
      modifies this`list, this`due, this`promise, this`calm
      ensures Valid()
      ensures rc == (if id in old(due) then -1 else 0)
      ensures rc != 0 ==> due == old(due) && list == old(list) && promise == old(promise) && calm == old(calm)
      ensures rc == 0 ==> list == Put(old(list), id, delay)
      ensures rc == 0 ==>
                due == AddedDue(old(due), id, delay, now, firing, old(Lag(list)))
      ensures rc == 0 ==>
                && promise == old(promise)[id := now + delay]
                && calm == (old(calm) && CalmStart(delay, firing, old(Lag(list))))
      ensures rc == 0 ==> |list| == |old(list)| + 1 && Lag(list) == if delay == 0 || old(Lag(list)) == 1 then 1 else 0
    {
      hide InStep, Place, Kept, AddedDue, CalmStart, Put;
      InStepIds(list, due, Base(), id);
      var k := 0;
      while k < |list|
        invariant 0 <= k <= |list| && list == old(list) && due == old(due) && promise == old(promise)
        invariant calm == old(calm) && forall i :: 0 <= i < k ==> list[i].id != id
      {
        if list[k].id == id { return -1; }
        k := k + 1;
      }
      var pos: nat, left: nat := 0, delay;
      while pos < |list| && left > list[pos].delay
        invariant pos <= |list| && list == old(list) && due == old(due) && promise == old(promise) && calm == old(calm)
        invariant Place(list, pos, left) == Place(list, 0, delay)
        decreases |list| - pos
      {
        PlaceOn(list, pos, left);
        left := left - list[pos].delay;
        pos := pos + 1;
      }
      AddedAll(list, due, now, firing, id, delay, pos, left);
      PutIs(list, id, delay, pos, left);
      KeptAdded(promise, due, calm, id, delay, now, firing, Lag(list));
      promise := promise[id := now + delay];
      calm := calm && CalmStart(delay, firing, Lag(list));
      due := AddedDue(due, id, delay, now, firing, Lag(list));
      if pos < |list| {
        list := list[..pos] + [Timer(id, left), list[pos].(delay := list[pos].delay - left)] + list[pos + 1..];
      } else {
        list := list + [Timer(id, left)];
      }
      rc := 0;
    }

    /** A tick begins: the first timer is counted down unless it stores 0. No due tick moves. */
    method BeginTick()
      requires Valid() && !firing
      modifies this`list, this`now, this`firing
      ensures Valid() && firing && now == old(now) + 1 && due == old(due) && list == CountedDown(old(list))
    {
      hide InStep;
      NothingInStep(due, Base(), now + 1);
      if list != [] && list[0].delay > 0 {
        TickedInStep(list, due, now);
        list := list[0 := list[0].(delay := list[0].delay - 1)];
      }
      now := now + 1;
      firing := true;
    }

    /** Takes the next timer that has expired. It is due now; when there is none left, every other timer is due
        later. */
    method Expire() returns (fired: bool, id: nat)
      requires Valid() && firing
      modifies this`list, this`due, this`firing, this`promise
      ensures Valid() && firing == fired
      ensures fired ==>
                && id in old(due) && old(due)[id] == now && due == old(due) - {id} && id in old(promise)
                && promise == old(promise) - {id} && old(list) != [] && old(list)[0].delay == 0 && old(list)[0].id == id
                && list == old(list)[1..]
      ensures !fired ==>
                && due == old(due) && promise == old(promise) && list == old(list) && (list == [] || list[0].delay > 0)
                && forall t: nat :: t in due ==> due[t] > now
    {
      hide InStep, Kept;
      id := 0;
      fired := list != [] && list[0].delay == 0;
      if fired {
        ExpiredInStep(list, due, now);
        id := list[0].id;
        list := list[1..];
        due := due - {id};
        KeptRemoved(promise, old(due), calm, id);
        promise := promise - {id};
      } else {
        forall t: nat | t in due
          ensures due[t] > now
        {
          NoneExpired(list, due, now, t);
        }
        firing := false;
      }
    }

    /** Takes a timer out of the list. Those before it keep their due ticks; those after it become due earlier by
        what it had stored, corrected between ticks by the tick that a first timer storing 0 costs. */
    method Cancel(id: nat) returns (rc: int, ghost k: nat)
      requires Valid()
      modifies this`list, this`due, this`promise, this`calm
      ensures Valid()
      ensures rc == (if id in old(due) then 0 else -1)
      ensures rc == 0 ==>
                && k == IndexOf(old(list), id) < |old(list)| && list == Without(old(list), k)
                && due == DueMap(list, Base()) && due.Keys == old(due).Keys - {id}
      ensures rc == 0 ==> forall i :: 0 <= i < |old(list)| && i != k ==>
                            && old(list)[i].id in due && old(list)[i].id in old(due)
                            && due[old(list)[i].id] + (if i < k then 0 else old(list)[k].delay)
                                + (if firing then 0 else old(Lag(list)))
                               == old(due)[old(list)[i].id] + (if firing then 0 else Lag(list))
      ensures rc == 0 ==> promise == old(promise) - {id} && calm == (old(calm) && Harmless(old(list), k, firing))
      ensures rc != 0 ==> list == old(list) && due == old(due) && promise == old(promise) && calm == old(calm)
    {
      hide InStep, Without, Harmless, Kept, DueMap, IndexOf, DistinctIds;
      InStepIds(list, due, Base(), id);
      var i := 0;
      k := 0;
      while i < |list|
        invariant 0 <= i <= |list| && list == old(list) && due == old(due) && promise == old(promise)
        invariant calm == old(calm) && forall j :: 0 <= j < i ==> list[j].id != id
      {
        if list[i].id == id {
          k := i;
          ghost var base := now + if firing then 0 else Lag(Without(list, i));
          CancelledInStep(list, i, due, Base(), base);
          InStepDistinct(list, due, Base());
          IndexIs(list, id, i);
          KeptCancelled(promise, list, i, due, now, firing, calm);
          promise := promise - {id};
          calm := calm && Harmless(list, i, firing);
          due := DueMap(Without(list, i), base);
          WithoutIs(list, i);
          list := list[..i] + list[i + 1..];
          return 0, k;
        }
        i := i + 1;
      }
      rc := -1;
    }
  }

  lemma InStepDistinct(l: seq<Timer>, due: map<nat, nat>, now: nat)
    requires InStep(l, due, now)
    ensures DistinctIds(l)
  {
  }

  lemma WithoutIs(l: seq<Timer>, k: nat)
    requires k < |l|
    ensures Without(l, k) == l[..k] + l[k + 1..]
  {
  }

  lemma PlaceOn(l: seq<Timer>, i: nat, delay: nat)
    requires i < |l| && l[i].delay < delay
    ensures Place(l, i, delay) == Place(l, i + 1, delay - l[i].delay)
  {
  }

  lemma Placed(l: seq<Timer>, i: nat, delay: nat, k: nat, d: nat)
    requires i <= |l| && k <= |l| && Place(l, k, d) == Place(l, i, delay) && !(k < |l| && l[k].delay < d)
    ensures Total(l, i) + delay == Total(l, k) + d && (k < |l| ==> d <= l[k].delay) && (delay > 0 ==> d > 0)
    ensures Total(l, 0) == 0
    ensures i <= k
  {
    PlaceIs(l, i, delay);
  }

  /** When a first timer stores 0 after an insertion. */
  lemma PlacedLag(l: seq<Timer>, delay: nat, k: nat, d: nat, id: nat)
    requires k <= |l| && Place(l, k, d) == Place(l, 0, delay) && !(k < |l| && l[k].delay < d)
    ensures k < |l| ==> d <= l[k].delay
    ensures Lag(Inserted(l, k, Timer(id, d))) == if delay == 0 || Lag(l) == 1 then 1 else 0
  {
    Placed(l, 0, delay, k, d);
  }

  lemma LaterAdded(due: map<nat, nat>, id: nat, t: nat)
    ensures Later(due[id := t]) == Later(due)[id := t + 1]
  {
  }

  lemma NothingInStep(due: map<nat, nat>, a: nat, b: nat)
    ensures InStep([], due, a) ==> InStep([], due, b)
  {
  }

  // ----- whole runs -----

  /** What can happen between ticks, and a tick in which the callback of the j-th timer to fire starts or cancels
      what the j-th entry says. */
  datatype Act = Start(id: nat, delay: nat) | Stop(id: nat) | Nothing

  datatype Op = Do(act: Act) | Tick(callbacks: seq<Act>)

  /** Timer `id` fired at `tick`; when it was started it was promised for `promised`. */
  datatype Event = Event(id: nat, tick: nat, promised: nat)

  ghost predicate OnTime(log: seq<Event>) {
    forall e :: 0 <= e < |log| ==> log[e].tick == log[e].promised
  }

  /** What a run has come to: list and ticks, what is due and what was promised, and all that happened so far: which
      timers were started and cancelled, each with the tick it was promised for, and which fired. */
  datatype Course = Course(list: seq<Timer>, now: nat, firing: bool, due: map<nat, nat>, promise: map<nat, nat>,
                           starts: multiset<(nat, nat)>, stops: multiset<(nat, nat)>, log: seq<Event>)
  {
    ghost function Base(): nat { now + if firing then 0 else Lag(list) }
  }

  const NEW := Course([], 0, false, map[], map[], multiset{}, multiset{}, [])

  /** A start is refused if the timer is active, a cancel if it is not. */
  ghost function Acted(r: Course, act: Act): (r': Course)
    ensures |r'.list| <= |r.list| + 1 && r'.now == r.now && r'.firing == r.firing && r'.log == r.log
  {
    match act
    case Start(id, delay) =>
      if HasId(r.list, id) then r
      else
        r.(list := Put(r.list, id, delay), due := AddedDue(r.due, id, delay, r.now, r.firing, Lag(r.list)),
           promise := r.promise[id := r.now + delay], starts := r.starts + multiset{(id, r.now + delay)})
    case Stop(id) =>
      if !HasId(r.list, id) || id !in r.promise then r
      else
        var m := Without(r.list, IndexOf(r.list, id));
        r.(list := m, due := DueMap(m, r.now + if r.firing then 0 else Lag(m)),
           promise := r.promise - {id}, stops := r.stops + multiset{(id, r.promise[id])})
    case Nothing => r
  }

  /** The first timer fires. */
  ghost function Fired(r: Course): Course
    requires r.list != []
  {
    var id := r.list[0].id;
    r.(list := r.list[1..], due := r.due - {id}, promise := r.promise - {id},
       log := r.log + [Event(id, r.now, if id in r.promise then r.promise[id] else 0)])
  }

  /** The rest of a tick: all that has expired fires, each with its callback. */
  ghost function Rung(r: Course, acts: seq<Act>): Course
    decreases 2 * |acts| + |r.list|
  {
    if r.list == [] || r.list[0].delay > 0 then r.(firing := false)
    else if acts == [] then Rung(Fired(r), [])
    else Rung(Acted(Fired(r), acts[0]), acts[1..])
  }

  ghost function Begun(r: Course): Course {
    r.(list := CountedDown(r.list), now := r.now + 1, firing := true)
  }

  ghost function After(ops: seq<Op>): Course {
    if ops == [] then NEW
    else
      var r := After(ops[..|ops| - 1]);
      match ops[|ops| - 1]
      case Do(act) => Acted(r, act)
      case Tick(callbacks) => Rung(Begun(r), callbacks)
  }

  /** An act that moves no other timer, and starts its own, if any, for the tick asked for. */
  ghost predicate Calm(r: Course, act: Act) {
    match act
    case Start(id, delay) => HasId(r.list, id) || CalmStart(delay, r.firing, Lag(r.list))
    case Stop(id) => !HasId(r.list, id) || Harmless(r.list, IndexOf(r.list, id), r.firing)
    case Nothing => true
  }

  ghost predicate CalmRest(r: Course, acts: seq<Act>)
    decreases 2 * |acts| + |r.list|
  {
    if r.list == [] || r.list[0].delay > 0 then true
    else if acts == [] then CalmRest(Fired(r), [])
    else Calm(Fired(r), acts[0]) && CalmRest(Acted(Fired(r), acts[0]), acts[1..])
  }

  /** Every act of the run was calm where it happened. */
  ghost predicate CalmRun(ops: seq<Op>) {
    ops == [] ||
    var front, op := ops[..|ops| - 1], ops[|ops| - 1];
    && CalmRun(front)
    && match op
       case Do(act) => Calm(After(front), act)
       case Tick(callbacks) => CalmRest(Begun(After(front)), callbacks)
  }

  /** Acts that are calm in any state without a first timer storing 0: no cancel, and no delay of 0. */
  predicate Quiet(act: Act) {
    match act
    case Start(id, delay) => delay >= 1
    case Stop(id) => false
    case Nothing => true
  }

  predicate QuietOp(op: Op) {
    match op
    case Do(act) => Quiet(act)
    case Tick(callbacks) => forall j :: 0 <= j < |callbacks| ==> Quiet(callbacks[j])
  }

  // ----- every start is accounted for -----

  function Rings(log: seq<Event>): multiset<(nat, nat)> {
    if log == [] then multiset{} else Rings(log[..|log| - 1]) + multiset{(log[|log| - 1].id, log[|log| - 1].promised)}
  }

  /** Every timer that was started, with the tick it was promised for, has fired, or was cancelled, or is still
      active, exactly once. */
  ghost predicate Accounts(r: Course) {
    forall p: (nat, nat) ::
      r.starts[p] == Rings(r.log)[p] + r.stops[p] + if p.0 in r.promise && r.promise[p.0] == p.1 then 1 else 0
  }

  lemma ActedAccounts(r: Course, act: Act)
    requires Accounts(r) && r.promise.Keys == r.due.Keys && InStep(r.list, r.due, r.Base())
    ensures Accounts(Acted(r, act))
  {
    hide InStep, Put, AddedDue, Without, DueMap, IndexOf, Rings;
    if !act.Nothing? { InStepIds(r.list, r.due, r.Base(), act.id); }
    var r' := Acted(r, act);
    forall p: (nat, nat)
      ensures r'.starts[p] == Rings(r'.log)[p] + r'.stops[p] + if p.0 in r'.promise && r'.promise[p.0] == p.1 then 1
                  else 0
    {
      assert r.starts[p] == Rings(r.log)[p] + r.stops[p] + if p.0 in r.promise && r.promise[p.0] == p.1 then 1 else 0;
    }
  }

  lemma AccountsSame(r: Course, r': Course)
    requires Accounts(r) && r'.starts == r.starts && r'.stops == r.stops && r'.log == r.log && r'.promise == r.promise
    ensures Accounts(r')
  {
  }

  lemma FiredAccounts(r: Course)
    requires Accounts(r) && r.list != [] && r.list[0].id in r.promise
    ensures Accounts(Fired(r))
  {
    hide Rings;
    var r' := Fired(r);
    LogMore(r.log, r'.log[|r.log|]);
    forall p: (nat, nat)
      ensures r'.starts[p] == Rings(r'.log)[p] + r'.stops[p] + if p.0 in r'.promise && r'.promise[p.0] == p.1 then 1
                  else 0
    {
      assert r.starts[p] == Rings(r.log)[p] + r.stops[p] + if p.0 in r.promise && r.promise[p.0] == p.1 then 1 else 0;
    }
  }

  lemma LogMore(log: seq<Event>, e: Event)
    ensures Rings(log + [e]) == Rings(log) + multiset{(e.id, e.promised)}
  {
    assert (log + [e])[..|log|] == log;
  }

  // ----- the program -----

  /** The timers are where the run has come to. */
  ghost predicate At(ts: Timers, r: Course)
    reads ts
  {
    && ts.Valid() && Accounts(r) && ts.list == r.list && ts.now == r.now && ts.firing == r.firing && ts.due == r.due
    && ts.promise == r.promise
  }

  method Perform(ts: Timers, act: Act, ghost r: Course)
    requires At(ts, r)
    modifies ts
    ensures At(ts, Acted(r, act)) && ts.calm == (old(ts.calm) && Calm(r, act))
    ensures Quiet(act) && (ts.firing || Lag(r.list) == 0) ==> Calm(r, act) && (ts.firing || Lag(ts.list) == 0)
  {
    hide InStep, Put, AddedDue, Without, DueMap, IndexOf, Kept, Accounts, CalmStart, Harmless;
    KeptKeys(ts.promise, ts.due, ts.calm);
    ActedAccounts(r, act);
    CalmStarts();
    match act
    case Start(id, delay) =>
      InStepIds(ts.list, ts.due, ts.Base(), id);
      var rc := ts.Add(id, delay);
    case Stop(id) =>
      InStepIds(ts.list, ts.due, ts.Base(), id);
      var rc;
      ghost var k;
      rc, k := ts.Cancel(id);
    case Nothing =>
  }

  lemma KeptKeys(promise: map<nat, nat>, due: map<nat, nat>, calm: bool)
    requires Kept(promise, due, calm)
    ensures promise.Keys == due.Keys && (calm ==> promise == due)
  {
  }

  lemma CalmStarts()
    ensures forall delay: nat, firing: bool, lag: nat :: delay >= 1 && (firing || lag == 0) ==>
              CalmStart(delay, firing, lag)
  {
  }

  /** During a tick quiet callbacks are calm. */
  lemma {:induction false} QuietRest(r: Course, acts: seq<Act>)
    requires r.firing && forall j :: 0 <= j < |acts| ==> Quiet(acts[j])
    ensures CalmRest(r, acts)
    decreases 2 * |acts| + |r.list|
  {
    hide Acted;
    if r.list != [] && r.list[0].delay == 0 {
      if acts == [] {
        QuietRest(Fired(r), []);
      } else {
        QuietRest(Acted(Fired(r), acts[0]), acts[1..]);
      }
    }
  }

  /** The ids and ticks of the events from `n` on. */
  ghost predicate Logs(log: seq<Event>, n: nat, ids: seq<nat>, tick: nat) {
    |log| == n + |ids| && forall e :: 0 <= e < |ids| ==> log[n + e].id == ids[e] && log[n + e].tick == tick
  }

  lemma LogsNone(log: seq<Event>, tick: nat)
    ensures Logs(log, |log|, [], tick)
  {
  }

  lemma LogsMore(log: seq<Event>, n: nat, ids: seq<nat>, tick: nat, e: Event)
    requires Logs(log, n, ids, tick) && e.tick == tick
    ensures Logs(log + [e], n, ids + [e.id], tick)
  {
    var log', ids' := log + [e], ids + [e.id];
    forall i | 0 <= i < |ids'|
      ensures log'[n + i].id == ids'[i] && log'[n + i].tick == tick
    {
      if i < |ids| { assert log'[n + i] == log[n + i] && ids'[i] == ids[i]; }
    }
  }

  function Stamped(ids: seq<nat>, tick: nat): seq<(nat, nat)> {
    seq(|ids|, e requires 0 <= e < |ids| => (ids[e], tick))
  }

  lemma SeenMore(log: seq<Event>, seen: seq<(nat, nat)>, log': seq<Event>, ids: seq<nat>, tick: nat)
    requires Seen(log, seen) && log <= log' && Logs(log', |log|, ids, tick)
    ensures Seen(log', seen + Stamped(ids, tick))
  {
  }

  /** One round of the expiry loop: the next timer fires and its callback acts, or the tick is over. */
  method RingNext(ts: Timers, acts: seq<Act>, ghost c: Course)
      returns (more: bool, id: nat, rest: seq<Act>, ghost c': Course)
    requires At(ts, c) && ts.firing && (ts.calm ==> OnTime(c.log))
    modifies ts
    ensures At(ts, c') && ts.firing == more && ts.now == old(ts.now) && (ts.calm ==> OnTime(c'.log))
    ensures more ==>
              Rung(c', rest) == Rung(c, acts) && (old(ts.calm) && CalmRest(c, acts)) == (ts.calm && CalmRest(c', rest))
    ensures more ==> 2 * |rest| + |ts.list| < 2 * |acts| + |old(ts.list)|
    ensures more ==>
              |c'.log| == |c.log| + 1 && c.log <= c'.log && c'.log[|c.log|].id == id && c'.log[|c.log|].tick == ts.now
    ensures !more ==> c' == Rung(c, acts) && ts.calm == (old(ts.calm) && CalmRest(c, acts)) && c'.log == c.log
    ensures !more ==> Lag(ts.list) == 0 && forall t: nat :: t in ts.due ==> ts.due[t] > ts.now
  {
    hide InStep, Put, AddedDue, Without, DueMap, IndexOf, Kept, Accounts, Acted, Calm, Harmless;
    KeptKeys(ts.promise, ts.due, ts.calm);
    rest := acts;
    more, id := ts.Expire();
    if !more {
      c' := c.(firing := false);
      AccountsSame(c, c');
      return;
    }
    FiredAccounts(c);
    c' := Fired(c);
    if acts != [] {
      Perform(ts, acts[0], c');
      c', rest := Acted(c', acts[0]), acts[1..];
    }
  }

  /** A tick with its callbacks. Exactly what the course of the run says fires, in that order; what has not fired is
      due later. */
  method TickAll(ts: Timers, callbacks: seq<Act>, ghost r: Course) returns (ids: seq<nat>)
    requires At(ts, r) && !ts.firing && (ts.calm ==> OnTime(r.log))
    modifies ts
    ensures At(ts, Rung(Begun(r), callbacks)) && !ts.firing && Lag(ts.list) == 0
    ensures forall t: nat :: t in ts.due ==> ts.due[t] > ts.now
    ensures ts.now == r.now + 1 && Logs(Rung(Begun(r), callbacks).log, |r.log|, ids, r.now + 1)
    ensures r.log <= Rung(Begun(r), callbacks).log
    ensures ts.calm == (old(ts.calm) && CalmRest(Begun(r), callbacks))
    ensures ts.calm ==> OnTime(Rung(Begun(r), callbacks).log)
  {
    hide InStep, Kept, Accounts, Logs, Rung, CalmRest, OnTime;
    LogsNone(r.log, r.now + 1);
    ts.BeginTick();
    AccountsSame(r, Begun(r));
    ids := [];
    ghost var c := Begun(r);
    var rest, more := callbacks, true;
    while more
      invariant At(ts, c) && ts.firing == more && ts.now == r.now + 1
      invariant if more then Rung(c, rest) == Rung(Begun(r), callbacks)
                && (old(ts.calm) && CalmRest(Begun(r), callbacks)) == (ts.calm && CalmRest(c, rest))
                else c == Rung(Begun(r), callbacks) && ts.calm == (old(ts.calm) && CalmRest(Begun(r), callbacks))
      invariant !more ==> Lag(ts.list) == 0 && forall t: nat :: t in ts.due ==> ts.due[t] > ts.now
      invariant Logs(c.log, |r.log|, ids, r.now + 1) && r.log <= c.log && (ts.calm ==> OnTime(c.log))
      decreases more, 2 * |rest| + |ts.list|
    {
      var id;
      ghost var log := c.log;
      more, id, rest, c := RingNext(ts, rest, c);
      if more {
        assert c.log == log + [c.log[|log|]];
        LogsMore(log, |r.log|, ids, r.now + 1, c.log[|log|]);
        ids := ids + [id];
      }
    }
  }

  /** The events of a run with their ticks, as the program can see them. */
  ghost predicate Seen(log: seq<Event>, seen: seq<(nat, nat)>) {
    |seen| == |log| && forall e :: 0 <= e < |log| ==> seen[e] == (log[e].id, log[e].tick)
  }

  /** Every run of starts, cancels and ticks, with starts and cancels also from callbacks. Exactly the timers that the
      course of the run says fire, at its ticks. Every timer that was started fired once, was cancelled once, or is
      still active; what is active is due later. If every act was calm where it happened, each timer that fired did
      so exactly at the tick asked for, and the others are still to do so; runs without cancels and delays of 0
      are calm. */
  method Run(ops: seq<Op>) returns (ts: Timers, seen: seq<(nat, nat)>)
    ensures At(ts, After(ops)) && Seen(After(ops).log, seen) && !ts.firing && Accounts(After(ops))
    ensures forall t: nat :: t in ts.due ==> ts.due[t] > ts.now
    ensures CalmRun(ops) ==> OnTime(After(ops).log) && ts.promise == ts.due
    ensures (forall j :: 0 <= j < |ops| ==> QuietOp(ops[j])) ==> CalmRun(ops)
  {
    hide InStep, Kept, Accounts, Acted, Calm, Rung, CalmRest, Begun, Seen, Logs;
    ts := new Timers();
    NewAccounts();
    assert Seen([], []) by { SeenNone(); }
    var tick := 0;
    seen := [];
    for i := 0 to |ops|
      invariant fresh(ts) && At(ts, After(ops[..i])) && !ts.firing && Seen(After(ops[..i]).log, seen)
      invariant tick == ts.now && ts.calm == CalmRun(ops[..i]) && (ts.calm ==> OnTime(After(ops[..i]).log))
      invariant (forall j :: 0 <= j < i ==> QuietOp(ops[j])) ==> ts.calm && Lag(ts.list) == 0
    {
      assert ops[..i + 1][..i] == ops[..i];
      ghost var r := After(ops[..i]);
      match ops[i]
      case Do(act) =>
        Perform(ts, act, r);
      case Tick(callbacks) =>
        BegunFires(r);
        if QuietOp(ops[i]) { QuietRest(Begun(r), callbacks); }
        var ids := TickAll(ts, callbacks, r);
        tick := tick + 1;
        SeenMore(r.log, seen, After(ops[..i + 1]).log, ids, tick);
        seen := seen + Stamped(ids, tick);
    }
    assert ops[..|ops|] == ops;
    KeptKeys(ts.promise, ts.due, ts.calm);
    forall t: nat | t in ts.due
      ensures ts.due[t] > ts.now
    {
      DueLater(ts.list, ts.due, ts.now, t);
    }
  }

  lemma SeenNone()
    ensures Seen([], [])
  {
  }

  lemma NewAccounts()
    ensures Accounts(NEW)
  {
  }

  lemma BegunFires(r: Course)
    ensures Begun(r).firing
  {
  }

  /** Between ticks every timer fires at a later one. */
  lemma DueLater(l: seq<Timer>, due: map<nat, nat>, now: nat, id: nat)
    requires InStep(l, due, now + Lag(l)) && id in due
    ensures due[id] > now
  {
    hide Total;
    assert HasId(l, id);
    var i :| 0 <= i < |l| && l[i].id == id;
    assert DueAt(l, due, now + Lag(l), i);
    FiresAtLeastOnce(l, i);
  }
}
