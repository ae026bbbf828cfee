/**
 Sector transfers of the SD-card driver: a thread and an interrupt handler share one command
 record. The handler may run between any two accesses of the thread to it; data arrives with
 the bits of every byte reversed and the thread turns them round in place.
 */
module SdCard {

  /** 32-bit words in a sector. */
  const WORDS := 128

  const MAX_RETRIES := 4
  const EIO := 5
  const NO_READ_TOKEN := 1
  const WRITE_ERROR := 3
  const TRANSFER_TIMEOUT := 4

  // ----- reversing bits -----

  function Nibbles(w: bv32): bv32 { ((w & 0xF0F0F0F0) >> 4) | ((w & 0x0F0F0F0F) << 4) }

  function Pairs(w: bv32): bv32 { ((w & 0xCCCCCCCC) >> 2) | ((w & 0x33333333) << 2) }

  function Singles(w: bv32): bv32 { ((w & 0xAAAAAAAA) >> 1) | ((w & 0x55555555) << 1) }

  /** The bits of each byte of a word in reverse order. */
  function RevWord(w: bv32): bv32 { Singles(Pairs(Nibbles(w))) }

  function Bit(w: bv32, k: bv32): bv32
    requires k < 32
  {
    (w >> k) & 1
  }

  /** Nibbles, pairs and single bits change places. */
  lemma NibblesBits(w: bv32, k: bv32)
    requires k < 32
    ensures Bit(Nibbles(w), k) == Bit(w, k ^ 4)
  {
  }

  lemma PairsBits(w: bv32, k: bv32)
    requires k < 32
    ensures Bit(Pairs(w), k) == Bit(w, k ^ 2)
  {
  }

  lemma SinglesBits(w: bv32, k: bv32)
    requires k < 32
    ensures Bit(Singles(w), k) == Bit(w, k ^ 1)
  {
  }

  lemma Mirrored(k: bv32)
    requires k < 32
    ensures k ^ 7 < 32 && k ^ 1 < 32 && (k ^ 1) ^ 2 < 32 && ((k ^ 1) ^ 2) ^ 4 == k ^ 7
  {
  }

  /** Bit `k` of the word, counted from the low end, comes from the mirrored place in the same byte. */
  lemma RevWordBits(w: bv32, k: bv32)
    requires k < 32
    ensures Bit(RevWord(w), k) == Bit(w, k ^ 7)
  {
    hide Nibbles, Pairs, Singles, Bit;
    Mirrored(k);
    SinglesBits(Pairs(Nibbles(w)), k);
    PairsBits(Nibbles(w), k ^ 1);
    NibblesBits(w, (k ^ 1) ^ 2);
  }

  /** Doing it twice undoes it. */
  lemma RevTwice(w: bv32)
    ensures RevWord(RevWord(w)) == w
  {
  }

  /** The card's word that belongs at index `i` of a buffer that begins at `base`, for a transfer from word
      `start` of the card on. */
  function Source(card: seq<bv32>, base: nat, start: nat, i: int): bv32 {
    if 0 <= start + (i - base) < |card| then card[start + (i - base)] else 0
  }

  /** Words `lo..hi` of the buffer are those of the card ... */
  ghost predicate Plain(buf: array<bv32>, card: seq<bv32>, base: nat, start: nat, lo: int, hi: int)
    reads buf
  {
    forall i :: lo <= i < hi && 0 <= i < buf.Length ==> buf[i] == Source(card, base, start, i)
  }

  /** ... or the same with their bits reversed, as they were received. */
  ghost predicate Received(buf: array<bv32>, card: seq<bv32>, base: nat, start: nat, lo: int, hi: int)
    reads buf
  {
    forall i :: lo <= i < hi && 0 <= i < buf.Length ==> buf[i] == RevWord(Source(card, base, start, i))
  }

  lemma ReceivedMore(buf: array<bv32>, card: seq<bv32>, base: nat, start: nat, lo: int, mid: int, hi: int)
    requires Received(buf, card, base, start, lo, mid) && Received(buf, card, base, start, mid, hi)
    ensures Received(buf, card, base, start, lo, hi)
  {
  }

  lemma PlainLess(buf: array<bv32>, card: seq<bv32>, base: nat, start: nat, mid: int, hi: int)
    requires Plain(buf, card, base, start, base, hi) && mid <= hi
    ensures Plain(buf, card, base, start, base, mid)
  {
  }

  /** Reverses the bits of `n` words in place. */
  method ReverseBuffer(buf: array<bv32>, from: nat, n: nat)
    requires from + n <= buf.Length
    modifies buf
    ensures forall i :: 0 <= i < buf.Length ==>
              buf[i] == if from <= i < from + n then RevWord(old(buf[i])) else old(buf[i])
  {
    hide RevWord;
    for i := 0 to n
      invariant forall j :: 0 <= j < buf.Length ==>
                  buf[j] == if from <= j < from + i then RevWord(old(buf[j])) else old(buf[j])
    {
      buf[from + i] := RevWord(buf[from + i]);
    }
  }

  class Driver {
    const buf: array<bv32>
    var card: seq<bv32>
    // the command record
    var base: nat           // where the buffer begins, in words
    var count: nat
    var transferred: nat
    var reversed: nat
    var abort: nat
    // event flags and hardware
    var revFlag: bool
    var doneFlag: bool
    var dma: bool           // a sector is being received
    ghost var turned: bool  // the sector after those counted is turned round already
    ghost var spoiled: bool // ... and will not be counted, as an abort came
    var start: nat          // where on the card the transfer began, in words
    ghost var faults: nat   // what went wrong: no start or stop, a stuck transfer, no token, no event, a refusal
    ghost var silences: nat // ... among them the waits that saw no event
    ghost var lost: nat     // recoveries that failed

    constructor (buf: array<bv32>, card: seq<bv32>)
      ensures this.buf == buf && this.card == card && !dma
    {
      this.buf := buf;
      this.card := card;
      base, count, transferred, reversed, abort := 0, 0, 0, 0, 0;
      revFlag, doneFlag, dma, turned, spoiled, start := false, false, false, false, false, 0;
      faults, silences, lost := 0, 0, 0;
    }

    /** What holds of the command record whenever the interrupt handler can run. */
    ghost predicate Live()
      reads this, buf
    {
      && base + WORDS * count <= buf.Length && start + WORDS * count <= |card|
      && reversed + Turned() <= transferred <= count
      && (dma ==> transferred < count && !doneFlag && (abort == 0 || abort == TRANSFER_TIMEOUT))
      && (abort == 0 && !dma ==> transferred == count)
      && Plain(buf, card, base, start, base, base + WORDS * (reversed + Turned()))
      && (spoiled ==> abort != 0)
      && (!spoiled ==> Received(buf, card, base, start, base + WORDS * (reversed + Turned()),
          base + WORDS * transferred))
    }

    ghost function Turned(): nat
      reads this
    {
      if turned then 1 else 0
    }

    /** What is left to do of a transfer. */
    ghost function Work(): nat
      requires transferred <= count
      reads this
    {
      2 * (count - transferred) + if revFlag then 1 else 0
    }

    /** The interrupt handler, when a sector has arrived (`complete`) or its transfer got stuck. Unless it was
        the last one, a token for the next sector should follow. */
    method Interrupt(complete: bool, token: bool)
      requires Live() && dma
      modifies this`transferred, this`abort, this`revFlag, this`doneFlag, this`dma, this`faults, buf
      ensures faults == old(faults) + (if complete && (token || old(abort) != 0 || transferred == count) then 0 else 1)
      ensures transferred == old(transferred) + if complete then 1 else 0
      ensures abort == if !complete then TRANSFER_TIMEOUT
                       else if old(abort) == 0 && transferred < count && !token then NO_READ_TOKEN else old(abort)
      ensures dma <==> complete && token && old(abort) == 0 && transferred < count
      ensures Live()
      ensures Work() <= old(Work())
      ensures forall i :: 0 <= i < buf.Length && !(base + WORDS * old(transferred) <= i < base + WORDS * count) ==>
                buf[i] == old(buf[i])
      ensures (!dma ==> doneFlag) && (transferred > old(transferred) ==> revFlag)
      ensures (doneFlag || revFlag) && (old(revFlag) ==> revFlag)
    {
      hide RevWord, Plain, Received;
      Receive(complete);
      if complete && !spoiled {
        ReceivedMore(buf, card, base, start, base + WORDS * (reversed + Turned()), base + WORDS * transferred,
            base + WORDS * (transferred + 1));
      }
      Note(complete, token);
    }

    /** What the handler notes in the command record. */
    method Note(complete: bool, token: bool)
      requires Live() && dma
      requires complete && !spoiled ==>
                 Received(buf, card, base, start, base + WORDS * (reversed + Turned()),
                     base + WORDS * (transferred + 1))
      modifies this`transferred, this`abort, this`revFlag, this`doneFlag, this`dma, this`faults
      ensures faults == old(faults) + (if complete && (token || old(abort) != 0 || transferred == count) then 0 else 1)
      ensures transferred == old(transferred) + if complete then 1 else 0
      ensures abort == if !complete then TRANSFER_TIMEOUT
                       else if old(abort) == 0 && transferred < count && !token then NO_READ_TOKEN else old(abort)
      ensures dma <==> complete && token && old(abort) == 0 && transferred < count
      ensures Live() && Work() <= old(Work())
      ensures (!dma ==> doneFlag) && (transferred > old(transferred) ==> revFlag)
      ensures (doneFlag || revFlag) && (old(revFlag) ==> revFlag)
    {
      hide RevWord, Plain, Received;
      if !complete {
        abort, doneFlag, dma := TRANSFER_TIMEOUT, true, false;
        faults := faults + 1;
        return;
      }
      transferred := transferred + 1;
      if transferred < count && abort == 0 {
        if token {
          revFlag := true;
          return;
        }
        abort := NO_READ_TOKEN;
        faults := faults + 1;
      }
      dma, revFlag, doneFlag := false, true, true;
    }

    /** The hardware writes into the sector after those transferred: the card's next sector, or anything if it
        does not complete. */
    method Receive(complete: bool)
      requires Live() && dma
      modifies buf
      ensures forall i ::
                0 <= i < buf.Length && !(base + WORDS * transferred <= i < base + WORDS * (transferred + 1)) ==>
                  buf[i] == old(buf[i])
      ensures Plain(buf, card, base, start, base, base + WORDS * (reversed + Turned()))
      ensures !spoiled ==>
                Received(buf, card, base, start, base + WORDS * (reversed + Turned()), base + WORDS * transferred)
      ensures complete ==>
                Received(buf, card, base, start, base + WORDS * transferred, base + WORDS * (transferred + 1))
    {
      hide RevWord;
      ghost var at := base + WORDS * transferred;
      for w := 0 to WORDS
        invariant forall i :: 0 <= i < buf.Length && !(at <= i < at + w) ==> buf[i] == old(buf[i])
        invariant complete ==> Received(buf, card, base, start, at, at + w)
      {
        var junk: bv32 := *;
        var next := card[start + WORDS * transferred + w];
        buf[base + WORDS * transferred + w] := if complete then RevWord(next) else junk;
      }
    }

    /** The interrupt handler runs any number of times. */
    method Interrupts()
      requires Live()
      modifies this`transferred, this`abort, this`revFlag, this`doneFlag, this`dma, this`faults, buf
      ensures faults >= old(faults) && (abort != 0 <==> old(abort) != 0 || faults > old(faults))
      ensures Live() && transferred >= old(transferred) && Work() <= old(Work())
      ensures forall i :: 0 <= i < buf.Length && !(base + WORDS * old(transferred) <= i < base + WORDS * count) ==>
                buf[i] == old(buf[i])
      ensures (old(abort) != 0 ==> abort == old(abort)) && (dma ==> old(dma)) && (old(revFlag) ==> revFlag)
      ensures (old(dma) && !dma ==> doneFlag) && (transferred > old(transferred) ==> revFlag)
      ensures !old(dma) ==>
                && abort == old(abort) && doneFlag == old(doneFlag) && revFlag == old(revFlag)
                && transferred == old(transferred)
    {
      hide RevWord, Plain, Received;
      var more: bool := *;
      while more && dma
        invariant faults >= old(faults) && (abort != 0 <==> old(abort) != 0 || faults > old(faults))
        invariant Live() && old(transferred) <= transferred && Work() <= old(Work())
        invariant forall i :: 0 <= i < buf.Length && !(base + WORDS * old(transferred) <= i < base + WORDS * count) ==>
                    buf[i] == old(buf[i])
        invariant (old(abort) != 0 ==> abort == old(abort)) && (dma ==> old(dma)) && (old(revFlag) ==> revFlag)
        invariant (old(dma) && !dma ==> doneFlag) && (transferred > old(transferred) ==> revFlag)
        invariant !old(dma) ==>
                    && abort == old(abort) && doneFlag == old(doneFlag) && revFlag == old(revFlag)
                    && transferred == old(transferred)
        decreases count - transferred, dma
      {
        var complete: bool, token: bool := *, *;
        Interrupt(complete, token);
        more := *;
      }
    }

    /** Turns round and counts the sectors that have arrived, until none is left or the transfer is aborted. */
    method ReverseReady()
      requires Live() && !turned
      modifies this`transferred, this`reversed, this`abort, this`revFlag, this`doneFlag, this`dma, this`turned,
               this`spoiled, this`faults, buf
      ensures faults >= old(faults) && (abort != 0 <==> old(abort) != 0 || faults > old(faults))
      ensures Live() && !turned && Work() <= old(Work()) && (dma ==> old(dma))
      ensures forall i :: 0 <= i < buf.Length && !(base <= i < base + WORDS * count) ==> buf[i] == old(buf[i])
      ensures abort == 0 ==> reversed == transferred
      ensures (old(dma) && !dma ==> doneFlag) && (!old(dma) ==> doneFlag == old(doneFlag))
    {
      hide RevWord, Plain, Received;
      var more := true;
      while more
        invariant faults >= old(faults) && (abort != 0 <==> old(abort) != 0 || faults > old(faults))
        invariant Live() && !turned && Work() <= old(Work()) && (dma ==> old(dma))
        invariant forall i :: 0 <= i < buf.Length && !(base <= i < base + WORDS * count) ==> buf[i] == old(buf[i])
        invariant (old(dma) && !dma ==> doneFlag) && (!old(dma) ==> doneFlag == old(doneFlag))
        invariant !more && abort == 0 ==> reversed == transferred
        decreases more, count - reversed, if abort == 0 then 1 else 0
      {
        more := ReverseNext();
      }
    }

    /** One round of that loop, with the handler running between all its accesses. The sector that is turned
        round is not counted if an abort has come by then. */
    method ReverseNext() returns (more: bool)
      requires Live() && !turned
      modifies this`transferred, this`reversed, this`abort, this`revFlag, this`doneFlag, this`dma, this`turned,
               this`spoiled, this`faults, buf
      ensures faults >= old(faults) && (abort != 0 <==> old(abort) != 0 || faults > old(faults))
      ensures Live() && !turned && Work() <= old(Work()) && (dma ==> old(dma))
      ensures forall i :: 0 <= i < buf.Length && !(base <= i < base + WORDS * count) ==> buf[i] == old(buf[i])
      ensures (old(dma) && !dma ==> doneFlag) && (!old(dma) ==> doneFlag == old(doneFlag))
      ensures !more && abort == 0 ==> reversed == transferred
      ensures more ==> old(abort) == 0 && (reversed > old(reversed) || (reversed == old(reversed) && abort != 0))
    {
      hide RevWord, Plain, Received;
      Interrupts();
      if reversed >= transferred { return false; }
      Interrupts();
      if abort != 0 { return false; }
      Interrupts();
      TurnOne();
      Interrupts();
      CountTurned();
      more := true;
    }

    method CountTurned()
      requires Live() && turned && !spoiled
      modifies this`transferred, this`reversed, this`abort, this`revFlag, this`doneFlag, this`dma, this`turned,
               this`spoiled, this`faults, buf
      ensures faults >= old(faults) && (abort != 0 <==> old(abort) != 0 || faults > old(faults))
      ensures Live() && !turned && Work() <= old(Work()) && (dma ==> old(dma))
      ensures forall i :: 0 <= i < buf.Length && !(base <= i < base + WORDS * count) ==> buf[i] == old(buf[i])
      ensures (old(dma) && !dma ==> doneFlag) && (!old(dma) ==> doneFlag == old(doneFlag))
      ensures reversed > old(reversed) || (reversed == old(reversed) && abort != 0)
    {
      hide RevWord, Plain, Received;
      if abort == 0 {
        Interrupts();
        reversed := reversed + 1;
      } else {
        PlainLess(buf, card, base, start, base + WORDS * reversed, base + WORDS * (reversed + 1));
        spoiled := true;
      }
      turned := false;
    }

    method TurnOne()
      requires Live() && !turned && !spoiled && reversed < transferred
      modifies this`turned, buf
      ensures Live() && turned
      ensures forall i :: 0 <= i < buf.Length && !(base <= i < base + WORDS * count) ==> buf[i] == old(buf[i])
    {
      hide RevWord;
      ghost var lo := base + WORDS * reversed;
      ReverseBuffer(buf, base + WORDS * reversed, WORDS);
      forall i | lo <= i < lo + WORDS
        ensures buf[i] == Source(card, base, start, i)
      {
        RevTwice(Source(card, base, start, i));
        assert old(buf[i]) == RevWord(Source(card, base, start, i));
      }
      turned := true;
    }

    /** Receives `count` sectors into the buffer from word `base` on. Returns how many of them are complete and
        turned round: these hold the card's data, whenever the interrupt handler ran. */
    method ReadMultiDo(base: nat, count: nat, start: nat) returns (n: nat)
      requires !dma && 0 < count && base + WORDS * count <= buf.Length && start + WORDS * count <= |card|
      modifies this`base, this`count, this`start, this`transferred, this`reversed, this`abort, this`revFlag,
               this`doneFlag, this`dma, this`turned, this`spoiled, this`faults, this`silences, buf
      ensures faults >= old(faults) && (abort != 0 <==> faults > old(faults))
      ensures Live() && !turned && this.base == base && this.count == count && this.start == start
      ensures n == reversed <= count
      ensures forall i :: 0 <= i < buf.Length && !(base <= i < base + WORDS * count) ==> buf[i] == old(buf[i])
      ensures dma ==> abort == TRANSFER_TIMEOUT
      ensures abort == 0 ==> n == count
    {
      hide RevWord, Plain, Received;
      this.base, this.count, this.start := base, count, start;
      transferred, reversed, abort, turned, spoiled := 0, 0, 0, false, false;
      revFlag, doneFlag, dma := false, false, true;
      NothingYet(buf, card, base, start);
      var finished := false;
      while !finished
        invariant !finished ==> Woken()
        invariant faults >= old(faults) && (abort != 0 <==> faults > old(faults))
        invariant Live() && !turned && this.base == base && this.count == count && this.start == start
        invariant forall i :: 0 <= i < buf.Length && !(base <= i < base + WORDS * count) ==> buf[i] == old(buf[i])
        invariant finished ==> (dma ==> abort == TRANSFER_TIMEOUT) && (abort == 0 ==> reversed == count)
        decreases !finished, Work()
      {
        finished := ServeEvent();
      }
      n := reversed;
    }

    /** The thread is going to be told of every sector it has not turned round, and of the end. */
    ghost predicate Woken()
      reads this
    {
      (!dma ==> doneFlag) && (abort == 0 && reversed < transferred ==> revFlag)
    }

    /** Waits for an event and deals with it. Without one the transfer has timed out. Events that come after the
        poll are not lost: the flag for sectors is cleared before sectors are looked for, and the flag for the
        end only if the poll has seen it. */
    method ServeEvent() returns (finished: bool)
      requires Live() && !turned && Woken()
      modifies this`transferred, this`reversed, this`abort, this`revFlag, this`doneFlag, this`dma, this`turned,
               this`spoiled, this`faults, this`silences, buf
      ensures silences == old(silences) || (!old(revFlag) && !old(doneFlag))
      ensures faults >= old(faults) && (abort != 0 <==> old(abort) != 0 || faults > old(faults))
      ensures Live() && !turned
      ensures forall i :: 0 <= i < buf.Length && !(base <= i < base + WORDS * count) ==> buf[i] == old(buf[i])
      ensures if finished then (dma ==> abort == TRANSFER_TIMEOUT) && (abort == 0 ==> reversed == count)
              else Woken() && Work() < old(Work())
    {
      hide RevWord, Plain, Received;
      Interrupts();
      var rev, done := revFlag, doneFlag;
      if !rev && !done {
        Interrupts();
        abort := TRANSFER_TIMEOUT;
        faults, silences := faults + 1, silences + 1;
        return true;
      }
      if rev { ServeSectors(); }
      if done { ServeEnd(); }
      finished := done;
    }

    method ServeSectors()
      requires Live() && !turned && revFlag && (!dma ==> doneFlag)
      modifies this`transferred, this`reversed, this`abort, this`revFlag, this`doneFlag, this`dma, this`turned,
               this`spoiled, this`faults, buf
      ensures faults >= old(faults) && (abort != 0 <==> old(abort) != 0 || faults > old(faults))
      ensures Live() && !turned && Work() < old(Work()) && Woken() && (dma ==> old(dma))
      ensures abort == 0 ==> reversed <= transferred
      ensures forall i :: 0 <= i < buf.Length && !(base <= i < base + WORDS * count) ==> buf[i] == old(buf[i])
      ensures !dma && abort == 0 ==> reversed == count
    {
      hide RevWord, Plain, Received;
      Interrupts();
      revFlag := false;
      ReverseReady();
    }

    method ServeEnd()
      requires Live() && !turned && !dma && (abort == 0 ==> reversed == count)
      modifies this`transferred, this`abort, this`revFlag, this`doneFlag, this`dma, this`faults, buf
      ensures faults >= old(faults) && (abort != 0 <==> old(abort) != 0 || faults > old(faults))
      ensures Live() && !turned && !dma && !doneFlag && (abort == 0 ==> reversed == count)
      ensures forall i :: 0 <= i < buf.Length && !(base <= i < base + WORDS * count) ==> buf[i] == old(buf[i])
    {
      hide RevWord, Plain, Received;
      Interrupts();
      doneFlag := false;
    }

    /** A command that begins or ends a transfer: the card accepts it or does not. */
    method Command() returns (ok: bool)
      modifies this`faults
      ensures faults == old(faults) + if ok then 0 else 1
    {
      ok := *;
      if !ok { faults := faults + 1; }
    }

    /** Sets the card up anew, if it can. */
    method Recover() returns (ok: bool)
      modifies this`lost
      ensures lost == old(lost) + if ok then 0 else 1
    {
      ok := *;
      if !ok { lost := lost + 1; }
    }

    /** One attempt at the sectors that are left. The handler may still run after it. */
    method ReadOn(at: nat, left: nat, sect: nat, ghost sector: nat) returns (n: nat)
      requires !dma && 0 < left && sector <= sect && at == WORDS * (sect - sector) && at + WORDS * left <= buf.Length
      requires WORDS * (sect + left) <= |card| <= WORDS * 0x1_0000_0000 && Plain(buf, card, 0, WORDS * sector, 0, at)
      modifies this`base, this`count, this`start, this`transferred, this`reversed, this`abort, this`revFlag,
               this`doneFlag, this`dma, this`turned, this`spoiled, this`faults, this`silences, buf
      ensures faults >= old(faults) && (abort != 0 <==> faults > old(faults))
      ensures n <= left && Plain(buf, card, 0, WORDS * sector, 0, at + WORDS * n) && (dma ==> abort == TRANSFER_TIMEOUT)
      ensures forall i :: at + WORDS * left <= i < buf.Length ==> buf[i] == old(buf[i])
      ensures abort == 0 ==> n == left
    {
      hide RevWord, Received, Plain, PlainWere;
      ghost var was := buf[..];
      PlainSays(buf, card, WORDS * sector, at);
      n := ReadMultiDo(at, left, WORDS * (sect % 0x1_0000_0000));
      Interrupts();
      PlainKept(buf, was, card, WORDS * sector, at);
      MorePlain(buf, card, base, start, WORDS * sector, base + WORDS * n);
    }

    /** Reads `count` sectors of the card into the buffer, taking up a broken transfer at the first sector that
        was not counted, at most four times. */
    method Read(sector: nat, count: nat) returns (r: int)
      requires !dma && count < 0x1_0000 && 128 * count <= buf.Length
      requires 128 * (sector + count) <= |card| <= 128 * 0x1_0000_0000
      modifies this, buf
      ensures card == old(card) && !dma
      ensures r == count || r == -EIO
      ensures faults < old(faults) + 4 && lost == old(lost) ==> r == count
      ensures lost > old(lost) ==> faults > old(faults) && r == -EIO
      ensures r == count ==> forall i :: 0 <= i < 128 * count ==> buf[i] == card[128 * sector + i]
      ensures forall i :: 128 * count <= i < buf.Length ==> buf[i] == old(buf[i])
    {
      hide RevWord, Plain, Received;
      var left: nat, at: nat, sect: nat, retries: nat, failed := count, 0, sector, 0, false;
      if count == 0 { return 0; }
      AllPlain(buf, card, 0, WORDS * sector, 0);
      while left > 0 && retries < MAX_RETRIES
        invariant !dma && left <= count && retries <= MAX_RETRIES && card == old(card)
        invariant left > 0 ==> at == WORDS * (count - left) && sect == sector + (count - left)
        invariant Plain(buf, card, 0, WORDS * sector, 0, WORDS * (count - left))
        invariant forall i :: WORDS * count <= i < buf.Length ==> buf[i] == old(buf[i])
        invariant faults >= old(faults) + (if left > 0 then retries else 0) && lost == old(lost) && !failed
        decreases MAX_RETRIES - retries
      {
        retries := retries + 1;
        var begun := Command();
        if !begun {
          var recovered := Recover();
          if !recovered { break; }
          continue;
        }
        var n := ReadOn(at, left, sect, sector);
        left := left - n;
        if left > 0 {
          at, sect := at + WORDS * n, sect + n;
          if abort == NO_READ_TOKEN {
            var recovered := Recover();
            if !recovered { break; }
            continue;
          }
        }
        if abort == TRANSFER_TIMEOUT {
          dma := false;
          var recovered := Recover();
          if !recovered {
            failed := true;
            break;
          }
          continue;
        }
        var ended := Command();
        if !ended {
          var recovered := Recover();
          if !recovered {
            failed := true;
            break;
          }
        }
      }
      dma := false;
      PlainWhole(buf, card, WORDS * sector, WORDS * (count - left));
      r := if left == 0 && !failed then count else -EIO;
    }

    // ----- writing -----

    /** Sends one sector: the card holds its words with their bits turned round, or anything if it did not
        accept them. */
    method Send(from: nat, to: nat, accepted: bool)
      requires from + WORDS <= buf.Length && to + WORDS <= |card|
      modifies this`card
      ensures |card| == |old(card)|
      ensures forall i :: 0 <= i < |card| && !(to <= i < to + WORDS) ==> card[i] == old(card)[i]
      ensures accepted ==> forall i :: to <= i < to + WORDS ==> card[i] == RevWord(buf[from + (i - to)])
    {
      hide RevWord;
      for w := 0 to WORDS
        invariant |card| == |old(card)|
        invariant forall i :: 0 <= i < |card| && !(to <= i < to + w) ==> card[i] == old(card)[i]
        invariant accepted ==> forall i :: to <= i < to + w ==> card[i] == RevWord(buf[from + (i - to)])
      {
        var junk: bv32 := *;
        card := card[to + w := if accepted then RevWord(buf[from + w]) else junk];
      }
    }

    /** What holds of the command record while sectors are sent: those counted are on the card. */
    ghost predicate Sending()
      reads this, buf
    {
      && base + WORDS * count <= buf.Length && start + WORDS * count <= |card| && transferred <= count
      && (dma ==> transferred < count && !doneFlag && (abort == 0 || abort == TRANSFER_TIMEOUT))
      && (abort == 0 && !dma ==> transferred == count)
      && forall i :: start <= i < start + WORDS * transferred ==> card[i] == RevWord(buf[base + (i - start)])
    }

    /** The interrupt handler, when a sector has gone out (`complete`), which the card may accept, or its transfer
        got stuck. A sector that goes out after
        the thread gave up is not counted. */
    method SendInterrupt(complete: bool, accepted: bool)
      requires Sending() && dma
      modifies this`card, this`transferred, this`abort, this`doneFlag, this`dma, this`faults
      ensures faults == old(faults) + if complete && accepted then 0 else 1
      ensures abort == if !complete then TRANSFER_TIMEOUT else if !accepted then WRITE_ERROR else old(abort)
      ensures transferred == old(transferred) + if abort == 0 then 1 else 0
      ensures dma <==> abort == 0 && transferred < count
      ensures Sending() && |card| == |old(card)| && transferred >= old(transferred)
      ensures dma ==> transferred > old(transferred) && abort == old(abort) == 0
      ensures old(abort) != 0 ==> abort != 0 && transferred == old(transferred)
      ensures forall i :: 0 <= i < |card| && !(start + WORDS * old(transferred) <= i < start + WORDS * count) ==>
                card[i] == old(card)[i]
    {
      hide RevWord;
      Send(base + WORDS * transferred, start + WORDS * transferred, complete && accepted);
      if !complete {
        abort, doneFlag, dma := TRANSFER_TIMEOUT, true, false;
        faults := faults + 1;
        return;
      }
      if !accepted {
        abort := WRITE_ERROR;
        faults := faults + 1;
      }
      if abort == 0 { transferred := transferred + 1; }
      if transferred < count && abort == 0 { return; }
      doneFlag, dma := true, false;
    }

    method SendInterrupts()
      requires Sending()
      modifies this`card, this`transferred, this`abort, this`doneFlag, this`dma, this`faults
      ensures faults >= old(faults) && (abort != 0 <==> old(abort) != 0 || faults > old(faults))
      ensures Sending() && |card| == |old(card)| && transferred >= old(transferred)
      ensures dma ==> old(dma) && abort == old(abort)
      ensures !old(dma) ==>
                abort == old(abort) && transferred == old(transferred) && card == old(card) && doneFlag == old(doneFlag)
      ensures forall i :: 0 <= i < |card| && !(start <= i < start + WORDS * count) ==> card[i] == old(card)[i]
      ensures old(abort) != 0 ==> abort != 0 && transferred == old(transferred)
    {
      hide RevWord;
      var more: bool := *;
      while more && dma
        invariant faults >= old(faults) && (abort != 0 <==> old(abort) != 0 || faults > old(faults))
        invariant Sending() && |card| == |old(card)| && transferred >= old(transferred)
        invariant dma ==> old(dma) && abort == old(abort)
        invariant !old(dma) ==>
                    && abort == old(abort) && transferred == old(transferred) && card == old(card)
                    && doneFlag == old(doneFlag)
        invariant forall i :: 0 <= i < |card| && !(start <= i < start + WORDS * count) ==> card[i] == old(card)[i]
        invariant old(abort) != 0 ==> abort != 0 && transferred == old(transferred)
        decreases count - transferred, dma
      {
        var complete: bool, accepted: bool := *, *;
        SendInterrupt(complete, accepted);
        more := *;
      }
    }

    /** Sends `count` sectors from word `base` of the buffer on. Returns how many the card accepted, whenever the
        interrupt handler ran; it may still run if the thread gave up waiting. */
    method WriteMultiDo(base: nat, count: nat, start: nat) returns (n: nat)
      requires !dma && 0 < count && base + WORDS * count <= buf.Length && start + WORDS * count <= |card|
      modifies this`card, this`base, this`count, this`start, this`transferred, this`reversed, this`abort, this`doneFlag,
               this`revFlag, this`dma, this`faults, this`silences
      ensures faults >= old(faults) && (abort != 0 <==> faults > old(faults))
      ensures Sending() && this.base == base && this.count == count && this.start == start && n <= transferred
      ensures |card| == |old(card)|
      ensures dma ==> abort == TRANSFER_TIMEOUT
      ensures abort == 0 ==> n == count
      ensures forall i :: 0 <= i < |card| && !(start <= i < start + WORDS * count) ==> card[i] == old(card)[i]
    {
      hide RevWord;
      this.base, this.count, this.start := base, count, start;
      transferred, reversed, abort := 0, 0, 0;
      revFlag, doneFlag, dma := false, false, true;
      SendInterrupts();
      AwaitSent();
      n := transferred;
    }

    /** Waits for the end of the transfer. Without a sign of it the transfer has timed out. */
    method AwaitSent()
      requires Sending()
      modifies this`card, this`transferred, this`abort, this`doneFlag, this`dma, this`faults, this`silences
      ensures Sending() && |card| == |old(card)| && transferred >= old(transferred)
      ensures faults >= old(faults) && (abort != 0 <==> old(abort) != 0 || faults > old(faults))
      ensures old(doneFlag) ==> !doneFlag
      ensures silences == old(silences) || !old(doneFlag)
      ensures dma ==> abort == TRANSFER_TIMEOUT
      ensures forall i :: 0 <= i < |card| && !(start <= i < start + WORDS * count) ==> card[i] == old(card)[i]
    {
      hide RevWord;
      var done := doneFlag;
      SendInterrupts();
      if done {
        doneFlag := false;
      } else {
        abort, faults, silences := TRANSFER_TIMEOUT, faults + 1, silences + 1;
        SendInterrupts();
      }
    }

    /** Writes the buffer to the card. Whatever happens, the caller's buffer is as it was, and no other sector of
        the card changes. */
    method Write(sector: nat, count: nat) returns (r: int)
      requires !dma && count < 0x1_0000 && 128 * count <= buf.Length
      requires 128 * (sector + count) <= |card| <= 128 * 0x1_0000_0000
      modifies this, buf
      ensures forall i :: 0 <= i < buf.Length ==> buf[i] == old(buf[i])
      ensures |card| == |old(card)|
      ensures forall i :: 0 <= i < |card| && !(128 * sector <= i < 128 * (sector + count)) ==>
                card[i] == old(card)[i]
      ensures r == count || r == -EIO
      ensures faults < old(faults) + 4 && lost == old(lost) ==> r == count
      ensures lost > old(lost) ==> faults > old(faults) && r == -EIO
      ensures r == count ==> forall i :: 0 <= i < 128 * count ==> card[128 * sector + i] == buf[i]
    {
      hide RevWord;
      if count == 0 { return 0; }
      ReverseBuffer(buf, 0, WORDS * count);
      r := SendAll(sector, count);
      ghost var sent := buf[..];
      ReverseBuffer(buf, 0, WORDS * count);
      forall i | 0 <= i < WORDS * count
        ensures buf[i] == old(buf[i])
      {
        RevTwice(old(buf[i]));
      }
      if r == count {
        forall i | 0 <= i < WORDS * count
          ensures card[WORDS * sector + i] == buf[i]
        {
          assert card[WORDS * sector + i] == RevWord(sent[i]);
        }
      }
    }

    /** One attempt at the sectors that are left. */
    method WriteOn(at: nat, left: nat, sect: nat, ghost sector: nat) returns (n: nat)
      requires !dma && 0 < left && sector <= sect && at == WORDS * (sect - sector) && at + WORDS * left <= buf.Length
      requires WORDS * (sect + left) <= |card| <= WORDS * 0x1_0000_0000
      requires forall i :: WORDS * sector <= i < WORDS * sect ==> card[i] == RevWord(buf[i - WORDS * sector])
      modifies this`card, this`base, this`count, this`start, this`transferred, this`reversed, this`abort, this`doneFlag,
               this`revFlag, this`dma, this`faults, this`silences
      ensures faults >= old(faults) && (abort != 0 <==> faults > old(faults))
      ensures abort == 0 ==> n == left
      ensures n <= left && |card| == |old(card)| && (dma ==> abort == TRANSFER_TIMEOUT)
      ensures forall i :: 0 <= i < |card| && !(WORDS * sect <= i < WORDS * (sect + left)) ==> card[i] == old(card)[i]
      ensures forall i :: WORDS * sector <= i < WORDS * (sect + n) ==> card[i] == RevWord(buf[i - WORDS * sector])
    {
      hide RevWord;
      n := WriteMultiDo(at, left, WORDS * (sect % 0x1_0000_0000));
      SendInterrupts();
      assert forall i :: WORDS * sect <= i < WORDS * (sect + n) ==> card[i] == RevWord(buf[at + (i - WORDS * sect)]);
    }

    method SendAll(sector: nat, count: nat) returns (r: int)
      requires !dma && 0 < count && WORDS * count <= buf.Length
      requires WORDS * (sector + count) <= |card| <= WORDS * 0x1_0000_0000
      modifies this`card, this`base, this`count, this`start, this`transferred, this`reversed, this`abort, this`doneFlag,
               this`revFlag, this`dma, this`faults, this`silences, this`lost
      ensures faults < old(faults) + MAX_RETRIES && lost == old(lost) ==> r == count
      ensures lost > old(lost) ==> faults > old(faults) && r == -EIO
      ensures |card| == |old(card)|
      ensures forall i :: 0 <= i < |card| && !(WORDS * sector <= i < WORDS * (sector + count)) ==>
                card[i] == old(card)[i]
      ensures (r == count || r == -EIO) && !dma
      ensures r == count ==>
                forall i :: WORDS * sector <= i < WORDS * (sector + count) ==>
                  card[i] == RevWord(buf[i - WORDS * sector])
    {
      hide RevWord;
      var left: nat, at: nat, sect: nat, retries: nat, failed := count, 0, sector, 0, false;
      while left > 0 && retries < MAX_RETRIES
        invariant !dma && left <= count && retries <= MAX_RETRIES && |card| == |old(card)|
        invariant left > 0 ==> at == WORDS * (count - left) && sect == sector + (count - left)
        invariant forall i :: 0 <= i < |card| && !(WORDS * sector <= i < WORDS * (sector + count)) ==>
                    card[i] == old(card)[i]
        invariant forall i :: WORDS * sector <= i < WORDS * (sector + (count - left)) ==>
                    card[i] == RevWord(buf[i - WORDS * sector])
        invariant faults >= old(faults) + (if left > 0 then retries else 0) && lost == old(lost) && !failed
        decreases MAX_RETRIES - retries
      {
        retries := retries + 1;
        var begun := Command();
        if !begun {
          var recovered := Recover();
          if !recovered { break; }
          continue;
        }
        var n := WriteOn(at, left, sect, sector);
        left := left - n;
        if left > 0 { at, sect := at + WORDS * n, sect + n; }
        if abort == TRANSFER_TIMEOUT {
          dma := false;
          var recovered := Recover();
          if !recovered {
            failed := true;
            break;
          }
          continue;
        }
        var ended := Command();
        if !ended {
          var recovered := Recover();
          if !recovered {
            failed := true;
            break;
          }
        }
      }
      dma := false;
      r := if left == 0 && !failed then count else -EIO;
    }
  }

  lemma NothingYet(buf: array<bv32>, card: seq<bv32>, base: nat, start: nat)
    ensures Plain(buf, card, base, start, base, base) && Received(buf, card, base, start, base, base)
  {
  }

  lemma AllPlain(buf: array<bv32>, card: seq<bv32>, base: nat, start: nat, hi: int)
    requires hi <= base
    ensures Plain(buf, card, base, start, base, hi)
  {
  }

  ghost predicate PlainWere(was: seq<bv32>, card: seq<bv32>, start: nat, hi: nat) {
    forall i :: 0 <= i < hi && i < |was| ==> was[i] == Source(card, 0, start, i)
  }

  lemma PlainSays(buf: array<bv32>, card: seq<bv32>, start: nat, hi: nat)
    requires Plain(buf, card, 0, start, 0, hi)
    ensures PlainWere(buf[..], card, start, hi)
  {
  }

  lemma PlainKept(buf: array<bv32>, was: seq<bv32>, card: seq<bv32>, start: nat, hi: nat)
    requires PlainWere(was, card, start, hi) && hi <= |was| == buf.Length
    requires forall i :: 0 <= i < hi ==> buf[i] == was[i]
    ensures Plain(buf, card, 0, start, 0, hi)
  {
  }

  /** A transfer that went on where an earlier one stopped. */
  lemma MorePlain(buf: array<bv32>, card: seq<bv32>, base: nat, start: nat, from: nat, hi: int)
    requires Plain(buf, card, 0, from, 0, base) && Plain(buf, card, base, start, base, hi) && start == from + base
    ensures Plain(buf, card, 0, from, 0, hi)
  {
  }

  lemma PlainWhole(buf: array<bv32>, card: seq<bv32>, from: nat, hi: int)
    requires Plain(buf, card, 0, from, 0, hi) && hi <= buf.Length && from + hi <= |card|
    ensures forall i :: 0 <= i < hi ==> buf[i] == card[from + i]
  {
  }
}
