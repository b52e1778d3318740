/**
 * One process's mailbox, as the source lays it out: a row of `messageBuffer`
 * (QUEUE_SIZE = 10 slots) together with the row's head and tail indices from
 * `queuePointer`. insertItem and getItem wrap both indices modulo 8, so only
 * slots 0..7 ever hold messages; a slot holding 0 counts as empty.
 *
 * The abstract view of a row is `Contents`, the messages queued from the head
 * onwards. `Coherent` says that the zero marker tells the truth: every queued
 * slot is non-zero and every other slot is zero. It holds as long as every
 * payload sent is non-zero and getItem is never applied to an empty row
 * (see TakeFromEmptyMiscounts).
 */
module Ring {

  /** umsg32: an unsigned 32-bit message. */
  type Msg = x: int | 0 <= x < 0x1_0000_0000

  /** QUEUE_SIZE: the length of a process's row in messageBuffer. */
  const QueueSize: nat := 10

  /** The modulus insertItem and getItem wrap head and tail with: the capacity actually usable. */
  const Capacity: nat := 8

  /** The uint32 range, for the unsigned arithmetic of the SIZE macro. */
  const Word: nat := 0x1_0000_0000

  /** A head or tail index: always reduced modulo 8. */
  type RingIndex = i: nat | i < Capacity

  /** messageBuffer[pid][..] with QUEUE_HEAD and QUEUE_TAIL of that pid. */
  datatype Mailbox = Mailbox(slots: seq<Msg>, head: nat, tail: nat)

  predicate WellFormed(b: Mailbox) {
    |b.slots| == QueueSize && b.head < Capacity && b.tail < Capacity
  }

  /** The empty row every process starts with (`= {{0}}`). */
  function Empty(): (b: Mailbox)
    ensures WellFormed(b)
  {
    Mailbox(seq(QueueSize, _ => 0), 0, 0)
  }

  /** insertItem: write at the tail, then advance the tail modulo 8. */
  function Insert(b: Mailbox, m: Msg): (b': Mailbox)
    requires WellFormed(b)
    ensures WellFormed(b')
    ensures forall j :: Capacity <= j < QueueSize ==> b'.slots[j] == b.slots[j]
  {
    Mailbox(b.slots[b.tail := m], b.head, (b.tail + 1) % Capacity)
  }

  /** getItem: read the head slot, zero it, then advance the head modulo 8. */
  function Take(b: Mailbox): (r: (Msg, Mailbox))
    requires WellFormed(b)
    ensures WellFormed(r.1)
    ensures forall j :: Capacity <= j < QueueSize ==> r.1.slots[j] == b.slots[j]
  {
    (b.slots[b.head], Mailbox(b.slots[b.head := 0], (b.head + 1) % Capacity, b.tail))
  }

  /** The slot k places after the head, going round the 8-slot ring. */
  function Slot(b: Mailbox, k: nat): Msg
    requires WellFormed(b)
  {
    b.slots[(b.head + k) % Capacity]
  }

  /**
   * The empty test the receive path needs: head and tail meet AND the head
   * slot is unused. (The source tests only `head == tail`; see
   * SourceEmptyTestMisreadsFull.)
   */
  predicate IsEmpty(b: Mailbox)
    requires WellFormed(b)
  {
    b.head == b.tail && b.slots[b.head] == 0
  }

  /**
   * Occupancy: the ring distance from head to tail, where head == tail means
   * empty or full according to the zero marker in the head slot.
   */
  function Count(b: Mailbox): nat
    requires WellFormed(b)
  {
    if b.head < b.tail then b.tail - b.head
    else if b.head > b.tail then b.tail + Capacity - b.head
    else if IsEmpty(b) then 0
    else Capacity
  }

  /** The queued messages, oldest first. */
  function Contents(b: Mailbox): seq<Msg>
    requires WellFormed(b)
  {
    seq(Count(b), k requires 0 <= k < Count(b) => Slot(b, k))
  }

  /** The zero marker agrees with head and tail. */
  predicate Coherent(b: Mailbox) {
    && WellFormed(b)
    && (forall k :: 0 <= k < Count(b) ==> Slot(b, k) != 0)
    && (forall k :: Count(b) <= k < Capacity ==> Slot(b, k) == 0)
    && (forall j :: Capacity <= j < QueueSize ==> b.slots[j] == 0)
  }

  /** Every message of s is non-zero: the payloads under which the zero marker works. */
  predicate NonZero(s: seq<Msg>) {
    forall i :: 0 <= i < |s| ==> s[i] != 0
  }

  lemma EmptyIsCoherent()
    ensures Coherent(Empty()) && Contents(Empty()) == []
  {
  }

  /** The tail is always Count slots after the head. */
  lemma TailAfterQueued(b: Mailbox)
    requires WellFormed(b)
    ensures b.tail == (b.head + Count(b)) % Capacity
  {
  }

  lemma ContentsAt(b: Mailbox, k: nat)
    requires WellFormed(b) && k < Count(b)
    ensures |Contents(b)| == Count(b) && Contents(b)[k] == Slot(b, k)
  {
  }

  /** A mailbox never holds more than 8 messages, and its contents are non-zero when coherent. */
  lemma CapacityBound(b: Mailbox)
    requires Coherent(b)
    ensures |Contents(b)| <= Capacity && NonZero(Contents(b))
  {
  }

  /**
   * The full check of sendMsg (`messageBuffer[pid][QUEUE_TAIL] != 0`) is
   * exact on a coherent mailbox: the tail slot is occupied exactly when all
   * 8 slots are.
   */
  lemma FullCheckExact(b: Mailbox)
    requires Coherent(b)
    ensures b.slots[b.tail] != 0 <==> |Contents(b)| == Capacity
  {
    var n := Count(b);
    TailAfterQueued(b);
    if n < Capacity {
      assert Slot(b, n) == 0;
    } else {
      assert Slot(b, 0) != 0;
    }
  }

  /** The corrected empty test agrees with the abstract view. */
  lemma EmptyTestExact(b: Mailbox)
    requires Coherent(b)
    ensures IsEmpty(b) <==> Contents(b) == []
  {
    if !IsEmpty(b) {
      assert Count(b) > 0;
      ContentsAt(b, 0);
    }
  }

  lemma SameRingSlot(h: nat, k: nat, n: nat)
    requires h < Capacity && k < Capacity && n < Capacity
    ensures (h + k) % Capacity == (h + n) % Capacity <==> k == n
  {
  }

  /** insertItem changes only the slot Count places after the head. */
  lemma InsertSlot(b: Mailbox, m: Msg, k: nat)
    requires WellFormed(b) && Count(b) < Capacity && k < Capacity
    ensures Slot(Insert(b, m), k) == if k == Count(b) then m else Slot(b, k)
  {
    TailAfterQueued(b);
    SameRingSlot(b.head, k, Count(b));
  }

  /** A non-zero insert into a ring that is not full adds one to the occupancy. */
  lemma InsertCount(b: Mailbox, m: Msg)
    requires Coherent(b) && m != 0 && Count(b) < Capacity
    ensures Count(Insert(b, m)) == Count(b) + 1
  {
    var n := Count(b);
    var b' := Insert(b, m);
    TailAfterQueued(b);
    assert b'.head == b.head && b'.tail == (b.tail + 1) % Capacity;
    if n + 1 < Capacity {
      SameRingSlot(b.head, 0, n + 1);
      assert b'.tail == (b.head + n + 1) % Capacity != b'.head;
    } else {
      assert Slot(b, 0) != 0;
      InsertSlot(b, m, 0);
      assert b'.slots[b'.head] == Slot(b', 0);
    }
  }

  /**
   * insertItem after a passed full check, with a non-zero payload, appends
   * the message to the queue and keeps the mailbox coherent.
   */
  lemma {:induction false} InsertAppends(b: Mailbox, m: Msg)
    requires Coherent(b) && m != 0 && b.slots[b.tail] == 0
    ensures Coherent(Insert(b, m))
    ensures Contents(Insert(b, m)) == Contents(b) + [m]
  {
    var n := Count(b);
    var b' := Insert(b, m);
    FullCheckExact(b);
    InsertCount(b, m);
    forall k | 0 <= k < Capacity
      ensures Slot(b', k) == if k == n then m else Slot(b, k)
    {
      InsertSlot(b, m, k);
    }
    forall k | 0 <= k < Count(b') ensures Contents(b')[k] == (Contents(b) + [m])[k] {
      ContentsAt(b', k);
      if k < n { ContentsAt(b, k); }
    }
  }

  /** getItem moves the head one slot on and empties the old head slot. */
  lemma TakeSlot(b: Mailbox, k: nat)
    requires WellFormed(b) && k < Capacity
    ensures Slot(Take(b).1, k) == if k == Capacity - 1 then 0 else Slot(b, k + 1)
  {
    var b' := Take(b).1;
    assert (b'.head + k) % Capacity == (b.head + k + 1) % Capacity;
    SameRingSlot(b.head, (k + 1) % Capacity, 0);
  }

  /** getItem on a non-empty ring takes one from the occupancy. */
  lemma TakeCount(b: Mailbox)
    requires Coherent(b) && Count(b) > 0
    ensures Count(Take(b).1) == Count(b) - 1
  {
    var n := Count(b);
    var b' := Take(b).1;
    TailAfterQueued(b);
    assert b'.head == (b.head + 1) % Capacity && b'.tail == b.tail;
    if n == 1 {
      TakeSlot(b, 0);
      assert Slot(b', 0) == Slot(b, 1) == 0;
      assert b'.slots[b'.head] == Slot(b', 0);
      assert IsEmpty(b');
    } else {
      SameRingSlot(b.head, 1, n % Capacity);
      assert b'.head != b'.tail;
    }
  }

  /**
   * getItem on a coherent, non-empty mailbox returns the oldest message and
   * leaves the rest queued in order.
   */
  lemma {:induction false} TakePops(b: Mailbox)
    requires Coherent(b) && Contents(b) != []
    ensures Take(b).0 == Contents(b)[0]
    ensures Coherent(Take(b).1)
    ensures Contents(Take(b).1) == Contents(b)[1..]
  {
    var n := Count(b);
    var b' := Take(b).1;
    ContentsAt(b, 0);
    assert b.slots[b.head] == Slot(b, 0);
    TakeCount(b);
    forall k | 0 <= k < Capacity
      ensures Slot(b', k) == if k == Capacity - 1 then 0 else Slot(b, k + 1)
    {
      TakeSlot(b, k);
    }
    forall k | 0 <= k < Count(b') ensures Contents(b')[k] == Contents(b)[1..][k] {
      ContentsAt(b', k);
      ContentsAt(b, k + 1);
    }
  }

  // ----- Hazards of the source's tests -----

  /**
   * The source's empty test: `QUEUE_HEAD == QUEUE_TAIL` (main.c lines 183
   * and 262), which cannot tell an empty ring from a full one.
   */
  predicate SourceEmptyTest(b: Mailbox)
    ensures WellFormed(b) ==> (SourceEmptyTest(b) <==> Count(b) == 0 || Count(b) == Capacity)
  {
    b.head == b.tail
  }

  /**
   * With 8 messages queued the source's empty test holds, so receiveMsg and
   * receiveMsgs block, while sendMsg's full check rejects every further send
   * (so nothing wakes the receiver).
   */
  lemma SourceEmptyTestMisreadsFull()
    ensures var b := Mailbox([1, 2, 3, 4, 5, 6, 7, 8, 0, 0], 0, 0);
            && Coherent(b) && Contents(b) == [1, 2, 3, 4, 5, 6, 7, 8]
            && SourceEmptyTest(b) && !IsEmpty(b) && b.slots[b.tail] != 0
  {
    var b := Mailbox([1, 2, 3, 4, 5, 6, 7, 8, 0, 0], 0, 0);
    assert !IsEmpty(b);
    assert Count(b) == 8;
    forall k | 0 <= k < Capacity ensures Slot(b, k) == b.slots[k] == k + 1 {
      assert (b.head + k) % Capacity == k;
    }
    assert Coherent(b);
    forall k | 0 <= k < Capacity ensures Contents(b)[k] == [1, 2, 3, 4, 5, 6, 7, 8][k] {
      ContentsAt(b, k);
    }
  }

  /**
   * Every full coherent ring is misread: the empty test holds, the full
   * check rejects every send, and SIZE reads 0, so neither receiver's wait
   * can end.
   */
  lemma FullRingReadsEmpty(b: Mailbox)
    requires Coherent(b) && |Contents(b)| == Capacity
    ensures SourceEmptyTest(b) && !IsEmpty(b) && b.slots[b.tail] != 0
    ensures SizeMacro(b.head, b.tail) == 0
  {
    TailAfterQueued(b);
    FullCheckExact(b);
    SizeMacroVersusCount(b);
  }

  /**
   * The SIZE macro of main.c line 20, in the source's uint32 arithmetic:
   * (QUEUE_SIZE - (head - tail)) % QUEUE_SIZE.
   */
  function SizeMacro(head: nat, tail: nat): (r: nat)
    requires head < Word && tail < Word
    ensures r < QueueSize
  {
    var diff := (head - tail) % Word;
    ((QueueSize - diff) % Word) % QueueSize
  }

  /**
   * SIZE is right only when the ring has not wrapped and is not full: it
   * counts two too many once the tail has wrapped behind the head (modulus
   * 10 against a ring of 8) and reads a full ring as empty.
   */
  lemma SizeMacroVersusCount(b: Mailbox)
    requires WellFormed(b)
    ensures b.head < b.tail ==> SizeMacro(b.head, b.tail) == Count(b)
    ensures b.head > b.tail ==> SizeMacro(b.head, b.tail) == Count(b) + 2
    ensures b.head == b.tail ==> SizeMacro(b.head, b.tail) == 0
  {
    var h, t := b.head, b.tail;
    if h < t {
      assert (h - t) % Word == Word + h - t;
      assert (QueueSize - (Word + h - t)) % Word == QueueSize + t - h;
      assert (QueueSize + t - h) % QueueSize == t - h;
    } else if h > t {
      assert (h - t) % Word == h - t;
      assert (QueueSize - (h - t)) % Word == QueueSize - (h - t);
      assert (QueueSize - (h - t)) % QueueSize == QueueSize - (h - t);
    } else {
      assert (h - t) % Word == 0;
    }
  }

  /** A concrete wrapped ring: six messages queued at slots 5, 6, 7, 0, 1, 2, and SIZE says 8. */
  lemma SizeMacroOvercounts()
    ensures var b := Mailbox([4, 5, 6, 0, 0, 1, 2, 3, 0, 0], 5, 3);
            && Coherent(b) && |Contents(b)| == 6 && SizeMacro(b.head, b.tail) == 8
  {
    var b := Mailbox([4, 5, 6, 0, 0, 1, 2, 3, 0, 0], 5, 3);
    assert Count(b) == 6;
    forall k | 0 <= k < Capacity ensures Slot(b, k) == [1, 2, 3, 4, 5, 6, 0, 0][k] {
      assert (b.head + k) % Capacity == if k < 3 then k + 5 else k - 3;
    }
  }
  /**
   * A ring whose tail is one behind its head holds 7 messages, for which
   * SIZE reads 9: a request for 9 messages passes the wait on SIZE.
   */
  lemma SizeMacroAdmitsNineWithSeven(b: Mailbox)
    requires WellFormed(b) && b.head == b.tail + 1
    ensures Count(b) == Capacity - 1
    ensures SizeMacro(b.head, b.tail) == QueueSize - 1
  {
    SizeMacroVersusCount(b);
  }
  /**
   * getItem on an empty row, which receiveMsg performs when it resumes
   * without a message having arrived, moves the head one past the tail: the
   * row then reads as holding 7 messages although every slot is 0.
   */
  lemma TakeFromEmptyMiscounts()
    ensures var (m, b) := Take(Empty());
            && m == 0 && Count(b) == Capacity - 1 && !Coherent(b)
  {
    var b := Take(Empty()).1;
    assert b.head == 1 && b.tail == 0;
    assert Slot(b, 0) == b.slots[1] == 0;
  }



  /**
   * A zero payload defeats the full check. Whenever head == tail and the
   * tail slot holds a queued 0 (as sending 0, 1, ..., 7 to an empty row
   * leaves it, ZeroThenSevenFill), the next send passes the check and its
   * insert overwrites that slot, leaving a ring that reads as holding only
   * the new message.
   */
  lemma ZeroInTailOverwritten(b: Mailbox, m: Msg)
    requires WellFormed(b) && b.head == b.tail && b.slots[b.tail] == 0
    ensures Insert(b, m).slots[b.tail] == m
    ensures Count(Insert(b, m)) == 1 && Contents(Insert(b, m)) == [m]
  {
    var b' := Insert(b, m);
    assert Count(b') == 1;
    assert Contents(b') == [Slot(b', 0)];
  }

  /** A concrete instance: the row [0, 1, ..., 7] at head 0, overwritten by 8. */
  lemma ZeroPayloadOverwritten()
    ensures var b := Mailbox([0, 1, 2, 3, 4, 5, 6, 7, 0, 0], 0, 0);
            && b.slots[b.tail] == 0
            && Insert(b, 8) == Mailbox([8, 1, 2, 3, 4, 5, 6, 7, 0, 0], 0, 1)
            && Contents(Insert(b, 8)) == [8]
  {
    var b9 := Mailbox([8, 1, 2, 3, 4, 5, 6, 7, 0, 0], 0, 1);
    assert Count(b9) == 1;
    assert Contents(b9) == [Slot(b9, 0)];
  }

  /** The row that 0, 1, ..., 7 sent to an empty mailbox leave behind. */
  lemma ZeroThenSevenFill()
    ensures Insert(Insert(Insert(Insert(Insert(Insert(Insert(Insert(
              Empty(), 0), 1), 2), 3), 4), 5), 6), 7)
            == Mailbox([0, 1, 2, 3, 4, 5, 6, 7, 0, 0], 0, 0)
  {
    FillFirstHalf();
    FillSecondHalf();
  }

  lemma FillFirstHalf()
    ensures Insert(Insert(Insert(Insert(Empty(), 0), 1), 2), 3)
            == Mailbox([0, 1, 2, 3, 0, 0, 0, 0, 0, 0], 0, 4)
  {
    var b0 := Empty();
    assert b0 == Mailbox([0, 0, 0, 0, 0, 0, 0, 0, 0, 0], 0, 0);
    var b2 := Insert(Insert(b0, 0), 1);
    assert b2 == Mailbox([0, 1, 0, 0, 0, 0, 0, 0, 0, 0], 0, 2);
  }

  lemma FillSecondHalf()
    ensures Insert(Insert(Insert(Insert(Mailbox([0, 1, 2, 3, 0, 0, 0, 0, 0, 0], 0, 4), 4), 5), 6), 7)
            == Mailbox([0, 1, 2, 3, 4, 5, 6, 7, 0, 0], 0, 0)
  {
    var b6 := Insert(Insert(Mailbox([0, 1, 2, 3, 0, 0, 0, 0, 0, 0], 0, 4), 4), 5);
    assert b6 == Mailbox([0, 1, 2, 3, 4, 5, 0, 0, 0, 0], 0, 6);
  }
}
