/**
 * The message-passing protocol over the table of ten mailboxes, as values:
 * what sendMsg, sendMsgs, sendnMsg, receiveMsg and receiveMsgs do to the
 * table, each stated as one function, and the lemmas saying what those
 * functions mean for the queued messages. The class in kernel.dfy performs
 * the same steps in place and is proved equal to these functions.
 *
 * sendMsg, receiveMsg and receiveMsgs are each one atomic step (the source
 * disables interrupts around them). sendMsgs and sendnMsg disable nothing
 * themselves; their batches are modelled with no other process running
 * between two sends.
 * Scheduler actions are reduced to their effect on the process state:
 * ready() and unsleep() + ready() set the state to PrReady.
 */
module Protocol {
  import opened Ring

  /** The number of rows in messageBuffer and queuePointer: one per process. */
  const NProc: nat := 10

  /** SYSERR (-1) as the uint32 that sendMsgs and sendnMsg return. */
  const SysErrWord: nat := 0xFFFF_FFFF

  /** The Xinu process states that matter here (proctab[pid].prstate). */
  datatype ProcState = PrFree | PrCurr | PrReady | PrRecv | PrSleep | PrSusp | PrWait | PrRecTim

  /** The syscall result: OK or SYSERR. */
  datatype Status = Ok | SysErr

  /** The two global tables (one mailbox per pid) and the process states. */
  datatype Table = Table(boxes: seq<Mailbox>, states: seq<ProcState>)

  predicate WellFormedTable(t: Table) {
    && |t.boxes| == NProc && |t.states| == NProc
    && forall p :: 0 <= p < NProc ==> WellFormed(t.boxes[p])
  }

  /** Every mailbox's zero marker tells the truth. */
  predicate Valid(t: Table) {
    WellFormedTable(t) && forall p :: 0 <= p < NProc ==> Coherent(t.boxes[p])
  }

  /** The messages queued for process p, oldest first. */
  function Queue(t: Table, p: int): seq<Msg>
    requires WellFormedTable(t) && 0 <= p < NProc
  {
    Contents(t.boxes[p])
  }

  /** All ten processes start with an empty mailbox. */
  function Initial(states: seq<ProcState>): (t: Table)
    requires |states| == NProc
    ensures Valid(t) && forall p :: 0 <= p < NProc ==> Queue(t, p) == []
  {
    EmptyIsCoherent();
    Table(seq(NProc, _ => Empty()), states)
  }

  /** isbadpid: the pid does not name a row of the tables. */
  predicate IsBadPid(pid: int) {
    pid < 0 || pid >= NProc
  }

  /** The table with process p's mailbox replaced. */
  function WithBox(t: Table, p: int, b: Mailbox): (t': Table)
    requires WellFormedTable(t) && 0 <= p < NProc && WellFormed(b)
    ensures WellFormedTable(t')
  {
    t.(boxes := t.boxes[p := b])
  }

  /** The state a recipient is left in by a delivery: a waiting receiver is made ready. */
  function Wake(s: ProcState): ProcState {
    if s == PrRecv || s == PrRecTim then PrReady else s
  }

  /** A delivery to p would be accepted: a live process whose mailbox is not full. */
  predicate Accepts(t: Table, p: int)
    requires WellFormedTable(t)
  {
    !IsBadPid(p) && t.states[p] != PrFree && |Queue(t, p)| < Capacity
  }

  /**
   * sendMsg: reject a bad pid, a free process and a full mailbox (tail slot
   * non-zero) without touching anything; otherwise insert the message and
   * make a waiting recipient ready.
   */
  function Send(t: Table, pid: int, msg: Msg): (r: (Status, Table))
    requires WellFormedTable(t)
    ensures WellFormedTable(r.1)
    ensures r.0 == SysErr ==> r.1 == t
  {
    if IsBadPid(pid) then (SysErr, t)
    else if t.states[pid] == PrFree then (SysErr, t)
    else if t.boxes[pid].slots[t.boxes[pid].tail] != 0 then (SysErr, t)
    else
      var t' := WithBox(t, pid, Insert(t.boxes[pid], msg));
      (Ok, t'.(states := t.states[pid := Wake(t.states[pid])]))
  }

  /** The value sendMsgs and sendnMsg return for a success count. */
  function BatchReturn(count: nat): (r: nat)
    ensures r != 0
    ensures count < SysErrWord ==> (r == SysErrWord <==> count == 0)
  {
    if count > 0 then count else SysErrWord
  }

  /** sendMsgs: one sendMsg per message, in index order, counting the OKs. */
  function SendBatch(t: Table, pid: int, msgs: seq<Msg>): (r: (nat, Table))
    requires WellFormedTable(t)
    ensures WellFormedTable(r.1) && r.0 <= |msgs|
    decreases |msgs|
  {
    if msgs == [] then (0, t)
    else
      var (n, t1) := SendBatch(t, pid, msgs[..|msgs| - 1]);
      var (s, t2) := Send(t1, pid, msgs[|msgs| - 1]);
      (if s == Ok then n + 1 else n, t2)
  }

  /** sendnMsg: one sendMsg per pid, in index order, counting the OKs. */
  function SendFanOut(t: Table, pids: seq<int>, msg: Msg): (r: (nat, Table))
    requires WellFormedTable(t)
    ensures WellFormedTable(r.1) && r.0 <= |pids|
    decreases |pids|
  {
    if pids == [] then (0, t)
    else
      var (n, t1) := SendFanOut(t, pids[..|pids| - 1], msg);
      var (s, t2) := Send(t1, pids[|pids| - 1], msg);
      (if s == Ok then n + 1 else n, t2)
  }

  /** receiveMsg once a message is present: getItem on the caller's own mailbox. */
  function ReceiveOne(t: Table, self: int): (r: (Msg, Table))
    requires WellFormedTable(t) && 0 <= self < NProc
    ensures WellFormedTable(r.1) && r.1.states == t.states
    ensures forall p :: 0 <= p < NProc && p != self ==> r.1.boxes[p] == t.boxes[p]
  {
    var (m, b) := Take(t.boxes[self]);
    (m, WithBox(t, self, b))
  }

  /** n getItem calls in a row: the messages taken, in order, and the mailbox left. */
  function TakeN(b: Mailbox, n: nat): (r: (seq<Msg>, Mailbox))
    requires WellFormed(b)
    ensures WellFormed(r.1) && |r.0| == n
  {
    if n == 0 then ([], b)
    else
      var (ms, b1) := TakeN(b, n - 1);
      var (m, b2) := Take(b1);
      (ms + [m], b2)
  }

  /**
   * receiveMsgs once its waits are over: SYSERR for a request over
   * QUEUE_SIZE, otherwise msg_count getItem calls on the caller's mailbox.
   */
  function ReceiveBatch(t: Table, self: int, n: nat): (r: (Status, seq<Msg>, Table))
    requires WellFormedTable(t) && 0 <= self < NProc
    ensures WellFormedTable(r.2)
    ensures r.0 == SysErr <==> n > QueueSize
    ensures r.0 == SysErr ==> r.1 == [] && r.2 == t
  {
    if n > QueueSize then (SysErr, [], t)
    else
      var (ms, b) := TakeN(t.boxes[self], n);
      (Ok, ms, WithBox(t, self, b))
  }

  /**
   * The condition under which receiveMsgs, past its size guard, goes
   * straight to its dequeue loop: the empty test at line 262 fails and SIZE
   * is at least the request, so neither wait (lines 262-272) is entered.
   */
  predicate ReceiveMsgsSkipsWaits(b: Mailbox, n: nat)
    requires WellFormed(b)
  {
    !SourceEmptyTest(b) && SizeMacro(b.head, b.tail) >= n
  }

  // ----- What the functions mean for the queues -----

  /**
   * sendMsg with a non-zero payload succeeds exactly when the pid is good,
   * the process is not free and its mailbox is not full; on success it
   * appends the message to that mailbox alone and wakes only that process,
   * and only if it was waiting to receive.
   */
  lemma SendAppends(t: Table, pid: int, msg: Msg)
    requires Valid(t) && msg != 0
    ensures var (s, t') := Send(t, pid, msg);
            && (s == Ok <==> Accepts(t, pid))
            && Valid(t')
            && (s == Ok ==>
                  Queue(t', pid) == Queue(t, pid) + [msg] && t'.states[pid] == Wake(t.states[pid]))
            && forall p :: 0 <= p < NProc && p != pid ==>
                 t'.boxes[p] == t.boxes[p] && t'.states[p] == t.states[p]
  {
    if !IsBadPid(pid) {
      FullCheckExact(t.boxes[pid]);
      if Accepts(t, pid) {
        InsertAppends(t.boxes[pid], msg);
      }
    }
  }

  /** Capacity: once 8 messages are buffered, the next send fails. */
  lemma FullMailboxRejects(t: Table, pid: int, msg: Msg)
    requires Valid(t) && 0 <= pid < NProc && |Queue(t, pid)| == Capacity
    ensures Send(t, pid, msg) == (SysErr, t)
  {
    FullCheckExact(t.boxes[pid]);
  }

  /**
   * sendMsgs to a live process, with non-zero payloads, delivers the first
   * messages up to the free capacity, in order, and drops the rest; nothing
   * else changes except that the process may be woken.
   */
  lemma {:induction false} SendBatchFills(t: Table, pid: int, msgs: seq<Msg>)
    requires Valid(t) && !IsBadPid(pid) && t.states[pid] != PrFree && NonZero(msgs)
    ensures var (n, t') := SendBatch(t, pid, msgs);
            && n == Min(|msgs|, Capacity - |Queue(t, pid)|)
            && Valid(t')
            && Queue(t', pid) == Queue(t, pid) + msgs[..n]
            && t'.states[pid] == (if n > 0 then Wake(t.states[pid]) else t.states[pid])
            && forall p :: 0 <= p < NProc && p != pid ==>
                 t'.boxes[p] == t.boxes[p] && t'.states[p] == t.states[p]
    decreases |msgs|
  {
    CapacityBound(t.boxes[pid]);
    if msgs != [] {
      var init := msgs[..|msgs| - 1];
      var last := msgs[|msgs| - 1];
      assert NonZero(init);
      SendBatchFills(t, pid, init);
      var (n, t1) := SendBatch(t, pid, init);
      assert Queue(t1, pid) == Queue(t, pid) + init[..n];
      SendAppends(t1, pid, last);
      if n < Capacity - |Queue(t, pid)| {
        assert n == |init|;
        assert msgs[..n + 1] == init[..n] + [last];
      } else {
        FullMailboxRejects(t1, pid, last);
        assert init[..n] == msgs[..n];
      }
    }
  }

  function Min(a: int, b: int): int {
    if a <= b then a else b
  }

  /** sendMsgs to a bad pid or a free process delivers nothing and returns SYSERR. */
  lemma {:induction false} SendBatchToDeadFails(t: Table, pid: int, msgs: seq<Msg>)
    requires WellFormedTable(t) && (IsBadPid(pid) || t.states[pid] == PrFree)
    ensures SendBatch(t, pid, msgs) == (0, t)
    ensures BatchReturn(SendBatch(t, pid, msgs).0) == SysErrWord
    decreases |msgs|
  {
    if msgs != [] {
      SendBatchToDeadFails(t, pid, msgs[..|msgs| - 1]);
    }
  }

  /** The number of pids of ps that would accept a delivery in table t. */
  function CountAccepting(t: Table, ps: seq<int>): (n: nat)
    requires WellFormedTable(t)
    ensures n <= |ps|
    decreases |ps|
  {
    if ps == [] then 0
    else CountAccepting(t, ps[..|ps| - 1]) + (if Accepts(t, ps[|ps| - 1]) then 1 else 0)
  }

  /** No pid occurs twice. */
  predicate Distinct(ps: seq<int>) {
    forall i, j :: 0 <= i < j < |ps| ==> ps[i] != ps[j]
  }

  /**
   * Fan-out accounting: sendnMsg to distinct pids, with a non-zero payload,
   * succeeds for exactly the pids that were live and not full, appends the
   * message to exactly their mailboxes and leaves every other process alone.
   */
  lemma {:induction false} FanOutAccounting(t: Table, pids: seq<int>, msg: Msg)
    requires Valid(t) && msg != 0 && Distinct(pids)
    ensures var (n, t') := SendFanOut(t, pids, msg);
            && n == CountAccepting(t, pids)
            && Valid(t')
            && forall p :: 0 <= p < NProc ==>
                 if p in pids && Accepts(t, p) then
                   Queue(t', p) == Queue(t, p) + [msg] && t'.states[p] == Wake(t.states[p])
                 else
                   t'.boxes[p] == t.boxes[p] && t'.states[p] == t.states[p]
    decreases |pids|
  {
    if pids != [] {
      var init := pids[..|pids| - 1];
      var last := pids[|pids| - 1];
      assert Distinct(init);
      FanOutAccounting(t, init, msg);
      var (n, t1) := SendFanOut(t, init, msg);
      SendAppends(t1, last, msg);
      assert last !in init;
      if !IsBadPid(last) {
        assert t1.boxes[last] == t.boxes[last] && t1.states[last] == t.states[last];
        assert Accepts(t1, last) == Accepts(t, last);
      }
      forall p | 0 <= p < NProc
        ensures (p in pids) == (p in init || p == last)
      {
        assert p in init ==> p in pids;
        if p in pids {
          var i :| 0 <= i < |pids| && pids[i] == p;
          if i < |pids| - 1 { assert init[i] == p; }
        }
      }
    }
  }

  /**
   * sendMsgs with non-zero payloads keeps every mailbox coherent, whatever
   * the pid.
   */
  lemma SendBatchKeepsValid(t: Table, pid: int, msgs: seq<Msg>)
    requires Valid(t) && NonZero(msgs)
    ensures Valid(SendBatch(t, pid, msgs).1)
  {
    if IsBadPid(pid) || t.states[pid] == PrFree {
      SendBatchToDeadFails(t, pid, msgs);
    } else {
      SendBatchFills(t, pid, msgs);
    }
  }

  /**
   * sendnMsg with a non-zero payload keeps every mailbox coherent, for any
   * sequence of pids, repeated ones included.
   */
  lemma {:induction false} FanOutKeepsValid(t: Table, pids: seq<int>, msg: Msg)
    requires Valid(t) && msg != 0
    ensures Valid(SendFanOut(t, pids, msg).1)
    decreases |pids|
  {
    if pids != [] {
      FanOutKeepsValid(t, pids[..|pids| - 1], msg);
      SendAppends(SendFanOut(t, pids[..|pids| - 1], msg).1, pids[|pids| - 1], msg);
    }
  }

  /**
   * receiveMsgs' dequeue loop, given at least n messages, returns the n
   * oldest in order and leaves the rest queued.
   */
  lemma {:induction false} TakeNOldestFirst(b: Mailbox, n: nat)
    requires Coherent(b) && n <= |Contents(b)|
    ensures Coherent(TakeN(b, n).1)
    ensures TakeN(b, n).0 == Contents(b)[..n]
    ensures Contents(TakeN(b, n).1) == Contents(b)[n..]
  {
    if n > 0 {
      TakeNOldestFirst(b, n - 1);
      var (ms, b1) := TakeN(b, n - 1);
      TakePops(b1);
      assert Contents(b)[..n] == Contents(b)[..n - 1] + [Contents(b)[n - 1]];
      assert Contents(b)[n - 1..][1..] == Contents(b)[n..];
    }
  }

  /**
   * receiveMsg with a message present returns the oldest one and removes
   * just it. It gets there without waiting exactly when the mailbox is not
   * full; with 8 queued, the empty test at line 183 blocks it.
   */
  lemma ReceiveOneTakesOldest(t: Table, self: int)
    requires Valid(t) && 0 <= self < NProc && Queue(t, self) != []
    ensures !SourceEmptyTest(t.boxes[self]) <==> |Queue(t, self)| < Capacity
    ensures var (m, t') := ReceiveOne(t, self);
            && m == Queue(t, self)[0]
            && Valid(t')
            && Queue(t', self) == Queue(t, self)[1..]
            && t'.states == t.states
            && forall p :: 0 <= p < NProc && p != self ==> t'.boxes[p] == t.boxes[p]
  {
    TakePops(t.boxes[self]);
  }

  /**
   * receiveMsgs: a request within QUEUE_SIZE that the mailbox can satisfy
   * returns OK and the n oldest messages in FIFO order, removing exactly
   * those; no other mailbox and no process state changes. The source
   * reaches the dequeue loop without waiting exactly when 0 < queued < 8,
   * and then no receiveMsg inside the loop waits either.
   */
  lemma ReceiveBatchTakesOldest(t: Table, self: int, n: nat)
    requires Valid(t) && 0 <= self < NProc && n <= |Queue(t, self)|
    ensures ReceiveMsgsSkipsWaits(t.boxes[self], n) <==> 0 < |Queue(t, self)| < Capacity
    ensures |Queue(t, self)| < Capacity ==>
              forall i :: 0 <= i < n ==> !SourceEmptyTest(TakeN(t.boxes[self], i).1)
    ensures var (s, ms, t') := ReceiveBatch(t, self, n);
            && s == Ok && ms == Queue(t, self)[..n]
            && Valid(t')
            && Queue(t', self) == Queue(t, self)[n..]
            && t'.states == t.states
            && forall p :: 0 <= p < NProc && p != self ==> t'.boxes[p] == t.boxes[p]
  {
    CapacityBound(t.boxes[self]);
    TakeNOldestFirst(t.boxes[self], n);
    SourceWaitsPassed(t.boxes[self], n);
    if |Queue(t, self)| < Capacity {
      DequeueLoopNeverBlocks(t.boxes[self], n);
    }
  }

  /** Replacing a mailbox twice keeps only the second replacement. */
  lemma WithBoxTwice(t: Table, p: int, b1: Mailbox, b2: Mailbox)
    requires WellFormedTable(t) && 0 <= p < NProc && WellFormed(b1) && WellFormed(b2)
    ensures WithBox(WithBox(t, p, b1), p, b2) == WithBox(t, p, b2)
  {
  }

  /**
   * Given at least n messages, receiveMsgs skips both waits exactly when
   * the mailbox is neither empty nor full: then head != tail and SIZE is at
   * least the occupancy; empty or full, head == tail and it blocks at line
   * 265.
   */
  lemma SourceWaitsPassed(b: Mailbox, n: nat)
    requires Coherent(b) && n <= |Contents(b)|
    ensures ReceiveMsgsSkipsWaits(b, n) <==> 0 < |Contents(b)| < Capacity
  {
    SizeMacroVersusCount(b);
  }

  /**
   * With fewer than 8 queued, none of the n receiveMsg calls of the dequeue
   * loop finds head == tail, so none of them waits.
   */
  lemma DequeueLoopNeverBlocks(b: Mailbox, n: nat)
    requires Coherent(b) && n <= |Contents(b)| < Capacity
    ensures forall i :: 0 <= i < n ==> !SourceEmptyTest(TakeN(b, i).1)
  {
    forall i | 0 <= i < n ensures !SourceEmptyTest(TakeN(b, i).1) {
      TakeNOldestFirst(b, i);
    }
  }

  /**
   * A request for 9 or 10 messages passes the `msg_count > 10` guard, but
   * no mailbox ever holds that many at once: at most 8 are queued.
   */
  lemma RequestBeyondCapacityNeverQueued(t: Table, self: int, n: nat)
    requires Valid(t) && 0 <= self < NProc && Capacity < n <= QueueSize
    ensures ReceiveBatch(t, self, n).0 == Ok
    ensures |Queue(t, self)| < n
  {
    CapacityBound(t.boxes[self]);
  }

  /**
   * FIFO end to end: up to 8 non-zero messages sent to a live process with
   * an empty mailbox all succeed, and once its dequeue loop runs that
   * process receives exactly those messages in send order, leaving its
   * mailbox empty. receiveMsgs reaches the loop without waiting exactly
   * when between 1 and 7 messages were sent.
   */
  lemma SendThenReceiveInOrder(t: Table, pid: int, msgs: seq<Msg>)
    requires Valid(t) && !IsBadPid(pid) && t.states[pid] != PrFree && Queue(t, pid) == []
    requires NonZero(msgs) && |msgs| <= Capacity
    ensures var (n, t1) := SendBatch(t, pid, msgs);
            && n == |msgs|
            && var (s, ms, t2) := ReceiveBatch(t1, pid, n);
               s == Ok && ms == msgs && Queue(t2, pid) == []
    ensures var (n, t1) := SendBatch(t, pid, msgs);
            ReceiveMsgsSkipsWaits(t1.boxes[pid], n) <==> 0 < n < Capacity
  {
    SendBatchFills(t, pid, msgs);
    var (n, t1) := SendBatch(t, pid, msgs);
    assert Queue(t1, pid) == msgs;
    ReceiveBatchTakesOldest(t1, pid, n);
  }
}
