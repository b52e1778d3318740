/**
 * The source's global state and its syscalls, in place: `messageBuffer`
 * (ten rows of QUEUE_SIZE slots), `queuePointer` (head and tail per row) and
 * the `prstate` field of each process-table entry. Every method is proved to
 * leave the state equal to the corresponding function of module Protocol
 * applied to the state before the call; what that means for the queued
 * messages is proved there.
 */
module Kernel {
  import opened Ring
  import opened Protocol

  class MessageSystem {
    /** messageBuffer[pid][slot] */
    const messageBuffer: array2<Msg>
    /**
     * queuePointer[pid][0] is QUEUE_HEAD, queuePointer[pid][1] is QUEUE_TAIL;
     * both are only ever assigned values below 8.
     */
    const queuePointer: array2<RingIndex>
    /** proctab[pid].prstate */
    const proctab: array<ProcState>

    /** The shapes of the tables. */
    ghost predicate Wf() {
      && messageBuffer.Length0 == NProc && messageBuffer.Length1 == QueueSize
      && queuePointer.Length0 == NProc && queuePointer.Length1 == 2
      && proctab.Length == NProc
    }

    /** Process p's row, head and tail, as a value. */
    ghost function Box(p: int): (b: Mailbox)
      requires Wf() && 0 <= p < NProc
      reads messageBuffer, queuePointer
      ensures WellFormed(b)
    {
      Mailbox(seq(QueueSize, j requires 0 <= j < QueueSize reads messageBuffer => messageBuffer[p, j]),
              queuePointer[p, 0], queuePointer[p, 1])
    }

    /** The whole state, as a value. */
    ghost function Snapshot(): (t: Table)
      requires Wf()
      reads messageBuffer, queuePointer, proctab
      ensures WellFormedTable(t)
    {
      Table(seq(NProc, p requires 0 <= p < NProc && Wf() reads messageBuffer, queuePointer => Box(p)),
            proctab[..])
    }

    /** The zero markers of every mailbox tell the truth. */
    ghost predicate Valid()
      reads messageBuffer, queuePointer, proctab
    {
      Wf() && Protocol.Valid(Snapshot())
    }

    /** A state equal to t, element by element, is t. */
    lemma SnapshotIs(t: Table)
      requires Wf() && WellFormedTable(t)
      requires forall p, j :: 0 <= p < NProc && 0 <= j < QueueSize ==> messageBuffer[p, j] == t.boxes[p].slots[j]
      requires forall p :: 0 <= p < NProc ==>
                 queuePointer[p, 0] == t.boxes[p].head && queuePointer[p, 1] == t.boxes[p].tail
      requires proctab[..] == t.states
      ensures Snapshot() == t
    {
      forall p | 0 <= p < NProc ensures Snapshot().boxes[p] == t.boxes[p] {
        assert Box(p).slots == t.boxes[p].slots;
      }
    }

    /** The globals as the program starts: every row, head and tail zero. */
    constructor (states: seq<ProcState>)
      requires |states| == NProc
      ensures Wf() && Valid()
      ensures Snapshot() == Initial(states)
      ensures fresh(messageBuffer) && fresh(queuePointer) && fresh(proctab)
    {
      messageBuffer := new Msg[NProc, QueueSize]((_, _) => 0);
      queuePointer := new RingIndex[NProc, 2]((_, _) => 0);
      proctab := new ProcState[NProc](i requires 0 <= i < NProc => states[i]);
      new;
      SnapshotIs(Initial(states));
    }

    /** insertItem: the tail slot of pid's row is overwritten and the tail advanced. */
    method InsertItem(pid: int, msg: Msg)
      requires Wf() && 0 <= pid < NProc
      modifies messageBuffer, queuePointer
      ensures Snapshot() == WithBox(old(Snapshot()), pid, Insert(old(Box(pid)), msg))
    {
      ghost var t := WithBox(Snapshot(), pid, Insert(Box(pid), msg));
      var tail := queuePointer[pid, 1];
      messageBuffer[pid, tail] := msg;
      queuePointer[pid, 1] := (tail + 1) % Capacity;
      SnapshotIs(t);
    }

    /** getItem: the head slot of pid's row is read and zeroed, and the head advanced. */
    method GetItem(pid: int) returns (m: Msg)
      requires Wf() && 0 <= pid < NProc
      modifies messageBuffer, queuePointer
      ensures (m, Snapshot()) == ReceiveOne(old(Snapshot()), pid)
    {
      ghost var r := ReceiveOne(Snapshot(), pid);
      var head := queuePointer[pid, 0];
      m := messageBuffer[pid, head];
      messageBuffer[pid, head] := 0;
      queuePointer[pid, 0] := (head + 1) % Capacity;
      SnapshotIs(r.1);
    }

    /** sendMsg */
    method SendMsg(pid: int, msg: Msg) returns (s: Status)
      requires Wf()
      modifies messageBuffer, queuePointer, proctab
      ensures (s, Snapshot()) == Send(old(Snapshot()), pid, msg)
      ensures old(Valid()) && msg != 0 ==> Valid()
    {
      if Valid() && msg != 0 { SendAppends(Snapshot(), pid, msg); }
      if IsBadPid(pid) {
        return SysErr;
      }
      if proctab[pid] == PrFree {
        return SysErr;
      }
      if messageBuffer[pid, queuePointer[pid, 1]] != 0 {
        return SysErr;
      }
      ghost var t0 := Snapshot();
      InsertItem(pid, msg);
      if proctab[pid] == PrRecv {
        proctab[pid] := PrReady;
      } else if proctab[pid] == PrRecTim {
        proctab[pid] := PrReady;
      }
      ghost var t1 := Send(t0, pid, msg).1;
      assert proctab[..] == t1.states;
      SnapshotIs(t1);
      s := Ok;
    }

    /** sendMsgs: returns the number of OK sends, or SYSERR when there is none. */
    method SendMsgs(pid: int, msgs: seq<Msg>) returns (r: nat)
      requires Wf()
      modifies messageBuffer, queuePointer, proctab
      ensures r == BatchReturn(SendBatch(old(Snapshot()), pid, msgs).0)
      ensures Snapshot() == SendBatch(old(Snapshot()), pid, msgs).1
      ensures old(Valid()) && NonZero(msgs) ==> Valid()
    {
      if Valid() && NonZero(msgs) { SendBatchKeepsValid(Snapshot(), pid, msgs); }
      var count := 0;
      for i := 0 to |msgs|
        invariant (count, Snapshot()) == SendBatch(old(Snapshot()), pid, msgs[..i])
      {
        assert msgs[..i + 1][..i] == msgs[..i];
        var ret := SendMsg(pid, msgs[i]);
        if ret == Ok {
          count := count + 1;
        }
      }
      assert msgs[..|msgs|] == msgs;
      r := if count > 0 then count else SysErrWord;
    }

    /** sendnMsg: returns the number of OK sends, or SYSERR when there is none. */
    method SendnMsg(pids: seq<int>, msg: Msg) returns (r: nat)
      requires Wf()
      modifies messageBuffer, queuePointer, proctab
      ensures r == BatchReturn(SendFanOut(old(Snapshot()), pids, msg).0)
      ensures Snapshot() == SendFanOut(old(Snapshot()), pids, msg).1
      ensures old(Valid()) && msg != 0 ==> Valid()
    {
      if Valid() && msg != 0 { FanOutKeepsValid(Snapshot(), pids, msg); }
      var count := 0;
      for i := 0 to |pids|
        invariant (count, Snapshot()) == SendFanOut(old(Snapshot()), pids[..i], msg)
      {
        assert pids[..i + 1][..i] == pids[..i];
        var ret := SendMsg(pids[i], msg);
        if ret == Ok {
          count := count + 1;
        }
      }
      assert pids[..|pids|] == pids;
      r := if count > 0 then count else SysErrWord;
    }

    /**
     * receiveMsg, for the calling process self, from the point where it
     * calls getItem: at once when head != tail, or after the wake otherwise,
     * on the state at that moment. The oldest slot is returned and cleared.
     */
    method ReceiveMsg(self: int) returns (m: Msg)
      requires Wf() && 0 <= self < NProc
      modifies messageBuffer, queuePointer
      ensures (m, Snapshot()) == ReceiveOne(old(Snapshot()), self)
    {
      m := GetItem(self);
    }

    /**
     * receiveMsgs, for the calling process self, from the point where its
     * waits are over: SYSERR for more than QUEUE_SIZE messages; otherwise
     * msgs[0..msgCount) is filled by msgCount receiveMsg calls in a row.
     */
    method ReceiveMsgs(self: int, msgs: array<Msg>, msgCount: nat) returns (s: Status)
      requires Wf() && 0 <= self < NProc
      requires msgCount <= QueueSize ==> msgCount <= msgs.Length
      modifies msgs, messageBuffer, queuePointer
      ensures var r := ReceiveBatch(old(Snapshot()), self, msgCount);
              s == r.0 && Snapshot() == r.2 && msgs[..|r.1|] == r.1
      ensures s == Ok ==> forall j :: msgCount <= j < msgs.Length ==> msgs[j] == old(msgs[j])
      ensures s == SysErr ==> unchanged(msgs)
    {
      if msgCount > QueueSize {
        return SysErr;
      }
      ghost var b0 := Box(self);
      ghost var t0 := Snapshot();
      for i := 0 to msgCount
        invariant Snapshot() == WithBox(t0, self, TakeN(b0, i).1)
        invariant msgs[..i] == TakeN(b0, i).0
        invariant forall j :: msgCount <= j < msgs.Length ==> msgs[j] == old(msgs[j])
      {
        ghost var b := TakeN(b0, i).1;
        WithBoxTwice(t0, self, b, Take(b).1);
        var m := ReceiveMsg(self);
        assert Snapshot() == WithBox(t0, self, TakeN(b0, i + 1).1);
        msgs[i] := m;
        assert msgs[..i + 1] == msgs[..i] + [m];
      }
      s := Ok;
    }
  }
}
