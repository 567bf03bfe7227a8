/** Frames that wait for an address to be resolved, and what became of them. */
module ArpModel {
  import opened Numbers
  import opened ArpCache
  import opened Intervals
  import opened SlotMap

  datatype ArpStatus =
    | Ok | Pending | Malformed | Unsupported | CacheFull | Queued | QueueFull | PayloadTooLarge | Unreachable | SendFailed

  datatype Operation = Request | Reply

  datatype ArpMessage = ArpMessage(
    operation: Operation, senderHardware: Mac, senderProtocol: u32, targetHardware: Mac, targetProtocol: u32)

  datatype Frame = Frame(target: u32, etherType: u16, payload: seq<u8>)

  /** `id` is history: the number of frames that had been queued before this one. */
  datatype PendingFrame = PendingFrame(frame: Frame, deadline: u64, active: bool, ghost id: nat)

  datatype Resolution = Resolution(target: u32, nextRetry: u64, deadline: u64, attempts: u8, active: bool)

  /** The end of a queued frame: handed to the link, or given up. */
  datatype Output =
    | Sent(id: nat, destination: Mac, frame: Frame)
    | Failed(id: nat, target: u32, reason: ArpStatus)

  /** A message handed to the link. */
  datatype Outgoing = Outgoing(destination: Mac, message: ArpMessage)

  /** A frame handed to the link at once, its target's address being known. */
  datatype Direct = Direct(destination: Mac, frame: Frame)

  // ---- Conservation of frames ----

  predicate EndOf(o: Output, f: Frame) {
    match o
    case Sent(_, _, frame) => frame == f
    case Failed(_, target, _) => target == f.target
  }

  ghost predicate WaitsAt(pending: seq<PendingFrame>, i: int, id: int) {
    0 <= i < |pending| && pending[i].active && pending[i].id == id
  }

  predicate EndsAt(log: seq<Output>, k: int, id: int) {
    0 <= k < |log| && log[k].id == id
  }

  ghost predicate Waits(pending: seq<PendingFrame>, id: int) {
    exists i :: WaitsAt(pending, i, id)
  }

  ghost predicate Ended(log: seq<Output>, id: int) {
    exists k :: EndsAt(log, k, id)
  }

  /** Every slot and every entry of the log is about a frame that was queued, and no two are about the same one. */
  ghost predicate Accounted(pending: seq<PendingFrame>, frames: seq<Frame>, log: seq<Output>) {
    && (forall i :: 0 <= i < |pending| && pending[i].active ==> pending[i].id < |frames| && pending[i].frame == frames[pending[i].id])
    && (forall k :: 0 <= k < |log| ==> log[k].id < |frames| && EndOf(log[k], frames[log[k].id]))
    && (forall i, j :: 0 <= i < j < |pending| && pending[i].active && pending[j].active ==> pending[i].id != pending[j].id)
    && (forall k, l :: 0 <= k < l < |log| ==> log[k].id != log[l].id)
    && (forall i, k :: 0 <= i < |pending| && pending[i].active && 0 <= k < |log| ==> pending[i].id != log[k].id)
  }

  /** Every frame that was queued waits in one slot or has met its one end. */
  ghost predicate Conserved(pending: seq<PendingFrame>, frames: seq<Frame>, log: seq<Output>) {
    && Accounted(pending, frames, log)
    && (forall id :: 0 <= id < |frames| ==> Waits(pending, id) || Ended(log, id))
  }

  lemma SettleOne(pending: seq<PendingFrame>, frames: seq<Frame>, log: seq<Output>, i: nat, o: Output)
    requires Conserved(pending, frames, log) && i < |pending| && pending[i].active
    requires o.id == pending[i].id && EndOf(o, pending[i].frame)
    ensures Conserved(pending[i := pending[i].(active := false)], frames, log + [o])
  {
    var pending', log' := pending[i := pending[i].(active := false)], log + [o];
    forall id | 0 <= id < |frames| ensures Waits(pending', id) || Ended(log', id) {
      if id == pending[i].id {
        assert EndsAt(log', |log|, id);
      } else if Waits(pending, id) {
        var j :| WaitsAt(pending, j, id);
        assert WaitsAt(pending', j, id);
      } else {
        var k :| EndsAt(log, k, id);
        assert EndsAt(log', k, id);
      }
    }
  }

  lemma QueueOne(pending: seq<PendingFrame>, frames: seq<Frame>, log: seq<Output>, i: nat, p: PendingFrame)
    requires Conserved(pending, frames, log) && i < |pending| && !pending[i].active && p.active && p.id == |frames|
    ensures Conserved(pending[i := p], frames + [p.frame], log)
  {
    var pending' := pending[i := p];
    forall id | 0 <= id < |frames + [p.frame]| ensures Waits(pending', id) || Ended(log, id) {
      if id == |frames| {
        assert WaitsAt(pending', i, id);
      } else if Waits(pending, id) {
        var j :| WaitsAt(pending, j, id);
        assert WaitsAt(pending', j, id);
      }
    }
  }

  predicate InUse(p: PendingFrame) {
    p.active
  }

  predicate HasRoom(pending: seq<PendingFrame>) {
    FirstFree(pending, InUse) < |pending|
  }

  /** A free slot may hold anything. */
  lemma FreeSlotIsFree(pending: seq<PendingFrame>, frames: seq<Frame>, log: seq<Output>, i: nat, p: PendingFrame)
    requires Conserved(pending, frames, log) && i < |pending| && !pending[i].active && !p.active
    ensures Conserved(pending[i := p], frames, log)
  {
    forall id | 0 <= id < |frames| ensures Waits(pending[i := p], id) || Ended(log, id) {
      if Waits(pending, id) {
        var j :| WaitsAt(pending, j, id);
        assert WaitsAt(pending[i := p], j, id);
      }
    }
  }

  // ---- Counting ----

  ghost function WaitingIds(pending: seq<PendingFrame>): seq<nat> {
    if pending == [] then []
    else
      var p := pending[|pending| - 1];
      WaitingIds(pending[..|pending| - 1]) + if p.active then [p.id] else []
  }

  lemma {:induction false} WaitingIdsAre(pending: seq<PendingFrame>, id: nat)
    ensures id in WaitingIds(pending) <==> Waits(pending, id)
    decreases |pending|
  {
    if pending != [] {
      var n := |pending| - 1;
      var init := pending[..n];
      WaitingIdsAre(init, id);
      assert forall i :: WaitsAt(init, i, id) <==> WaitsAt(pending, i, id) && i < n;
      assert WaitsAt(pending, n, id) <==> pending[n].active && pending[n].id == id;
    }
  }

  lemma {:induction false} WaitingIdsDistinct(pending: seq<PendingFrame>)
    requires forall i, j :: 0 <= i < j < |pending| && pending[i].active && pending[j].active ==> pending[i].id != pending[j].id
    ensures forall k, l :: 0 <= k < l < |WaitingIds(pending)| ==> WaitingIds(pending)[k] != WaitingIds(pending)[l]
    decreases |pending|
  {
    if pending != [] {
      var n := |pending| - 1;
      WaitingIdsDistinct(pending[..n]);
      WaitingIdsAre(pending[..n], pending[n].id);
    }
  }

  function Elements(ids: seq<nat>): (s: set<int>)
    ensures forall i :: 0 <= i < |ids| ==> ids[i] in s
    ensures forall x :: x in s ==> x in ids
  {
    if ids == [] then {} else Elements(ids[..|ids| - 1]) + {ids[|ids| - 1]}
  }

  lemma {:induction false} DistinctIsSized(ids: seq<nat>)
    requires forall k, l :: 0 <= k < l < |ids| ==> ids[k] != ids[l]
    ensures |Elements(ids)| == |ids|
    decreases |ids|
  {
    if ids != [] {
      var n := |ids| - 1;
      DistinctIsSized(ids[..n]);
      assert ids[n] !in Elements(ids[..n]);
    }
  }

  lemma OneOrTheOther(pending: seq<PendingFrame>, frames: seq<Frame>, log: seq<Output>, id: nat)
    requires Conserved(pending, frames, log)
    ensures id < |frames| <==> id in WaitingIds(pending) || id in Ids(log)
    ensures !(id in WaitingIds(pending) && id in Ids(log))
  {
    WaitingIdsAre(pending, id);
    if id in Ids(log) {
      var k :| 0 <= k < |log| && Ids(log)[k] == id;
      assert EndsAt(log, k, id);
    }
    if id < |frames| && !Waits(pending, id) {
      var k :| EndsAt(log, k, id);
      assert Ids(log)[k] == id;
    }
  }

  /** No number is waiting twice, and none has ended twice. */
  lemma SizesAre(pending: seq<PendingFrame>, frames: seq<Frame>, log: seq<Output>)
    requires Accounted(pending, frames, log)
    ensures |Elements(WaitingIds(pending))| == |WaitingIds(pending)| && |Elements(Ids(log))| == |log|
  {
    WaitingIdsDistinct(pending);
    DistinctIsSized(WaitingIds(pending));
    DistinctIsSized(Ids(log));
  }

  lemma ElementsAre(ids: seq<nat>, x: nat)
    ensures x in Elements(ids) <==> x in ids
  {
  }

  lemma NotBelowZero(ids: seq<nat>, x: int)
    ensures x in Elements(ids) ==> 0 <= x
  {
  }

  /** Two sequences that share the numbers below n between them. */
  lemma SharedOut(a: seq<nat>, b: seq<nat>, n: nat)
    requires forall id: nat :: id < n <==> id in a || id in b
    requires forall id: nat :: !(id in a && id in b)
    ensures n == |Elements(a)| + |Elements(b)|
  {
    hide Elements;
    forall x
      ensures x in Elements(a) + Elements(b) <==> x in Interval(0, n)
      ensures !(x in Elements(a) && x in Elements(b))
    {
      if 0 <= x {
        ElementsAre(a, x);
        ElementsAre(b, x);
      } else {
        NotBelowZero(a, x);
        NotBelowZero(b, x);
      }
    }
    assert Elements(a) + Elements(b) == Interval(0, n) && Elements(a) !! Elements(b);
  }

  /** Frames queued are frames ended and frames waiting, counted. */
  lemma FramesAreCounted(pending: seq<PendingFrame>, frames: seq<Frame>, log: seq<Output>)
    requires Conserved(pending, frames, log)
    ensures |frames| == |log| + |WaitingIds(pending)|
  {
    hide Accounted, WaitingIds, Elements;
    SizesAre(pending, frames, log);
    forall id: nat
      ensures id < |frames| <==> id in WaitingIds(pending) || id in Ids(log)
      ensures !(id in WaitingIds(pending) && id in Ids(log))
    {
      OneOrTheOther(pending, frames, log, id);
    }
    SharedOut(WaitingIds(pending), Ids(log), |frames|);
  }

  // ---- Taking frames out of the queue ----

  datatype Selector = OfTarget(target: u32) | Overdue(now: u64)

  predicate Selected(p: PendingFrame, s: Selector) {
    p.active && match s case OfTarget(target) => p.frame.target == target case Overdue(now) => now >= p.deadline
  }

  ghost function Released(p: PendingFrame, s: Selector): PendingFrame {
    if Selected(p, s) then p.(active := false) else p
  }

  /** The numbers of the selected frames, in the order of their slots. */
  ghost function SelectedIds(pending: seq<PendingFrame>, s: Selector): seq<nat> {
    if pending == [] then []
    else
      var n := |pending| - 1;
      SelectedIds(pending[..n], s) + if Selected(pending[n], s) then [pending[n].id] else []
  }

  function Ids(log: seq<Output>): (ids: seq<nat>)
    ensures |ids| == |log| && forall k :: 0 <= k < |log| ==> ids[k] == log[k].id
  {
    seq(|log|, k requires 0 <= k < |log| => log[k].id)
  }

  /** The first `n` slots have been gone through. */
  ghost predicate ReleasedTo(before: seq<PendingFrame>, log: seq<Output>, pending: seq<PendingFrame>, log': seq<Output>, n: nat, s: Selector) {
    && |pending| == |before| && n <= |before|
    && (forall i :: 0 <= i < n ==> pending[i] == Released(before[i], s))
    && (forall i :: n <= i < |before| ==> pending[i] == before[i])
    && log <= log' && Ids(log'[|log|..]) == SelectedIds(before[..n], s)
  }

  lemma ReleaseStep(before: seq<PendingFrame>, log: seq<Output>, pending: seq<PendingFrame>, log': seq<Output>, n: nat, s: Selector, o: Output)
    requires ReleasedTo(before, log, pending, log', n, s) && n < |before|
    requires Selected(pending[n], s) ==> o.id == pending[n].id
    ensures if Selected(pending[n], s)
            then ReleasedTo(before, log, pending[n := pending[n].(active := false)], log' + [o], n + 1, s)
            else ReleasedTo(before, log, pending, log', n + 1, s)
  {
    assert before[..n + 1][..n] == before[..n];
    if Selected(pending[n], s) {
      assert (log' + [o])[|log|..] == log'[|log|..] + [o];
      assert Ids((log' + [o])[|log|..]) == Ids(log'[|log|..]) + [o.id];
    }
  }

  lemma NoneSelected(before: seq<PendingFrame>, log: seq<Output>, pending: seq<PendingFrame>, log': seq<Output>, s: Selector)
    requires ReleasedTo(before, log, pending, log', |before|, s)
    ensures forall i :: 0 <= i < |pending| ==> !Selected(pending[i], s)
  {
  }

  // ---- Reports ----

  datatype Report = Report(target: u32, reason: ArpStatus)

  /** What the failure callback is told. */
  function Reports(log: seq<Output>): seq<Report> {
    if log == [] then []
    else
      var o := log[|log| - 1];
      Reports(log[..|log| - 1]) + if o.Failed? then [Report(o.target, o.reason)] else []
  }

  lemma ReportsOfLast(log: seq<Output>, o: Output)
    ensures Reports(log + [o]) == Reports(log) + if o.Failed? then [Report(o.target, o.reason)] else []
  {
    assert (log + [o])[..|log|] == log;
  }

  // ---- Order ----

  /** Frames for the same target are in slots in the order in which they were queued. */
  ghost predicate InOrder(pending: seq<PendingFrame>, target: u32) {
    forall i, j :: 0 <= i < j < |pending| && Selected(pending[i], OfTarget(target)) && Selected(pending[j], OfTarget(target)) ==>
      pending[i].id < pending[j].id
  }

  ghost predicate Ascending(ids: seq<nat>) {
    forall i, j :: 0 <= i < j < |ids| ==> ids[i] < ids[j]
  }

  lemma {:induction false} SelectedAt(pending: seq<PendingFrame>, s: Selector, id: nat)
    ensures id in SelectedIds(pending, s) <==> exists i :: 0 <= i < |pending| && Selected(pending[i], s) && pending[i].id == id
    decreases |pending|
  {
    if pending != [] {
      var n := |pending| - 1;
      SelectedAt(pending[..n], s, id);
      var ids, before := SelectedIds(pending, s), SelectedIds(pending[..n], s);
      assert id in ids <==> id in before || (Selected(pending[n], s) && pending[n].id == id);
      if i :| 0 <= i < |pending| && Selected(pending[i], s) && pending[i].id == id {
        assert i < n ==> pending[..n][i] == pending[i];
      }
      if i :| 0 <= i < n && Selected(pending[..n][i], s) && pending[..n][i].id == id {
        assert pending[i] == pending[..n][i];
      }
    }
  }

  lemma LastInOrder(pending: seq<PendingFrame>, target: u32)
    requires pending != []
    ensures var n, s := |pending| - 1, OfTarget(target);
            InOrder(pending, target) <==>
            && InOrder(pending[..n], target)
            && (Selected(pending[n], s) ==> forall i :: 0 <= i < n && Selected(pending[..n][i], s) ==> pending[..n][i].id < pending[n].id)
  {
    var n := |pending| - 1;
    assert forall i :: 0 <= i < n ==> pending[..n][i] == pending[i];
  }

  /** The frames of a target leave in the order in which they came exactly when their slots are in that order. */
  lemma {:induction false} FlushOrder(pending: seq<PendingFrame>, target: u32)
    ensures Ascending(SelectedIds(pending, OfTarget(target))) <==> InOrder(pending, target)
    decreases |pending|
  {
    if pending != [] {
      var n, s := |pending| - 1, OfTarget(target);
      var init, last := pending[..n], pending[n];
      FlushOrder(init, target);
      var ids := SelectedIds(init, s);
      forall i | 0 <= i < n && Selected(init[i], s) ensures init[i].id in ids {
        SelectedAt(init, s, init[i].id);
      }
      forall id | id in ids ensures exists i :: 0 <= i < n && Selected(init[i], s) && init[i].id == id {
        SelectedAt(init, s, id);
      }
      LastInOrder(pending, target);
      if Selected(last, s) {
        LastAscends(ids, last.id);
      } else {
        assert ids + [] == ids;
      }
    }
  }

  lemma LastAscends(ids: seq<nat>, id: nat)
    ensures Ascending(ids + [id]) <==> Ascending(ids) && forall x :: x in ids ==> x < id
  {
    var all := ids + [id];
    if Ascending(all) {
      forall x | x in ids ensures x < id {
        var i :| 0 <= i < |ids| && ids[i] == x;
        assert all[i] < all[|ids|];
      }
      assert forall i :: 0 <= i < |ids| ==> ids[i] == all[i];
    }
    if Ascending(ids) && forall x :: x in ids ==> x < id {
      forall i, j | 0 <= i < j < |all| ensures all[i] < all[j] {
        assert all[i] == ids[i] && ids[i] in ids;
      }
    }
  }

  /** What queueing a frame, and taking frames out, does to the slots. */
  ghost function QueuedIn(pending: seq<PendingFrame>, p: PendingFrame): seq<PendingFrame>
    requires HasRoom(pending)
  {
    pending[FirstFree(pending, InUse) := p]
  }

  ghost function ReleasedFrom(pending: seq<PendingFrame>, s: Selector): (r: seq<PendingFrame>)
    ensures |r| == |pending| && forall i :: 0 <= i < |pending| ==> r[i] == Released(pending[i], s)
  {
    seq(|pending|, i requires 0 <= i < |pending| => Released(pending[i], s))
  }

  /** What flushing and failing leave in the slots. */
  lemma ReleasedIs(before: seq<PendingFrame>, log: seq<Output>, pending: seq<PendingFrame>, log': seq<Output>, s: Selector)
    requires ReleasedTo(before, log, pending, log', |before|, s)
    ensures pending == ReleasedFrom(before, s)
  {
  }

  /** No frame for the target waits behind the slot that the next frame will get. */
  predicate NoneBehind(pending: seq<PendingFrame>, target: u32) {
    forall j :: FirstFree(pending, InUse) < j < |pending| ==> !Selected(pending[j], OfTarget(target))
  }

  ghost predicate Younger(pending: seq<PendingFrame>, id: nat) {
    forall j :: 0 <= j < |pending| && pending[j].active ==> pending[j].id < id
  }

  /** A queued frame keeps its target's order exactly when no frame for that target waits behind the first free slot. */
  lemma QueueOrder(pending: seq<PendingFrame>, p: PendingFrame)
    requires HasRoom(pending) && p.active && InOrder(pending, p.frame.target) && Younger(pending, p.id)
    ensures InOrder(QueuedIn(pending, p), p.frame.target) <==> NoneBehind(pending, p.frame.target)
  {
    var i, pending', s := FirstFree(pending, InUse), QueuedIn(pending, p), OfTarget(p.frame.target);
    assert !InUse(pending[i]);
    if InOrder(pending', p.frame.target) {
      forall j | i < j < |pending| ensures !Selected(pending[j], s) {
        assert pending'[i] == p && pending'[j] == pending[j];
      }
    }
  }

  /** Frames of other targets, and frames that leave, disturb no order. */
  lemma OtherOrder(pending: seq<PendingFrame>, p: PendingFrame, target: u32)
    requires HasRoom(pending) && p.frame.target != target
    ensures InOrder(QueuedIn(pending, p), target) <==> InOrder(pending, target)
  {
    var i, pending' := FirstFree(pending, InUse), QueuedIn(pending, p);
    assert !InUse(pending[i]);
    assert forall j :: 0 <= j < |pending| && j != i ==> pending'[j] == pending[j];
  }

  lemma ReleaseOrder(pending: seq<PendingFrame>, s: Selector, target: u32)
    requires InOrder(pending, target)
    ensures InOrder(ReleasedFrom(pending, s), target)
  {
  }

  // ---- Order over runs ----

  /** The slots change when a frame is queued and when frames leave, for whatever reason. */
  datatype Move = Queue(frame: Frame, deadline: u64) | Leave(s: Selector)

  /** The slots after some moves, from free ones, and how many frames have been queued. */
  ghost function SlotsAfter(slots: nat, moves: seq<Move>): (r: (seq<PendingFrame>, nat)) {
    if moves == [] then (seq(slots, _ => PendingFrame(Frame(0, 0, []), 0, false, 0)), 0)
    else
      var (pending, count) := SlotsAfter(slots, moves[..|moves| - 1]);
      match moves[|moves| - 1]
      case Queue(frame, deadline) =>
        if HasRoom(pending) then (QueuedIn(pending, PendingFrame(frame, deadline, true, count)), count + 1) else (pending, count)
      case Leave(s) => (ReleasedFrom(pending, s), count)
  }

  lemma {:induction false} AllYounger(slots: nat, moves: seq<Move>)
    ensures Younger(SlotsAfter(slots, moves).0, SlotsAfter(slots, moves).1)
    decreases |moves|
  {
    if moves != [] {
      AllYounger(slots, moves[..|moves| - 1]);
    }
  }

  /** The move puts a frame for the target into a slot before another one that waits for it. */
  ghost predicate Overtakes(slots: nat, moves: seq<Move>, n: nat, target: u32)
    requires n < |moves|
  {
    var pending := SlotsAfter(slots, moves[..n]).0;
    moves[n].Queue? && moves[n].frame.target == target && HasRoom(pending) && !NoneBehind(pending, target)
  }

  /** Flushing the target now would send its frames in the order in which they were queued. */
  ghost predicate FlushesInOrder(slots: nat, moves: seq<Move>, target: u32) {
    Ascending(SelectedIds(SlotsAfter(slots, moves).0, OfTarget(target)))
  }

  lemma MoveOrder(slots: nat, moves: seq<Move>, n: nat, target: u32)
    requires n < |moves| && InOrder(SlotsAfter(slots, moves[..n]).0, target)
    ensures InOrder(SlotsAfter(slots, moves[..n + 1]).0, target) <==> !Overtakes(slots, moves, n, target)
  {
    hide InOrder;
    assert moves[..n + 1][..n] == moves[..n];
    var (pending, count) := SlotsAfter(slots, moves[..n]);
    match moves[n]
    case Queue(frame, deadline) =>
      if HasRoom(pending) {
        AllYounger(slots, moves[..n]);
        var p := PendingFrame(frame, deadline, true, count);
        if frame.target == target { QueueOrder(pending, p); } else { OtherOrder(pending, p, target); }
      }
    case Leave(s) =>
      ReleaseOrder(pending, s, target);
  }

  /**
   In every run, up to every point: all flushes of a target would have been in the order of queueing exactly
   when no frame for it was put into a slot before another one that was waiting for it.
   */
  lemma {:induction false} OrderExactly(slots: nat, moves: seq<Move>, target: u32)
    ensures (forall n :: 0 <= n <= |moves| ==> FlushesInOrder(slots, moves[..n], target))
       <==> (forall n :: 0 <= n < |moves| ==> !Overtakes(slots, moves, n, target))
  {
    forall n | 0 <= n <= |moves|
      ensures FlushesInOrder(slots, moves[..n], target) <==> InOrder(SlotsAfter(slots, moves[..n]).0, target)
    {
      FlushOrder(SlotsAfter(slots, moves[..n]).0, target);
    }
    if forall n :: 0 <= n <= |moves| ==> FlushesInOrder(slots, moves[..n], target) {
      forall n | 0 <= n < |moves| ensures !Overtakes(slots, moves, n, target) {
        assert FlushesInOrder(slots, moves[..n], target) && FlushesInOrder(slots, moves[..n + 1], target);
        MoveOrder(slots, moves, n, target);
      }
    }
    if forall n :: 0 <= n < |moves| ==> !Overtakes(slots, moves, n, target) {
      forall n | 0 <= n <= |moves| ensures FlushesInOrder(slots, moves[..n], target) {
        InOrderUpTo(slots, moves, n, target);
      }
    }
  }

  lemma {:induction false} InOrderUpTo(slots: nat, moves: seq<Move>, n: nat, target: u32)
    requires n <= |moves| && forall k :: 0 <= k < |moves| ==> !Overtakes(slots, moves, k, target)
    ensures InOrder(SlotsAfter(slots, moves[..n]).0, target)
    decreases n
  {
    if n > 0 {
      InOrderUpTo(slots, moves, n - 1, target);
      MoveOrder(slots, moves, n - 1, target);
    }
  }

  /**
   The order can break: one frame for address 1 and one for address 2 are queued, address 1 is learned, and a
   second frame for address 2 is put into the slot that has become free. It leaves before the first.
   */
  lemma OrderCanBreak(a: Frame, b: Frame, c: Frame, deadline: u64)
    requires a.target == 1 && b.target == 2 && c.target == 2
    ensures var moves := [Queue(a, deadline), Queue(b, deadline), Leave(OfTarget(1)), Queue(c, deadline)];
            SelectedIds(SlotsAfter(2, moves).0, OfTarget(2)) == [2, 1] && Overtakes(2, moves, 3, 2)
  {
    var moves := [Queue(a, deadline), Queue(b, deadline), Leave(OfTarget(1)), Queue(c, deadline)];
    var none := PendingFrame(Frame(0, 0, []), 0, false, 0);
    assert moves[..3][..2] == moves[..2] && moves[..2][..1] == moves[..1] && moves[..1][..0] == [];
    assert SlotsAfter(2, moves[..1]).0 == [PendingFrame(a, deadline, true, 0), none];
    assert SlotsAfter(2, moves[..2]).0 == [PendingFrame(a, deadline, true, 0), PendingFrame(b, deadline, true, 1)];
    assert SlotsAfter(2, moves[..3]).0 == [PendingFrame(a, deadline, false, 0), PendingFrame(b, deadline, true, 1)];
    var last := SlotsAfter(2, moves).0;
    assert last == [PendingFrame(c, deadline, true, 2), PendingFrame(b, deadline, true, 1)];
    assert last[..1] == [last[0]] && last[..1][..0] == [];
    assert SelectedIds(last[..1], OfTarget(2)) == [2];
    assert Selected(SlotsAfter(2, moves[..3]).0[1], OfTarget(2));
  }
}
