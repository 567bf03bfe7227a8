/** The ARP resolver: frames wait for their target's address, resolutions ask for it. */
module ArpResolver {
  import opened Numbers
  import opened SlotMap
  import opened ArpCache
  import opened ArpModel
  import opened ArpResolutions
  import opened Layout
  import ArpWire

  const MAXIMUM_FRAME_BYTES: nat := 2048
  const BROADCAST: Mac := [0xFF, 0xFF, 0xFF, 0xFF, 0xFF, 0xFF]
  const NO_HARDWARE: Mac := [0, 0, 0, 0, 0, 0]

  datatype Config = Config(
    cacheCapacity: nat, pendingCapacity: nat, ttl: u64, refreshMargin: u64, retryInterval: u64, pendingDeadline: u64,
    maximumAttempts: u8)

  /** Which of the callbacks there are. */
  datatype Callbacks = Callbacks(arp: bool, frame: bool, failure: bool)

  /** What a refresh works on. */
  datatype Snapshot = Snapshot(entries: seq<CacheEntry>, resolutions: seq<Resolution>, messages: seq<Outgoing>)

  class Resolver {
    const localProtocol: u32
    const localHardware: Mac
    const config: Config
    const callbacks: Callbacks
    const cache: Cache
    var pending: seq<PendingFrame>
    var resolutions: seq<Resolution>
    // History: the frames answered as queued, what became of them, the failures reported, the frames that did
    // not have to be queued, the messages handed to the link, and how many of those there were when each resolution began.
    ghost var frames: seq<Frame>
    ghost var log: seq<Output>
    ghost var reports: seq<Report>
    ghost var direct: seq<Direct>
    ghost var messages: seq<Outgoing>
    ghost var started: seq<nat>

    ghost predicate FramesOk()
      reads this
    {
      Conserved(pending, frames, log) && reports == if callbacks.failure then Reports(log) else []
    }

    ghost predicate AsksOk()
      reads this
    {
      ResolutionsOk(resolutions, started, messages, config.maximumAttempts)
    }

    ghost predicate Valid()
      reads this, cache
    {
      cache.Valid() && FramesOk() && AsksOk() && Covered(pending, resolutions)
    }

    constructor (localProtocol: u32, localHardware: Mac, config: Config, callbacks: Callbacks)
      ensures Valid() && fresh(cache) && this.config == config && this.callbacks == callbacks
      ensures cache.table == map[] && |cache.entries| == config.cacheCapacity && cache.ttl == config.ttl
      ensures |pending| == config.pendingCapacity && |resolutions| == Max(config.cacheCapacity, config.pendingCapacity)
      ensures frames == [] && log == [] && messages == [] && direct == []
      ensures (forall i :: 0 <= i < |pending| ==> !pending[i].active) && (forall t :: !Resolving(resolutions, t))
    {
      this.localProtocol, this.localHardware, this.config, this.callbacks := localProtocol, localHardware, config, callbacks;
      cache := new Cache(config.cacheCapacity, config.ttl);
      pending := seq(config.pendingCapacity, _ => PendingFrame(Frame(0, 0, []), 0, false, 0));
      var count := Max(config.cacheCapacity, config.pendingCapacity);
      resolutions := seq(count, _ => Resolution(0, 0, 0, 0, false));
      frames, log, reports, direct, messages := [], [], [], [], [];
      started := seq(count, _ => 0);
    }

    // ---- Messages ----

    /** The callback's answer is not known. */
    method Transmit(destination: Mac, message: ArpMessage) returns (status: ArpStatus)
      modifies this`messages
      ensures messages == if callbacks.arp then old(messages) + [Outgoing(destination, message)] else old(messages)
      ensures status == Ok || status == SendFailed
      ensures !callbacks.arp ==> status == SendFailed
    {
      if !callbacks.arp {
        return SendFailed;
      }
      messages := messages + [Outgoing(destination, message)];
      var error: bool := *;
      return if error then SendFailed else Ok;
    }

    function RequestTo(target: u32): Outgoing {
      Outgoing(BROADCAST, ArpMessage(Request, localHardware, localProtocol, NO_HARDWARE, target))
    }

    /** A request on the wire: broadcast, operation 1, our addresses, no hardware address, the target. */
    lemma RequestOnWire(target: u32)
      ensures var out := RequestTo(target);
              var p := ArpWire.Built(out.message);
              && out.destination == [255, 255, 255, 255, 255, 255]
              && Two(p, 6, 1) && p[8..14] == localHardware && Four(p, 14, localProtocol)
              && p[18..24] == [0, 0, 0, 0, 0, 0] && Four(p, 24, target)
    {
      hide ArpWire.Built, Two, Four;
      ArpWire.BuiltLaysOut(RequestTo(target).message);
    }

    method SendRequest(target: u32) returns (status: ArpStatus)
      modifies this`messages
      ensures messages == if callbacks.arp then old(messages) + [RequestTo(target)] else old(messages)
      ensures status == Ok || status == SendFailed
      ensures !callbacks.arp ==> status == SendFailed
    {
      status := Transmit(BROADCAST, RequestTo(target).message);
    }

    function NewResolution(target: u32, now: u64): Resolution {
      Resolution(target, Later(now, config.retryInterval), Later(now, config.pendingDeadline), 1, true)
    }

    method FindResolution(target: u32) returns (found: bool)
      ensures found == Resolving(resolutions, target)
    {
      for i := 0 to |resolutions|
        invariant forall k :: 0 <= k < i ==> !ResolvesAt(resolutions, k, target)
      {
        if resolutions[i].active && resolutions[i].target == target {
          assert ResolvesAt(resolutions, i, target);
          return true;
        }
      }
      return false;
    }

    method FindFreeResolution() returns (index: nat)
      ensures index == FirstFree(resolutions, InProgress)
    {
      index := 0;
      while index < |resolutions| && resolutions[index].active
        invariant index <= FirstFree(resolutions, InProgress)
      {
        index := index + 1;
      }
    }

    /** What making sure of a resolution does, case by case; only the callback's answer is not known. */
    ghost predicate Ensured(rs: seq<Resolution>, rs': seq<Resolution>, sent: seq<Outgoing>, sent': seq<Outgoing>,
                            target: u32, now: u64, status: ArpStatus) {
      if config.maximumAttempts == 0 then status == SendFailed && rs' == rs && sent' == sent
      else if Resolving(rs, target) then status == Pending && rs' == rs && sent' == sent
      else if FirstFree(rs, InProgress) == |rs| then status == QueueFull && rs' == rs && sent' == sent
      else
        && status in {Pending, SendFailed} && (!callbacks.arp ==> status == SendFailed)
        && rs' == rs[FirstFree(rs, InProgress) := NewResolution(target, now).(active := status == Pending)]
        && sent' == if callbacks.arp then sent + [RequestTo(target)] else sent
    }

    /** Makes sure that the target is being resolved; asks at most once. */
    method EnsureResolution(target: u32, now: u64) returns (status: ArpStatus)
      requires AsksOk()
      modifies this`resolutions, this`messages, this`started
      ensures AsksOk() && status in {Pending, QueueFull, SendFailed}
      ensures forall t :: Resolving(resolutions, t) <==> Resolving(old(resolutions), t) || (status == Pending && t == target)
      ensures Ensured(old(resolutions), resolutions, old(messages), messages, target, now, status)
    {
      if config.maximumAttempts == 0 {
        return SendFailed;
      }
      var found := FindResolution(target);
      if found {
        return Pending;
      }
      var index := FindFreeResolution();
      if index == |resolutions| {
        return QueueFull;
      }
      status := Begin(index, target, now);
    }

    method Begin(index: nat, target: u32, now: u64) returns (status: ArpStatus)
      requires AsksOk() && index < |resolutions| && !resolutions[index].active && !Resolving(resolutions, target)
      requires config.maximumAttempts > 0
      modifies this`resolutions, this`messages, this`started
      ensures AsksOk() && status in {Pending, SendFailed} && (!callbacks.arp ==> status == SendFailed)
      ensures forall t :: Resolving(resolutions, t) <==> Resolving(old(resolutions), t) || (status == Pending && t == target)
      ensures resolutions == old(resolutions)[index := NewResolution(target, now).(active := status == Pending)]
      ensures messages == if callbacks.arp then old(messages) + [RequestTo(target)] else old(messages)
    {
      var r := NewResolution(target, now);
      BeginIn(resolutions, started, messages, config.maximumAttempts, RequestTo(target), index, r);
      resolutions := resolutions[index := r];
      started := started[index := |messages|];
      status := SendRequest(target);
      if status != Ok {
        resolutions := resolutions[index := r.(active := false)];
      } else {
        status := Pending;
      }
      assert resolutions == old(resolutions)[index := r.(active := status == Pending)];
      forall t
        ensures Resolving(resolutions, t) <==> Resolving(old(resolutions), t) || (status == Pending && t == target)
      {
        ReplacedResolution(old(resolutions), index, r.(active := status == Pending), t);
      }
    }

    static lemma ReplacedResolution(rs: seq<Resolution>, i: nat, r: Resolution, t: u32)
      requires i < |rs| && !rs[i].active
      ensures Resolving(rs[i := r], t) <==> Resolving(rs, t) || (r.active && t == r.target)
    {
      var rs' := rs[i := r];
      assert forall k :: k != i ==> (ResolvesAt(rs', k, t) <==> ResolvesAt(rs, k, t));
      assert ResolvesAt(rs', i, t) <==> r.active && t == r.target;
    }

    // ---- Frames ----

    /** Gives up the selected frames. */
    method FailSelected(s: Selector, reason: ArpStatus)
      requires FramesOk()
      modifies this`pending, this`log, this`reports
      ensures FramesOk() && ReleasedTo(old(pending), old(log), pending, log, |old(pending)|, s)
      ensures forall k :: |old(log)| <= k < |log| ==> log[k].Failed? && log[k].reason == reason
    {
      hide FramesOk;
      for i := 0 to |pending|
        invariant FramesOk() && |pending| == |old(pending)| && ReleasedTo(old(pending), old(log), pending, log, i, s)
        invariant forall k :: |old(log)| <= k < |log| ==> log[k].Failed? && log[k].reason == reason
      {
        ghost var o := Failed(pending[i].id, pending[i].frame.target, reason);
        ReleaseStep(old(pending), old(log), pending, log, i, s, o);
        if Selected(pending[i], s) {
          End(i, o);
        }
      }
    }

    /** A waiting frame meets its end. */
    method End(i: nat, ghost o: Output)
      requires FramesOk() && i < |pending| && pending[i].active && o.id == pending[i].id && EndOf(o, pending[i].frame)
      modifies this`pending, this`log, this`reports
      ensures FramesOk() && pending == old(pending)[i := old(pending)[i].(active := false)] && log == old(log) + [o]
    {
      hide Accounted;
      SettleOne(pending, frames, log, i, o);
      ReportsOfLast(log, o);
      if o.Failed? && callbacks.failure {
        reports := reports + [Report(o.target, o.reason)];
      }
      log := log + [o];
      pending := pending[i := pending[i].(active := false)];
    }

    /** Hands a frame to the link; the callback's answer is not known. */
    method FlushOne(i: nat, hardware: Mac) returns (error: bool, ghost o: Output)
      requires FramesOk() && i < |pending| && pending[i].active
      modifies this`pending, this`log, this`reports
      ensures FramesOk() && pending == old(pending)[i := old(pending)[i].(active := false)] && log == old(log) + [o]
      ensures o.id == old(pending)[i].id && Flushed(o, hardware) && error == o.Failed?
    {
      var p := pending[i];
      error := *;
      error := error || !callbacks.frame;
      o := if error then Failed(p.id, p.frame.target, SendFailed) else Sent(p.id, hardware, p.frame);
      End(i, o);
    }

    /** Hands the frames of a target to the link, in the order of their slots. */
    method FlushPending(target: u32, hardware: Mac) returns (status: ArpStatus)
      requires FramesOk()
      modifies this`pending, this`log, this`reports
      ensures FramesOk() && ReleasedTo(old(pending), old(log), pending, log, |old(pending)|, OfTarget(target))
      ensures FlushIs(log, |old(log)|, hardware, status)
    {
      hide Conserved;
      status := Ok;
      for i := 0 to |pending|
        invariant FramesOk() && |pending| == |old(pending)| && ReleasedTo(old(pending), old(log), pending, log, i, OfTarget(target))
        invariant FlushIs(log, |old(log)|, hardware, status)
      {
        if pending[i].active && pending[i].frame.target == target {
          ghost var before, done := pending, log;
          var error, o := FlushOne(i, hardware);
          ReleaseStep(old(pending), old(log), before, done, i, OfTarget(target), o);
          FlushStep(done, |old(log)|, hardware, status, o);
          if error {
            status := SendFailed;
          }
        } else {
          ReleaseStep(old(pending), old(log), pending, log, i, OfTarget(target), Failed(0, target, Ok));
        }
      }
    }

    static predicate Flushed(o: Output, hardware: Mac) {
      match o
      case Sent(_, destination, _) => destination == hardware
      case Failed(_, _, reason) => reason == SendFailed
    }

    /** What a flush added to the log, and its status: all went well exactly when every frame was taken. */
    static ghost predicate FlushIs(log: seq<Output>, from: nat, hardware: Mac, status: ArpStatus) {
      && (status == Ok || status == SendFailed)
      && (forall k :: from <= k < |log| ==> Flushed(log[k], hardware))
      && (status == Ok <==> forall k :: from <= k < |log| ==> log[k].Sent?)
    }

    static lemma FlushStep(log: seq<Output>, from: nat, hardware: Mac, status: ArpStatus, o: Output)
      requires FlushIs(log, from, hardware, status) && from <= |log| && Flushed(o, hardware)
      ensures FlushIs(log + [o], from, hardware, if o.Failed? then SendFailed else status)
    {
      var log' := log + [o];
      assert log'[|log|] == o;
      if status == SendFailed {
        var k :| from <= k < |log| && !log[k].Sent?;
        assert log'[k] == log[k];
      }
    }

    // ---- Operations ----

    method ClearResolution(target: u32)
      requires AsksOk()
      modifies this`resolutions
      ensures AsksOk() && |resolutions| == |old(resolutions)|
      ensures forall i :: 0 <= i < |resolutions| ==> resolutions[i] == Cleared(old(resolutions)[i], target)
    {
      for i := 0 to |resolutions|
        invariant AsksOk() && |resolutions| == |old(resolutions)|
        invariant forall k :: 0 <= k < i ==> resolutions[k] == Cleared(old(resolutions)[k], target)
        invariant forall k :: i <= k < |resolutions| ==> resolutions[k] == old(resolutions)[k]
      {
        if resolutions[i].active && resolutions[i].target == target {
          StopIn(resolutions, started, messages, config.maximumAttempts, i, resolutions[i].(active := false));
          resolutions := resolutions[i := resolutions[i].(active := false)];
        }
      }
    }

    static function Cleared(r: Resolution, target: u32): Resolution {
      if r.active && r.target == target then r.(active := false) else r
    }

    /** The resolution of the target stops, the others stay. */
    static ghost predicate AllCleared(rs: seq<Resolution>, rs': seq<Resolution>, target: u32) {
      |rs'| == |rs| && forall i :: 0 <= i < |rs| ==> rs'[i] == Cleared(rs[i], target)
    }

    /** An address has been learned: its frames leave and its resolution ends. */
    method Learn(target: u32, hardware: Mac) returns (status: ArpStatus)
      requires FramesOk() && AsksOk() && Covered(pending, resolutions)
      modifies this`resolutions, this`pending, this`log, this`reports
      ensures FramesOk() && AsksOk() && Covered(pending, resolutions) && !Resolving(resolutions, target)
      ensures AllCleared(old(resolutions), resolutions, target)
      ensures ReleasedTo(old(pending), old(log), pending, log, |old(pending)|, OfTarget(target))
      ensures FlushIs(log, |old(log)|, hardware, status)
    {
      ClearResolution(target);
      status := FlushPending(target, hardware);
      forall i | 0 <= i < |pending| && pending[i].active ensures Resolving(resolutions, pending[i].frame.target) {
        assert pending[i] == old(pending)[i];
        var k :| ResolvesAt(old(resolutions), k, pending[i].frame.target);
        assert ResolvesAt(resolutions, k, pending[i].frame.target);
      }
    }

    function ReplyTo(m: ArpMessage): Outgoing {
      Outgoing(m.senderHardware, ArpMessage(Reply, localHardware, localProtocol, m.senderHardware, m.senderProtocol))
    }

    /** A reply on the wire: to the one who asked, operation 2, our addresses, then theirs. */
    lemma ReplyOnWire(m: ArpMessage)
      ensures var out := ReplyTo(m);
              var p := ArpWire.Built(out.message);
              && out.destination == m.senderHardware
              && Two(p, 6, 2) && p[8..14] == localHardware && Four(p, 14, localProtocol)
              && p[18..24] == m.senderHardware && Four(p, 24, m.senderProtocol)
    {
      hide ArpWire.Built, Two, Four;
      ArpWire.BuiltLaysOut(ReplyTo(m).message);
    }

    predicate AsksForUs(m: ArpMessage) {
      m.operation.Request? && m.targetProtocol == localProtocol
    }

    method SendReply(m: ArpMessage) returns (status: ArpStatus)
      requires AsksOk()
      modifies this`messages
      ensures AsksOk()
      ensures messages == if callbacks.arp then old(messages) + [ReplyTo(m)] else old(messages)
      ensures (status == Ok || status == SendFailed) && (!callbacks.arp ==> status == SendFailed)
    {
      OtherMessage(resolutions, started, messages, config.maximumAttempts, ReplyTo(m));
      status := Transmit(m.senderHardware, ReplyTo(m).message);
    }

    /** Which of the three parts of an arrival the status is about. */
    static function ArrivalStatus(flushed: ArpStatus, replied: ArpStatus, cached: bool): ArpStatus {
      if flushed != Ok then flushed else if replied != Ok then replied else if cached then Ok else CacheFull
    }

    /** The callback's answer is known only when there is no callback. */
    predicate ReplyStatus(m: ArpMessage, replied: ArpStatus) {
      if !AsksForUs(m) then replied == Ok else if !callbacks.arp then replied == SendFailed else replied in {Ok, SendFailed}
    }

    /** An ARP message arrives; `flushed` and `replied` say how the frames and the reply went. */
    method OnArp(payload: seq<u8>, now: u64) returns (status: ArpStatus, ghost flushed: ArpStatus, ghost replied: ArpStatus)
      requires Valid()
      modifies this`resolutions, this`pending, this`log, this`reports, this`messages, cache
      ensures Valid()
      ensures ArpWire.Parse(payload).Rejected? ==> status == ArpWire.Parse(payload).status && unchanged(this) && unchanged(cache)
      ensures ArpWire.Parse(payload).Parsed? ==>
                var m := ArpWire.Parse(payload).message;
                var (cached, table) := Learned(old(cache.table), |cache.entries|, m.senderProtocol, m.senderHardware, now, cache.ttl);
                && cache.table == table
                && ReleasedTo(old(pending), old(log), pending, log, |old(pending)|, OfTarget(m.senderProtocol))
                && !Resolving(resolutions, m.senderProtocol) && AllCleared(old(resolutions), resolutions, m.senderProtocol)
                && messages == (if AsksForUs(m) && callbacks.arp then old(messages) + [ReplyTo(m)] else old(messages))
                && FlushIs(log, |old(log)|, m.senderHardware, flushed) && ReplyStatus(m, replied)
                && status == ArrivalStatus(flushed, replied, cached)
    {
      hide Conserved, ResolutionsOk, Indexed;
      var parsed := ArpWire.Parse(payload);
      if parsed.Rejected? {
        return parsed.status, Ok, Ok;
      }
      var m := parsed.message;
      var cached := cache.Insert(m.senderProtocol, m.senderHardware, now);
      var flushing := Learn(m.senderProtocol, m.senderHardware);
      var replying := Ok;
      if AsksForUs(m) {
        replying := SendReply(m);
      }
      return ArrivalStatus(flushing, replying, cached), flushing, replying;
    }

    method FindFreeFrame() returns (index: nat)
      ensures index == FirstFree(pending, InUse)
    {
      index := 0;
      while index < |pending| && pending[index].active
        invariant index <= FirstFree(pending, InUse)
      {
        index := index + 1;
      }
    }

    /** Sends a frame now if the address is known, else queues it and asks for the address. */
    method QueueFrame(target: u32, etherType: u16, payload: seq<u8>, now: u64) returns (status: ArpStatus)
      requires Valid()
      modifies this`resolutions, this`pending, this`frames, this`direct, this`messages, this`started, cache
      ensures Valid()
      ensures status == Queued ==> Resolving(resolutions, target)
      ensures if |payload| > MAXIMUM_FRAME_BYTES then status == PayloadTooLarge && unchanged(this) && unchanged(cache)
              else if !callbacks.frame then status == SendFailed && unchanged(this) && unchanged(cache)
              else
                var frame, (hardware, table) := Frame(target, etherType, payload), LookedUp(old(cache.table), target, now);
                && cache.table == table
                && if hardware.Some?
                   then status in {Ok, SendFailed} && direct == old(direct) + [Direct(hardware.value, frame)]
                        && unchanged(`pending, `frames, `resolutions, `messages)
                   else
                     && direct == old(direct) && InQueue(old(pending), pending, old(frames), frames, frame, now, status)
                     && if HasRoom(old(pending))
                        then Ensured(old(resolutions), resolutions, old(messages), messages, target, now, Resolved(status))
                        else unchanged(`resolutions, `messages)
    {
      if |payload| > MAXIMUM_FRAME_BYTES {
        return PayloadTooLarge;
      }
      if !callbacks.frame {
        return SendFailed;
      }
      var frame := Frame(target, etherType, payload);
      var hardware := cache.Lookup(target, now);
      if hardware.Some? {
        direct := direct + [Direct(hardware.value, frame)];
        var error: bool := *;
        return if error then SendFailed else Ok;
      }
      status := Enqueue(frame, now);
    }

    /** The status of the resolution behind the status of a frame. */
    static function Resolved(status: ArpStatus): ArpStatus {
      if status == Queued then Pending else status
    }

    /** What trying to queue a frame leaves in the slots. */
    ghost predicate InQueue(before: seq<PendingFrame>, after: seq<PendingFrame>, frames: seq<Frame>, frames': seq<Frame>,
                            frame: Frame, now: u64, status: ArpStatus) {
      if !HasRoom(before) then status == QueueFull && after == before && frames' == frames
      else
        && status in {Queued, QueueFull, SendFailed}
        && after == QueuedIn(before, PendingFrame(frame, Later(now, config.pendingDeadline), status == Queued, |frames|))
        && frames' == if status == Queued then frames + [frame] else frames
    }

    method Enqueue(frame: Frame, now: u64) returns (status: ArpStatus)
      requires FramesOk() && AsksOk() && Covered(pending, resolutions)
      modifies this`resolutions, this`pending, this`frames, this`messages, this`started
      ensures FramesOk() && AsksOk() && Covered(pending, resolutions)
      ensures status == Queued ==> Resolving(resolutions, frame.target)
      ensures InQueue(old(pending), pending, old(frames), frames, frame, now, status)
      ensures if HasRoom(old(pending))
              then Ensured(old(resolutions), resolutions, old(messages), messages, frame.target, now, Resolved(status))
              else unchanged(`resolutions, `messages)
    {
      hide Conserved, ResolutionsOk, Ensured, Resolving;
      var i := FindFreeFrame();
      if i == |pending| {
        return QueueFull;
      }
      var p := PendingFrame(frame, Later(now, config.pendingDeadline), true, |frames|);
      QueueOne(pending, frames, log, i, p);
      FreeSlotIsFree(pending, frames, log, i, p.(active := false));
      pending := pending[i := p];
      var resolving := EnsureResolution(frame.target, now);
      if resolving != Pending {
        pending := pending[i := p.(active := false)];
        assert pending == old(pending)[i := p.(active := false)];
        return resolving;
      }
      frames := frames + [frame];
      return Queued;
    }

    /** The address of a target, or a promise to ask for it. */
    method Resolve(target: u32, now: u64) returns (hardware: Option<Mac>, status: ArpStatus)
      requires Valid()
      modifies this`resolutions, this`messages, this`started, cache
      ensures Valid() && (hardware, cache.table) == LookedUp(old(cache.table), target, now)
      ensures hardware.Some? ==> status == Ok && unchanged(`resolutions, `messages)
      ensures hardware.None? ==> Ensured(old(resolutions), resolutions, old(messages), messages, target, now, status)
      ensures status == Pending ==> Resolving(resolutions, target)
    {
      hardware := cache.Lookup(target, now);
      if hardware.Some? {
        return hardware, Ok;
      }
      status := EnsureResolution(target, now);
    }

    // ---- Time ----

    /** What a tick may do to a resolution. */
    predicate Ticked(r: Resolution, r': Resolution, now: u64) {
      if !r.active then r' == r
      else if now >= r.deadline then r' == r.(active := false)
      else if r.attempts >= config.maximumAttempts || now < r.nextRetry then r' == r
      else
        || r' == r.(active := false)
        || (callbacks.arp && r.attempts < 255 && r' == Again(r, now))
    }

    /** It is time for the resolution to ask again. */
    predicate RetryDue(r: Resolution, now: u64) {
      r.active && now < r.deadline && r.attempts < config.maximumAttempts && now >= r.nextRetry
    }

    /** The requests that the resolutions send in their turns. */
    function Retries(rs: seq<Resolution>, now: u64): seq<Outgoing> {
      if rs == [] then []
      else
        var n := |rs| - 1;
        Retries(rs[..n], now) + if RetryDue(rs[n], now) && callbacks.arp then [RequestTo(rs[n].target)] else []
    }

    // ---- The life of a resolution ----

    /** A resolution from its beginning through a sequence of ticks. */
    ghost predicate Lives(target: u32, start: u64, ticks: seq<u64>, rs: seq<Resolution>) {
      && |rs| == |ticks| + 1 && rs[0] == NewResolution(target, start)
      && (forall i :: 0 <= i < |ticks| ==> Ticked(rs[i], rs[i + 1], ticks[i]))
    }

    /** When requests were sent: at the beginning, and at every tick that counted one more. */
    ghost function RequestTimes(start: u64, ticks: seq<u64>, rs: seq<Resolution>): (times: seq<u64>)
      requires |rs| == |ticks| + 1
      ensures times != []
      decreases |ticks|
    {
      if ticks == [] then [start]
      else
        var n := |ticks| - 1;
        RequestTimes(start, ticks[..n], rs[..n + 1]) + if rs[n + 1].attempts > rs[n].attempts then [ticks[n]] else []
    }

    /** No two requests are closer together than the retry interval. */
    ghost predicate Spaced(times: seq<u64>) {
      forall i :: 0 < i < |times| ==> times[i - 1] + config.retryInterval <= times[i] || times[i] == TWO_64 - 1
    }

    /** The resolution has counted its requests, at most the maximum, and will ask and end when its times say. */
    ghost predicate Lived(r: Resolution, target: u32, start: u64, times: seq<u64>)
      requires times != []
    {
      && r.target == target && r.attempts == |times| <= config.maximumAttempts && Spaced(times)
      && r.nextRetry == Min(times[|times| - 1] + config.retryInterval, TWO_64 - 1)
      && r.deadline == Min(start + config.pendingDeadline, TWO_64 - 1)
    }

    lemma LivesOn(r: Resolution, r': Resolution, now: u64, target: u32, start: u64, times: seq<u64>)
      requires times != [] && Lived(r, target, start, times) && r.active && Ticked(r, r', now) && r'.active
      ensures Lived(r', target, start, times + if r'.attempts > r.attempts then [now] else [])
    {
      assert times + [] == times;
    }

    /**
     While a resolution lives it has counted its requests, at most the maximum; they are at least the retry interval
     apart; and its deadline is the beginning plus the pending deadline.
     */
    lemma {:induction false} ResolutionLife(target: u32, start: u64, ticks: seq<u64>, rs: seq<Resolution>)
      requires Lives(target, start, ticks, rs) && config.maximumAttempts > 0 && rs[|ticks|].active
      ensures Lived(rs[|ticks|], target, start, RequestTimes(start, ticks, rs))
      decreases |ticks|
    {
      hide Ticked, Lived;
      if ticks == [] {
        LifeBegins(target, start);
      } else {
        var n := |ticks| - 1;
        LivesBefore(target, start, ticks, rs);
        assert Ticked(rs[n], rs[n + 1], ticks[n]);
        NoReturn(rs[n], rs[n + 1], ticks[n]);
        ResolutionLife(target, start, ticks[..n], rs[..n + 1]);
        LivesOn(rs[n], rs[n + 1], ticks[n], target, start, RequestTimes(start, ticks[..n], rs[..n + 1]));
      }
    }

    lemma LifeBegins(target: u32, start: u64)
      requires config.maximumAttempts > 0
      ensures Lived(NewResolution(target, start), target, start, [start])
    {
    }

    lemma NoReturn(r: Resolution, r': Resolution, now: u64)
      requires Ticked(r, r', now) && r'.active
      ensures r.active
    {
    }

    lemma LivesBefore(target: u32, start: u64, ticks: seq<u64>, rs: seq<Resolution>)
      requires Lives(target, start, ticks, rs) && ticks != []
      ensures Lives(target, start, ticks[..|ticks| - 1], rs[..|ticks|])
    {
      hide Ticked;
      var n := |ticks| - 1;
      forall i | 0 <= i < n ensures Ticked(rs[..n + 1][i], rs[..n + 1][i + 1], ticks[..n][i]) {
        assert Ticked(rs[i], rs[i + 1], ticks[i]);
      }
    }

    /** A resolution ends at a tick exactly when its deadline has come, or when a request that was due could not be sent. */
    lemma ResolutionEnds(r: Resolution, r': Resolution, now: u64)
      requires r.active && Ticked(r, r', now)
      ensures r.deadline <= now ==> !r'.active
      ensures !r'.active ==> r.deadline <= now || (r.nextRetry <= now && r.attempts < config.maximumAttempts)
      ensures r'.active && r'.attempts == r.attempts ==> r.attempts >= config.maximumAttempts || now < r.nextRetry
    {
    }

    /** A resolution stopped: its frames are given up. */
    method Stop(i: nat, reason: ArpStatus)
      requires FramesOk() && AsksOk() && Covered(pending, resolutions) && i < |resolutions| && resolutions[i].active
      modifies this`resolutions, this`pending, this`log, this`reports
      ensures FramesOk() && AsksOk() && Covered(pending, resolutions)
      ensures resolutions == old(resolutions)[i := old(resolutions)[i].(active := false)]
      ensures ReleasedTo(old(pending), old(log), pending, log, |old(pending)|, OfTarget(old(resolutions)[i].target))
      ensures forall k :: |old(log)| <= k < |log| ==> log[k].Failed? && log[k].reason == reason
    {
      var r := resolutions[i];
      FailSelected(OfTarget(r.target), reason);
      NoneSelected(old(pending), old(log), pending, log, OfTarget(r.target));
      StopIn(resolutions, started, messages, config.maximumAttempts, i, r.(active := false));
      StopKeepsCovered(pending, resolutions, i, r.(active := false));
      resolutions := resolutions[i := r.(active := false)];
    }

    /** Asks once more; gives up if the request cannot be sent. */
    method Retry(i: nat, now: u64)
      requires FramesOk() && AsksOk() && Covered(pending, resolutions)
      requires i < |resolutions| && resolutions[i].active && resolutions[i].attempts < config.maximumAttempts
      modifies this`resolutions, this`pending, this`log, this`reports, this`messages
      ensures FramesOk() && AsksOk() && Covered(pending, resolutions)
      ensures messages == if callbacks.arp then old(messages) + [RequestTo(old(resolutions)[i].target)] else old(messages)
      ensures |resolutions| == |old(resolutions)| && forall k :: 0 <= k < |resolutions| && k != i ==> resolutions[k] == old(resolutions)[k]
      ensures var r := old(resolutions)[i];
              if resolutions[i].active
              then callbacks.arp && resolutions[i] == Again(r, now)
                   && unchanged(`pending, `log)
              else resolutions[i] == r.(active := false)
                   && ReleasedTo(old(pending), old(log), pending, log, |old(pending)|, OfTarget(r.target))
                   && forall k :: |old(log)| <= k < |log| ==> log[k].Failed? && log[k].reason == SendFailed
    {
      hide Conserved, ResolutionsOk;
      var r := resolutions[i];
      var status := RequestAgain(i, now);
      if status == Ok {
        SetKeepsCovered(pending, resolutions, i, Again(r, now));
        resolutions := resolutions[i := Again(r, now)];
        return;
      }
      FailSelected(OfTarget(r.target), status);
      NoneSelected(old(pending), old(log), pending, log, OfTarget(r.target));
      StopKeepsCovered(pending, resolutions, i, r.(active := false));
      resolutions := resolutions[i := r.(active := false)];
    }

    function Again(r: Resolution, now: u64): Resolution
      requires r.attempts < 255
    {
      r.(attempts := r.attempts + 1, nextRetry := Later(now, config.retryInterval))
    }

    /** Sends the request; the counts are right whether the resolution goes on or stops. */
    method RequestAgain(i: nat, now: u64) returns (status: ArpStatus)
      requires AsksOk() && i < |resolutions| && resolutions[i].active && resolutions[i].attempts < config.maximumAttempts
      modifies this`messages
      ensures messages == if callbacks.arp then old(messages) + [RequestTo(resolutions[i].target)] else old(messages)
      ensures (status == Ok || status == SendFailed) && (!callbacks.arp ==> status == SendFailed)
      ensures status == Ok ==> ResolutionsOk(resolutions[i := Again(resolutions[i], now)], started, messages, config.maximumAttempts)
      ensures ResolutionsOk(resolutions[i := resolutions[i].(active := false)], started, messages, config.maximumAttempts)
    {
      var r := resolutions[i];
      StopIn(resolutions, started, messages, config.maximumAttempts, i, r.(active := false));
      AskAgain(resolutions, started, messages, config.maximumAttempts, RequestTo(r.target), i, Again(r, now));
      AskLast(resolutions, started, messages, config.maximumAttempts, RequestTo(r.target), i);
      status := SendRequest(r.target);
    }

    static predicate StoppedAt(rs: seq<Resolution>, rs': seq<Resolution>, k: int, target: u32) {
      ResolvesAt(rs, k, target) && k < |rs'| && !rs'[k].active
    }

    static ghost predicate StoppedFor(rs: seq<Resolution>, rs': seq<Resolution>, target: u32) {
      exists k :: StoppedAt(rs, rs', k, target)
    }

    /** A tick gives up a frame exactly when its time is over or the resolution of its target has stopped. */
    static ghost predicate FrameTicked(p: PendingFrame, p': PendingFrame, rs: seq<Resolution>, rs': seq<Resolution>, now: u64) {
      p' == if p.active && (now >= p.deadline || StoppedFor(rs, rs', p.frame.target)) then p.(active := false) else p
    }

    static lemma FrameTickedStep(p: PendingFrame, p1: PendingFrame, p2: PendingFrame, rs: seq<Resolution>, rs1: seq<Resolution>,
                                 i: nat, r: Resolution, now: u64)
      requires i < |rs1| == |rs| && rs1[i] == rs[i] && FrameTicked(p, p1, rs, rs1, now)
      requires p2 == if rs[i].active && !r.active then Released(p1, OfTarget(rs[i].target)) else p1
      ensures FrameTicked(p, p2, rs, rs1[i := r], now)
    {
      var target := p.frame.target;
      var rs2 := rs1[i := r];
      assert StoppedAt(rs, rs2, i, target) <==> rs[i].active && !r.active && rs[i].target == target;
      if k :| StoppedAt(rs, rs1, k, target) {
        assert StoppedAt(rs, rs2, k, target);
      }
      if k :| StoppedAt(rs, rs2, k, target) && k != i {
        assert StoppedAt(rs, rs1, k, target);
      }
    }

    /** One resolution's turn. */
    method TickOne(i: nat, now: u64)
      requires FramesOk() && AsksOk() && Covered(pending, resolutions) && i < |resolutions|
      modifies this`resolutions, this`pending, this`log, this`reports, this`messages
      ensures FramesOk() && AsksOk() && Covered(pending, resolutions)
      ensures |resolutions| == |old(resolutions)| && resolutions == old(resolutions)[i := resolutions[i]]
      ensures Ticked(old(resolutions)[i], resolutions[i], now)
      ensures messages == if RetryDue(old(resolutions)[i], now) && callbacks.arp
                          then old(messages) + [RequestTo(old(resolutions)[i].target)] else old(messages)
      ensures |pending| == |old(pending)| && old(log) <= log
      ensures forall j :: 0 <= j < |pending| ==>
                pending[j] == if old(resolutions)[i].active && !resolutions[i].active
                              then Released(old(pending)[j], OfTarget(old(resolutions)[i].target)) else old(pending)[j]
      ensures forall k :: |old(log)| <= k < |log| ==> log[k].Failed? && log[k].reason in {Unreachable, SendFailed}
    {
      var r := resolutions[i];
      if !r.active {
        return;
      }
      if now >= r.deadline {
        Stop(i, Unreachable);
        return;
      }
      if r.attempts >= config.maximumAttempts || now < r.nextRetry {
        return;
      }
      Retry(i, now);
    }

    /** What the timers have done to the frames and the first n resolutions. */
    ghost predicate TimersRan(before: seq<PendingFrame>, rs: seq<Resolution>, after: seq<PendingFrame>, rs': seq<Resolution>, n: nat, now: u64) {
      && |rs'| == |rs| && |after| == |before|
      && (forall k :: 0 <= k < n && k < |rs| ==> Ticked(rs[k], rs'[k], now))
      && (forall k :: n <= k < |rs| ==> rs'[k] == rs[k])
      && (forall j :: 0 <= j < |before| ==> FrameTicked(before[j], after[j], rs, rs', now))
    }

    static ghost predicate OnlyFailures(log: seq<Output>, log': seq<Output>) {
      log <= log' && forall k :: |log| <= k < |log'| ==> log'[k].Failed? && log'[k].reason in {Unreachable, SendFailed}
    }

    static lemma MoreFailures(log: seq<Output>, log1: seq<Output>, log2: seq<Output>)
      requires OnlyFailures(log, log1) && OnlyFailures(log1, log2)
      ensures OnlyFailures(log, log2)
    {
    }

    /** One resolution's turn, as part of all. */
    method Turn(i: nat, now: u64, ghost before: seq<PendingFrame>, ghost rs: seq<Resolution>)
      requires FramesOk() && AsksOk() && Covered(pending, resolutions) && i < |resolutions|
      requires TimersRan(before, rs, pending, resolutions, i, now)
      modifies this`resolutions, this`pending, this`log, this`reports, this`messages
      ensures FramesOk() && AsksOk() && Covered(pending, resolutions)
      ensures TimersRan(before, rs, pending, resolutions, i + 1, now) && |resolutions| == |rs| && OnlyFailures(old(log), log)
      ensures messages == if RetryDue(rs[i], now) && callbacks.arp then old(messages) + [RequestTo(rs[i].target)] else old(messages)
    {
      hide Conserved, ResolutionsOk, Covered, Ticked, RetryDue, FrameTicked;
      ghost var rs1 := resolutions;
      TickOne(i, now);
      forall j | 0 <= j < |pending| ensures FrameTicked(before[j], pending[j], rs, resolutions, now) {
        FrameTickedStep(before[j], old(pending)[j], pending[j], rs, rs1, i, resolutions[i], now);
      }
    }

    /** Gives up what has waited too long. */
    method FailOverdue(now: u64)
      requires FramesOk() && Covered(pending, resolutions)
      modifies this`pending, this`log, this`reports
      ensures FramesOk() && Covered(pending, resolutions) && OnlyFailures(old(log), log)
      ensures TimersRan(old(pending), resolutions, pending, resolutions, 0, now)
    {
      hide Conserved;
      FailSelected(Overdue(now), Unreachable);
      assert forall k, target :: !StoppedAt(resolutions, resolutions, k, target);
    }

    /** Gives up what has waited too long and asks again where it is time to. */
    method RunTimers(now: u64)
      requires FramesOk() && AsksOk() && Covered(pending, resolutions)
      modifies this`resolutions, this`pending, this`log, this`reports, this`messages
      ensures FramesOk() && AsksOk() && Covered(pending, resolutions) && OnlyFailures(old(log), log)
      ensures TimersRan(old(pending), old(resolutions), pending, resolutions, |resolutions|, now)
      ensures messages == old(messages) + Retries(old(resolutions), now)
    {
      hide Conserved, ResolutionsOk, Covered, RetryDue, TimersRan, OnlyFailures;
      FailOverdue(now);
      for i := 0 to |resolutions|
        invariant |resolutions| == |old(resolutions)|
        invariant FramesOk() && AsksOk() && Covered(pending, resolutions) && OnlyFailures(old(log), log)
        invariant TimersRan(old(pending), old(resolutions), pending, resolutions, i, now)
        invariant messages == old(messages) + Retries(old(resolutions)[..i], now)
      {
        assert old(resolutions)[..i + 1][..i] == old(resolutions)[..i];
        ghost var log1 := log;
        Turn(i, now, old(pending), old(resolutions));
        MoreFailures(old(log), log1, log);
      }
      assert old(resolutions)[..|resolutions|] == old(resolutions);
    }

    /** The address is about to expire and has not been asked for. */
    predicate RefreshDue(e: CacheEntry, now: u64) {
      e.valid && !e.refreshRequested && now < e.expiresAt && e.expiresAt - now <= config.refreshMargin
    }

    /** One entry's turn: what it does to the entries, the resolutions and the messages. */
    ghost predicate RefreshStep(i: nat, before: Snapshot, after: Snapshot, now: u64)
      requires i < |before.entries|
    {
      var e := before.entries[i];
      if !RefreshDue(e, now) then after == before
      else
        var asked := after.entries != before.entries;
        && after.entries == (if asked then before.entries[i := e.(refreshRequested := true)] else before.entries)
        && exists status :: asked == (status == Pending)
             && Ensured(before.resolutions, after.resolutions, before.messages, after.messages, e.address, now, status)
    }

    ghost function Now(): Snapshot
      reads this, cache
    {
      Snapshot(cache.entries, resolutions, messages)
    }

    /** Asks again for an address that is about to expire, unless that has been done. */
    method RefreshOne(i: nat, now: u64)
      requires cache.Valid() && AsksOk() && Covered(pending, resolutions) && i < |cache.entries|
      modifies this`resolutions, this`messages, this`started, cache
      ensures cache.Valid() && AsksOk() && Covered(pending, resolutions)
      ensures |cache.entries| == |old(cache.entries)| && SameBindings(old(cache.table), cache.table)
      ensures RefreshStep(i, old(Now()), Now(), now)
      ensures RefreshDue(old(cache.entries)[i], now) ==>
                (cache.entries[i].refreshRequested <==> Resolving(resolutions, old(cache.entries)[i].address))
    {
      hide Indexed, RequestsFor, FirstFree;
      var e := cache.entries[i];
      if !e.valid || e.refreshRequested || now >= e.expiresAt || e.expiresAt - now > config.refreshMargin {
        return;
      }
      var status := EnsureResolution(e.address, now);
      if status == Pending {
        assert View(cache.entries)[i] == EntryOf(e);
        cache.MarkRefresh(i);
        assert cache.entries[i] != e;
      }
    }

    /** One step after the other. */
    ghost predicate RefreshTrace(trace: seq<Snapshot>, n: nat, now: u64) {
      && |trace| == n + 1
      && (forall i :: 0 <= i < n ==> i < |trace[i].entries| && RefreshStep(i, trace[i], trace[i + 1], now))
    }

    /** Asks again for addresses that are about to expire, once each, in the order of the entries. */
    method Refresh(now: u64) returns (ghost trace: seq<Snapshot>)
      requires cache.Valid() && AsksOk() && Covered(pending, resolutions)
      modifies this`resolutions, this`messages, this`started, cache
      ensures cache.Valid() && AsksOk() && Covered(pending, resolutions) && SameBindings(old(cache.table), cache.table)
      ensures RefreshTrace(trace, |cache.entries|, now) && trace[0] == old(Now()) && trace[|cache.entries|] == Now()
    {
      hide Indexed, ResolutionsOk, Covered, Ensured;
      trace := [Now()];
      for i := 0 to |cache.entries|
        invariant |cache.entries| == |old(cache.entries)|
        invariant cache.Valid() && AsksOk() && Covered(pending, resolutions) && SameBindings(old(cache.table), cache.table)
        invariant RefreshTrace(trace, i, now) && trace[0] == old(Now()) && trace[i] == Now()
      {
        RefreshOne(i, now);
        trace := trace + [Now()];
      }
    }

    /** The same addresses with the same hardware until the same time. */
    static ghost predicate SameBindings(t: map<u32, Binding>, t': map<u32, Binding>) {
      t.Keys == t'.Keys && forall a :: a in t ==> t'[a].hardware == t[a].hardware && t'[a].expiresAt == t[a].expiresAt
    }

    /** Time passes; `trace` goes from the state after the timers to the one after the refreshes. */
    method Tick(now: u64) returns (ghost trace: seq<Snapshot>)
      requires Valid()
      modifies this`resolutions, this`pending, this`log, this`reports, this`messages, this`started, cache
      ensures Valid() && OnlyFailures(old(log), log) && SameBindings(Live(old(cache.table), now), cache.table)
      ensures RefreshTrace(trace, |cache.entries|, now) && trace[|cache.entries|] == Now()
      ensures TimersRan(old(pending), old(resolutions), pending, trace[0].resolutions, |old(resolutions)|, now)
      ensures trace[0].messages == old(messages) + Retries(old(resolutions), now)
    {
      cache.Expire(now);
      RunTimers(now);
      trace := Refresh(now);
    }
  }
}
