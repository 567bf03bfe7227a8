/** Address resolutions in progress. */
module ArpResolutions {
  import opened Numbers
  import opened ArpModel

  predicate ResolvesAt(rs: seq<Resolution>, i: int, target: u32) {
    0 <= i < |rs| && rs[i].active && rs[i].target == target
  }

  ghost predicate Resolving(rs: seq<Resolution>, target: u32) {
    exists i :: ResolvesAt(rs, i, target)
  }

  ghost predicate UniqueTargets(rs: seq<Resolution>) {
    forall i, j :: 0 <= i < j < |rs| && rs[i].active && rs[j].active ==> rs[i].target != rs[j].target
  }

  /** Every frame that waits has a resolution of its target in progress. */
  ghost predicate Covered(pending: seq<PendingFrame>, rs: seq<Resolution>) {
    forall i :: 0 <= i < |pending| && pending[i].active ==> Resolving(rs, pending[i].frame.target)
  }

  predicate AsksFor(m: Outgoing, target: u32) {
    m.message.operation.Request? && m.message.targetProtocol == target
  }

  function RequestsFor(messages: seq<Outgoing>, target: u32): nat {
    if messages == [] then 0
    else
      var n := |messages| - 1;
      RequestsFor(messages[..n], target) + if AsksFor(messages[n], target) then 1 else 0
  }

  lemma OneMoreMessage(messages: seq<Outgoing>, from: nat, m: Outgoing, target: u32)
    requires from <= |messages|
    ensures RequestsFor((messages + [m])[from..], target) == RequestsFor(messages[from..], target) + if AsksFor(m, target) then 1 else 0
  {
    assert (messages + [m])[from..] == messages[from..] + [m];
    assert (messages[from..] + [m])[..|messages| - from] == messages[from..];
  }

  /** A resolution has sent as many requests as it has counted, and no more than it may. */
  ghost predicate CountsRight(r: Resolution, from: nat, messages: seq<Outgoing>, maximum: u8) {
    r.active ==> from <= |messages| && 1 <= r.attempts <= maximum && r.attempts == RequestsFor(messages[from..], r.target)
  }

  /** `started` is history: how many messages had been sent when each resolution began. */
  ghost predicate ResolutionsOk(rs: seq<Resolution>, started: seq<nat>, messages: seq<Outgoing>, maximum: u8) {
    && |started| == |rs|
    && UniqueTargets(rs)
    && (forall i :: 0 <= i < |rs| ==> CountsRight(rs[i], started[i], messages, maximum))
  }

  /** A message that no resolution asks for. */
  lemma OtherMessage(rs: seq<Resolution>, started: seq<nat>, messages: seq<Outgoing>, maximum: u8, m: Outgoing)
    requires ResolutionsOk(rs, started, messages, maximum)
    requires forall i :: 0 <= i < |rs| && rs[i].active ==> !AsksFor(m, rs[i].target)
    ensures ResolutionsOk(rs, started, messages + [m], maximum)
  {
    forall i | 0 <= i < |rs| ensures CountsRight(rs[i], started[i], messages + [m], maximum) {
      if rs[i].active {
        OneMoreMessage(messages, started[i], m, rs[i].target);
      }
    }
  }

  /** The resolution in slot i asks again. */
  lemma AskAgain(rs: seq<Resolution>, started: seq<nat>, messages: seq<Outgoing>, maximum: u8, m: Outgoing, i: nat, r: Resolution)
    requires ResolutionsOk(rs, started, messages, maximum) && i < |rs| && rs[i].active && rs[i].attempts < maximum
    requires AsksFor(m, rs[i].target) && r.target == rs[i].target && r.attempts == rs[i].attempts + 1
    ensures ResolutionsOk(rs[i := r], started, messages + [m], maximum)
  {
    forall j | 0 <= j < |rs| ensures CountsRight(rs[i := r][j], started[j], messages + [m], maximum) {
      if rs[j].active {
        OneMoreMessage(messages, started[j], m, rs[j].target);
      }
    }
  }

  /** The resolution in slot i asks for the last time. */
  lemma AskLast(rs: seq<Resolution>, started: seq<nat>, messages: seq<Outgoing>, maximum: u8, m: Outgoing, i: nat)
    requires ResolutionsOk(rs, started, messages, maximum) && i < |rs| && rs[i].active && AsksFor(m, rs[i].target)
    ensures ResolutionsOk(rs[i := rs[i].(active := false)], started, messages + [m], maximum)
  {
    forall j | 0 <= j < |rs| && j != i && rs[j].active ensures CountsRight(rs[j], started[j], messages + [m], maximum) {
      OneMoreMessage(messages, started[j], m, rs[j].target);
    }
  }

  /** A resolution begins in a free slot. */
  lemma BeginIn(rs: seq<Resolution>, started: seq<nat>, messages: seq<Outgoing>, maximum: u8, m: Outgoing, i: nat, r: Resolution)
    requires ResolutionsOk(rs, started, messages, maximum) && i < |rs| && !rs[i].active && !Resolving(rs, r.target)
    requires AsksFor(m, r.target) && r.active && r.attempts == 1 <= maximum
    ensures ResolutionsOk(rs[i := r], started[i := |messages|], messages + [m], maximum)
  {
    forall j | 0 <= j < |rs| && rs[j].active ensures rs[j].target != r.target {
      assert rs[j].target == r.target ==> ResolvesAt(rs, j, r.target);
    }
    var rs', started' := rs[i := r], started[i := |messages|];
    forall j | 0 <= j < |rs'| ensures CountsRight(rs'[j], started'[j], messages + [m], maximum) {
      if j == i {
        OneMoreMessage(messages, |messages|, m, r.target);
      } else if rs[j].active {
        OneMoreMessage(messages, started[j], m, rs[j].target);
      }
    }
  }

  lemma StopIn(rs: seq<Resolution>, started: seq<nat>, messages: seq<Outgoing>, maximum: u8, i: nat, r: Resolution)
    requires ResolutionsOk(rs, started, messages, maximum) && i < |rs| && !r.active
    ensures ResolutionsOk(rs[i := r], started, messages, maximum)
  {
  }

  /** Stopping the resolution of a target that no frame waits for. */
  lemma StopKeepsCovered(pending: seq<PendingFrame>, rs: seq<Resolution>, i: nat, r: Resolution)
    requires Covered(pending, rs) && i < |rs|
    requires rs[i].active ==> forall j :: 0 <= j < |pending| ==> !Selected(pending[j], OfTarget(rs[i].target))
    ensures Covered(pending, rs[i := r])
  {
    forall j | 0 <= j < |pending| && pending[j].active ensures Resolving(rs[i := r], pending[j].frame.target) {
      var k :| ResolvesAt(rs, k, pending[j].frame.target);
      assert k != i;
      assert ResolvesAt(rs[i := r], k, pending[j].frame.target);
    }
  }

  lemma SetKeepsCovered(pending: seq<PendingFrame>, rs: seq<Resolution>, i: nat, r: Resolution)
    requires Covered(pending, rs) && i < |rs| && (rs[i].active ==> r.active && r.target == rs[i].target)
    ensures Covered(pending, rs[i := r])
  {
    forall j | 0 <= j < |pending| && pending[j].active ensures Resolving(rs[i := r], pending[j].frame.target) {
      var k :| ResolvesAt(rs, k, pending[j].frame.target);
      assert ResolvesAt(rs[i := r], k, pending[j].frame.target);
    }
  }

  predicate InProgress(r: Resolution) {
    r.active
  }
}
