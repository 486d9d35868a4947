/**
 The rekey watchdog that runs on both sides: it polls a file with the time of the latest rekey
 trigger and, once the handshake timeout has passed, judges that trigger by the time of the latest
 PTK install. A poll is one instant here; polls that find the file unreadable are not listed.
 */
module Watchdog {
  import opened Common

  /** What one poll sees: the file, the clock, and the time of the latest install. */
  datatype Poll = Poll(file: Option<real>, now: real, installed: real)

  datatype Verdict = Verdict(trigger: real, disconnect: bool)

  predicate Judges(last: real, timeout: real, p: Poll) {
    p.file.Some? && p.file.value > last && p.now - p.file.value >= timeout
  }

  function Judge(last: real, timeout: real, p: Poll): Option<Verdict> {
    if Judges(last, timeout, p) then Some(Verdict(p.file.value, p.installed < p.file.value)) else None
  }

  /** The last handled trigger after the polls. */
  function LastHandled(timeout: real, polls: seq<Poll>): real {
    if polls == [] then 0.0
    else
      var last := LastHandled(timeout, polls[..|polls| - 1]);
      var p := polls[|polls| - 1];
      if Judges(last, timeout, p) then p.file.value else last
  }

  function VerdictAt(timeout: real, polls: seq<Poll>, j: nat): Option<Verdict>
    requires j < |polls|
  {
    Judge(LastHandled(timeout, polls[..j]), timeout, polls[j])
  }

  class Watcher {
    const timeout: real
    var lastHandled: real

    constructor (timeout: real)
      ensures this.timeout == timeout && lastHandled == 0.0
    {
      this.timeout := timeout;
      lastHandled := 0.0;
    }

    /** One turn of the watchdog loop. */
    method Turn(p: Poll) returns (verdict: Option<Verdict>)
      modifies this
      ensures verdict == Judge(old(lastHandled), timeout, p)
      ensures lastHandled == if verdict.Some? then verdict.value.trigger else old(lastHandled)
    {
      verdict := None;
      if p.file.None? { return; }
      var rekeyTime := p.file.value;
      if rekeyTime <= lastHandled { return; }
      var elapsed := p.now - rekeyTime;
      if elapsed < timeout { return; }
      lastHandled := rekeyTime;
      if p.installed >= rekeyTime {
        verdict := Some(Verdict(rekeyTime, false));
      } else {
        verdict := Some(Verdict(rekeyTime, true));
      }
    }

    /** The loop, for as many turns as there are polls. */
    method Watch(polls: seq<Poll>) returns (verdicts: seq<Option<Verdict>>)
      requires lastHandled == 0.0
      modifies this
      ensures |verdicts| == |polls|
      ensures forall j :: 0 <= j < |polls| ==> verdicts[j] == VerdictAt(timeout, polls, j)
    {
      verdicts := [];
      for j := 0 to |polls|
        invariant |verdicts| == j
        invariant lastHandled == LastHandled(timeout, polls[..j])
        invariant forall k :: 0 <= k < j ==> verdicts[k] == VerdictAt(timeout, polls, k)
      {
        assert polls[..j + 1][..j] == polls[..j];
        var v := Turn(polls[j]);
        verdicts := verdicts + [v];
      }
      assert polls[..|polls|] == polls;
    }
  }

  // ---------- the surroundings ----------

  /** A trigger carries the time it was stamped with and becomes readable a little later. */
  datatype Trigger = Trigger(stamp: real, visible: real)

  ghost predicate Ordered(triggers: seq<Trigger>) {
    && (forall i :: 0 <= i < |triggers| ==> 0.0 < triggers[i].stamp <= triggers[i].visible)
    && (forall i, j :: 0 <= i < j < |triggers| ==>
          triggers[i].stamp < triggers[j].stamp && triggers[i].visible <= triggers[j].visible)
  }

  /** `i` is the trigger that the file holds at time `t`. */
  ghost predicate InFile(triggers: seq<Trigger>, t: real, i: nat) {
    && i < |triggers| && triggers[i].visible <= t
    && forall j :: i < j < |triggers| ==> t < triggers[j].visible
  }

  /** The polls see the triggers, and the latest of the install times (the first is the start-up time). */
  ghost predicate Observes(polls: seq<Poll>, triggers: seq<Trigger>, installs: seq<real>) {
    && (forall j, k :: 0 <= j < k < |polls| ==> polls[j].now <= polls[k].now)
    && (forall j :: 0 <= j < |polls| ==>
          match polls[j].file
          case Some(stamp) => exists i: nat :: InFile(triggers, polls[j].now, i) && stamp == triggers[i].stamp
          case None => forall i :: 0 <= i < |triggers| ==> polls[j].now < triggers[i].visible)
    && (forall j :: 0 <= j < |polls| ==>
          && polls[j].installed in installs && polls[j].installed <= polls[j].now
          && forall m :: 0 <= m < |installs| && installs[m] <= polls[j].now ==> installs[m] <= polls[j].installed)
  }

  /** Poll `j` finds trigger `i` in the file with its timeout passed. */
  ghost predicate Due(timeout: real, polls: seq<Poll>, triggers: seq<Trigger>, i: nat, j: nat) {
    && i < |triggers| && j < |polls|
    && polls[j].file == Some(triggers[i].stamp) && polls[j].now - triggers[i].stamp >= timeout
  }

  // ---------- verdicts ----------

  lemma LastHandledStep(timeout: real, polls: seq<Poll>, j: nat)
    requires j < |polls|
    ensures LastHandled(timeout, polls[..j + 1]) ==
              if Judges(LastHandled(timeout, polls[..j]), timeout, polls[j]) then polls[j].file.value
              else LastHandled(timeout, polls[..j])
  {
    assert polls[..j + 1][..j] == polls[..j];
  }

  /** The last handled trigger was due at an earlier poll, and none due since is newer. */
  lemma {:induction false} LastHandledIsDue(timeout: real, polls: seq<Poll>, j: nat)
    requires j <= |polls|
    ensures var last := LastHandled(timeout, polls[..j]);
            && (last == 0.0 || exists k :: 0 <= k < j && polls[k].file == Some(last) && polls[k].now - last >= timeout)
            && (forall k :: 0 <= k < j && polls[k].file.Some? && polls[k].now - polls[k].file.value >= timeout ==>
                  polls[k].file.value <= last)
  {
    if j > 0 {
      LastHandledIsDue(timeout, polls, j - 1);
      LastHandledStep(timeout, polls, j - 1);
    }
  }

  /** Later polls see later triggers. */
  lemma FileGrows(polls: seq<Poll>, triggers: seq<Trigger>, installs: seq<real>, j: nat, k: nat)
    requires Ordered(triggers) && Observes(polls, triggers, installs)
    requires j <= k < |polls| && polls[j].file.Some? && polls[k].file.Some?
    ensures polls[j].file.value <= polls[k].file.value
  {
    var a: nat :| InFile(triggers, polls[j].now, a) && polls[j].file.value == triggers[a].stamp;
    var b: nat :| InFile(triggers, polls[k].now, b) && polls[k].file.value == triggers[b].stamp;
    assert polls[j].now <= polls[k].now;
  }

  /**
   Each trigger gets its verdict at the first poll that finds it due, and at no other. So it gets
   exactly one verdict if some poll falls between its timeout and the next trigger, and else none.
   */
  lemma VerdictAtFirstDue(timeout: real, polls: seq<Poll>, triggers: seq<Trigger>, installs: seq<real>, i: nat, j: nat)
    requires Ordered(triggers) && Observes(polls, triggers, installs)
    requires i < |triggers| && j < |polls|
    ensures var v := VerdictAt(timeout, polls, j);
            (v.Some? && v.value.trigger == triggers[i].stamp) <==>
            (Due(timeout, polls, triggers, i, j) && forall k :: 0 <= k < j ==> !Due(timeout, polls, triggers, i, k))
  {
    LastHandledIsDue(timeout, polls, j);
    var last := LastHandled(timeout, polls[..j]);
    if Due(timeout, polls, triggers, i, j) && last >= triggers[i].stamp {
      var k :| 0 <= k < j && polls[k].file == Some(last) && polls[k].now - last >= timeout;
      FileGrows(polls, triggers, installs, k, j);
      assert Due(timeout, polls, triggers, i, k);
    }
  }

  /** The verdict is to disconnect exactly when no install was stamped since the trigger. */
  lemma DisconnectIffNoInstall(timeout: real, polls: seq<Poll>, triggers: seq<Trigger>, installs: seq<real>, j: nat)
    requires Observes(polls, triggers, installs) && j < |polls| && VerdictAt(timeout, polls, j).Some?
    ensures var v := VerdictAt(timeout, polls, j).value;
            v.disconnect <==> forall m :: 0 <= m < |installs| ==> !(v.trigger <= installs[m] <= polls[j].now)
  {
    var m :| 0 <= m < |installs| && installs[m] == polls[j].installed;
  }

  lemma FirstPollSince(polls: seq<Poll>, t: real, n: nat) returns (j: nat)
    requires n < |polls| && polls[n].now >= t
    ensures j <= n && polls[j].now >= t && forall k :: 0 <= k < j ==> polls[k].now < t
  {
    j := 0;
    while polls[j].now < t
      invariant j <= n && forall k :: 0 <= k < j ==> polls[k].now < t
      decreases n - j
    {
      j := j + 1;
    }
  }

  /**
   Triggers that become readable within the timeout and are at least timeout + gap apart, under
   polls at most `gap` apart that start before and end after the deadline, all get a timely verdict.
   */
  lemma TimelyVerdict(timeout: real, gap: real, polls: seq<Poll>, triggers: seq<Trigger>, installs: seq<real>, i: nat)
    returns (j: nat)
    requires Ordered(triggers) && Observes(polls, triggers, installs) && i < |triggers|
    requires triggers[i].visible <= triggers[i].stamp + timeout
    requires i + 1 < |triggers| ==> triggers[i + 1].stamp >= triggers[i].stamp + timeout + gap
    requires forall k :: 0 < k < |polls| ==> polls[k].now - polls[k - 1].now <= gap
    requires |polls| > 0 && polls[0].now < triggers[i].stamp + timeout + gap
    requires polls[|polls| - 1].now >= triggers[i].stamp + timeout
    ensures j < |polls| && polls[j].now < triggers[i].stamp + timeout + gap
    ensures var v := VerdictAt(timeout, polls, j); v.Some? && v.value.trigger == triggers[i].stamp
    ensures forall k :: 0 <= k < |polls| && k != j ==>
              (var v := VerdictAt(timeout, polls, k); !(v.Some? && v.value.trigger == triggers[i].stamp))
  {
    var deadline := triggers[i].stamp + timeout;
    j := FirstPollSince(polls, deadline, |polls| - 1);
    assert j > 0 ==> polls[j].now - polls[j - 1].now <= gap;
    assert InFile(triggers, polls[j].now, i) by {
      forall m | i < m < |triggers| ensures polls[j].now < triggers[m].visible {
        assert triggers[i + 1].visible <= triggers[m].visible;
      }
    }
    assert polls[j].file == Some(triggers[i].stamp) by {
      assert polls[j].file.Some?;
      var a: nat :| InFile(triggers, polls[j].now, a) && polls[j].file.value == triggers[a].stamp;
      assert a == i;
    }
    VerdictAtFirstDue(timeout, polls, triggers, installs, i, j);
    forall k | 0 <= k < |polls| && k != j
      ensures var v := VerdictAt(timeout, polls, k); !(v.Some? && v.value.trigger == triggers[i].stamp)
    {
      VerdictAtFirstDue(timeout, polls, triggers, installs, i, k);
      assert Due(timeout, polls, triggers, i, j);
      assert k < j ==> !Due(timeout, polls, triggers, i, k);
    }
  }
}
