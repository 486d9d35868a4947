/** What the commit protocol guarantees over every run, and the runs that show where it stops. */
module PtkCommitTheorems {
  import opened Common
  import opened PtkCommit
  import opened PtkCommitSafety

  ghost predicate Reached(run: seq<Action>, sid: nat) {
    Run(run).Some? && sid < |Run(run).value.sessions|
  }

  ghost function SessionOf(run: seq<Action>, sid: nat): Session
    requires Reached(run, sid)
  {
    Run(run).value.sessions[sid]
  }

  ghost function LogOf(run: seq<Action>): seq<Event>
    requires Run(run).Some?
  {
    Run(run).value.log
  }

  // ---------- atomicity ----------

  /**
   Once both sides have finished a session, the WiFi keys are left split with no disconnect exactly when
   the AP's own sender came back, whatever it reported, and one of the two senders delivered and the other
   did not. Neither side can see that: an exit status of 0 is all the STA looks at, and the AP looks at nothing.
   */
  lemma NoSilentSplit(run: seq<Action>, sid: nat)
    requires Reached(run, sid) && SessionOf(run, sid).Finished()
    ensures var x := SessionOf(run, sid);
            x.Split() && x.Silent() <==>
            && x.staForward.Some? && x.apForward.Some? && !x.apForward.value.report.Exception?
            && x.staForward.value.delivered != x.apForward.value.delivered
  {
    RunKeepsInv(run);
    assert SessionInv(SessionOf(run, sid));
  }

  /** In this session a sender that reported success had delivered the key. */
  predicate SuccessMeansDelivered(x: Session) {
    && (x.staForward.Some? && x.staForward.value.report.Success? ==> x.staForward.value.delivered)
    && (x.apForward.Some? && x.apForward.value.report.Success? ==> x.apForward.value.delivered)
  }

  /** If success means delivered, only a failure that the AP ignores can leave a silent split. */
  lemma NoSilentSplitIfSuccessDelivers(run: seq<Action>, sid: nat)
    requires Reached(run, sid) && SessionOf(run, sid).Finished() && SuccessMeansDelivered(SessionOf(run, sid))
    ensures var x := SessionOf(run, sid);
            x.Split() && x.Silent() <==> x.apForward == Some(Attempt(x.key, Failure, false))
  {
    RunKeepsInv(run);
    assert SessionInv(SessionOf(run, sid));
  }

  /** After such a split both sides have recorded a fresh install, so neither watchdog will object. */
  lemma SilentSplitIsStamped(run: seq<Action>, sid: nat)
    requires Reached(run, sid) && SessionOf(run, sid).Finished()
    requires SessionOf(run, sid).Split() && SessionOf(run, sid).Silent()
    ensures SessionOf(run, sid).apStamped && SessionOf(run, sid).staStamped
  {
    RunKeepsInv(run);
    assert SessionInv(SessionOf(run, sid));
  }

  /** Every way out other than success drops the WiFi link; the STA owes that only after READY. */
  lemma FailuresDisconnect(run: seq<Action>, sid: nat)
    requires Reached(run, sid)
    ensures var x := SessionOf(run, sid);
            && (x.ap.ApDone? ==> (!x.apDisconnected <==> x.apStamped))
            && (x.ap.ApDone? && x.apStamped ==> x.OkReceived() && x.staForward.Some?)
            && (x.sta.StaDone? && x.ReadySent() ==> (!x.staDisconnected <==> x.OkSent()))
            && (x.sta.StaDone? && x.staForward.Some? && !x.OkSent() ==> x.staDisconnected)
            && (x.OkSent() ==> x.staForward.Some? && x.staForward.value.report.Success?)
  {
    RunKeepsInv(run);
    assert SessionInv(SessionOf(run, sid));
  }

  /**
   The disconnect that covers a split may come too early. It follows the STA's attempt unless the
   AP had already given up when the STA tried and the STA still managed to send its OK.
   */
  lemma WhenTheDisconnectComes(run: seq<Action>, sid: nat)
    requires Reached(run, sid) && SessionOf(run, sid).Finished() && SessionOf(run, sid).Split()
    ensures var x := SessionOf(run, sid);
            !DisconnectSinceForward(LogOf(run), sid) <==> x.Silent() || (x.late && x.OkSent())
  {
    RunKeepsInv(run);
    var x := SessionOf(run, sid);
    assert SessionInv(x);
    assert DisconnectOrder(LogOf(run), x, sid);
  }

  // ---------- key agreement ----------

  lemma {:induction false} LastForwardIsLast(log: seq<Event>) returns (j: nat)
    requires LastForward(log).Some?
    ensures j < |log| && log[j] == StaForwarded(LastForward(log).value.0, LastForward(log).value.1)
    ensures forall m :: j < m < |log| ==> !log[m].StaForwarded?
    ensures StaKey(log) == if log[j].attempt.delivered then Some(log[j].attempt.key) else StaKey(log[..j])
  {
    var n := |log| - 1;
    if log[n].StaForwarded? {
      j := n;
    } else {
      j := LastForwardIsLast(log[..n]);
      assert log[..n][..j] == log[..j];
    }
  }

  /**
   Whenever the AP tries to hand over `k`, the STA has tried before and reported success, in the same session
   and with no other attempt of the STA in between. The STA's key is `k` exactly when the STA main loop stored
   nothing since the SYNC for `k`, or stored `k` last. Its WiFi daemon has got that key last if the attempt
   delivered, and else still has what it got before.
   */
  lemma ApForwardFollowsSta(run: seq<Action>, i: nat) returns (j: nat)
    requires Run(run).Some? && i < |LogOf(run)| && LogOf(run)[i].ApForwarded?
    ensures var log := LogOf(run);
            && j < i && log[j].StaForwarded? && log[j].sid == log[i].sid && log[j].attempt.report.Success?
            && (forall m :: j < m < i ==> !log[m].StaForwarded?)
            && LastSync(log[..j]) == Some((log[i].sid, log[i].attempt.key))
            && (log[j].attempt.key == log[i].attempt.key <==>
                  Overwrite(log[..j]).None? || Overwrite(log[..j]) == Some(log[i].attempt.key))
            && StaKey(log[..i]) == if log[j].attempt.delivered then Some(log[j].attempt.key) else StaKey(log[..j])
  {
    RunKeepsInv(run);
    var log := LogOf(run);
    j := LastForwardIsLast(log[..i]);
    assert log[j] == log[..i][j] && log[..i][..j] == log[..j];
    forall m | j < m < i ensures !log[m].StaForwarded? { assert log[m] == log[..i][m]; }
    assert SessionInv(SessionOf(run, log[i].sid));
  }

  /** Any PTK that the STA main loop stores while a session for `k` is open equals `k`. */
  ghost predicate StoresMatch(log: seq<Event>) {
    forall i :: 0 <= i < |log| && log[i].Stored? && OpenKey(log[..i]).Some? ==>
      OpenKey(log[..i]) == Some(log[i].key)
  }

  lemma {:induction false} MatchingStoresKeepKey(log: seq<Event>)
    requires StoresMatch(log) && OpenKey(log).Some?
    ensures Overwrite(log).Some? ==> Overwrite(log) == OpenKey(log)
  {
    var before := log[..|log| - 1];
    var e := log[|log| - 1];
    if !e.Synced? {
      assert StoresMatch(before) by {
        forall i | 0 <= i < |before| ensures before[..i] == log[..i] {}
      }
      MatchingStoresKeepKey(before);
    }
  }

  /**
   Key agreement across any number of earlier failed, timed-out or abandoned sessions: if stores match the
   open session, the STA's latest attempt before an attempt of the AP is of the same key, in the same
   session. So the WiFi daemon of the STA has that key exactly when the attempt delivered it, or the daemon
   had it already.
   */
  lemma KeyAgreement(run: seq<Action>, i: nat) returns (j: nat)
    requires Run(run).Some? && i < |LogOf(run)| && LogOf(run)[i].ApForwarded?
    requires StoresMatch(LogOf(run))
    ensures var log := LogOf(run);
            && j < i && log[j].StaForwarded? && LastForward(log[..i]) == Some((log[i].sid, log[j].attempt))
            && log[j].attempt.key == log[i].attempt.key
            && (StaKey(log[..i]) == Some(log[i].attempt.key) <==>
                  log[j].attempt.delivered || StaKey(log[..j]) == Some(log[i].attempt.key))
  {
    RunKeepsInv(run);
    var log := LogOf(run);
    j := ApForwardFollowsSta(run, i);
    assert StoresMatch(log[..j]) by {
      forall m | 0 <= m < j ensures log[..j][..m] == log[..m] {}
    }
    assert OpenKey(log[..j]) == Some(log[i].attempt.key);
    MatchingStoresKeepKey(log[..j]);
    assert SessionOf(run, log[i].sid).staForward == Some(log[j].attempt);
  }

  /** If success means delivered, the STA has exactly the key that the AP is about to hand over. */
  lemma KeyAgreementIfSuccessDelivers(run: seq<Action>, i: nat)
    requires Run(run).Some? && i < |LogOf(run)| && LogOf(run)[i].ApForwarded?
    requires StoresMatch(LogOf(run))
    requires forall sid: nat :: Reached(run, sid) ==> SuccessMeansDelivered(SessionOf(run, sid))
    ensures StaKey(LogOf(run)[..i]) == Some(LogOf(run)[i].attempt.key)
  {
    RunKeepsInv(run);
    var log := LogOf(run);
    var j := ApForwardFollowsSta(run, i);
    var n := KeyAgreement(run, i);
    assert Reached(run, log[i].sid) && SessionOf(run, log[i].sid).staForward == Some(log[n].attempt);
    assert SessionOf(run, log[j].sid).staForward == Some(log[j].attempt);
  }

  // ---------- when every session is over ----------

  lemma {:induction false} DeliveryHasAttempt(log: seq<Event>, sessions: seq<Session>, m: nat) returns (j: nat)
    requires LastDelivery(log) == Some(m) && ApLog(log, sessions)
    ensures j < |log| && log[j].StaForwarded? && log[j].sid == m
  {
    var n := |log| - 1;
    var e := log[n];
    if Delivery(e) {
      if e.StaForwarded? {
        j := n;
      } else {
        j := LastForwardIsLast(log[..n]);
      }
    } else {
      ApLogPrefix(log, sessions, n);
      j := DeliveryHasAttempt(log[..n], sessions, m);
    }
  }

  lemma ApLogPrefix(log: seq<Event>, sessions: seq<Session>, n: nat)
    requires n <= |log| && ApLog(log, sessions)
    ensures ApLog(log[..n], sessions)
  {
    forall i | 0 <= i < n ensures log[..n][..i] == log[..i] {}
  }

  /** For the session of the latest delivery it does not matter whether one counts from there or from the STA's attempt. */
  lemma {:induction false} SinceDeliveryIsSinceForward(log: seq<Event>, sessions: seq<Session>, m: nat)
    requires LastDelivery(log) == Some(m) && ApLog(log, sessions) && OnceEach(log)
    ensures DisconnectSinceDelivery(log, m) == DisconnectSinceForward(log, m)
  {
    var n := |log| - 1;
    var e := log[n];
    if !Delivery(e) && e != ApDisconnect(m) && e != StaClosed(m, true) {
      ApLogPrefix(log, sessions, n);
      var j := DeliveryHasAttempt(log[..n], sessions, m);
      assert log[j].StaForwarded? && log[j].sid == m;
      SinceDeliveryIsSinceForward(log[..n], sessions, m);
    }
  }

  /** The log holds a delivery of the AP in session `m`. */
  ghost predicate ApDeliveredIn(log: seq<Event>, sessions: seq<Session>, m: nat)
    requires m < |sessions|
  {
    sessions[m].ApDelivered() && ApForwarded(m, sessions[m].apForward.value) in log
  }

  /**
   The latest delivery is in session `m`, so the keys of the sides are those delivered in it, where it delivered,
   and else those from before the STA's attempt in it.
   */
  lemma {:induction false} KeysOfLastDelivery(log: seq<Event>, sessions: seq<Session>, m: nat) returns (j: nat)
    requires LastDelivery(log) == Some(m) && ApLog(log, sessions) && OnceEach(log)
    requires forall i :: 0 <= i < |log| && log[i].StaForwarded? ==>
               log[i].sid < |sessions| && sessions[log[i].sid].staForward == Some(log[i].attempt)
    ensures m < |sessions| && j < |log| && log[j].StaForwarded? && log[j].sid == m
    ensures StaKey(log) == if log[j].attempt.delivered then Some(log[j].attempt.key) else StaKey(log[..j])
    ensures ApKey(log) == if ApDeliveredIn(log, sessions, m) then Some(sessions[m].apForward.value.key) else ApKey(log[..j])
  {
    var n := |log| - 1;
    var e := log[n];
    if e.ApForwarded? && Delivery(e) {
      j := LastForwardIsLast(log[..n]);
      assert log[j] == log[..n][j] && log[..n][..j] == log[..j];
    } else if e.StaForwarded? && Delivery(e) {
      j := n;
      if ApDeliveredIn(log, sessions, m) { AttemptBeforeAp(log, sessions, m, n); }
    } else {
      ApLogPrefix(log, sessions, n);
      j := KeysOfLastDelivery(log[..n], sessions, m);
      assert log == log[..n] + [e] && log[..n][..j] == log[..j];
    }
  }

  /** No attempt of the STA in session `m` comes after the attempt of the AP in it. */
  lemma AttemptBeforeAp(log: seq<Event>, sessions: seq<Session>, m: nat, n: nat)
    requires ApLog(log, sessions) && OnceEach(log) && n == |log| - 1
    requires m < |sessions| && sessions[m].apForward.Some? && ApForwarded(m, sessions[m].apForward.value) in log
    ensures !(log[n].StaForwarded? && log[n].sid == m)
  {
    var i :| 0 <= i < |log| && log[i] == ApForwarded(m, sessions[m].apForward.value);
    var j := LastForwardIsLast(log[..i]);
    assert log[j] == log[..i][j];
  }

  ghost predicate AllFinished(run: seq<Action>) {
    Run(run).Some? && forall i :: 0 <= i < |Run(run).value.sessions| ==> Run(run).value.sessions[i].Finished()
  }

  /**
   When every session is over and the latest delivery on either side was in session `m`: each side has the key
   that `m` delivered to it, or else the one it had before the STA's attempt in `m`, which is at `j`; and `m`
   dropped the link after that delivery unless it was silent, or the STA installed late and got its OK out.
   */
  lemma Settled(run: seq<Action>, m: nat) returns (j: nat)
    requires AllFinished(run) && LastDelivery(LogOf(run)) == Some(m)
    ensures Reached(run, m) && SessionOf(run, m).staForward.Some?
    ensures j < |LogOf(run)| && LogOf(run)[j] == StaForwarded(m, SessionOf(run, m).staForward.value)
    ensures var x := SessionOf(run, m); var before := LogOf(run)[..j];
            && (x.StaDelivered() || x.ApDelivered())
            && StaKey(LogOf(run)) == (if x.StaDelivered() then Some(x.staForward.value.key) else StaKey(before))
            && ApKey(LogOf(run)) == (if x.ApDelivered() then Some(x.key) else ApKey(before))
            && (!DisconnectSinceDelivery(LogOf(run), m) <==> x.Silent() || (x.late && x.OkSent()))
  {
    RunKeepsInv(run);
    var log, sessions := LogOf(run), Run(run).value.sessions;
    j := KeysOfLastDelivery(log, sessions, m);
    LastDeliveryDelivers(log, sessions, m);
    SinceDeliveryIsSinceForward(log, sessions, m);
    var x := SessionOf(run, m);
    assert SessionInv(x) && DisconnectOrder(log, x, m);
  }

  lemma {:induction false} LastDeliveryDelivers(log: seq<Event>, sessions: seq<Session>, m: nat)
    requires LastDelivery(log) == Some(m) && ApLog(log, sessions)
    requires forall i :: 0 <= i < |log| && log[i].StaForwarded? ==>
               log[i].sid < |sessions| && sessions[log[i].sid].staForward == Some(log[i].attempt)
    ensures m < |sessions| && sessions[m].staForward.Some? && (sessions[m].StaDelivered() || sessions[m].ApDelivered())
  {
    var n := |log| - 1;
    if !Delivery(log[n]) {
      ApLogPrefix(log, sessions, n);
      LastDeliveryDelivers(log[..n], sessions, m);
    }
  }

  /**
   Exactly when the sides end up apart with nobody dropping the link after the latest delivery: the session of that
   delivery was silent, or the STA installed late in it; and the keys it delivered differ, or the one key it
   delivered differs from what the other side had before.
   */
  lemma ApartExactlyWhen(run: seq<Action>, m: nat) returns (j: nat)
    requires AllFinished(run) && LastDelivery(LogOf(run)) == Some(m)
    ensures Reached(run, m) && SessionOf(run, m).staForward.Some?
    ensures j < |LogOf(run)| && LogOf(run)[j] == StaForwarded(m, SessionOf(run, m).staForward.value)
    ensures var x := SessionOf(run, m); var before := LogOf(run)[..j];
            StaKey(LogOf(run)) != ApKey(LogOf(run)) && !DisconnectSinceDelivery(LogOf(run), m) <==>
            && (x.Silent() || (x.late && x.OkSent()))
            && (if x.StaDelivered() && x.ApDelivered() then x.staForward.value.key != x.key
                else if x.StaDelivered() then ApKey(before) != Some(x.staForward.value.key)
                else StaKey(before) != Some(x.key))
  {
    j := Settled(run, m);
  }

  /** Under matching stores the STA's attempt in a session is of the session's key. */
  lemma MatchingAttempt(run: seq<Action>, j: nat)
    requires Run(run).Some? && j < |LogOf(run)| && LogOf(run)[j].StaForwarded? && StoresMatch(LogOf(run))
    ensures Reached(run, LogOf(run)[j].sid) && LogOf(run)[j].attempt.key == SessionOf(run, LogOf(run)[j].sid).key
  {
    RunKeepsInv(run);
    var log := LogOf(run);
    assert StoresMatch(log[..j]) by {
      forall m | 0 <= m < j ensures log[..j][..m] == log[..m] {}
    }
    MatchingStoresKeepKey(log[..j]);
  }

  /**
   All of it together. If stores match their sessions, and success means delivered in the session of the latest
   delivery, then once every session is over the two sides have the same key or the link was dropped after that
   delivery, exactly except where the AP ignored the failure of its own sender, or the STA installed after the AP
   had given up, and the AP had another key before.
   */
  lemma AgreedOrDisconnected(run: seq<Action>, m: nat) returns (j: nat)
    requires AllFinished(run) && LastDelivery(LogOf(run)) == Some(m) && StoresMatch(LogOf(run))
    requires Reached(run, m) ==> SuccessMeansDelivered(SessionOf(run, m))
    ensures Reached(run, m) && SessionOf(run, m).staForward.Some?
    ensures j < |LogOf(run)| && LogOf(run)[j] == StaForwarded(m, SessionOf(run, m).staForward.value)
    ensures var x := SessionOf(run, m);
            StaKey(LogOf(run)) == ApKey(LogOf(run)) || DisconnectSinceDelivery(LogOf(run), m) <==>
            !(x.apForward == Some(Attempt(x.key, Failure, false)) || (x.late && x.OkSent()))
            || ApKey(LogOf(run)[..j]) == Some(x.key)
  {
    RunKeepsInv(run);
    j := Settled(run, m);
    MatchingAttempt(run, j);
    assert SessionInv(SessionOf(run, m));
  }

  // ---------- runs that show the limits ----------

  lemma Extend(run: seq<Action>, a: Action)
    requires Run(run).Some? && Enabled(Run(run).value, a)
    ensures Run(run + [a]) == Some(Next(Run(run).value, a))
  {
    assert (run + [a])[..|run|] == run;
  }

  function Sent(k: Key, n: nat): seq<Message> {
    if n == 0 then [] else if n == 1 then [Sync(k)] else [Sync(k), Install]
  }

  function SoleSession(k: Key, ap: ApPhase, sta: StaPhase, sent: nat, read: nat, ready: bool, seen: nat): Session
  {
    Session(k, ap, sta, Sent(k, sent), read, if ready then [Ready] else [], seen, None, None,
            false, false, false, false, false)
  }

  function SoleState(x: Session, accepted: nat, pending: Option<Key>, log: seq<Event>): State {
    State(InSession, Some(x.key), [x], accepted, pending, None, Waiting, log)
  }

  /** The only session is for `k`; the AP has sent INSTALL and nobody has forwarded yet. */
  function Opened(k: Key): State {
    SoleState(SoleSession(k, AwaitReply, AwaitInstall, 2, 1, true, 1), 1, Some(k), [Synced(0, k)])
  }

  lemma Connecting(k: Key) returns (run: seq<Action>)
    requires |k| == KEY_DIGITS
    ensures Run(run) == Some(SoleState(SoleSession(k, AwaitReady, AwaitSync, 1, 0, false, 0), 1, None, []))
  {
    run := [];
    Extend(run, ApReceive(k, true)); run := run + [ApReceive(k, true)];
    Extend(run, ApConnect(true)); run := run + [ApConnect(true)];
    assert Run(run).value == SoleState(NewSession(k), 0, None, []);
    Extend(run, ApDo(SendSync(true))); run := run + [ApDo(SendSync(true))];
    assert Run(run).value.sessions == [SoleSession(k, AwaitReady, Queued, 1, 0, false, 0)] by {
      assert ApNext(NewSession(k), SendSync(true)) == SoleSession(k, AwaitReady, Queued, 1, 0, false, 0);
    }
    assert Run(run).value == SoleState(SoleSession(k, AwaitReady, Queued, 1, 0, false, 0), 0, None, []);
    Extend(run, StaAccept); run := run + [StaAccept];
    assert Run(run).value == SoleState(SoleSession(k, AwaitReady, AwaitSync, 1, 0, false, 0), 1, None, []);
  }

  lemma StaReady(k: Key) returns (run: seq<Action>)
    requires |k| == KEY_DIGITS
    ensures Run(run) == Some(SoleState(SoleSession(k, AwaitReady, AwaitInstall, 1, 1, true, 0), 1, Some(k), [Synced(0, k)]))
  {
    run := Connecting(k);
    var log: seq<Event> := [Synced(0, k)];
    assert log + [] == log && [] + log == log;
    Extend(run, StaDo(RecvSync(Arrived))); run := run + [StaDo(RecvSync(Arrived))];
    assert Run(run).value.sessions == [SoleSession(k, AwaitReady, SyncSeen, 1, 1, false, 0)];
    Extend(run, StaDo(CheckWifi(true, true))); run := run + [StaDo(CheckWifi(true, true))];
    assert [] + [Ready] == [Ready];
    assert Run(run).value.sessions == [SoleSession(k, AwaitReady, AwaitInstall, 1, 1, true, 0)];
    assert LogOf(run) == log;
  }

  lemma Opening(k: Key) returns (run: seq<Action>)
    requires |k| == KEY_DIGITS
    ensures Run(run) == Some(Opened(k))
  {
    run := StaReady(k);
    var log: seq<Event> := [Synced(0, k)];
    assert log + [] == log;
    Extend(run, ApDo(RecvReady(Arrived))); run := run + [ApDo(RecvReady(Arrived))];
    assert Run(run).value.sessions == [SoleSession(k, ReadySeen, AwaitInstall, 1, 1, true, 1)];
    Extend(run, ApDo(SendInstall(true))); run := run + [ApDo(SendInstall(true))];
    assert [Sync(k)] + [Install] == [Sync(k), Install];
    assert Run(run).value.sessions == [SoleSession(k, AwaitReply, AwaitInstall, 2, 1, true, 1)];
  }

  function Answered(x: Session, p: Key, delivered: bool): Session {
    x.(sta := StaDone, staRead := 2, toAp := [Ready, Ok], staForward := Some(Attempt(p, Success, delivered)),
       staStamped := true, late := x.ap.ApDone?)
  }

  lemma StaTakesInstall(before: seq<Action>, x: Session) returns (run: seq<Action>)
    requires Run(before).Some? && Run(before).value.accepted == 1 && Run(before).value.sessions == [x]
    requires x.sta.AwaitInstall? && x.toSta == [Sync(x.key), Install] && x.staRead == 1
    ensures Run(run) == Some(Run(before).value.(sessions := [x.(sta := InstallSeen, staRead := 2)]))
  {
    var a := StaDo(RecvInstall(Arrived, true));
    Extend(before, a);
    run := before + [a];
    assert StaEvents(x, 0, Run(before).value.pending, a.staStep) == [];
    assert LogOf(before) + [] == LogOf(before);
    assert [x][0 := x.(sta := InstallSeen, staRead := 2)] == [x.(sta := InstallSeen, staRead := 2)];
  }

  /** The STA takes the INSTALL, hands over the pending key `p` with a report of success, and answers OK. */
  lemma StaInstalls(before: seq<Action>, x: Session, p: Key, delivered: bool) returns (run: seq<Action>)
    requires |p| == KEY_DIGITS
    requires Run(before).Some? && Run(before).value.pending == Some(p)
    requires Run(before).value.accepted == 1 && Run(before).value.sessions == [x]
    requires x.sta.AwaitInstall? && x.toSta == [Sync(x.key), Install] && x.staRead == 1
    requires x.toAp == [Ready] && !x.staDisconnected
    ensures Run(run).Some? && Run(run).value.sessions == [Answered(x, p, delivered)] && Run(run).value.ap == Run(before).value.ap
    ensures LogOf(run) == LogOf(before) + [StaForwarded(0, Attempt(p, Success, delivered)), StaClosed(0, false)]
  {
    run := StaTakesInstall(before, x);
    var y := x.(sta := InstallSeen, staRead := 2);
    var a := StaDo(InstallPtk(Attempted(Success, delivered, true)));
    Extend(run, a);
    run := run + [a];
    assert [Ready] + [Ok] == [Ready, Ok];
    assert [y][0 := Answered(x, p, delivered)] == [Answered(x, p, delivered)];
    assert LogOf(run) == LogOf(before) + ([StaForwarded(0, Attempt(p, Success, delivered))] + [StaClosed(0, false)]);
  }

  /** The AP takes the OK and runs its own sender. */
  lemma ApForwards(before: seq<Action>, x: Session, report: Report, delivered: bool) returns (run: seq<Action>)
    requires Run(before).Some? && Run(before).value.ap.InSession? && Run(before).value.sessions == [x]
    requires x.ap.AwaitReply? && x.apRead == 1 && x.toAp == [Ready, Ok] && !report.Exception?
    ensures Reached(run, 0) && |Run(run).value.sessions| == 1
    ensures SessionOf(run, 0) == x.(ap := ApDone, apRead := 2, apForward := Some(Attempt(x.key, report, delivered)), apStamped := true)
    ensures LogOf(run) == LogOf(before) + [ApForwarded(0, Attempt(x.key, report, delivered))]
  {
    var log := LogOf(before);
    run := ApTakesOk(before, x);
    var y := x.(ap := OkSeen, apRead := 2);
    var z := y.(ap := Returning(true), apForward := Some(Attempt(x.key, report, delivered)));
    Extend(run, ApDo(Forward(report, delivered))); run := run + [ApDo(Forward(report, delivered))];
    assert Run(run).value.sessions == [z];
    Extend(run, ApDo(Finish)); run := run + [ApDo(Finish)];
    assert LogOf(run) == (log + [ApForwarded(0, Attempt(x.key, report, delivered))]) + [];
  }

  lemma ApTakesOk(before: seq<Action>, x: Session) returns (run: seq<Action>)
    requires Run(before).Some? && Run(before).value.ap.InSession? && Run(before).value.sessions == [x]
    requires x.ap.AwaitReply? && x.apRead == 1 && x.toAp == [Ready, Ok]
    ensures Run(run) == Some(Run(before).value.(sessions := [x.(ap := OkSeen, apRead := 2)]))
  {
    var a := ApDo(RecvReply(Arrived));
    Extend(before, a);
    run := before + [a];
    assert LogOf(before) + [] == LogOf(before);
    assert [x][0 := x.(ap := OkSeen, apRead := 2)] == [x.(ap := OkSeen, apRead := 2)];
  }

  lemma MainStores(before: seq<Action>, p: Key) returns (run: seq<Action>)
    requires |p| == KEY_DIGITS
    requires Run(before).Some? && Run(before).value.main.Waiting? && Run(before).value.staLast != Some(p)
    ensures Run(run) == Some(Run(before).value.(pending := Some(p), log := LogOf(before) + [Stored(p)]))
  {
    Extend(before, MainReceive(p)); run := before + [MainReceive(p)];
    Extend(run, MainStore(true)); run := run + [MainStore(true)];
  }

  lemma LastIsDelivery(run: seq<Action>, before: seq<Event>, e: Event)
    requires Run(run).Some? && LogOf(run) == before + [e] && Delivery(e)
    ensures LastDelivery(LogOf(run)) == Some(e.sid)
  {}

  lemma OneSessionIsAll(run: seq<Action>)
    requires Reached(run, 0) && |Run(run).value.sessions| == 1 && SessionOf(run, 0).Finished()
    ensures AllFinished(run)
  {}

  /** Without the hypothesis on stores agreement fails: a PTK `p` stored after SYNC `k` is installed instead. */
  lemma OverwriteSplitsKeys(k: Key, p: Key) returns (run: seq<Action>)
    requires |k| == |p| == KEY_DIGITS && k != p
    ensures AllFinished(run) && Reached(run, 0) && SessionOf(run, 0).Silent()
    ensures StaKey(LogOf(run)) == Some(p) && ApKey(LogOf(run)) == Some(k)
  {
    run := Opening(k);
    var x := Opened(k).sessions[0];
    run := MainStores(run, p);
    run := StaInstalls(run, x, p, true);
    var log := LogOf(run);
    run := ApForwards(run, Answered(x, p, true), Success, true);
    LastIsDelivery(run, log, ApForwarded(0, Attempt(k, Success, true)));
    OneSessionIsAll(run);
    var j := Settled(run, 0);
  }

  /** A sender of the AP that does not deliver leaves a silent split, whatever it reports. */
  lemma ApSenderSplitsSilently(k: Key, report: Report) returns (run: seq<Action>)
    requires |k| == KEY_DIGITS && !report.Exception?
    ensures Reached(run, 0) && SessionOf(run, 0).Finished()
    ensures SessionOf(run, 0).Split() && SessionOf(run, 0).Silent() && SessionOf(run, 0).StaDelivered()
    ensures SessionOf(run, 0).apForward.Some? && SessionOf(run, 0).apForward.value.report == report
  {
    run := Opening(k);
    var x := Opened(k).sessions[0];
    run := StaInstalls(run, x, k, true);
    run := ApForwards(run, Answered(x, k, true), report, false);
  }

  /** So does a sender of the STA that gives up and still exits with 0. */
  lemma StaSenderSplitsSilently(k: Key) returns (run: seq<Action>)
    requires |k| == KEY_DIGITS
    ensures Reached(run, 0) && SessionOf(run, 0).Finished()
    ensures SessionOf(run, 0).Split() && SessionOf(run, 0).Silent() && SessionOf(run, 0).ApDelivered()
    ensures SessionOf(run, 0).staForward == Some(Attempt(k, Success, false))
  {
    run := Opening(k);
    var x := Opened(k).sessions[0];
    run := StaInstalls(run, x, k, false);
    run := ApForwards(run, Answered(x, k, false), Success, true);
  }

  /** The AP times out and disconnects first; the STA then forwards all the same and never disconnects. */
  lemma LateInstallAfterDisconnect(k: Key) returns (run: seq<Action>)
    requires |k| == KEY_DIGITS
    ensures Reached(run, 0) && SessionOf(run, 0).Finished() && SessionOf(run, 0).Split()
    ensures !SessionOf(run, 0).Silent() && !DisconnectSinceForward(LogOf(run), 0)
  {
    run := Opening(k);
    var x := Opened(k).sessions[0];
    Extend(run, ApDo(RecvReply(TimedOut))); run := run + [ApDo(RecvReply(TimedOut))];
    assert Run(run).value.sessions == [x.(ap := Returning(false))];
    Extend(run, ApDo(Finish)); run := run + [ApDo(Finish)];
    x := x.(ap := ApDone, apDisconnected := true);
    assert Run(run).value.sessions == [x];
    run := StaInstalls(run, x, k, true);
    WhenTheDisconnectComes(run, 0);
  }
}
