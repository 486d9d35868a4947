/** Safety of the commit protocol over every run: see PtkCommit for the steps. */
module PtkCommitSafety {
  import opened Common
  import opened PtkCommit

  // ---------- one session ----------

  /** What has been sent and received in each phase of the AP. */
  ghost predicate ApSide(x: Session) {
    && |x.toSta| <= 2
    && (|x.toSta| > 0 ==> x.toSta[0] == Sync(x.key))
    && (|x.toSta| > 1 ==> x.toSta[1] == Install)
    && x.apRead <= |x.toAp|
    && (x.apForward.Some? ==> x.ap.Returning? || x.ap.ApDone?)
    && (x.apForward.Some? ==> x.OkReceived() && x.apForward.value.key == x.key)
    && (!x.ap.ApDone? ==> !x.apStamped && !x.apDisconnected)
    && (x.late ==> x.ap.ApDone? && x.apForward.None?)
    && match x.ap
       case Connected => |x.toSta| == 0 && x.apRead == 0
       case AwaitReady => |x.toSta| == 1 && x.apRead == 0
       case ReadySeen => |x.toSta| == 1 && x.apRead == 1 && x.toAp[0] == Ready
       case AwaitReply => |x.toSta| == 2 && x.apRead == 1 && x.toAp[0] == Ready
       case OkSeen => |x.toSta| == 2 && x.apRead == 2 && x.OkSent()
       case Returning(ok) => ok <==> x.apForward.Some? && !x.apForward.value.report.Exception?
       case ApDone => (x.apStamped <==> !x.apDisconnected) &&
                      (x.apStamped <==> x.apForward.Some? && !x.apForward.value.report.Exception?)
  }

  /** What has been sent and received in each phase of the STA, and when it drops the WiFi link. */
  ghost predicate StaSide(x: Session) {
    && x.staRead <= |x.toSta|
    && (!x.sta.StaDone? ==> x.staForward.None? && !x.staDisconnected && !x.staStamped)
    && match x.sta
       case Queued => |x.toAp| == 0 && x.staRead == 0
       case AwaitSync => |x.toAp| == 0 && x.staRead == 0
       case SyncSeen => |x.toAp| == 0 && x.staRead == 1
       case AwaitInstall => x.ReadySent() && |x.toAp| == 1 && x.staRead == 1
       case InstallSeen => x.ReadySent() && |x.toAp| == 1 && x.staRead == 2
       case StaDone =>
         && |x.toAp| <= (if x.ReadySent() then 2 else 1)
         && (x.ReadySent() ==> (x.staDisconnected <==> !x.OkSent()))
         && (x.staForward.Some? ==> x.ReadySent())
         && (x.OkSent() ==> x.staForward.Some? && x.staForward.value.report.Success? && x.staStamped)
  }

  ghost predicate SessionInv(x: Session) {
    ApSide(x) && StaSide(x)
  }

  // ---------- all sessions ----------

  /** Only the latest connection is open at the AP; the STA works through them in order. */
  ghost predicate Shape(s: State) {
    && s.accepted <= |s.sessions|
    && (forall i :: 0 <= i < |s.sessions| - 1 ==> s.sessions[i].ap.ApDone?)
    && (s.ap.InSession? <==> |s.sessions| > 0 && !s.sessions[|s.sessions| - 1].ap.ApDone?)
    && (forall i :: 0 <= i < |s.sessions| ==> (s.sessions[i].sta.Queued? <==> s.accepted <= i))
    && (forall i :: 0 <= i < s.accepted - 1 ==> s.sessions[i].sta.StaDone?)
  }

  ghost predicate AllSessions(sessions: seq<Session>) {
    forall i :: 0 <= i < |sessions| ==> SessionInv(sessions[i])
  }

  lemma ReplaceKeepsShape(s: State, t: State, i: nat, x: Session)
    requires Shape(s) && i < |s.sessions|
    requires t.sessions == s.sessions[i := x] && t.accepted == s.accepted
    requires x.sta == s.sessions[i].sta || (i == s.accepted - 1 && !x.sta.Queued?)
    requires (x.ap == s.sessions[i].ap && t.ap == s.ap) ||
             (i == |s.sessions| - 1 && (t.ap.InSession? <==> !x.ap.ApDone?))
    ensures Shape(t)
  {}

  lemma NextKeepsShape(s: State, a: Action)
    requires Shape(s) && Enabled(s, a)
    ensures Shape(Next(s, a))
  {
    var t := Next(s, a);
    match a
    case ApDo(step) =>
      ReplaceKeepsShape(s, t, |s.sessions| - 1, ApNext(s.ApSession(), step));
    case StaDo(step) =>
      ReplaceKeepsShape(s, t, s.accepted - 1, StaNext(s.StaSession(), s.pending, step));
    case _ =>
  }

  lemma ApStreamStepKeepsSession(x: Session, a: ApStep)
    requires SessionInv(x) && ApEnabled(x, a)
    requires a.SendSync? || a.SendInstall?
    ensures SessionInv(ApNext(x, a))
  {
    match a
    case SendSync(_) =>
    case SendInstall(_) =>
  }

  lemma ReadyKeepsSession(x: Session, got: Receive)
    requires SessionInv(x) && ApEnabled(x, RecvReady(got))
    ensures SessionInv(ApNext(x, RecvReady(got)))
  {}

  lemma ReplyKeepsSession(x: Session, got: Receive)
    requires SessionInv(x) && ApEnabled(x, RecvReply(got))
    ensures SessionInv(ApNext(x, RecvReply(got)))
  {}

  lemma ApFinishKeepsSession(x: Session)
    requires SessionInv(x) && x.ap.Returning?
    ensures SessionInv(ApNext(x, Finish))
  {
    var y := ApNext(x, Finish);
    assert ApSide(y);
  }

  lemma ApStepKeepsSession(x: Session, a: ApStep)
    requires SessionInv(x) && ApEnabled(x, a)
    ensures SessionInv(ApNext(x, a))
  {
    match a
    case SendSync(_) => ApStreamStepKeepsSession(x, a);
    case SendInstall(_) => ApStreamStepKeepsSession(x, a);
    case RecvReady(got) => ReadyKeepsSession(x, got);
    case RecvReply(got) => ReplyKeepsSession(x, got);
    case Forward(_, _) =>
    case Finish => ApFinishKeepsSession(x);
  }

  lemma SyncKeepsSession(x: Session, pending: Option<Key>, got: Receive)
    requires SessionInv(x) && StaEnabled(x, pending, RecvSync(got))
    ensures SessionInv(StaNext(x, pending, RecvSync(got)))
  {}

  lemma InstallSignalKeepsSession(x: Session, pending: Option<Key>, got: Receive, sent: bool)
    requires SessionInv(x) && StaEnabled(x, pending, RecvInstall(got, sent))
    ensures SessionInv(StaNext(x, pending, RecvInstall(got, sent)))
  {}

  lemma InstallKeepsSession(x: Session, pending: Option<Key>, outcome: StaResult)
    requires SessionInv(x) && x.sta.InstallSeen?
    requires outcome.NotAssociated? || pending.Some?
    ensures SessionInv(InstallNext(x, pending, outcome))
  {
    match outcome
    case NotAssociated(_) =>
    case Attempted(Success, _, _) =>
    case Attempted(Failure, _, _) =>
    case Attempted(Exception, _, _) =>
  }

  lemma StaStepKeepsSession(x: Session, pending: Option<Key>, a: StaStep)
    requires SessionInv(x) && StaEnabled(x, pending, a)
    ensures SessionInv(StaNext(x, pending, a))
  {
    match a
    case RecvSync(got) => SyncKeepsSession(x, pending, got);
    case CheckWifi(_, _) =>
    case RecvInstall(got, sent) => InstallSignalKeepsSession(x, pending, got, sent);
    case InstallPtk(outcome) => InstallKeepsSession(x, pending, outcome);
  }

  lemma NextKeepsSessions(s: State, a: Action)
    requires Shape(s) && Enabled(s, a)
    requires AllSessions(s.sessions)
    ensures AllSessions(Next(s, a).sessions)
  {
    match a
    case ApDo(step) => ApStepKeepsSession(s.ApSession(), step);
    case StaDo(step) => StaStepKeepsSession(s.StaSession(), s.pending, step);
    case StaAccept => assert SessionInv(s.sessions[s.accepted]);
    case _ =>
  }

  // ---------- the log ----------

  /** Each AP attempt is for its session, right after the attempt of the STA in it, with no disconnect between. */
  ghost predicate ApLog(log: seq<Event>, sessions: seq<Session>) {
    forall i :: 0 <= i < |log| && log[i].ApForwarded? ==>
      && log[i].sid < |sessions|
      && sessions[log[i].sid].apForward == Some(log[i].attempt)
      && log[i].attempt.key == sessions[log[i].sid].key
      && sessions[log[i].sid].staForward.Some?
      && LastForward(log[..i]) == Some((log[i].sid, sessions[log[i].sid].staForward.value))
      && !DisconnectSinceForward(log[..i], log[i].sid)
  }

  ghost predicate ApRecorded(log: seq<Event>, sessions: seq<Session>) {
    forall i: nat :: i < |sessions| && sessions[i].apForward.Some? ==> ApForwarded(i, sessions[i].apForward.value) in log
  }

  /** Each STA attempt is of the key left pending since that session's SYNC, after a report of success on OK. */
  ghost predicate StaLog(log: seq<Event>, sessions: seq<Session>) {
    forall i :: 0 <= i < |log| && log[i].StaForwarded? ==>
      && log[i].sid < |sessions|
      && sessions[log[i].sid].staForward == Some(log[i].attempt)
      && LastSync(log[..i]) == Some((log[i].sid, sessions[log[i].sid].key))
      && OpenKey(log[..i]) == Some(sessions[log[i].sid].key)
      && log[i].attempt.key == Effective(sessions[log[i].sid].key, Overwrite(log[..i]))
  }

  /** The STA tries once in a session. */
  ghost predicate OnceEach(log: seq<Event>) {
    forall i, j :: 0 <= i < j < |log| && log[i].StaForwarded? && log[j].StaForwarded? ==> log[i].sid != log[j].sid
  }

  ghost predicate DisconnectLog(log: seq<Event>, sessions: seq<Session>) {
    forall i :: 0 <= i < |sessions| ==> DisconnectOrder(log, sessions[i], i)
  }

  ghost predicate DisconnectOrder(log: seq<Event>, x: Session, sid: nat) {
    && (x.late ==> x.ap.ApDone?)
    && (x.staForward.Some? ==>
          (DisconnectSinceForward(log, sid) <==> x.staDisconnected || (x.apDisconnected && !x.late)))
  }

  ghost predicate PendingInv(s: State) {
    s.StaBusy() && !s.StaSession().sta.AwaitSync? && !s.StaSession().sta.Queued? ==>
      && LastSync(s.log) == Some((s.accepted - 1, s.StaSession().key))
      && OpenKey(s.log) == Some(s.StaSession().key)
      && s.pending == Some(Effective(s.StaSession().key, Overwrite(s.log)))
  }

  ghost predicate ForwardInv(s: State) {
    0 < s.accepted <= |s.sessions| && s.sessions[s.accepted - 1].staForward.Some? ==>
      LastForward(s.log) == Some((s.accepted - 1, s.sessions[s.accepted - 1].staForward.value))
  }

  ghost predicate LogInv(s: State) {
    && ApLog(s.log, s.sessions) && StaLog(s.log, s.sessions) && DisconnectLog(s.log, s.sessions)
  }

  ghost predicate Records(s: State) {
    ApRecorded(s.log, s.sessions) && OnceEach(s.log)
  }

  ghost predicate Inv(s: State) {
    Shape(s) && AllSessions(s.sessions) && PendingInv(s) && ForwardInv(s) && LogInv(s) && Records(s)
  }

  lemma LogStep(log: seq<Event>, e: Event)
    ensures LastForward(log + [e]) == if e.StaForwarded? then Some((e.sid, e.attempt)) else LastForward(log)
    ensures LastSync(log + [e]) == if e.Synced? then Some((e.sid, e.key)) else LastSync(log)
    ensures Overwrite(log + [e]) == if e.Synced? then None else if e.Stored? then Some(e.key) else Overwrite(log)
    ensures OpenKey(log + [e]) == if e.Synced? then Some(e.key) else if e.StaClosed? then None else OpenKey(log)
    ensures forall sid: nat {:trigger DisconnectSinceForward(log + [e], sid)} ::
              DisconnectSinceForward(log + [e], sid) ==
                if e == ApDisconnect(sid) || e == StaClosed(sid, true) then true
                else if e.StaForwarded? && e.sid == sid then false
                else DisconnectSinceForward(log, sid)
  {
    assert (log + [e])[..|log|] == log;
  }

  /** The sessions only gain facts: keys stay, and so does a forward once made. */
  ghost predicate Grows(before: seq<Session>, after: seq<Session>) {
    && |before| <= |after|
    && forall i :: 0 <= i < |before| ==>
         && after[i].key == before[i].key
         && (before[i].staForward.Some? ==> after[i].staForward == before[i].staForward)
         && (before[i].apForward.Some? ==> after[i].apForward == before[i].apForward)
  }

  lemma ApLogGrows(log: seq<Event>, before: seq<Session>, after: seq<Session>)
    requires ApLog(log, before) && Grows(before, after)
    ensures ApLog(log, after)
  {}

  lemma StaLogGrows(log: seq<Event>, before: seq<Session>, after: seq<Session>)
    requires StaLog(log, before) && Grows(before, after)
    ensures StaLog(log, after)
  {}

  lemma ApLogExtends(log: seq<Event>, e: Event, sessions: seq<Session>)
    requires ApLog(log, sessions)
    requires e.ApForwarded? ==>
               && e.sid < |sessions| && sessions[e.sid].apForward == Some(e.attempt)
               && e.attempt.key == sessions[e.sid].key && sessions[e.sid].staForward.Some?
               && LastForward(log) == Some((e.sid, sessions[e.sid].staForward.value))
               && !DisconnectSinceForward(log, e.sid)
    ensures ApLog(log + [e], sessions)
  {
    var after := log + [e];
    assert after[..|log|] == log;
    forall i | 0 <= i < |log| ensures after[..i] == log[..i] {}
  }

  lemma StaLogExtends(log: seq<Event>, e: Event, sessions: seq<Session>)
    requires StaLog(log, sessions)
    requires e.StaForwarded? ==>
               && e.sid < |sessions| && sessions[e.sid].staForward == Some(e.attempt)
               && LastSync(log) == Some((e.sid, sessions[e.sid].key))
               && OpenKey(log) == Some(sessions[e.sid].key)
               && e.attempt.key == Effective(sessions[e.sid].key, Overwrite(log))
    ensures StaLog(log + [e], sessions)
  {
    var after := log + [e];
    assert after[..|log|] == log;
    forall i | 0 <= i < |log| ensures after[..i] == log[..i] {}
  }

  // ---------- every step keeps the invariant ----------

  lemma ReplaceGrows(before: seq<Session>, i: nat, y: Session)
    requires i < |before| && y.key == before[i].key
    requires before[i].staForward.Some? ==> y.staForward == before[i].staForward
    requires before[i].apForward.Some? ==> y.apForward == before[i].apForward
    ensures Grows(before, before[i := y])
  {}

  lemma ApDoGrows(s: State, step: ApStep)
    requires AllSessions(s.sessions) && Enabled(s, ApDo(step))
    ensures Grows(s.sessions, Next(s, ApDo(step)).sessions)
  {
    assert ApSide(s.ApSession()) by { assert SessionInv(s.sessions[|s.sessions| - 1]); }
    ReplaceGrows(s.sessions, |s.sessions| - 1, ApNext(s.ApSession(), step));
  }

  lemma OthersGrow(s: State, a: Action)
    requires Enabled(s, a) && !a.ApDo? && !a.StaDo?
    ensures Grows(s.sessions, Next(s, a).sessions)
  {
    if a.StaAccept? {
      ReplaceGrows(s.sessions, s.accepted, s.sessions[s.accepted].(sta := AwaitSync));
    }
  }

  /** An event of neither side's session: a store of the STA main loop, or a disconnect. */
  lemma OutsideEventKeepsInv(s: State, t: State, e: Event)
    requires PendingInv(s) && ForwardInv(s) && LogInv(s)
    requires t.sessions == s.sessions && t.accepted == s.accepted && t.log == s.log + [e]
    requires (e.Stored? && t.pending == Some(e.key)) || (e.OtherDisconnect? && t.pending == s.pending)
    ensures PendingInv(t) && ForwardInv(t) && LogInv(t)
  {
    LogStep(s.log, e);
    ApLogExtends(s.log, e, s.sessions);
    StaLogExtends(s.log, e, s.sessions);
    forall i | 0 <= i < |t.sessions| ensures DisconnectOrder(t.log, t.sessions[i], i) {
      assert DisconnectOrder(s.log, s.sessions[i], i);
    }
  }

  lemma ConnectionKeepsInv(s: State, a: Action)
    requires Inv(s) && Enabled(s, a)
    requires a.ApConnect? || a.StaAccept?
    ensures var t := Next(s, a); PendingInv(t) && ForwardInv(t) && LogInv(t)
  {
    var t := Next(s, a);
    OthersGrow(s, a);
    ApLogGrows(s.log, s.sessions, t.sessions);
    StaLogGrows(s.log, s.sessions, t.sessions);
    forall i | 0 <= i < |t.sessions| ensures DisconnectOrder(t.log, t.sessions[i], i) {
      if i < |s.sessions| {
        assert DisconnectOrder(s.log, s.sessions[i], i);
        assert SessionInv(s.sessions[i]);
      }
    }
  }

  lemma ApDoKeepsLog(s: State, step: ApStep)
    requires Inv(s) && Enabled(s, ApDo(step))
    ensures var t := Next(s, ApDo(step)); ApLog(t.log, t.sessions) && StaLog(t.log, t.sessions)
  {
    var t := Next(s, ApDo(step));
    ApDoGrows(s, step);
    ApLogGrows(s.log, s.sessions, t.sessions);
    StaLogGrows(s.log, s.sessions, t.sessions);
    if t.log != s.log {
      var e := t.log[|s.log|];
      assert t.log == s.log + [e];
      if step.Forward? { assert SessionInv(s.ApSession()); }
      ApLogExtends(s.log, e, t.sessions);
      StaLogExtends(s.log, e, t.sessions);
    }
  }

  /** The latest session becomes `y`; if the AP drops the WiFi link, the log says so. */
  lemma ApMoveKeepsOrder(s: State, t: State, y: Session, events: seq<Event>)
    requires Shape(s) && PendingInv(s) && ForwardInv(s) && DisconnectLog(s.log, s.sessions) && s.ApBusy()
    requires var x := s.ApSession();
             && y.key == x.key && y.sta == x.sta && y.staForward == x.staForward && y.late == x.late
             && y.staDisconnected == x.staDisconnected && (y.ap.ApDone? <== x.ap.ApDone?)
             && !x.apDisconnected && !x.ap.ApDone?
    requires t.sessions == s.sessions[|s.sessions| - 1 := y] && t.accepted == s.accepted
    requires t.pending == s.pending && t.log == s.log + events
    requires if y.apDisconnected then events == [ApDisconnect(|s.sessions| - 1)]
             else events == [] || (|events| == 1 && events[0].ApForwarded?)
    ensures DisconnectLog(t.log, t.sessions) && PendingInv(t) && ForwardInv(t)
  {
    if events != [] {
      assert events == [events[0]];
      LogStep(s.log, events[0]);
    } else {
      assert t.log == s.log;
    }
    forall i | 0 <= i < |t.sessions| ensures DisconnectOrder(t.log, t.sessions[i], i) {
      assert DisconnectOrder(s.log, s.sessions[i], i);
    }
  }

  lemma ApDoKeepsOrder(s: State, step: ApStep)
    requires Inv(s) && Enabled(s, ApDo(step))
    ensures var t := Next(s, ApDo(step)); DisconnectLog(t.log, t.sessions) && PendingInv(t) && ForwardInv(t)
  {
    var x := s.ApSession();
    assert SessionInv(x);
    ApMoveKeepsOrder(s, Next(s, ApDo(step)), ApNext(x, step), ApEvents(x, |s.sessions| - 1, step));
  }

  /**
   A step of the STA turns its session into `y`. Its events are at most two: a SYNC seen, or an attempt to
   forward followed by the end of the session, or the end alone.
   */
  ghost predicate StaMoves(s: State, t: State, y: Session) {
    && s.StaBusy()
    && var x := s.StaSession(); var sid := s.accepted - 1;
    && ApUntouched(x, y) && Turns(x, y, s.pending, t.pending)
    && t.sessions == s.sessions[sid := y] && t.accepted == s.accepted
    && t.log == s.log + StaMoveEvents(sid, y)
  }

  /** What a step of the STA does to its session and to the shared pending key. */
  ghost predicate Turns(x: Session, y: Session, pending: Option<Key>, after: Option<Key>) {
    && x.staForward.None?
    && (y.sta.SyncSeen? ==> y.staForward.None? && after == Some(x.key))
    && (y.staForward.Some? ==> x.sta.InstallSeen? && pending == Some(y.staForward.value.key) && y.sta.StaDone? && y.late == x.ap.ApDone?)
    && (y.staForward.None? ==> y.late == x.late)
    && (!y.sta.SyncSeen? && !y.sta.StaDone? ==> !x.sta.AwaitSync? && !x.sta.Queued? && after == pending)
  }

  function StaMoveEvents(sid: nat, y: Session): seq<Event> {
    if y.sta.SyncSeen? then [Synced(sid, y.key)]
    else if y.staForward.Some? then [StaForwarded(sid, y.staForward.value), StaClosed(sid, y.staDisconnected)]
    else if y.sta.StaDone? then [StaClosed(sid, y.staDisconnected)]
    else []
  }

  lemma StaStepMoves(x: Session, sid: nat, pending: Option<Key>, step: StaStep)
    requires SessionInv(x) && StaEnabled(x, pending, step)
    ensures StaEvents(x, sid, pending, step) == StaMoveEvents(sid, StaNext(x, pending, step))
    ensures Turns(x, StaNext(x, pending, step), pending, StaPending(x, pending, step))
  {
    match step
    case RecvSync(_) =>
    case CheckWifi(_, _) =>
    case RecvInstall(_, _) =>
    case InstallPtk(NotAssociated(_)) =>
    case InstallPtk(Attempted(Success, _, _)) =>
    case InstallPtk(Attempted(Failure, _, _)) =>
    case InstallPtk(Attempted(Exception, _, _)) =>
  }

  lemma StaDoMoves(s: State, step: StaStep) returns (t: State, y: Session)
    requires AllSessions(s.sessions) && Enabled(s, StaDo(step))
    ensures t == Next(s, StaDo(step)) && y == StaNext(s.StaSession(), s.pending, step) && StaMoves(s, t, y)
  {
    t, y := Next(s, StaDo(step)), StaNext(s.StaSession(), s.pending, step);
    assert SessionInv(s.sessions[s.accepted - 1]);
    StaStepMoves(s.StaSession(), s.accepted - 1, s.pending, step);
    assert Turns(s.StaSession(), y, s.pending, t.pending);
  }

  lemma StaMoveGrows(s: State, t: State, y: Session)
    requires StaMoves(s, t, y)
    ensures Grows(s.sessions, t.sessions)
  {
    ReplaceGrows(s.sessions, s.accepted - 1, y);
  }

  /** What the invariant says about the log when the STA forwards. */
  ghost predicate StaMayForward(log: seq<Event>, sessions: seq<Session>, e: Event) {
    e.StaForwarded? ==>
      && e.sid < |sessions| && sessions[e.sid].staForward == Some(e.attempt)
      && LastSync(log) == Some((e.sid, sessions[e.sid].key))
      && OpenKey(log) == Some(sessions[e.sid].key)
      && e.attempt.key == Effective(sessions[e.sid].key, Overwrite(log))
  }

  lemma StaEventKeepsLog(log: seq<Event>, e: Event, sessions: seq<Session>)
    requires ApLog(log, sessions) && StaLog(log, sessions) && !e.ApForwarded? && StaMayForward(log, sessions, e)
    ensures ApLog(log + [e], sessions) && StaLog(log + [e], sessions)
  {
    ApLogExtends(log, e, sessions);
    StaLogExtends(log, e, sessions);
  }

  lemma StaEventsKeepLog(log: seq<Event>, sid: nat, y: Session, sessions: seq<Session>)
    requires ApLog(log, sessions) && StaLog(log, sessions)
    requires y.staForward.Some? && !y.sta.SyncSeen? ==> StaMayForward(log, sessions, StaForwarded(sid, y.staForward.value))
    ensures ApLog(log + StaMoveEvents(sid, y), sessions) && StaLog(log + StaMoveEvents(sid, y), sessions)
  {
    var events := StaMoveEvents(sid, y);
    if |events| == 0 {
      assert log + events == log;
    } else {
      StaEventKeepsLog(log, events[0], sessions);
      if |events| == 1 {
        assert log + events == log + [events[0]];
      } else {
        assert log + events == (log + [events[0]]) + [events[1]];
        StaEventKeepsLog(log + [events[0]], events[1], sessions);
      }
    }
  }

  lemma StaMoveKeepsLog(s: State, t: State, y: Session)
    requires ApLog(s.log, s.sessions) && StaLog(s.log, s.sessions) && PendingInv(s) && StaMoves(s, t, y)
    ensures ApLog(t.log, t.sessions) && StaLog(t.log, t.sessions)
  {
    StaMoveGrows(s, t, y);
    ApLogGrows(s.log, s.sessions, t.sessions);
    StaLogGrows(s.log, s.sessions, t.sessions);
    StaEventsKeepLog(s.log, s.accepted - 1, y, t.sessions);
  }

  lemma QuietMoveKeepsOrder(s: State, t: State, y: Session)
    requires PendingInv(s) && DisconnectLog(s.log, s.sessions) && StaMoves(s, t, y)
    requires y.staForward.None?
    ensures DisconnectLog(t.log, t.sessions) && PendingInv(t) && ForwardInv(t)
  {
    var events := StaMoveEvents(s.accepted - 1, y);
    if events == [] {
      assert t.log == s.log;
    } else {
      assert events == [events[0]];
      LogStep(s.log, events[0]);
    }
    forall i | 0 <= i < |t.sessions| ensures DisconnectOrder(t.log, t.sessions[i], i) {
      assert DisconnectOrder(s.log, s.sessions[i], i);
    }
  }

  lemma ForwardMoveKeepsOrder(s: State, t: State, y: Session)
    requires DisconnectLog(s.log, s.sessions) && StaMoves(s, t, y) && ApSide(s.StaSession())
    requires y.staForward.Some?
    ensures DisconnectLog(t.log, t.sessions) && PendingInv(t) && ForwardInv(t)
  {
    var e, f := StaForwarded(s.accepted - 1, y.staForward.value), StaClosed(s.accepted - 1, y.staDisconnected);
    assert t.log == s.log + [e] + [f];
    LogStep(s.log, e);
    LogStep(s.log + [e], f);
    forall i | 0 <= i < |t.sessions| ensures DisconnectOrder(t.log, t.sessions[i], i) {
      assert DisconnectOrder(s.log, s.sessions[i], i);
    }
  }

  lemma StaMoveKeepsLogInv(s: State, t: State, y: Session)
    requires Inv(s) && StaMoves(s, t, y)
    ensures PendingInv(t) && ForwardInv(t) && LogInv(t) && Records(t)
  {
    StaMoveKeepsLog(s, t, y);
    if y.staForward.Some? {
      assert SessionInv(s.StaSession());
      ForwardMoveKeepsOrder(s, t, y);
    } else {
      QuietMoveKeepsOrder(s, t, y);
    }
    StaMoveGrows(s, t, y);
    RecordsGrow(s, t, StaMoveEvents(s.accepted - 1, y));
  }

  lemma NextKeepsLogInv(s: State, a: Action)
    requires Inv(s) && Enabled(s, a) && !a.ApDo? && !a.StaDo?
    ensures var t := Next(s, a); PendingInv(t) && ForwardInv(t) && LogInv(t)
  {
    match a
    case ApConnect(_) => ConnectionKeepsInv(s, a);
    case StaAccept => ConnectionKeepsInv(s, a);
    case ApGiveUp => OutsideEventKeepsInv(s, Next(s, a), OtherDisconnect);
    case WatchdogFires => OutsideEventKeepsInv(s, Next(s, a), OtherDisconnect);
    case MainStore(written) => if written { OutsideEventKeepsInv(s, Next(s, a), Stored(s.main.key)); }
    case _ =>
  }

  /** Events are only added, and at most one of them is an attempt of the STA, the first one in its session. */
  lemma RecordsGrow(s: State, t: State, events: seq<Event>)
    requires Records(s) && StaLog(s.log, s.sessions) && t.log == s.log + events
    requires Grows(s.sessions, t.sessions)
    requires forall i: nat :: i < |t.sessions| && t.sessions[i].apForward.Some? ==>
               (i < |s.sessions| && s.sessions[i].apForward.Some?) || ApForwarded(i, t.sessions[i].apForward.value) in events
    requires forall i :: 0 < i < |events| ==> !events[i].StaForwarded?
    requires events != [] && events[0].StaForwarded? ==>
               events[0].sid < |s.sessions| && s.sessions[events[0].sid].staForward.None?
    ensures Records(t)
  {
    forall i: nat | i < |t.sessions| && t.sessions[i].apForward.Some?
      ensures ApForwarded(i, t.sessions[i].apForward.value) in t.log
    {
      assert ApForwarded(i, t.sessions[i].apForward.value) in s.log || ApForwarded(i, t.sessions[i].apForward.value) in events;
    }
  }

  lemma ApDoKeepsRecords(s: State, step: ApStep)
    requires Inv(s) && Enabled(s, ApDo(step))
    ensures Records(Next(s, ApDo(step)))
  {
    ApDoGrows(s, step);
    RecordsGrow(s, Next(s, ApDo(step)), ApEvents(s.ApSession(), |s.sessions| - 1, step));
  }

  lemma OthersKeepRecords(s: State, a: Action)
    requires Inv(s) && Enabled(s, a) && !a.ApDo? && !a.StaDo?
    ensures Records(Next(s, a))
  {
    var t := Next(s, a);
    OthersGrow(s, a);
    RecordsGrow(s, t, if t.log == s.log then [] else [t.log[|s.log|]]);
  }

  lemma NextKeepsInv(s: State, a: Action)
    requires Inv(s) && Enabled(s, a)
    ensures Inv(Next(s, a))
  {
    NextKeepsShape(s, a);
    NextKeepsSessions(s, a);
    if a.ApDo? {
      ApDoKeepsRecords(s, a.apStep);
      ApDoKeepsLog(s, a.apStep);
      ApDoKeepsOrder(s, a.apStep);
    } else if a.StaDo? {
      var t, y := StaDoMoves(s, a.staStep);
      StaMoveKeepsLogInv(s, t, y);
    } else {
      OthersKeepRecords(s, a);
      NextKeepsLogInv(s, a);
    }
  }

  /** Every reachable state satisfies the invariant. */
  lemma {:induction false} RunKeepsInv(run: seq<Action>)
    requires Run(run).Some?
    ensures Inv(Run(run).value)
  {
    if run != [] {
      RunKeepsInv(run[..|run| - 1]);
      NextKeepsInv(Run(run[..|run| - 1]).value, run[|run| - 1]);
    }
  }
}
