/**
 The commit protocol under the eyes of its watchdogs: the install times that the watchdog of a side reads are
 those at which that side stamped a session of the protocol, and the time at which it was started.
 */
module RekeyRound {
  import opened Common
  import opened PtkCommit
  import opened PtkCommitSafety
  import opened PtkCommitTheorems
  import W = Watchdog

  datatype Side = Ap | Sta

  predicate Stamped(side: Side, x: Session) {
    match side
    case Ap => x.apStamped
    case Sta => x.staStamped
  }

  /** This action records an install. */
  predicate Stamps(side: Side, s: State, a: Action)
    requires Enabled(s, a)
  {
    match side
    case Ap => a == ApDo(Finish) && s.ApSession().ap.ok
    case Sta => a.StaDo? && Installs(a.staStep)
  }

  /** The session that a side is working on. */
  function Working(side: Side, s: State): int {
    match side
    case Ap => |s.sessions| - 1
    case Sta => s.accepted - 1
  }

  /** When the side stamped session `sid`, in a run whose actions happen at these times. */
  function StampTime(side: Side, run: seq<Action>, times: seq<real>, sid: nat): Option<real>
    requires Run(run).Some? && |times| == |run|
  {
    if run == [] then None
    else
      var n := |run| - 1;
      var s := Run(run[..n]).value;
      if Stamps(side, s, run[n]) && Working(side, s) == sid then Some(times[n])
      else StampTime(side, run[..n], times[..n], sid)
  }

  /** What the variable with the time of the latest install has held. */
  function InstallTimes(side: Side, run: seq<Action>, times: seq<real>, start: real): seq<real>
    requires Run(run).Some? && |times| == |run|
  {
    if run == [] then [start]
    else
      var n := |run| - 1;
      InstallTimes(side, run[..n], times[..n], start) + if Stamps(side, Run(run[..n]).value, run[n]) then [times[n]] else []
  }

  lemma ApStepStamps(x: Session, step: ApStep)
    requires SessionInv(x) && ApEnabled(x, step)
    ensures !x.apStamped && (ApNext(x, step).apStamped <==> step.Finish? && x.ap.ok)
    ensures ApNext(x, step).staStamped == x.staStamped
  {}

  lemma StaStepStamps(x: Session, pending: Option<Key>, step: StaStep)
    requires SessionInv(x) && StaEnabled(x, pending, step)
    ensures !x.staStamped && (StaNext(x, pending, step).staStamped <==> Installs(step))
    ensures StaNext(x, pending, step).apStamped == x.apStamped
  {}

  /** This session is stamped now that was not before. */
  ghost predicate NewlyStamped(side: Side, before: seq<Session>, after: seq<Session>, sid: nat) {
    sid < |after| && Stamped(side, after[sid]) && !(sid < |before| && Stamped(side, before[sid]))
  }

  ghost predicate StaysStamped(side: Side, before: seq<Session>, after: seq<Session>, sid: nat) {
    sid < |before| && Stamped(side, before[sid]) ==> sid < |after| && Stamped(side, after[sid])
  }

  lemma ReplacedStamps(side: Side, sessions: seq<Session>, i: nat, y: Session, sid: nat)
    requires i < |sessions| && (Stamped(side, sessions[i]) ==> Stamped(side, y))
    ensures NewlyStamped(side, sessions, sessions[i := y], sid) <==> sid == i && Stamped(side, y) && !Stamped(side, sessions[i])
    ensures StaysStamped(side, sessions, sessions[i := y], sid)
  {}

  lemma ApDoStamps(side: Side, s: State, step: ApStep, sid: nat)
    requires AllSessions(s.sessions) && s.ApBusy() && ApEnabled(s.ApSession(), step)
    ensures var i := |s.sessions| - 1; var after := s.sessions[i := ApNext(s.ApSession(), step)];
            && (NewlyStamped(side, s.sessions, after, sid) <==> side.Ap? && step.Finish? && s.ApSession().ap.ok && sid == i)
            && StaysStamped(side, s.sessions, after, sid)
  {
    ApStepStamps(s.ApSession(), step);
    ReplacedStamps(side, s.sessions, |s.sessions| - 1, ApNext(s.ApSession(), step), sid);
  }

  lemma StaDoStamps(side: Side, s: State, step: StaStep, sid: nat)
    requires AllSessions(s.sessions) && s.StaBusy() && StaEnabled(s.StaSession(), s.pending, step)
    ensures var i := s.accepted - 1; var after := s.sessions[i := StaNext(s.StaSession(), s.pending, step)];
            && (NewlyStamped(side, s.sessions, after, sid) <==> side.Sta? && Installs(step) && sid == i)
            && StaysStamped(side, s.sessions, after, sid)
  {
    StaStepStamps(s.StaSession(), s.pending, step);
    ReplacedStamps(side, s.sessions, s.accepted - 1, StaNext(s.StaSession(), s.pending, step), sid);
  }

  lemma OthersStampNothing(side: Side, s: State, a: Action, sid: nat)
    requires Enabled(s, a) && !a.ApDo? && !a.StaDo?
    ensures !NewlyStamped(side, s.sessions, Next(s, a).sessions, sid)
    ensures StaysStamped(side, s.sessions, Next(s, a).sessions, sid)
  {}

  /** A session is stamped by the side that works on it, once and for good. */
  lemma StampStep(side: Side, s: State, a: Action, sid: nat)
    requires AllSessions(s.sessions) && Enabled(s, a)
    ensures Stamps(side, s, a) ==> 0 <= Working(side, s) < |s.sessions|
    ensures NewlyStamped(side, s.sessions, Next(s, a).sessions, sid) <==> Stamps(side, s, a) && Working(side, s) == sid
    ensures StaysStamped(side, s.sessions, Next(s, a).sessions, sid)
  {
    match a
    case ApDo(step) => ApDoStamps(side, s, step, sid);
    case StaDo(step) => StaDoStamps(side, s, step, sid);
    case _ => OthersStampNothing(side, s, a, sid);
  }

  /** A side has stamped exactly the sessions for which there is a time. */
  lemma {:induction false} StampedHasTime(side: Side, run: seq<Action>, times: seq<real>, sid: nat)
    requires Run(run).Some? && |times| == |run|
    ensures StampTime(side, run, times, sid).Some? <==> Reached(run, sid) && Stamped(side, SessionOf(run, sid))
  {
    if run != [] {
      var n := |run| - 1;
      RunKeepsInv(run[..n]);
      StampedHasTime(side, run[..n], times[..n], sid);
      StampStep(side, Run(run[..n]).value, run[n], sid);
    }
  }

  /** A session keeps the time of its stamp. */
  lemma StampTimeStays(side: Side, run: seq<Action>, times: seq<real>, sid: nat)
    requires run != [] && Run(run).Some? && |times| == |run|
    requires StampTime(side, run[..|run| - 1], times[..|run| - 1], sid).Some?
    ensures StampTime(side, run, times, sid) == StampTime(side, run[..|run| - 1], times[..|run| - 1], sid)
  {
    var n := |run| - 1;
    RunKeepsInv(run[..n]);
    StampedHasTime(side, run[..n], times[..n], sid);
    StampStep(side, Run(run[..n]).value, run[n], sid);
  }

  /** Every install time is the start-up time or the time of a stamp. */
  lemma {:induction false} InstallHasSession(side: Side, run: seq<Action>, times: seq<real>, start: real, x: real) returns (sid: nat)
    requires Run(run).Some? && |times| == |run| && x in InstallTimes(side, run, times, start) && x != start
    ensures StampTime(side, run, times, sid) == Some(x)
  {
    var n := |run| - 1;
    if x in InstallTimes(side, run[..n], times[..n], start) {
      sid := InstallHasSession(side, run[..n], times[..n], start, x);
      StampTimeStays(side, run, times, sid);
    } else {
      RunKeepsInv(run[..n]);
      StampStep(side, Run(run[..n]).value, run[n], 0);
      sid := Working(side, Run(run[..n]).value);
    }
  }

  /** The start-up time is an install time, and so is the time of every stamp. */
  lemma {:induction false} SessionIsInstall(side: Side, run: seq<Action>, times: seq<real>, start: real, sid: nat)
    requires Run(run).Some? && |times| == |run|
    ensures start in InstallTimes(side, run, times, start)
    ensures var x := StampTime(side, run, times, sid); x.Some? ==> x.value in InstallTimes(side, run, times, start)
  {
    if run != [] { SessionIsInstall(side, run[..|run| - 1], times[..|run| - 1], start, sid); }
  }

  /**
   The watchdog of a side judges a trigger by the sessions: it disconnects exactly if that side stamped no session
   from the trigger up to the poll, and was not started in that time either.
   */
  lemma WatchdogSeesSessions(side: Side, run: seq<Action>, times: seq<real>, start: real,
                             timeout: real, polls: seq<W.Poll>, triggers: seq<W.Trigger>, j: nat)
    requires Run(run).Some? && |times| == |run|
    requires W.Observes(polls, triggers, InstallTimes(side, run, times, start))
    requires j < |polls| && W.VerdictAt(timeout, polls, j).Some?
    ensures var v := W.VerdictAt(timeout, polls, j).value;
            v.disconnect <==>
            && !(v.trigger <= start <= polls[j].now)
            && forall sid: nat :: match StampTime(side, run, times, sid)
                                  case Some(x) => !(v.trigger <= x <= polls[j].now)
                                  case None => true
  {
    var installs, v, now := InstallTimes(side, run, times, start), W.VerdictAt(timeout, polls, j).value, polls[j].now;
    W.DisconnectIffNoInstall(timeout, polls, triggers, installs, j);
    SessionIsInstall(side, run, times, start, 0);
    if v.disconnect {
      forall sid: nat | StampTime(side, run, times, sid).Some?
        ensures !(v.trigger <= StampTime(side, run, times, sid).value <= now)
      {
        SessionIsInstall(side, run, times, start, sid);
      }
    } else {
      var m :| 0 <= m < |installs| && v.trigger <= installs[m] <= now;
      if installs[m] != start {
        var sid := InstallHasSession(side, run, times, start, installs[m]);
      }
    }
  }

  /**
   A silent split escapes the watchdog of either side: if the trigger of the round comes before the stamp, and the
   timeout after it, then the one verdict on that trigger is not to disconnect.
   */
  lemma SilentSplitEscapes(side: Side, run: seq<Action>, times: seq<real>, start: real, sid: nat,
                           timeout: real, gap: real, polls: seq<W.Poll>, triggers: seq<W.Trigger>, i: nat) returns (j: nat)
    requires |times| == |run| && Reached(run, sid)
    requires var x := SessionOf(run, sid); x.Finished() && x.Split() && x.Silent()
    requires W.Ordered(triggers) && W.Observes(polls, triggers, InstallTimes(side, run, times, start)) && i < |triggers|
    requires triggers[i].visible <= triggers[i].stamp + timeout
    requires i + 1 < |triggers| ==> triggers[i + 1].stamp >= triggers[i].stamp + timeout + gap
    requires forall k :: 0 < k < |polls| ==> polls[k].now - polls[k - 1].now <= gap
    requires |polls| > 0 && polls[0].now < triggers[i].stamp + timeout + gap
    requires polls[|polls| - 1].now >= triggers[i].stamp + timeout
    requires match StampTime(side, run, times, sid)
             case Some(x) => triggers[i].stamp <= x <= triggers[i].stamp + timeout
             case None => true
    ensures j < |polls| && W.VerdictAt(timeout, polls, j) == Some(W.Verdict(triggers[i].stamp, false))
    ensures forall k :: 0 <= k < |polls| && k != j ==>
              (var v := W.VerdictAt(timeout, polls, k); !(v.Some? && v.value.trigger == triggers[i].stamp))
  {
    j := W.TimelyVerdict(timeout, gap, polls, triggers, InstallTimes(side, run, times, start), i);
    SilentSplitIsStamped(run, sid);
    StampedHasTime(side, run, times, sid);
    WatchdogSeesSessions(side, run, times, start, timeout, polls, triggers, j);
  }
}
