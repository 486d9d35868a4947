/**
 The commit protocol that installs one PTK on both WiFi interfaces.

 The AP main loop, the STA sync thread and the STA main loop are interleaved step by step over one
 connection per session. A connection is a pair of message streams; a receiver may time out or
 fail at any moment, so delay and loss are covered. Connections reach the STA in the order in which
 the AP opened them, because the STA serves its listen backlog one connection at a time. The AP
 may therefore give up on a session long before the STA even accepts it.
 */
module PtkCommit {
  import opened Common

  type Key = string

  const KEY_DIGITS := 96

  datatype Message = Sync(key: Key) | Ready | NotReady | Install | Ok | Fail

  /** What a blocking receive came back with. */
  datatype Receive = Arrived | Closed | TimedOut | Broken

  /** What the caller of the sender script sees; an exit status of 0 is a success. */
  datatype Report = Success | Failure | Exception

  /**
   Handing a key to the local WiFi daemon. What is reported says nothing about what was delivered: the sender
   exits with 0 also when it has given up after its retries, and it may be stopped after it has delivered.
   */
  datatype Attempt = Attempt(key: Key, report: Report, delivered: bool)

  /** What became of the install step of the STA; `sent` tells whether its reply could be sent. */
  datatype StaResult =
    | NotAssociated(sent: bool)
    | Attempted(report: Report, delivered: bool, sent: bool)

  datatype ApPhase = Connected | AwaitReady | ReadySeen | AwaitReply | OkSeen | Returning(ok: bool) | ApDone
  datatype StaPhase = Queued | AwaitSync | SyncSeen | AwaitInstall | InstallSeen | StaDone

  /** One TCP connection, both ends of it, and what each side did about the WiFi link in it. */
  datatype Session = Session(
    key: Key,
    ap: ApPhase,
    sta: StaPhase,
    toSta: seq<Message>,        // everything the AP sent
    staRead: nat,               // how much of it the STA has received
    toAp: seq<Message>,         // everything the STA sent
    apRead: nat,
    apForward: Option<Attempt>,
    staForward: Option<Attempt>,
    late: bool,                 // the AP had already given up when the STA forwarded
    apStamped: bool,            // the AP recorded a successful install for its watchdog
    staStamped: bool,
    apDisconnected: bool,
    staDisconnected: bool)
  {
    predicate ApClosed() { ap.Returning? || ap.ApDone? }
    predicate StaClosed() { sta.StaDone? }
    predicate Finished() { ap.ApDone? && sta.StaDone? }
    predicate ReadySent() { |toAp| > 0 && toAp[0] == Ready }
    predicate OkSent() { |toAp| == 2 && toAp[0] == Ready && toAp[1] == Ok }
    predicate OkReceived() { OkSent() && apRead == 2 }
    predicate ApDelivered() { apForward.Some? && apForward.value.delivered }
    predicate StaDelivered() { staForward.Some? && staForward.value.delivered }

    /** One side switched its WiFi key and the other did not. */
    predicate Split() { StaDelivered() != ApDelivered() }
    predicate Silent() { !apDisconnected && !staDisconnected }
  }

  datatype ApLoop = Idle | Start(key: Key) | Refused | InSession
  datatype MainLoop = Waiting | Holding(key: Key)

  datatype Event =
    | Synced(sid: nat, key: Key)
    | Stored(key: Key)
    | StaForwarded(sid: nat, attempt: Attempt)
    | ApForwarded(sid: nat, attempt: Attempt)
    | ApDisconnect(sid: nat)
    | StaClosed(sid: nat, disconnected: bool)
    | OtherDisconnect           // a refused connection or a watchdog

  datatype State = State(
    ap: ApLoop,
    apLast: Option<Key>,
    sessions: seq<Session>,     // in the order in which the AP opened them
    accepted: nat,              // how many the STA has taken from its backlog
    pending: Option<Key>,
    staLast: Option<Key>,
    main: MainLoop,
    log: seq<Event>)
  {
    predicate StaBusy() { 0 < accepted <= |sessions| && !sessions[accepted - 1].sta.StaDone? }
    predicate ApBusy() { ap.InSession? && |sessions| > 0 }
    function ApSession(): Session requires ApBusy() { sessions[|sessions| - 1] }
    function StaSession(): Session requires StaBusy() { sessions[accepted - 1] }
  }

  const INIT := State(Idle, None, [], 0, None, None, Waiting, [])

  /** The steps of the AP inside a session. */
  datatype ApStep =
    | SendSync(sent: bool)
    | RecvReady(got: Receive)
    | SendInstall(sent: bool)
    | RecvReply(got: Receive)
    | Forward(report: Report, delivered: bool)
    | Finish

  /** The steps of the STA sync thread inside a session. */
  datatype StaStep =
    | RecvSync(got: Receive)
    | CheckWifi(associated: bool, sent: bool)
    | RecvInstall(got: Receive, sent: bool)
    | InstallPtk(outcome: StaResult)

  datatype Action =
    | ApReceive(key: Key, written: bool)   // the LiFi daemon of the AP pushes a PTK
    | ApConnect(accepted: bool)
    | ApGiveUp                             // after a refused connection
    | ApDo(apStep: ApStep)
    | StaAccept
    | StaDo(staStep: StaStep)
    | MainReceive(key: Key)                // the LiFi daemon of the STA pushes a PTK
    | MainStore(written: bool)
    | WatchdogFires

  predicate CanReceive(got: Receive, sent: seq<Message>, read: nat, closed: bool) {
    match got
    case Arrived => read < |sent|
    case Closed => closed && read >= |sent|
    case TimedOut => true
    case Broken => true
  }

  // ---------- the AP inside a session ----------

  predicate ApEnabled(x: Session, a: ApStep) {
    match a
    case SendSync(_) => x.ap.Connected?
    case RecvReady(got) => x.ap.AwaitReady? && CanReceive(got, x.toAp, x.apRead, x.StaClosed())
    case SendInstall(_) => x.ap.ReadySeen?
    case RecvReply(got) => x.ap.AwaitReply? && CanReceive(got, x.toAp, x.apRead, x.StaClosed())
    case Forward(_, _) => x.ap.OkSeen?
    case Finish => x.ap.Returning?
  }

  /** After a send: on failure the exception handler makes the sync return False. */
  function ApSent(x: Session, sent: bool, m: Message, next: ApPhase): Session {
    if sent then x.(toSta := x.toSta + [m], ap := next) else x.(ap := Returning(false))
  }

  /** After a receive: anything but the expected reply makes the sync return False. */
  function ApReceived(x: Session, got: Receive, expected: Message, next: ApPhase): Session
    requires got.Arrived? ==> x.apRead < |x.toAp|
  {
    if got.Arrived? then
      x.(apRead := x.apRead + 1, ap := if x.toAp[x.apRead] == expected then next else Returning(false))
    else x.(ap := Returning(false))
  }

  /** A step of the AP leaves what the STA has sent and done alone. */
  function ApNext(x: Session, a: ApStep): (y: Session)
    requires ApEnabled(x, a)
    ensures y.key == x.key && y.sta == x.sta && y.toAp == x.toAp
    ensures y.staForward == x.staForward && y.late == x.late && y.staDisconnected == x.staDisconnected
    ensures y.ap.ApDone? <==> a.Finish?
  {
    match a
    case SendSync(sent) => ApSent(x, sent, Sync(x.key), AwaitReady)
    case RecvReady(got) => ApReceived(x, got, Ready, ReadySeen)
    case SendInstall(sent) => ApSent(x, sent, Install, AwaitReply)
    case RecvReply(got) => ApReceived(x, got, Ok, OkSeen)
    case Forward(report, delivered) =>
      x.(apForward := Some(Attempt(x.key, report, delivered)), ap := Returning(!report.Exception?))
    case Finish => if x.ap.ok then x.(ap := ApDone, apStamped := true) else x.(ap := ApDone, apDisconnected := true)
  }

  function ApEvents(x: Session, sid: nat, a: ApStep): seq<Event>
    requires ApEnabled(x, a)
  {
    match a
    case Forward(report, delivered) => [ApForwarded(sid, Attempt(x.key, report, delivered))]
    case Finish => if x.ap.ok then [] else [ApDisconnect(sid)]
    case _ => []
  }

  // ---------- the STA inside a session ----------

  predicate StaEnabled(x: Session, pending: Option<Key>, a: StaStep) {
    match a
    case RecvSync(got) => x.sta.AwaitSync? && CanReceive(got, x.toSta, x.staRead, x.ApClosed())
    case CheckWifi(_, _) => x.sta.SyncSeen?
    case RecvInstall(got, _) => x.sta.AwaitInstall? && CanReceive(got, x.toSta, x.staRead, x.ApClosed())
    case InstallPtk(outcome) => x.sta.InstallSeen? &&
                                (outcome.NotAssociated? || (pending.Some? && pending.value != ""))
  }

  function Reply(x: Session, sent: bool, m: Message): Session {
    if sent then x.(toAp := x.toAp + [m]) else x
  }

  /** The STA closes the connection, with or without dropping the WiFi link. */
  function StaExit(x: Session, disconnect: bool): Session {
    x.(sta := StaDone, staDisconnected := disconnect)
  }

  function StaForward(x: Session, pending: Option<Key>, report: Report, delivered: bool): Session
    requires pending.Some?
  {
    x.(staForward := Some(Attempt(pending.value, report, delivered)), late := x.ap.ApDone?)
  }

  /** The install step, all of it under the lock on the pending key. */
  function InstallNext(x: Session, pending: Option<Key>, outcome: StaResult): (y: Session)
    requires outcome.NotAssociated? || pending.Some?
    ensures ApUntouched(x, y) && y.sta.StaDone?
  {
    match outcome
    case NotAssociated(sent) => StaExit(Reply(x, sent, NotReady), true)
    case Attempted(report, delivered, sent) =>
      var y := StaForward(x, pending, report, delivered);
      match report
      case Success => StaExit(Reply(y, sent, Ok), !sent).(staStamped := true)
      case Failure => StaExit(Reply(y, sent, Fail), true)
      case Exception => StaExit(y, true)
  }

  predicate ApUntouched(x: Session, y: Session) {
    && y.key == x.key && y.ap == x.ap && y.toSta == x.toSta && y.apForward == x.apForward
    && y.apDisconnected == x.apDisconnected && y.apStamped == x.apStamped && y.apRead == x.apRead
  }

  /** A step of the STA leaves what the AP has sent and done alone. */
  function StaNext(x: Session, pending: Option<Key>, a: StaStep): (y: Session)
    requires StaEnabled(x, pending, a)
    ensures ApUntouched(x, y) && !y.sta.Queued?
  {
    match a
    case RecvSync(got) =>
      if got.Arrived? then
        var y := x.(staRead := x.staRead + 1);
        if x.toSta[x.staRead].Sync? then y.(sta := SyncSeen) else StaExit(y, false)
      else StaExit(x, !got.Closed?)
    case CheckWifi(associated, sent) =>
      if associated then
        if sent then Reply(x, true, Ready).(sta := AwaitInstall) else StaExit(x, true)
      else StaExit(Reply(x, sent, NotReady), !sent)
    case RecvInstall(got, sent) =>
      if got.Arrived? then
        var y := x.(staRead := x.staRead + 1);
        if x.toSta[x.staRead] == Install then y.(sta := InstallSeen) else StaExit(Reply(y, sent, Fail), true)
      else if got.Closed? then StaExit(Reply(x, sent, Fail), true)
      else StaExit(x, true)
    case InstallPtk(outcome) => InstallNext(x, pending, outcome)
  }

  function StaEvents(x: Session, sid: nat, pending: Option<Key>, a: StaStep): seq<Event>
    requires StaEnabled(x, pending, a)
  {
    if a.RecvSync? && a.got.Arrived? && x.toSta[x.staRead].Sync? then [Synced(sid, x.toSta[x.staRead].key)]
    else
      (if a.InstallPtk? && a.outcome.Attempted?
       then [StaForwarded(sid, Attempt(pending.value, a.outcome.report, a.outcome.delivered))] else [])
      + (if StaNext(x, pending, a).sta.StaDone? then [StaClosed(sid, StaNext(x, pending, a).staDisconnected)] else [])
  }

  /** The sender of the STA reports success. */
  predicate Installs(a: StaStep) {
    a.InstallPtk? && a.outcome.Attempted? && a.outcome.report.Success?
  }

  /** The shared pending key after a step of the sync thread. */
  function StaPending(x: Session, pending: Option<Key>, a: StaStep): Option<Key>
    requires StaEnabled(x, pending, a)
  {
    if a.RecvSync? && a.got.Arrived? && x.toSta[x.staRead].Sync? then Some(x.toSta[x.staRead].key)
    else if Installs(a) then None
    else pending
  }

  // ---------- the whole system ----------

  predicate Enabled(s: State, a: Action) {
    match a
    case ApReceive(k, _) => s.ap.Idle? && |k| == KEY_DIGITS
    case ApConnect(_) => s.ap.Start?
    case ApGiveUp => s.ap.Refused?
    case ApDo(step) => s.ApBusy() && ApEnabled(s.ApSession(), step)
    case StaAccept => !s.StaBusy() && s.accepted < |s.sessions|
    case StaDo(step) => s.StaBusy() && StaEnabled(s.StaSession(), s.pending, step)
    case MainReceive(k) => s.main.Waiting? && |k| == KEY_DIGITS
    case MainStore(_) => s.main.Holding?
    case WatchdogFires => true
  }

  function NewSession(k: Key): Session {
    Session(k, Connected, Queued, [], 0, [], 0, None, None, false, false, false, false, false)
  }

  function Next(s: State, a: Action): State
    requires Enabled(s, a)
  {
    match a
    case ApReceive(k, written) =>
      if s.apLast == Some(k) then s
      else s.(apLast := Some(k), ap := if written then Start(k) else Idle)
    case ApConnect(accepted) =>
      if accepted then s.(ap := InSession, sessions := s.sessions + [NewSession(s.ap.key)])
      else s.(ap := Refused)
    case ApGiveUp => s.(ap := Idle, log := s.log + [OtherDisconnect])
    case ApDo(step) =>
      var x := s.ApSession();
      var sid := |s.sessions| - 1;
      s.(sessions := s.sessions[sid := ApNext(x, step)],
         ap := if step.Finish? then Idle else InSession,
         log := s.log + ApEvents(x, sid, step))
    case StaAccept =>
      s.(accepted := s.accepted + 1,
         sessions := s.sessions[s.accepted := s.sessions[s.accepted].(sta := AwaitSync)])
    case StaDo(step) =>
      var x := s.StaSession();
      var sid := s.accepted - 1;
      s.(sessions := s.sessions[sid := StaNext(x, s.pending, step)],
         pending := StaPending(x, s.pending, step),
         staLast := if Installs(step) then s.pending else s.staLast,
         log := s.log + StaEvents(x, sid, s.pending, step))
    case MainReceive(k) => if s.staLast == Some(k) then s else s.(main := Holding(k))
    case MainStore(written) =>
      if written then s.(pending := Some(s.main.key), main := Waiting, log := s.log + [Stored(s.main.key)])
      else s.(main := Waiting)
    case WatchdogFires => s.(log := s.log + [OtherDisconnect])
  }

  /** The state after a run, or None when some action of it was not enabled. */
  function Run(run: seq<Action>): Option<State> {
    if run == [] then Some(INIT)
    else
      var before := Run(run[..|run| - 1]);
      var a := run[|run| - 1];
      if before.Some? && Enabled(before.value, a) then Some(Next(before.value, a)) else None
  }

  // ---------- what the log says ----------

  /** The latest attempt of the STA to hand over a key. */
  function LastForward(log: seq<Event>): Option<(nat, Attempt)> {
    if log == [] then None
    else
      var e := log[|log| - 1];
      if e.StaForwarded? then Some((e.sid, e.attempt)) else LastForward(log[..|log| - 1])
  }

  /** The key that the WiFi daemon of the STA got last. */
  function StaKey(log: seq<Event>): Option<Key> {
    if log == [] then None
    else
      var e := log[|log| - 1];
      if e.StaForwarded? && e.attempt.delivered then Some(e.attempt.key) else StaKey(log[..|log| - 1])
  }

  /** The key that the WiFi daemon of the AP got last. */
  function ApKey(log: seq<Event>): Option<Key> {
    if log == [] then None
    else
      var e := log[|log| - 1];
      if e.ApForwarded? && e.attempt.delivered then Some(e.attempt.key) else ApKey(log[..|log| - 1])
  }

  predicate Delivery(e: Event) {
    (e.StaForwarded? || e.ApForwarded?) && e.attempt.delivered
  }

  /** The session of the latest delivery on either side. */
  function LastDelivery(log: seq<Event>): Option<nat> {
    if log == [] then None
    else
      var e := log[|log| - 1];
      if Delivery(e) then Some(e.sid) else LastDelivery(log[..|log| - 1])
  }

  /** Whether session `sid` dropped the WiFi link after the latest delivery on either side. */
  predicate DisconnectSinceDelivery(log: seq<Event>, sid: nat) {
    log != [] &&
    var e := log[|log| - 1];
    if e == ApDisconnect(sid) || e == StaClosed(sid, true) then true
    else if Delivery(e) then false
    else DisconnectSinceDelivery(log[..|log| - 1], sid)
  }

  function LastSync(log: seq<Event>): Option<(nat, Key)> {
    if log == [] then None
    else
      var e := log[|log| - 1];
      if e.Synced? then Some((e.sid, e.key)) else LastSync(log[..|log| - 1])
  }

  /** The PTK the STA main loop stored last since the latest SYNC, if it stored one. */
  function Overwrite(log: seq<Event>): Option<Key> {
    if log == [] then None
    else
      var e := log[|log| - 1];
      if e.Synced? then None
      else if e.Stored? then Some(e.key)
      else Overwrite(log[..|log| - 1])
  }

  function Effective(k: Key, overwrite: Option<Key>): Key {
    if overwrite.Some? then overwrite.value else k
  }

  /** The key of the session that is between its SYNC and its end at the STA, if there is one. */
  function OpenKey(log: seq<Event>): Option<Key> {
    if log == [] then None
    else
      var e := log[|log| - 1];
      if e.Synced? then Some(e.key)
      else if e.StaClosed? then None
      else OpenKey(log[..|log| - 1])
  }

  /** Whether either side dropped the WiFi link in session `sid` after the STA tried to forward in it. */
  predicate DisconnectSinceForward(log: seq<Event>, sid: nat) {
    log != [] &&
    var e := log[|log| - 1];
    if e == ApDisconnect(sid) || e == StaClosed(sid, true) then true
    else if e.StaForwarded? && e.sid == sid then false
    else DisconnectSinceForward(log[..|log| - 1], sid)
  }
}
