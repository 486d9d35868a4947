/**
 Distribution of the LiFi passphrase: the AP sends it over a fresh connection, waits for an
 acknowledgement that carries the hash of what the STA applied, and only then issues `setptk`.
 The STA serves its listen backlog in order, so it may still be applying passphrases of connections
 on which the AP has long timed out.
 */
module Passphrase {
  import opened Common

  type Digest = string

  /** The hash and the whitespace stripping, of which only injectivity of the hash is ever assumed. */
  datatype Env = Env(hash: string -> Digest, strip: string -> string)

  ghost predicate Injective(env: Env) {
    forall p: string, q: string :: env.hash(p) == env.hash(q) ==> p == q
  }

  datatype Reply = Ack(digest: Digest) | Nack

  /**
   What became of `setpsk`. The exit status of wpa_cli does not depend on what the daemon made of the command, and
   the daemon does not answer with its result, so a success may have set nothing.
   */
  datatype Command = Succeeded(executed: bool) | Failed(executed: bool) | TimedOut(executed: bool)

  /** The daemon refuses passphrases that do not fit its buffer with a terminator; the AP takes up to as much as it receives. */
  const LIFI_PASSPHRASE_SIZE := 64
  const AP_RECV_SIZE := 64

  /** What reading the passphrase back shows; it is usually blocked or masked. */
  datatype Readback = Blocked | Masked | Shown(value: string)

  /** Whether setting the passphrase reports success. */
  predicate SetLifiPass(pass: string, setpsk: Command, readback: Readback, flushed: bool) {
    setpsk.Succeeded? && (readback.Shown? ==> readback.value == pass) && flushed
  }

  /** The option parser of wpa_cli, which also looks behind the command, takes this argument for itself. */
  predicate IsOption(pass: string) {
    |pass| > 1 && pass[0] == '-'
  }

  /** What wpa_cli passes on and the daemon takes. */
  predicate Takes(pass: string) {
    |pass| < LIFI_PASSPHRASE_SIZE && !IsOption(pass)
  }

  predicate Possible(pass: string, setpsk: Command) {
    setpsk.executed ==> Takes(pass)
  }

  datatype StaPhase = Queued | Reading | Applying | Answering(ok: bool) | Done

  datatype Connection = Connection(pass: string, open: bool, sent: bool, sta: StaPhase, reply: Option<Reply>)

  datatype ApLoop = Fetching | Connecting | Sending | Awaiting | Verified

  /** A command for a passphrase, and whether the daemon executed it. */
  datatype Event = Commanded(pass: string, executed: bool, reported: bool) | SetPtk(pass: string) | Disconnect

  datatype State = State(
    ap: ApLoop,
    latest: string,
    connections: seq<Connection>,   // in the order in which the AP opened them
    accepted: nat,                  // how many the STA has taken from its backlog
    log: seq<Event>)
  {
    predicate ApBusy() { (ap.Sending? || ap.Awaiting? || ap.Verified?) && |connections| > 0 }
    predicate StaBusy() { 0 < accepted <= |connections| && !connections[accepted - 1].sta.Done? }
  }

  const INIT := State(Fetching, "00000000", [], 0, [])

  datatype Action =
    | Fetch(pass: Option<string>)
    | Connect(accepted: bool)
    | Send(sent: bool)
    | RecvReply
    | GiveUp                        // timeout, closed connection or error while waiting
    | Rekey(issued: bool)
    | Accept
    | StaRecv(arrived: bool)
    | Apply(setpsk: Command, readback: Readback, flushed: bool)
    | Answer(delivered: bool)

  predicate Enabled(env: Env, s: State, a: Action) {
    match a
    case Fetch(pass) => s.ap.Fetching? && (pass.Some? ==> 0 < |pass.value| <= AP_RECV_SIZE)
    case Connect(_) => s.ap.Connecting?
    case Send(_) => s.ApBusy() && s.ap.Sending?
    case RecvReply => s.ApBusy() && s.ap.Awaiting? && s.connections[|s.connections| - 1].reply.Some?
    case GiveUp => s.ApBusy() && s.ap.Awaiting?
    case Rekey(_) => s.ApBusy() && s.ap.Verified?
    case Accept => !s.StaBusy() && s.accepted < |s.connections|
    case StaRecv(arrived) => s.StaBusy() && s.connections[s.accepted - 1].sta.Reading? &&
                             (arrived ==> s.connections[s.accepted - 1].sent)
    case Apply(setpsk, _, _) => s.StaBusy() && s.connections[s.accepted - 1].sta.Applying? &&
                                Possible(env.strip(s.connections[s.accepted - 1].pass), setpsk)
    case Answer(_) => s.StaBusy() && s.connections[s.accepted - 1].sta.Answering?
  }

  function Update(s: State, i: nat, c: Connection): State
    requires i < |s.connections|
  {
    s.(connections := s.connections[i := c])
  }

  function Record(s: State, e: Event): State {
    s.(log := s.log + [e])
  }

  /** The AP skips the rekey of this round and drops the WiFi link. */
  function Skip(s: State): State {
    Record(s, Disconnect).(ap := Fetching)
  }

  function Next(env: Env, s: State, a: Action): State
    requires Enabled(env, s, a)
  {
    var last := |s.connections| - 1;
    match a
    case Fetch(pass) => if pass.Some? then s.(latest := pass.value, ap := Connecting) else Skip(s)
    case Connect(accepted) =>
      if accepted then
        s.(ap := Sending, connections := s.connections + [Connection(s.latest, true, false, Queued, None)])
      else Skip(s)
    case Send(sent) =>
      if sent then Update(s, last, s.connections[last].(sent := true)).(ap := Awaiting)
      else Skip(Update(s, last, s.connections[last].(open := false)))
    case RecvReply =>
      var t := Update(s, last, s.connections[last].(open := false));
      if s.connections[last].reply == Some(Ack(env.hash(s.latest))) then t.(ap := Verified) else Skip(t)
    case GiveUp => Skip(Update(s, last, s.connections[last].(open := false)))
    case Rekey(issued) => if issued then Record(s, SetPtk(s.latest)).(ap := Fetching) else s.(ap := Fetching)
    case Accept => Update(s, s.accepted, s.connections[s.accepted].(sta := Reading)).(accepted := s.accepted + 1)
    case StaRecv(arrived) =>
      Update(s, s.accepted - 1, s.connections[s.accepted - 1].(sta := if arrived then Applying else Done))
    case Apply(setpsk, readback, flushed) =>
      var c := s.connections[s.accepted - 1];
      var pass := env.strip(c.pass);
      var t := Update(s, s.accepted - 1, c.(sta := Answering(SetLifiPass(pass, setpsk, readback, flushed))));
      Record(t, Commanded(pass, setpsk.executed, setpsk.Succeeded?))
    case Answer(delivered) =>
      var c := s.connections[s.accepted - 1];
      var reply := if c.sta.ok then Ack(env.hash(env.strip(c.pass))) else Nack;
      Update(s, s.accepted - 1, c.(sta := Done, reply := if delivered then Some(reply) else None))
  }

  function Run(env: Env, run: seq<Action>): Option<State> {
    if run == [] then Some(INIT)
    else
      var before := Run(env, run[..|run| - 1]);
      var a := run[|run| - 1];
      if before.Some? && Enabled(env, before.value, a) then Some(Next(env, before.value, a)) else None
  }

  /** The passphrase that the daemon of the STA got last. */
  function LastApplied(log: seq<Event>): Option<string> {
    if log == [] then None
    else
      var e := log[|log| - 1];
      if e.Commanded? && e.executed then Some(e.pass) else LastApplied(log[..|log| - 1])
  }

  /** Where the latest command to the daemon stands, or the length of the log. */
  function LastCommand(log: seq<Event>): (n: nat)
    ensures n <= |log| && (n < |log| ==> log[n].Commanded?)
  {
    if log == [] then 0
    else if log[|log| - 1].Commanded? then |log| - 1
    else
      var n := LastCommand(log[..|log| - 1]);
      if n == |log| - 1 then |log| else n
  }

  /** The latest command was for this passphrase and was reported as a success. */
  ghost predicate LastCommandIs(log: seq<Event>, pass: string) {
    var n := LastCommand(log);
    n < |log| && log[n].pass == pass && log[n].reported
  }

  // ---------- invariant ----------

  /** Only the latest connection is open; the STA works through them in order. */
  ghost predicate Shape(s: State) {
    && s.accepted <= |s.connections|
    && (forall i :: 0 <= i < |s.connections| ==> (s.connections[i].sta.Queued? <==> s.accepted <= i))
    && (forall i :: 0 <= i < s.accepted - 1 ==> s.connections[i].sta.Done?)
    && (forall i :: s.accepted <= i < |s.connections| ==> s.connections[i].reply.None?)
    && (s.ap.Sending? || s.ap.Awaiting? || s.ap.Verified? ==>
          |s.connections| > 0 && s.connections[|s.connections| - 1].pass == s.latest)
  }

  /** A success is only reported for the passphrase of the latest command, if that succeeded. */
  ghost predicate Acked(env: Env, s: State) {
    0 < s.accepted <= |s.connections| ==>
      var c := s.connections[s.accepted - 1];
      && (c.reply.Some? ==> c.sta.Done?)
      && (c.sta == Answering(true) || (c.reply.Some? && c.reply.value.Ack?) ==>
            LastCommandIs(s.log, env.strip(c.pass)))
      && (c.reply.Some? && c.reply.value.Ack? ==> c.reply.value.digest == env.hash(env.strip(c.pass)))
  }

  ghost predicate Committed(env: Env, s: State) {
    s.ap.Verified? && |s.connections| > 0 ==>
      && s.accepted == |s.connections|
      && s.connections[|s.connections| - 1].reply == Some(Ack(env.hash(s.latest)))
  }

  /** Each `setptk` follows a successful command for the stripped passphrase, with equal hashes. */
  ghost predicate Agreed(env: Env, log: seq<Event>) {
    forall i :: 0 <= i < |log| && log[i].SetPtk? ==>
      LastCommandIs(log[..i], env.strip(log[i].pass)) && env.hash(env.strip(log[i].pass)) == env.hash(log[i].pass)
  }

  /** The daemon got no passphrase that cannot be set. */
  ghost predicate Fitting(log: seq<Event>) {
    forall i :: 0 <= i < |log| && log[i].Commanded? && log[i].executed ==> Takes(log[i].pass)
  }

  ghost predicate Inv(env: Env, s: State) {
    Shape(s) && Acked(env, s) && Committed(env, s) && Agreed(env, s.log) && Fitting(s.log)
  }

  lemma RecordEvent(env: Env, log: seq<Event>, e: Event)
    requires Agreed(env, log)
    requires e.SetPtk? ==> LastCommandIs(log, env.strip(e.pass)) && env.hash(env.strip(e.pass)) == env.hash(e.pass)
    ensures Agreed(env, log + [e])
    ensures forall p :: LastCommandIs(log + [e], p) == if e.Commanded? then e.pass == p && e.reported else LastCommandIs(log, p)
  {
    var after := log + [e];
    assert after[..|log|] == log;
    forall i | 0 <= i < |log| ensures after[..i] == log[..i] {}
  }

  predicate IsApAction(a: Action) {
    a.Fetch? || a.Connect? || a.Send? || a.RecvReply? || a.GiveUp? || a.Rekey?
  }

  lemma NextKeepsShape(env: Env, s: State, a: Action)
    requires Shape(s) && Enabled(env, s, a)
    ensures Shape(Next(env, s, a))
  {
    match a
    case Fetch(_) =>
    case Connect(_) =>
    case Send(_) =>
    case Apply(_, _, _) =>
    case Answer(_) =>
    case _ =>
  }

  lemma ApKeepsInv(env: Env, s: State, a: Action)
    requires Inv(env, s) && Enabled(env, s, a) && IsApAction(a)
    ensures var t := Next(env, s, a); Acked(env, t) && Committed(env, t) && Agreed(env, t.log) && Fitting(t.log)
  {
    var t := Next(env, s, a);
    if t.log != s.log {
      var e := if a.Rekey? then SetPtk(s.latest) else Disconnect;
      assert t.log == s.log + [e];
      RecordEvent(env, s.log, e);
    }
  }

  lemma StaKeepsInv(env: Env, s: State, a: Action)
    requires Inv(env, s) && Enabled(env, s, a) && !IsApAction(a)
    ensures var t := Next(env, s, a); Acked(env, t) && Committed(env, t) && Agreed(env, t.log) && Fitting(t.log)
  {
    var t := Next(env, s, a);
    if t.log != s.log {
      var e := Commanded(env.strip(s.connections[s.accepted - 1].pass), a.setpsk.executed, a.setpsk.Succeeded?);
      assert t.log == s.log + [e];
      RecordEvent(env, s.log, e);
    }
  }

  lemma NextKeepsInv(env: Env, s: State, a: Action)
    requires Inv(env, s) && Enabled(env, s, a)
    ensures Inv(env, Next(env, s, a))
  {
    NextKeepsShape(env, s, a);
    if IsApAction(a) { ApKeepsInv(env, s, a); } else { StaKeepsInv(env, s, a); }
  }

  lemma {:induction false} RunKeepsInv(env: Env, run: seq<Action>)
    requires Run(env, run).Some?
    ensures Inv(env, Run(env, run).value)
  {
    if run != [] {
      RunKeepsInv(env, run[..|run| - 1]);
      NextKeepsInv(env, Run(env, run[..|run| - 1]).value, run[|run| - 1]);
    }
  }

  lemma {:induction false} LastAppliedIs(log: seq<Event>)
    ensures var n := LastCommand(log);
            LastApplied(log) == if n < |log| && log[n].executed then Some(log[n].pass)
                                else if n < |log| then LastApplied(log[..n]) else None
  {
    if log != [] && !log[|log| - 1].Commanded? {
      LastAppliedIs(log[..|log| - 1]);
      var n := LastCommand(log[..|log| - 1]);
      if n < |log| - 1 { assert log[..|log| - 1][..n] == log[..n]; }
    }
  }

  /**
   In every run, whenever the AP issues `setptk p`, the latest command of the STA to its daemon was for `p`
   stripped of surrounding whitespace, and was reported as a success. So that is what the daemon has exactly if it
   executed the command, or had the same passphrase before.
   */
  lemma SetPtkFollowsCommand(env: Env, run: seq<Action>, i: nat) returns (n: nat)
    requires Run(env, run).Some? && i < |Run(env, run).value.log| && Run(env, run).value.log[i].SetPtk?
    ensures var log := Run(env, run).value.log;
            && n < i && log[n].Commanded? && log[n].pass == env.strip(log[i].pass) && log[n].reported
            && (forall m :: n < m < i ==> !log[m].Commanded?)
            && env.hash(log[n].pass) == env.hash(log[i].pass)
            && (LastApplied(log[..i]) == Some(env.strip(log[i].pass)) <==>
                  log[n].executed || LastApplied(log[..n]) == Some(env.strip(log[i].pass)))
  {
    RunKeepsInv(env, run);
    var log := Run(env, run).value.log;
    n := LastCommand(log[..i]);
    assert log[..i][n] == log[n] && log[..i][..n] == log[..n];
    LastAppliedIs(log[..i]);
    LastCommandIsLast(log[..i]);
    forall m | n < m < i ensures !log[m].Commanded? { assert log[..i][m] == log[m]; }
  }

  lemma {:induction false} LastCommandIsLast(log: seq<Event>)
    ensures forall m :: LastCommand(log) < m < |log| ==> !log[m].Commanded?
  {
    if log != [] { LastCommandIsLast(log[..|log| - 1]); }
  }

  /** The daemon executes every command for a passphrase that can be set, if wpa_cli reports a success. */
  ghost predicate Obeyed(log: seq<Event>) {
    forall i :: 0 <= i < |log| && log[i].Commanded? && log[i].reported && Takes(log[i].pass) ==> log[i].executed
  }

  lemma {:induction false} AppliedFits(log: seq<Event>)
    requires Fitting(log)
    ensures LastApplied(log).Some? ==> Takes(LastApplied(log).value)
  {
    if log != [] && !(log[|log| - 1].Commanded? && log[|log| - 1].executed) {
      AppliedFits(log[..|log| - 1]);
    }
  }

  /**
   With an injective hash and a daemon that obeys, what the STA has when the AP issues `setptk p` is `p`, exactly
   if `p` is shorter than the daemon's buffer and does not look like an option; also after AP timeouts with the STA
   working through its backlog.
   */
  lemma PassphraseAgreement(env: Env, run: seq<Action>, i: nat)
    requires Injective(env)
    requires Run(env, run).Some? && i < |Run(env, run).value.log| && Run(env, run).value.log[i].SetPtk?
    requires Obeyed(Run(env, run).value.log)
    ensures var log := Run(env, run).value.log;
            LastApplied(log[..i]) == Some(log[i].pass) <==> |log[i].pass| < LIFI_PASSPHRASE_SIZE && !IsOption(log[i].pass)
  {
    RunKeepsInv(env, run);
    var log := Run(env, run).value.log;
    var n := SetPtkFollowsCommand(env, run, i);
    assert env.strip(log[i].pass) == log[i].pass;
    AppliedFits(log[..i]);
  }

  lemma Extend(env: Env, run: seq<Action>, a: Action)
    requires Run(env, run).Some? && Enabled(env, Run(env, run).value, a)
    ensures Run(env, run + [a]) == Some(Next(env, Run(env, run).value, a))
  {
    assert (run + [a])[..|run|] == run;
  }

  function Only(ap: ApLoop, pass: string, sent: bool, sta: StaPhase, reply: Option<Reply>, accepted: nat, log: seq<Event>): State {
    State(ap, pass, [Connection(pass, !ap.Verified?, sent, sta, reply)], accepted, log)
  }

  /** The AP has sent its first passphrase and the STA is about to set it. */
  lemma Delivered(env: Env, p: string) returns (run: seq<Action>)
    requires 0 < |p| <= AP_RECV_SIZE
    ensures Run(env, run) == Some(Only(Awaiting, p, true, Applying, None, 1, []))
  {
    run := [];
    assert Run(env, run) == Some(INIT);
    Extend(env, run, Fetch(Some(p))); run := run + [Fetch(Some(p))];
    Extend(env, run, Connect(true)); run := run + [Connect(true)];
    assert Run(env, run).value.connections == [Connection(p, true, false, Queued, None)];
    Extend(env, run, Send(true)); run := run + [Send(true)];
    assert Run(env, run).value.connections == [Connection(p, true, true, Queued, None)];
    Extend(env, run, Accept); run := run + [Accept];
    assert Run(env, run).value.connections == [Connection(p, true, true, Reading, None)];
    Extend(env, run, StaRecv(true)); run := run + [StaRecv(true)];
    assert Run(env, run).value.connections == [Connection(p, true, true, Applying, None)];
  }

  /** The STA reports success, and the AP issues `setptk`, whatever the daemon did. */
  lemma Acknowledged(env: Env, before: seq<Action>, p: string, executed: bool) returns (run: seq<Action>)
    requires Run(env, before) == Some(Only(Awaiting, p, true, Applying, None, 1, []))
    requires env.strip(p) == p && (executed ==> Takes(p))
    ensures Run(env, run).Some? && Run(env, run).value.log == [Commanded(p, executed, true), SetPtk(p)]
  {
    run := before;
    var log := [Commanded(p, executed, true)];
    var a := Apply(Succeeded(executed), Blocked, true);
    Extend(env, run, a); run := run + [a];
    assert [] + log == log;
    assert Run(env, run).value == Only(Awaiting, p, true, Answering(true), None, 1, log);
    Extend(env, run, Answer(true)); run := run + [Answer(true)];
    assert Run(env, run).value == Only(Awaiting, p, true, Done, Some(Ack(env.hash(p))), 1, log);
    Extend(env, run, RecvReply); run := run + [RecvReply];
    assert Run(env, run).value == Only(Verified, p, true, Done, Some(Ack(env.hash(p))), 1, log);
    Extend(env, run, Rekey(true)); run := run + [Rekey(true)];
    assert log + [SetPtk(p)] == [Commanded(p, executed, true), SetPtk(p)];
  }

  /** A passphrase that cannot be set is acknowledged if wpa_cli exits with 0, and `setptk` is issued for it. */
  lemma RefusedIsAcknowledged(env: Env, p: string) returns (run: seq<Action>)
    requires 0 < |p| <= AP_RECV_SIZE && env.strip(p) == p && !Takes(p)
    ensures Run(env, run).Some? && Obeyed(Run(env, run).value.log)
    ensures var log := Run(env, run).value.log; |log| == 2 && log[1] == SetPtk(p) && LastApplied(log) == None
  {
    run := Delivered(env, p);
    run := Acknowledged(env, run, p, false);
    var log := Run(env, run).value.log;
    assert log[..1] == [Commanded(p, false, true)] && log[..1][..0] == [];
    assert LastApplied(log[..1]) == None;
  }

  /** So with 64 octets, which the daemon refuses without a word. */
  lemma LongPassphraseIsNotApplied(env: Env, p: string) returns (run: seq<Action>)
    requires |p| == LIFI_PASSPHRASE_SIZE && env.strip(p) == p
    ensures Run(env, run).Some? && Obeyed(Run(env, run).value.log)
    ensures var log := Run(env, run).value.log; |log| == 2 && log[1] == SetPtk(p) && LastApplied(log) == None
  {
    run := RefusedIsAcknowledged(env, p);
  }

  /** And with `-v`, for which wpa_cli prints its version. */
  lemma OptionIsNotApplied(env: Env, p: string) returns (run: seq<Action>)
    requires p == "-v" && env.strip(p) == p
    ensures Run(env, run).Some? && Obeyed(Run(env, run).value.log)
    ensures var log := Run(env, run).value.log; |log| == 2 && log[1] == SetPtk(p) && LastApplied(log) == None
  {
    run := RefusedIsAcknowledged(env, p);
  }
}
