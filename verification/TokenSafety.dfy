/** Refresh tokens are single-use: what the refresh protocol guarantees about the tokens it stores and sends. */
module TokenSafety {
  import opened Wrappers
  import opened CredentialStore
  import opened StoreInvariants
  import opened RefreshProtocol

  /** A thread has been granted a credential by the server, received or not, that it has not stored yet. */
  predicate Pending(s: System, t: ThreadId) {
    t in s.threads &&
    match s.threads[t]
    case Authorising(_, granted) => granted.Some?
    case Waiting(op) => op.LoginRefreshable?
    case Entering(op) => op.LoginRefreshable?
    case Running(op, _, pc) => op.LoginRefreshable? && (pc.Reload? || pc.RefreshableSet?)
  }

  /** What the login will store, or would if its grant were received. */
  function PendingCredential(s: System, t: ThreadId): Credential
    requires Pending(s, t)
  {
    if s.threads[t].Authorising? then
      CredentialFromAccessToken(s.threads[t].granted.value, s.threads[t].requestedAt)
    else s.threads[t].op.credential
  }

  /** The credential that a refresh has obtained and not stored yet: what it has received, or is about to receive. */
  function Renewal(s: System, t: ThreadId): Option<Credential>
    requires s.Inside(t)
  {
    match s.threads[t].pc
    case StoreRenewed(_, renewed) => Some(renewed)
    case Exchange(_, requestedAt) =>
      if t in s.replies && s.replies[t].Served? then
        Some(CredentialFromAccessToken(s.replies[t].token, requestedAt))
      else None
    case _ => None
  }

  predicate Renewing(s: System) {
    s.turn.Some? && s.Inside(s.turn.value) && s.threads[s.turn.value].op.Refresh? && Renewal(s, s.turn.value).Some?
  }

  /** The records as they count for the server: a renewal that it has served already replaces the record it renews. */
  function Effective(s: System): map<string, Credential> {
    if Renewing(s) then s.store.records[s.threads[s.turn.value].op.user := Renewal(s, s.turn.value).value]
    else s.store.records
  }

  /** The recorded expiry is never later than the true one. */
  predicate Honest(server: Server, c: Credential) {
    c.expiresAt.Some? ==> c.token in server.expiry && c.expiresAt.value <= server.expiry[c.token]
  }

  ghost predicate AllHonest(s: System) {
    (forall u :: u in s.store.records ==> Honest(s.server, s.store.records[u])) &&
    (forall t :: Pending(s, t) ==> Honest(s.server, PendingCredential(s, t))) &&
    (forall t :: s.Inside(t) && Renewal(s, t).Some? ==> Honest(s.server, Renewal(s, t).value)) &&
    (forall t :: s.Inside(t) && s.threads[t].pc.Exchange? ==> s.threads[t].pc.requestedAt <= s.now) &&
    (forall t :: t in s.threads && s.threads[t].Authorising? ==> s.threads[t].requestedAt <= s.now)
  }

  predicate Partitioned(v: Server) {
    v.live !! v.spent && v.live !! v.revoked && v.spent !! v.revoked
  }

  /** Every refresh token that is stored, pending or in use came from the server, and one that it has refused is not
      accepted later either. */
  ghost predicate AllIssued(s: System) {
    Partitioned(s.server) &&
    (forall u :: u in s.store.records ==> s.server.Issued(s.store.records[u].refreshToken)) &&
    (forall t :: Pending(s, t) ==> s.server.Issued(PendingCredential(s, t).refreshToken)) &&
    (forall t :: s.Inside(t) && Renewal(s, t).Some? ==> s.server.Issued(Renewal(s, t).value.refreshToken)) &&
    (forall t :: s.Inside(t) && (s.threads[t].pc.Anchor? || s.threads[t].pc.Exchange?) ==>
       s.server.Issued(s.threads[t].pc.current.refreshToken)) &&
    (forall t :: s.Inside(t) && s.threads[t].pc.Exchange? && Lookup(s.replies, t) == Some(Refused) ==>
       s.threads[t].pc.current.refreshToken !in s.server.live)
  }

  /** No two places hold the same refresh token, and none holds a spent one. */
  ghost predicate SingleUse(s: System) {
    (forall u :: u in Effective(s) ==> Effective(s)[u].refreshToken !in s.server.spent) &&
    (forall u, v :: u in Effective(s) && v in Effective(s) && u != v ==>
       Effective(s)[u].refreshToken != Effective(s)[v].refreshToken) &&
    (forall t :: Pending(s, t) ==> PendingCredential(s, t).refreshToken !in s.server.spent) &&
    (forall t, u :: Pending(s, t) && u in Effective(s) ==>
       PendingCredential(s, t).refreshToken != Effective(s)[u].refreshToken) &&
    (forall t, v :: Pending(s, t) && Pending(s, v) && t != v ==>
       PendingCredential(s, t).refreshToken != PendingCredential(s, v).refreshToken)
  }

  /** A refresher inside works on the record that is in the keyring, and replaces or removes it only when the server
      does not accept its refresh token. */
  predicate OnCurrent(s: System, t: ThreadId)
    requires s.Inside(t) && s.threads[t].op.Refresh?
  {
    var pc, u := s.threads[t].pc, s.threads[t].op.user;
    (pc.Anchor? || pc.Exchange? || pc.StoreRenewed? ==> Lookup(s.store.records, u) == Some(pc.current)) &&
    ((pc.Exchange? || pc.StoreRenewed?) && Renewal(s, t).Some? ==>
       pc.current.refreshToken == Renewal(s, t).value.refreshToken || pc.current.refreshToken !in s.server.live) &&
    (pc.RemoveRecord? && u in s.store.records ==> s.store.records[u].refreshToken !in s.server.live)
  }

  ghost predicate WorksOnCurrent(s: System) {
    forall t :: s.Inside(t) && s.threads[t].op.Refresh? ==> OnCurrent(s, t)
  }

  /** No reply of the server is lost or useless, every request that it serves is still awaited, and what was received is
      persisted. */
  predicate Reliable(s: System, e: Event) {
    !e.ServeStray? &&
    (e.Work? && s.Inside(e.t) ==>
       (s.threads[e.t].pc.Exchange? && Renewal(s, e.t).Some? ==> UsefulReply(s.threads[e.t].pc, e.outcome)) &&
       (s.threads[e.t].pc.StoreRenewed? ==> e.outcome.ok))
  }

  ghost predicate ReliableRun(s: System, es: seq<Event>)
    requires Behaviour(s, es)
  {
    es == [] || (ReliableRun(s, es[..|es| - 1]) && Reliable(After(s, es[..|es| - 1]), es[|es| - 1]))
  }

  // ---------------------------------------------------------------- what one step does to the records

  function RecordsAfter(records: map<string, Credential>, op: Operation, pc: Pc, o: Outcome): map<string, Credential> {
    if !o.ok then records
    else match pc
      case RefreshableSet => if op.LoginRefreshable? then records[op.user := op.credential] else records
      case StoreRenewed(_, r) => records[op.user := r]
      case LoginDelete => records - {op.user}
      case LogoutRecord => records - {op.user}
      case RemoveRecord => records - {op.user}
      case _ => records
  }

  predicate PcFollows(records: map<string, Credential>, op: Operation, pc: Pc, o: Outcome, next: Pc) {
    match next
    case Anchor(c) => pc.ReadRecord? && Lookup(records, op.user) == Some(c)
    case Exchange(c, at) => pc == Anchor(c) && at == o.now
    case StoreRenewed(c, r) =>
      pc.Exchange? && c == pc.current && o.reply.Granted? &&
      r == CredentialFromAccessToken(o.reply.token, pc.requestedAt)
    case WriteRenewed(c, r) => pc == StoreRenewed(c, r) && o.ok
    case RemoveRecord => pc.Exchange? && o.reply.Rejected?
    case RefreshableSet => pc.Reload?
    case Reload => false
    case Done(Refreshed(Unnecessary, c)) =>
      pc.ReadRecord? && Lookup(records, op.user) == Some(c) && !AccessTokenNeedsRefresh(c, o.now)
    case Done(Refreshed(Expired, _)) => pc.RemoveWrite? || (pc.Exchange? && o.reply.Rejected?)
    case _ => true
  }

  predicate UsefulReply(pc: Pc, o: Outcome) {
    pc.Exchange? && o.reply.Granted? && o.reply.token.token != "" && o.reply.token.refreshToken != ""
  }

  lemma ActivationStores(v: State, o: Outcome)
    requires Coherent(v) && Activating(v.pc)
    ensures StepActivate(v, o).store.records == RecordsAfter(v.store.records, v.op, v.pc, o)
    ensures PcFollows(v.store.records, v.op, v.pc, o, StepActivate(v, o).pc)
  {
  }

  lemma LogoutStores(v: State, o: Outcome)
    requires Coherent(v) && LoggingOut(v.pc)
    ensures StepLogout(v, o).store.records == RecordsAfter(v.store.records, v.op, v.pc, o)
    ensures PcFollows(v.store.records, v.op, v.pc, o, StepLogout(v, o).pc)
  {
  }

  lemma RefreshStores(v: State, o: Outcome)
    requires Coherent(v) && Refreshing(v.pc)
    ensures StepRefresh(v, o).store.records == RecordsAfter(v.store.records, v.op, v.pc, o)
    ensures PcFollows(v.store.records, v.op, v.pc, o, StepRefresh(v, o).pc)
    ensures UsefulReply(v.pc, o) ==> StepRefresh(v, o).pc.StoreRenewed?
  {
  }

  lemma StepRecords(v: State, o: Outcome)
    requires Coherent(v) && !v.pc.Done?
    ensures Step(v, o).store.records == RecordsAfter(v.store.records, v.op, v.pc, o)
    ensures PcFollows(v.store.records, v.op, v.pc, o, Step(v, o).pc)
    ensures UsefulReply(v.pc, o) ==> Step(v, o).pc.StoreRenewed?
  {
    if Activating(v.pc) {
      ActivationStores(v, o);
    } else if LoggingOut(v.pc) {
      LogoutStores(v, o);
    } else if Refreshing(v.pc) {
      RefreshStores(v, o);
    }
  }

  /** What a `Work` event does to everything that matters here. */
  predicate Worked(s: System, n: System, t: ThreadId, o: Outcome) {
    s.Inside(t) && n.Inside(t) && n.threads == s.threads[t := n.threads[t]] && n.threads[t].op == s.threads[t].op &&
    n.replies == s.replies - {t} && n.turn == s.turn && n.now == s.now && n.server == s.server && Observable(s, t, o) &&
    n.store.records == RecordsAfter(s.store.records, s.threads[t].op, s.threads[t].pc, o) &&
    PcFollows(s.store.records, s.threads[t].op, s.threads[t].pc, o, n.threads[t].pc) &&
    (UsefulReply(s.threads[t].pc, o) ==> n.threads[t].pc.StoreRenewed?) &&
    (Refreshing(s.threads[t].pc) ==> s.threads[t].op.Refresh?) &&
    (s.threads[t].pc.RefreshableSet? ==> s.threads[t].op.LoginRefreshable?)
  }

  lemma RunsItsOwn(v: State)
    requires Coherent(v)
    ensures (Refreshing(v.pc) ==> v.op.Refresh?) && (v.pc.RefreshableSet? ==> v.op.LoginRefreshable?)
  {
  }

  lemma WorkEffect(s: System, e: Event)
    requires Enabled(s, e) && e.Work?
    ensures Worked(s, Next(s, e), e.t, e.outcome)
  {
    var v := s.View(e.t);
    StepRecords(v, e.outcome);
    RunsItsOwn(v);
    var w := Step(v, e.outcome);
    assert Next(s, e).threads[e.t] == Running(w.op, w.lockHeld, w.pc);
  }

  /** The thread works alone. */
  ghost predicate WorkedAlone(s: System, n: System, t: ThreadId, o: Outcome) {
    Worked(s, n, t, o) && s.turn == Some(t) && forall v :: s.Inside(v) ==> v == t
  }

  lemma WorksAlone(r: Regime, s: System, e: Event)
    requires Exclusion(r, s) && Enabled(s, e) && e.Work?
    ensures WorkedAlone(s, Next(s, e), e.t, e.outcome)
  {
    assert Placed(s, e.t);
    forall v | s.Inside(v) ensures v == e.t { assert Placed(s, v); }
    WorkEffect(s, e);
  }

  lemma WorkKeepsPending(s: System, n: System, t: ThreadId, o: Outcome, v: ThreadId)
    requires Worked(s, n, t, o) && Pending(n, v)
    ensures Pending(s, v) && PendingCredential(n, v) == PendingCredential(s, v)
  {
  }

  /** A renewal was there before, at least on its way. */
  lemma WorkKeepsRenewal(s: System, n: System, t: ThreadId, o: Outcome, v: ThreadId)
    requires Worked(s, n, t, o) && n.Inside(v) && Renewal(n, v).Some?
    ensures s.Inside(v) && Renewal(s, v) == Renewal(n, v)
    ensures v == t ==>
              s.threads[t].pc.Exchange? &&
              n.threads[t].pc == StoreRenewed(s.threads[t].pc.current, Renewal(n, t).value)
  {
  }

  // ---------------------------------------------------------------- what the other events do

  /** Tokens of the server only ever get older: what was issued remains so, and nothing comes back to life. */
  ghost predicate ServerMoved(a: Server, b: Server) {
    Partitioned(b) &&
    (forall x :: a.Issued(x) ==> b.Issued(x)) &&
    (forall x :: x in b.live && a.Issued(x) ==> x in a.live) &&
    (forall x :: x in a.expiry ==> Lookup(b.expiry, x) == Some(a.expiry[x]))
  }

  /** Nothing but the server moves, and threads only where they have no renewal. */
  ghost predicate Idled(s: System, n: System) {
    n.store.records == s.store.records && n.now >= s.now && ServerMoved(s.server, n.server) &&
    (forall t :: n.Inside(t) && !n.threads[t].pc.Reload? ==> s.Inside(t) && s.threads[t] == n.threads[t])
  }

  /** A credential that was not pending before is one that the server has just issued. */
  ghost predicate NewPending(s: System, n: System) {
    forall t :: Pending(n, t) ==>
      (Pending(s, t) && PendingCredential(s, t) == PendingCredential(n, t)) ||
      (!s.server.Issued(PendingCredential(n, t).refreshToken) &&
       n.server.Issued(PendingCredential(n, t).refreshToken) &&
       forall v :: Pending(n, v) && v != t ==> Pending(s, v) && PendingCredential(s, v) == PendingCredential(n, v))
  }

  lemma ServerMoves(s: System, e: Event)
    requires Enabled(s, e) && Partitioned(s.server)
    ensures ServerMoved(s.server, Next(s, e).server)
  {
  }

  lemma IdleEffect(s: System, e: Event)
    requires Enabled(s, e) && !e.Work? && Partitioned(s.server)
    ensures Idled(s, Next(s, e)) && NewPending(s, Next(s, e))
  {
    ServerMoves(s, e);
    PendingEffect(s, e);
  }

  lemma PendingEffect(s: System, e: Event)
    requires Enabled(s, e) && !e.Work?
    ensures NewPending(s, Next(s, e))
    ensures !e.Grant? ==> forall t :: Pending(Next(s, e), t) ==>
              Pending(s, t) && PendingCredential(s, t) == PendingCredential(Next(s, e), t)
  {
    var n := Next(s, e);
    forall t | Pending(n, t) && !(e.Grant? && t == e.t)
      ensures Pending(s, t) && PendingCredential(s, t) == PendingCredential(n, t)
    {
      if e.Tick? || e.Revoke? || e.ServeStray? { assert n.threads == s.threads; }
    }
  }

  /** A renewal is new exactly if the server has just served it. */
  lemma RenewalEffect(s: System, e: Event, t: ThreadId)
    requires Enabled(s, e) && !e.Work? && Next(s, e).Inside(t) && Renewal(Next(s, e), t).Some?
    ensures s.Inside(t) && s.threads[t] == Next(s, e).threads[t]
    ensures if e.Serve? && e.t == t then
              Renewal(s, t) == None && e.answer.Served? && s.threads[t].pc.Exchange? &&
              Renewal(Next(s, e), t) == Some(CredentialFromAccessToken(e.answer.token, s.threads[t].pc.requestedAt))
            else Renewal(s, t) == Renewal(Next(s, e), t)
  {
  }

  /** The expiry that will be recorded of a token is earlier than the true one by exactly the time that its request was
      on its way, if a lifetime was reported. */
  predicate EarlyBy(server: Server, c: Credential, lifetime: int, delay: int) {
    if lifetime <= 0 then c.expiresAt == None
    else c.token in server.expiry && c.expiresAt == Some(server.expiry[c.token] - delay)
  }

  lemma RecordedExpiry(s: System, e: Event)
    requires Enabled(s, e)
    ensures e.Serve? && e.answer.Served? ==>
              var requestedAt := s.threads[e.t].pc.requestedAt;
              Next(s, e).Inside(e.t) && Renewal(Next(s, e), e.t).Some? &&
              EarlyBy(Next(s, e).server, Renewal(Next(s, e), e.t).value, e.answer.token.expiresIn, s.now - requestedAt)
    ensures e.Grant? ==>
              Pending(Next(s, e), e.t) &&
              EarlyBy(Next(s, e).server, PendingCredential(Next(s, e), e.t), e.granted.expiresIn,
                      s.now - s.threads[e.t].requestedAt)
  {
  }

  // ---------------------------------------------------------------- issued tokens

  lemma IssuedWork(s: System, n: System, t: ThreadId, o: Outcome)
    requires AllIssued(s) && Worked(s, n, t, o)
    ensures AllIssued(n)
  {
    if s.threads[t].pc.RefreshableSet? { assert Pending(s, t); }
    if s.threads[t].pc.StoreRenewed? { assert Renewal(s, t).Some?; }
    forall v | Pending(n, v) ensures n.server.Issued(PendingCredential(n, v).refreshToken) {
      WorkKeepsPending(s, n, t, o, v);
    }
    forall v | n.Inside(v) && Renewal(n, v).Some? ensures n.server.Issued(Renewal(n, v).value.refreshToken) {
      WorkKeepsRenewal(s, n, t, o, v);
    }
  }

  lemma IssuedElse(s: System, e: Event)
    requires AllIssued(s) && Enabled(s, e) && !e.Work?
    ensures AllIssued(Next(s, e))
  {
    var n := Next(s, e);
    IdleEffect(s, e);
    forall v | Pending(n, v) ensures n.server.Issued(PendingCredential(n, v).refreshToken) {
      if Pending(s, v) && PendingCredential(s, v) == PendingCredential(n, v) {
        assert s.server.Issued(PendingCredential(s, v).refreshToken);
      }
    }
    forall v | n.Inside(v) && Renewal(n, v).Some? ensures n.server.Issued(Renewal(n, v).value.refreshToken) {
      RenewalEffect(s, e, v);
    }
  }

  /** Needs no lock at all. */
  lemma {:induction false} IssuedKept(s: System, es: seq<Event>)
    requires Quiet(s) && Behaviour(s, es) && AllIssued(s)
    ensures AllIssued(After(s, es))
  {
    if es != [] {
      var front, e := es[..|es| - 1], es[|es| - 1];
      IssuedKept(s, front);
      var before := After(s, front);
      if e.Work? {
        WorkEffect(before, e);
        IssuedWork(before, After(s, es), e.t, e.outcome);
      } else {
        IssuedElse(before, e);
      }
    }
  }

  // ---------------------------------------------------------------- honest expiries

  lemma HonestWork(s: System, n: System, t: ThreadId, o: Outcome)
    requires AllHonest(s) && Worked(s, n, t, o)
    ensures AllHonest(n)
  {
    if s.threads[t].pc.RefreshableSet? { assert Pending(s, t); }
    if s.threads[t].pc.StoreRenewed? { assert Renewal(s, t).Some?; }
    forall v | Pending(n, v) ensures Honest(n.server, PendingCredential(n, v)) {
      WorkKeepsPending(s, n, t, o, v);
    }
    forall v | n.Inside(v) && Renewal(n, v).Some? ensures Honest(n.server, Renewal(n, v).value) {
      WorkKeepsRenewal(s, n, t, o, v);
    }
  }

  lemma HonestGrant(s: System, e: Event)
    requires AllHonest(s) && Enabled(s, e) && e.Grant?
    ensures Pending(Next(s, e), e.t) && Honest(Next(s, e).server, PendingCredential(Next(s, e), e.t))
  {
    assert s.threads[e.t].requestedAt <= s.now;
  }

  lemma HonestElse(s: System, e: Event)
    requires AllHonest(s) && Partitioned(s.server) && Enabled(s, e) && !e.Work?
    ensures AllHonest(Next(s, e))
  {
    var n := Next(s, e);
    IdleEffect(s, e);
    forall v | Pending(n, v) ensures Honest(n.server, PendingCredential(n, v)) {
      if e.Grant? && v == e.t {
        HonestGrant(s, e);
      } else {
        assert Pending(s, v) && PendingCredential(s, v) == PendingCredential(n, v);
      }
    }
    forall v | n.Inside(v) && Renewal(n, v).Some? ensures Honest(n.server, Renewal(n, v).value) {
      RenewalEffect(s, e, v);
    }
  }

  /** The clock is read before the request is sent; the server issues the token and the client receives it later, each
      at a time of its own. Needs no lock at all. */
  lemma {:induction false} HonestExpiries(s: System, es: seq<Event>)
    requires Quiet(s) && Behaviour(s, es) && AllHonest(s) && AllIssued(s)
    ensures AllHonest(After(s, es))
  {
    if es != [] {
      var front, e := es[..|es| - 1], es[|es| - 1];
      HonestExpiries(s, front);
      IssuedKept(s, front);
      var before := After(s, front);
      if e.Work? {
        WorkEffect(before, e);
        HonestWork(before, After(s, es), e.t, e.outcome);
      } else {
        HonestElse(before, e);
      }
    }
  }

  // ---------------------------------------------------------------- current records

  lemma CurrentWork(s: System, n: System, t: ThreadId, o: Outcome)
    requires AllIssued(s) && WorksOnCurrent(s) && WorkedAlone(s, n, t, o)
    ensures WorksOnCurrent(n)
  {
    forall v | n.Inside(v) && n.threads[v].op.Refresh? ensures OnCurrent(n, v) {
      assert v != t ==> s.Inside(v);
      assert OnCurrent(s, t);
      if Renewal(n, v).Some? { WorkKeepsRenewal(s, n, t, o, v); }
    }
  }

  lemma CurrentElse(s: System, e: Event)
    requires AllIssued(s) && WorksOnCurrent(s) && Enabled(s, e) && !e.Work?
    ensures WorksOnCurrent(Next(s, e))
  {
    var n := Next(s, e);
    IdleEffect(s, e);
    forall v | n.Inside(v) && n.threads[v].op.Refresh? ensures OnCurrent(n, v) {
      if !n.threads[v].pc.Reload? { assert OnCurrent(s, v); }
      if Renewal(n, v).Some? { RenewalEffect(s, e, v); }
    }
  }

  lemma {:induction false} CurrentKept(r: Regime, s: System, es: seq<Event>)
    requires Quiet(s) && Behaviour(s, es) && Regular(r, es) && AllIssued(s)
    ensures Exclusion(r, After(s, es)) && AllIssued(After(s, es)) && WorksOnCurrent(After(s, es))
  {
    IssuedKept(s, es);
    if es != [] {
      var front, e := es[..|es| - 1], es[|es| - 1];
      CurrentKept(r, s, front);
      var before := After(s, front);
      ExclusionNext(r, before, e);
      if e.Work? {
        WorksAlone(r, before, e);
        CurrentWork(before, After(s, es), e.t, e.outcome);
      } else {
        CurrentElse(before, e);
      }
    }
  }

  // ---------------------------------------------------------------- single use

  /** Removing records and using up nothing keeps everything single-use. */
  lemma ShrinkKeepsSingleUse(s: System, n: System)
    requires SingleUse(s) && n.server.spent == s.server.spent
    requires forall u :: u in Effective(n) ==> Lookup(Effective(s), u) == Some(Effective(n)[u])
    requires forall t :: Pending(n, t) ==> Pending(s, t) && PendingCredential(s, t) == PendingCredential(n, t)
    ensures SingleUse(n)
  {
  }

  /** A pending credential that gets stored stops being pending. */
  lemma StoreKeepsSingleUse(s: System, n: System, t: ThreadId, u: string)
    requires SingleUse(s) && n.server == s.server && Pending(s, t) && !Pending(n, t)
    requires Effective(n) == Effective(s)[u := PendingCredential(s, t)]
    requires forall v :: Pending(n, v) ==> Pending(s, v) && PendingCredential(s, v) == PendingCredential(n, v)
    ensures SingleUse(n)
  {
  }

  /** The server hands out a token that nobody else has for one that nobody else has. */
  lemma RotateKeepsSingleUse(s: System, n: System, u: string, c: Credential)
    requires AllIssued(s) && SingleUse(s) && u in s.store.records && Effective(s) == s.store.records
    requires Effective(n) == Effective(s)[u := c]
    requires if c.refreshToken == s.store.records[u].refreshToken then n.server.spent == s.server.spent
             else n.server.spent == s.server.spent + {s.store.records[u].refreshToken} &&
                  !s.server.Issued(c.refreshToken)
    requires forall v :: Pending(n, v) ==> Pending(s, v) && PendingCredential(s, v) == PendingCredential(n, v)
    ensures SingleUse(n)
  {
    forall v | Pending(n, v)
      ensures PendingCredential(n, v).refreshToken != c.refreshToken
      ensures PendingCredential(n, v).refreshToken !in n.server.spent
    {
      var x := PendingCredential(s, v).refreshToken;
      assert s.server.Issued(x) && x != Effective(s)[u].refreshToken;
    }
  }

  lemma ServedEffective(r: Regime, s: System, e: Event)
    requires Exclusion(r, s) && Enabled(s, e) && e.Serve?
    ensures Effective(s) == s.store.records
    ensures Effective(Next(s, e)) ==
              match e.answer
              case Refused => s.store.records
              case Served(token) =>
                s.store.records[s.threads[e.t].op.user :=
                  CredentialFromAccessToken(token, s.threads[e.t].pc.requestedAt)]
  {
    assert Placed(s, e.t);
    assert s.threads[e.t].op.Refresh?;
  }

  lemma ServeKeepsSingleUse(r: Regime, s: System, e: Event)
    requires Exclusion(r, s) && AllIssued(s) && SingleUse(s) && WorksOnCurrent(s) && Enabled(s, e) && e.Serve?
    ensures SingleUse(Next(s, e))
  {
    var n, u := Next(s, e), s.threads[e.t].op.user;
    ServedEffective(r, s, e);
    PendingEffect(s, e);
    match e.answer
    case Refused => ShrinkKeepsSingleUse(s, n);
    case Served(token) =>
      ServesCurrent(r, s, e);
      RotateKeepsSingleUse(s, n, u, CredentialFromAccessToken(token, s.threads[e.t].pc.requestedAt));
  }

  lemma ServesCurrent(r: Regime, s: System, e: Event)
    requires Exclusion(r, s) && WorksOnCurrent(s) && Enabled(s, e) && e.Serve?
    ensures Lookup(s.store.records, s.threads[e.t].op.user) == Some(s.threads[e.t].pc.current)
  {
    assert Placed(s, e.t);
    assert OnCurrent(s, e.t);
  }

  /** Entering and leaving happen without a renewal. */
  lemma EffectiveEnterLeave(r: Regime, s: System, e: Event)
    requires Exclusion(r, s) && Enabled(s, e) && Obeys(r, e) && (e.TryFileLock? || e.Leave?)
    ensures Effective(Next(s, e)) == Effective(s)
  {
    if e.TryFileLock? { EntersAlone(r, s, e); } else { assert Placed(s, e.t); }
    assert !Renewing(s) && !Renewing(Next(s, e));
  }

  /** The other events do not touch whoever is inside. */
  lemma InsideKept(s: System, e: Event, t: ThreadId)
    requires Enabled(s, e) && !e.Work? && !e.Serve? && !e.TryFileLock? && !e.Leave?
    ensures Next(s, e).turn == s.turn && Next(s, e).store == s.store && (Next(s, e).Inside(t) <==> s.Inside(t))
    ensures s.Inside(t) ==> Next(s, e).threads[t] == s.threads[t] && Renewal(Next(s, e), t) == Renewal(s, t)
  {
  }

  lemma EffectiveKept(r: Regime, s: System, e: Event)
    requires Exclusion(r, s) && Enabled(s, e) && Obeys(r, e) && !e.Work? && !e.Serve?
    ensures Effective(Next(s, e)) == Effective(s)
  {
    if e.TryFileLock? || e.Leave? {
      EffectiveEnterLeave(r, s, e);
    } else {
      InsideKept(s, e, if s.turn.Some? then s.turn.value else ThreadId(0, 0));
    }
  }

  lemma GrantKeepsSingleUse(s: System, n: System)
    requires AllIssued(s) && SingleUse(s) && NewPending(s, n) && Effective(n) == Effective(s)
    requires n.server.spent == s.server.spent
    requires forall x :: x in Effective(s) ==> s.server.Issued(Effective(s)[x].refreshToken)
    ensures SingleUse(n)
  {
    forall t | Pending(n, t)
      ensures PendingCredential(n, t).refreshToken !in n.server.spent
      ensures forall u :: u in Effective(n) ==> PendingCredential(n, t).refreshToken != Effective(n)[u].refreshToken
    {
    }
    forall t, v | Pending(n, t) && Pending(n, v) && t != v
      ensures PendingCredential(n, t).refreshToken != PendingCredential(n, v).refreshToken
    {
    }
  }

  lemma ElseKeepsSingleUse(r: Regime, s: System, e: Event)
    requires Exclusion(r, s) && AllIssued(s) && SingleUse(s) && WorksOnCurrent(s)
    requires Enabled(s, e) && Obeys(r, e) && Reliable(s, e) && !e.Work?
    ensures SingleUse(Next(s, e))
  {
    if e.Serve? {
      ServeKeepsSingleUse(r, s, e);
    } else {
      EffectiveKept(r, s, e);
      PendingEffect(s, e);
      GrantKeepsSingleUse(s, Next(s, e));
    }
  }

  lemma WorkKeepsSingleUse(s: System, n: System, t: ThreadId, o: Outcome)
    requires SingleUse(s) && WorkedAlone(s, n, t, o) && Reliable(s, Work(t, o))
    ensures SingleUse(n)
  {
    forall v | Pending(n, v) ensures Pending(s, v) && PendingCredential(s, v) == PendingCredential(n, v) {
      WorkKeepsPending(s, n, t, o, v);
    }
    if s.threads[t].pc.RefreshableSet? && o.ok {
      WorkStores(s, n, t, o);
      StoreKeepsSingleUse(s, n, t, s.threads[t].op.user);
    } else {
      WorkShrinks(s, n, t, o);
      ShrinkKeepsSingleUse(s, n);
    }
  }

  lemma WorkStores(s: System, n: System, t: ThreadId, o: Outcome)
    requires WorkedAlone(s, n, t, o) && s.threads[t].pc.RefreshableSet? && o.ok
    ensures Pending(s, t) && !Pending(n, t)
    ensures Effective(n) == Effective(s)[s.threads[t].op.user := PendingCredential(s, t)]
  {
  }

  lemma WorkShrinks(s: System, n: System, t: ThreadId, o: Outcome)
    requires WorkedAlone(s, n, t, o) && Reliable(s, Work(t, o)) && !(s.threads[t].pc.RefreshableSet? && o.ok)
    ensures forall u :: u in Effective(n) ==> Lookup(Effective(s), u) == Some(Effective(n)[u])
  {
    if Renewing(n) { WorkKeepsRenewal(s, n, t, o, t); }
  }

  lemma {:induction false} SingleUseKept(r: Regime, s: System, es: seq<Event>)
    requires Quiet(s) && Behaviour(s, es) && Regular(r, es) && ReliableRun(s, es)
    requires AllIssued(s) && SingleUse(s)
    ensures SingleUse(After(s, es))
  {
    if es != [] {
      var front, e := es[..|es| - 1], es[|es| - 1];
      SingleUseKept(r, s, front);
      CurrentKept(r, s, front);
      var before := After(s, front);
      if e.Work? {
        WorksAlone(r, before, e);
        WorkKeepsSingleUse(before, After(s, es), e.t, e.outcome);
      } else {
        ElseKeepsSingleUse(r, before, e);
      }
    }
  }

  // ---------------------------------------------------------------- over every behaviour

  /** The thread has sent its request, and the server has not decided about it yet. */
  predicate AwaitingAnswer(s: System, t: ThreadId) {
    s.Inside(t) && s.threads[t].pc.Exchange? && t !in s.replies
  }

  /** No refresh token that is on its way to the endpoint has been exchanged before, and between critical sections every
      stored refresh token is one that the server accepts unless the server itself revoked it. */
  lemma NeverSentAfterExchange(r: Regime, s: System, es: seq<Event>)
    requires Quiet(s) && Behaviour(s, es) && Regular(r, es) && ReliableRun(s, es)
    requires AllIssued(s) && SingleUse(s)
    ensures var now := After(s, es);
            (forall t :: now.Inside(t) && now.threads[t].op.Refresh? && AwaitingAnswer(now, t) ==>
               now.threads[t].pc.current.refreshToken !in now.server.spent) &&
            (now.turn.None? ==> forall u :: u in now.store.records ==>
               var t := now.store.records[u].refreshToken; t in now.server.live || t in now.server.revoked)
  {
    CurrentKept(r, s, es);
    SingleUseKept(r, s, es);
    var now := After(s, es);
    forall t | now.Inside(t) && now.threads[t].op.Refresh? && AwaitingAnswer(now, t)
      ensures now.threads[t].pc.current.refreshToken !in now.server.spent
    {
      assert Placed(now, t) && OnCurrent(now, t);
      assert now.threads[t].op.user in Effective(now);
    }
    if now.turn.None? {
      assert Effective(now) == now.store.records;
      forall u | u in now.store.records
        ensures var t := now.store.records[u].refreshToken; t in now.server.live || t in now.server.revoked
      {
        assert u in Effective(now);
      }
    }
  }

  /** What the record of a user holds is not what it held. */
  predicate TakenAway(s: System, n: System, u: string) {
    u in s.store.records &&
    (u in n.store.records ==> n.store.records[u].refreshToken != s.store.records[u].refreshToken)
  }

  /** Whatever replies get lost and whatever fails, a refresh takes away a refresh token, by removing the record or by
      overwriting it with another one, only from its own user, and only when the server does not accept it; removing
      needs the file lock. */
  lemma AcceptedNeverRemoved(r: Regime, s: System, es: seq<Event>, e: Event, u: string)
    requires Quiet(s) && Behaviour(s, es) && Regular(r, es) && AllIssued(s)
    requires var now := After(s, es);
             Enabled(now, e) && e.Work? && now.threads[e.t].op.Refresh? && TakenAway(now, Next(now, e), u)
    ensures var now := After(s, es);
            u == now.threads[e.t].op.user && now.store.records[u].refreshToken !in now.server.live &&
            (u !in Next(now, e).store.records ==> now.threads[e.t].lockHeld)
  {
    var now := After(s, es);
    CurrentKept(r, s, es);
    WorkEffect(now, e);
    assert Placed(now, e.t) && OnCurrent(now, e.t);
  }

  /** An access token in a record that passes the freshness test, as it does before the lock is taken, is valid at the
      server for more than ten further minutes. */
  lemma FreshMeansValid(s: System, es: seq<Event>, u: string)
    requires Quiet(s) && Behaviour(s, es) && AllHonest(s) && AllIssued(s)
    requires var now := After(s, es);
             u in now.store.records && !AccessTokenNeedsRefresh(now.store.records[u], now.now)
    ensures var now := After(s, es);
            var token := now.store.records[u].token;
            token in now.server.expiry && now.now + 600 < now.server.expiry[token]
  {
    HonestExpiries(s, es);
  }

  /** A refresh that reports that none was necessary returns a token that is valid at the server for more than ten
      further minutes, in every interleaving, locks held or not. */
  lemma UnnecessaryMeansValid(s: System, es: seq<Event>, e: Event, c: Credential)
    requires Quiet(s) && Behaviour(s, es) && AllHonest(s) && AllIssued(s) && Enabled(After(s, es), e) && e.Work?
    requires Next(After(s, es), e).threads[e.t].pc == Done(Refreshed(Unnecessary, c))
    ensures var now := Next(After(s, es), e);
            c.token in now.server.expiry && now.now + 600 < now.server.expiry[c.token]
  {
    var before := After(s, es);
    WorkEffect(before, e);
    FreshMeansValid(s, es, before.threads[e.t].op.user);
  }

  /** A refresh that goes on to report that its credential expired was refused by the server, and the server does not
      accept that refresh token any more, in every interleaving, locks held or not. */
  lemma ExpiredMeansRefused(s: System, es: seq<Event>, e: Event)
    requires Quiet(s) && Behaviour(s, es) && AllIssued(s) && Enabled(After(s, es), e) && e.Work?
    requires var before, pc := After(s, es), Next(After(s, es), e).threads[e.t].pc;
             before.threads[e.t].pc.Exchange? &&
             (pc.RemoveRecord? || (pc.Done? && pc.result.Refreshed? && pc.result.status == Expired))
    ensures var before := After(s, es);
            Lookup(before.replies, e.t) == Some(Refused) &&
            before.threads[e.t].pc.current.refreshToken !in before.server.live
  {
    WorkEffect(After(s, es), e);
    IssuedKept(s, es);
  }

  // ---------------------------------------------------------------- why the lock is needed

  lemma Extend(s: System, es: seq<Event>, e: Event)
    requires Behaviour(s, es) && Enabled(After(s, es), e) && ReliableRun(s, es) && Reliable(After(s, es), e)
    ensures Behaviour(s, es + [e]) && After(s, es + [e]) == Next(After(s, es), e) && ReliableRun(s, es + [e])
  {
    assert (es + [e])[..|es|] == es;
  }

  const STALE := Credential("access", "refresh", 0, 0, None, None)

  function TwoProcesses(): System {
    System(Store(map[], map["mona" := STALE], NO_HOST), Server({"refresh"}, {}, {}, map["access" := 0]), 0,
           map[], map[], None, map[], map[], None, [])
  }

  /** A thread has read the stale record and sent its refresh token, holding no file lock. */
  predicate HasSent(s: System, t: ThreadId) {
    AwaitingAnswer(s, t) && s.threads[t] == Running(Refresh("mona", STALE), false, Exchange(STALE, 0))
  }

  /** One more event, forgetting how the state was reached. */
  lemma Grow(s: System, es: seq<Event>, now: System, e: Event, next: System) returns (more: seq<Event>)
    requires Behaviour(s, es) && ReliableRun(s, es) && After(s, es) == now
    requires Enabled(now, e) && Reliable(now, e) && Next(now, e) == next
    ensures Behaviour(s, more) && ReliableRun(s, more) && After(s, more) == next
  {
    Extend(s, es, e);
    more := es + [e];
  }

  function Placing(s: System, t: ThreadId, a: Activity): System {
    s.(threads := s.threads[t := a])
  }

  predicate Ready(s: System, t: ThreadId) {
    s.store.records == map["mona" := STALE] && s.now == 0 && s.replies == map[] && t !in s.threads &&
    t.process !in s.mutexes
  }

  lemma ReachMutex(s: System, es: seq<Event>, now: System, t: ThreadId) returns (more: seq<Event>, end: System)
    requires Behaviour(s, es) && ReliableRun(s, es) && After(s, es) == now
    requires Ready(now, t)
    ensures Behaviour(s, more) && ReliableRun(s, more) && After(s, more) == end
    ensures end == Placing(now, t, Entering(Refresh("mona", STALE))).(mutexes := now.mutexes[t.process := t])
  {
    var waiting := Placing(now, t, Waiting(Refresh("mona", STALE)));
    end := Placing(waiting, t, Entering(Refresh("mona", STALE))).(mutexes := now.mutexes[t.process := t]);
    more := Grow(s, es, now, BeginRefresh(t, "mona"), waiting);
    more := Grow(s, more, waiting, TakeMutex(t), end);
  }

  lemma ReachInside(s: System, es: seq<Event>, now: System, t: ThreadId) returns (more: seq<Event>, end: System)
    requires Behaviour(s, es) && ReliableRun(s, es) && After(s, es) == now
    requires Ready(now, t)
    ensures Behaviour(s, more) && ReliableRun(s, more) && After(s, more) == end
    ensures end == Placing(now, t, Running(Refresh("mona", STALE), false, Reload))
                     .(mutexes := now.mutexes[t.process := t], turn := Some(t), log := end.log)
  {
    var entering;
    more, entering := ReachMutex(s, es, now, t);
    end := Next(entering, TryFileLock(t, false));
    more := Grow(s, more, entering, TryFileLock(t, false), end);
  }

  predicate RefreshingMona(s: System, t: ThreadId, pc: Pc) {
    s.Inside(t) && s.threads[t] == Running(Refresh("mona", STALE), false, pc) && s.now == 0 && s.replies == map[]
  }

  /** The thread has come to `pc`, and nothing else has happened. */
  predicate CameTo(now: System, end: System, t: ThreadId, pc: Pc) {
    RefreshingMona(end, t, pc) && end.store == now.store && end.server == now.server && end.mutexes == now.mutexes &&
    end.threads == now.threads[t := end.threads[t]]
  }

  predicate Onwards(pc: Pc, next: Pc) {
    (pc.Reload? && next.ReadRecord?) || (pc.ReadRecord? && next == Anchor(STALE)) ||
    (pc == Anchor(STALE) && next == Exchange(STALE, 0))
  }

  lemma Read(start: System, now: System, t: ThreadId, pc: Pc, next: Pc)
    requires CameTo(start, now, t, pc) && start.store.records == map["mona" := STALE] && Onwards(pc, next)
    ensures var e := Work(t, Outcome(true, 0, Unreachable));
            Enabled(now, e) && Reliable(now, e) && CameTo(start, Next(now, e), t, next)
  {
  }

  lemma ReadMore(s: System, es: seq<Event>, start: System, now: System, t: ThreadId, pc: Pc, next: Pc)
    returns (more: seq<Event>, end: System)
    requires Behaviour(s, es) && ReliableRun(s, es) && After(s, es) == now
    requires CameTo(start, now, t, pc) && start.store.records == map["mona" := STALE] && Onwards(pc, next)
    ensures Behaviour(s, more) && ReliableRun(s, more) && After(s, more) == end && CameTo(start, end, t, next)
  {
    Read(start, now, t, pc, next);
    var e := Work(t, Outcome(true, 0, Unreachable));
    end := Next(now, e);
    more := Grow(s, es, now, e, end);
  }

  lemma ReadAll(s: System, es: seq<Event>, now: System, t: ThreadId) returns (more: seq<Event>, end: System)
    requires Behaviour(s, es) && ReliableRun(s, es) && After(s, es) == now
    requires RefreshingMona(now, t, Reload) && now.store.records == map["mona" := STALE]
    ensures Behaviour(s, more) && ReliableRun(s, more) && After(s, more) == end
    ensures CameTo(now, end, t, Exchange(STALE, 0))
  {
    more, end := ReadMore(s, es, now, now, t, Reload, ReadRecord);
    more, end := ReadMore(s, more, now, end, t, ReadRecord, Anchor(STALE));
    more, end := ReadMore(s, more, now, end, t, Anchor(STALE), Exchange(STALE, 0));
  }

  lemma ReachExchange(s: System, es: seq<Event>, now: System, t: ThreadId) returns (more: seq<Event>, end: System)
    requires Behaviour(s, es) && ReliableRun(s, es) && After(s, es) == now
    requires Ready(now, t)
    ensures Behaviour(s, more) && ReliableRun(s, more) && After(s, more) == end
    ensures end.store == now.store && end.server == now.server && RefreshingMona(end, t, Exchange(STALE, 0)) &&
            end.threads == now.threads[t := end.threads[t]] && end.mutexes == now.mutexes[t.process := t]
  {
    var inside;
    more, inside := ReachInside(s, es, now, t);
    more, end := ReadAll(s, more, inside, t);
  }

  lemma ServeOne(now: System, t: ThreadId, other: ThreadId)
    requires HasSent(now, t) && HasSent(now, other) && t != other && now.server == TwoProcesses().server
    ensures var e := Serve(t, Served(AccessToken("renewed", "next", 0, 0)));
            Enabled(now, e) && Reliable(now, e) && HasSent(Next(now, e), other) &&
            STALE.refreshToken in Next(now, e).server.spent
  {
  }

  lemma BothReachExchange() returns (es: seq<Event>, end: System)
    ensures var s := TwoProcesses();
            Behaviour(s, es) && ReliableRun(s, es) && After(s, es) == end && end.server == s.server &&
            HasSent(end, ThreadId(0, 0)) && HasSent(end, ThreadId(1, 0))
  {
    var s := TwoProcesses();
    var middle;
    es, middle := ReachExchange(s, [], s, ThreadId(0, 0));
    es, end := ReachExchange(s, es, middle, ThreadId(1, 0));
  }

  lemma TwoProcessesSound()
    ensures var s := TwoProcesses(); Quiet(s) && AllIssued(s) && SingleUse(s)
  {
  }

  /** Without the file lock the guarantee fails: two processes that could not get it both send the same refresh token,
      the second one after it was exchanged, though no reply is lost and nothing fails to persist. */
  lemma UnlockedProcessesReuseTokens() returns (es: seq<Event>, t: ThreadId)
    ensures var s := TwoProcesses();
            Quiet(s) && AllIssued(s) && SingleUse(s) && Behaviour(s, es) && ReliableRun(s, es) &&
            HasSent(After(s, es), t) && STALE.refreshToken in After(s, es).server.spent
  {
    var first := ThreadId(0, 0);
    t := ThreadId(1, 0);
    var now;
    es, now := BothReachExchange();
    TwoProcessesSound();
    ServeOne(now, first, t);
    var e := Serve(first, Served(AccessToken("renewed", "next", 0, 0)));
    es := Grow(TwoProcesses(), es, now, e, Next(now, e));
  }
}
