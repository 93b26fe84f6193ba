/** Several gh processes, each with several goroutines, run operations on one store and one token server. Every step of
    every operation is a separate event, so events of different threads interleave freely. A thread first takes its
    process's mutex, then tries the cross-process file lock and goes on without it if that fails. What the server does
    and what its client learns are separate events too: time passes, other threads run and tokens are revoked while a
    reply is on its way. */
module RefreshProtocol {
  import opened Wrappers
  import opened CredentialStore
  import opened StoreInvariants

  datatype ThreadId = ThreadId(process: nat, goroutine: nat)

  /** Where a thread is: waiting for its user to be authorised, for the mutex, holding that and about to try the file
      lock, or inside. */
  datatype Activity =
    | Authorising(requestedAt: int, granted: Option<AccessToken>)
    | Waiting(op: Operation)
    | Entering(op: Operation)
    | Running(op: Operation, lockHeld: bool, pc: Pc)

  /** The server's refresh tokens by fate, and the true expiry of each access token. Refresh tokens rotate and are
      single-use (section 6 of RFC 6749): a token that was exchanged for another one is spent. */
  datatype Server = Server(live: set<string>, spent: set<string>, revoked: set<string>, expiry: map<string, int>)
  {
    predicate Issued(t: string) { t in live || t in spent || t in revoked }

    /** Tokens that the server could hand out now. */
    predicate Fresh(t: AccessToken) { !Issued(t.refreshToken) && t.token !in expiry }

    /** The reply may keep the refresh token instead of rotating it. */
    predicate CanServe(refreshToken: string, t: AccessToken) {
      refreshToken in live && t.token !in expiry && (t.refreshToken == refreshToken || !Issued(t.refreshToken))
    }

    function Serve(refreshToken: string, t: AccessToken, now: int): Server {
      var s := this.(expiry := expiry[t.token := now + t.expiresIn]);
      if t.refreshToken == refreshToken then s
      else s.(live := live - {refreshToken} + {t.refreshToken}, spent := spent + {refreshToken})
    }

    function Issue(t: AccessToken, now: int): Server {
      this.(live := live + {t.refreshToken}, expiry := expiry[t.token := now + t.expiresIn])
    }
  }

  /** What the server has made of a request, as long as the client has not learned it. */
  datatype Answer = Refused | Served(token: AccessToken)

  /** `replies` holds the answers on their way. `turn` and `log` are history: which thread entered last and has not
      left, and the operations in the order in which they entered, with the outcomes they have met so far. */
  datatype System = System(store: Store, server: Server, now: int, mems: map<nat, HostConfig>,
                           mutexes: map<nat, ThreadId>, fileLock: Option<ThreadId>,
                           threads: map<ThreadId, Activity>, replies: map<ThreadId, Answer>,
                           turn: Option<ThreadId>, log: seq<Command>)
  {
    function Mem(p: nat): HostConfig { if p in mems then mems[p] else NO_HOST }

    predicate Inside(t: ThreadId) { t in threads && threads[t].Running? }

    function View(t: ThreadId): State
      requires Inside(t)
    {
      State(threads[t].op, threads[t].lockHeld, threads[t].pc, Mem(t.process), store)
    }
  }

  datatype Event =
    | BeginLogin(t: ThreadId, user: string, token: string, gitProtocol: string)
    | BeginAuthorisation(t: ThreadId)
    | Grant(t: ThreadId, granted: AccessToken)
    | ReceiveGrant(t: ThreadId, user: string, gitProtocol: string)
    | BeginLogout(t: ThreadId, user: string)
    | BeginRefresh(t: ThreadId, user: string)
    | TakeMutex(t: ThreadId)
    | TryFileLock(t: ThreadId, got: bool)
    | Serve(t: ThreadId, answer: Answer)
    | ServeStray(refreshToken: string, issued: AccessToken)
    | Work(t: ThreadId, outcome: Outcome)
    | Leave(t: ThreadId)
    | Tick(elapsed: nat)
    | Revoke(refreshToken: string)

  /** What the clock and the replies allow a step to observe. Any request can appear to fail: it may not have arrived,
      or its reply may be lost. */
  predicate Observable(s: System, t: ThreadId, o: Outcome)
    requires s.Inside(t)
  {
    o.now == s.now &&
    (s.threads[t].pc.Exchange? ==>
       match o.reply
       case Unreachable => true
       case Rejected => Lookup(s.replies, t) == Some(Refused)
       case Granted(token) => Lookup(s.replies, t) == Some(Served(token)))
  }

  predicate Enabled(s: System, e: Event) {
    match e
    case BeginLogin(t, u, _, _) => t !in s.threads && u != ""
    case BeginAuthorisation(t) => t !in s.threads
    case Grant(t, granted) =>
      t in s.threads && s.threads[t].Authorising? && s.threads[t].granted.None? && s.server.Fresh(granted)
    case ReceiveGrant(t, _, _) => t in s.threads && s.threads[t].Authorising? && s.threads[t].granted.Some?
    case BeginLogout(t, _) => t !in s.threads
    case BeginRefresh(t, u) =>
      t !in s.threads && u in s.store.records && ValidCredential(s.store.records[u]) &&
      AccessTokenNeedsRefresh(s.store.records[u], s.now)
    case TakeMutex(t) => t in s.threads && s.threads[t].Waiting? && t.process !in s.mutexes
    case TryFileLock(t, got) => t in s.threads && s.threads[t].Entering? && (got ==> s.fileLock.None?)
    case Serve(t, answer) =>
      s.Inside(t) && s.threads[t].pc.Exchange? && t !in s.replies &&
      (match answer
       case Refused => s.threads[t].pc.current.refreshToken !in s.server.live
       case Served(token) => s.server.CanServe(s.threads[t].pc.current.refreshToken, token))
    case ServeStray(r, issued) => s.server.CanServe(r, issued)
    case Work(t, o) => s.Inside(t) && !s.threads[t].pc.Done? && Coherent(s.View(t)) && Observable(s, t, o)
    case Leave(t) => s.Inside(t) && s.threads[t].pc.Done?
    case Tick(_) => true
    case Revoke(r) => r in s.server.live
  }

  function Wait(s: System, t: ThreadId, op: Operation): System {
    s.(threads := s.threads[t := Waiting(op)])
  }

  function Perform(s: System, t: ThreadId, o: Outcome): System
    requires s.Inside(t) && Coherent(s.View(t))
  {
    var v := Step(s.View(t), o);
    s.(store := v.store,
       mems := s.mems[t.process := v.mem],
       threads := s.threads[t := Running(v.op, v.lockHeld, v.pc)],
       replies := s.replies - {t},
       log := Record(s.log, o))
  }

  function Record(log: seq<Command>, o: Outcome): seq<Command> {
    if log == [] then log
    else log[..|log| - 1] + [log[|log| - 1].(outcomes := log[|log| - 1].outcomes + [o])]
  }

  function Next(s: System, e: Event): System
    requires Enabled(s, e)
  {
    match e
    case BeginLogin(t, u, token, p) => Wait(s, t, Login(u, token, p))
    case BeginAuthorisation(t) => s.(threads := s.threads[t := Authorising(s.now, None)])
    case Grant(t, granted) =>
      s.(threads := s.threads[t := s.threads[t].(granted := Some(granted))], server := s.server.Issue(granted, s.now))
    case ReceiveGrant(t, u, p) =>
      var a := s.threads[t];
      Wait(s, t, LoginRefreshable(u, CredentialFromAccessToken(a.granted.value, a.requestedAt), p))
    case BeginLogout(t, u) => Wait(s, t, Logout(u))
    case BeginRefresh(t, u) => Wait(s, t, Refresh(u, s.store.records[u]))
    case TakeMutex(t) =>
      s.(mutexes := s.mutexes[t.process := t], threads := s.threads[t := Entering(s.threads[t].op)])
    case TryFileLock(t, got) =>
      s.(fileLock := if got then Some(t) else s.fileLock,
         threads := s.threads[t := Running(s.threads[t].op, got, Reload)],
         turn := Some(t),
         log := s.log + [Command(s.threads[t].op, got, [])])
    // The answer starts on its way.
    case Serve(t, answer) =>
      s.(replies := s.replies[t := answer],
         server := if answer.Served? then s.server.Serve(s.threads[t].pc.current.refreshToken, answer.token, s.now)
                   else s.server)
    // A request that its client had given up on arrives after all.
    case ServeStray(r, issued) => s.(server := s.server.Serve(r, issued, s.now))
    case Work(t, o) => Perform(s, t, o)
    case Leave(t) =>
      s.(fileLock := if s.fileLock == Some(t) then None else s.fileLock,
         mutexes := s.mutexes - {t.process},
         threads := s.threads - {t},
         turn := None)
    case Tick(d) => s.(now := s.now + d)
    case Revoke(r) => s.(server := s.server.(live := s.server.live - {r}, revoked := s.server.revoked + {r}))
  }

  // ---------------------------------------------------------------- behaviours

  /** The states of a behaviour: `After(s, es)` is defined while each event is enabled in turn. */
  ghost predicate Behaviour(s: System, es: seq<Event>)
    decreases |es|, 0
  {
    es == [] || (Behaviour(s, es[..|es| - 1]) && Enabled(After(s, es[..|es| - 1]), es[|es| - 1]))
  }

  ghost function After(s: System, es: seq<Event>): System
    requires Behaviour(s, es)
    decreases |es|, 1
  {
    if es == [] then s else Next(After(s, es[..|es| - 1]), es[|es| - 1])
  }

  /** What keeps two threads from being inside together: everybody gets the file lock, or there is one process. */
  datatype Regime = EverybodyLocks | OneProcess(process: nat)

  predicate Obeys(r: Regime, e: Event) {
    match r
    case EverybodyLocks => e.TryFileLock? ==> e.got
    case OneProcess(p) => e.Tick? || e.Revoke? || e.ServeStray? || e.t.process == p
  }

  ghost predicate Regular(r: Regime, es: seq<Event>) {
    forall i :: 0 <= i < |es| ==> Obeys(r, es[i])
  }

  predicate Quiet(s: System) {
    s.threads == map[] && s.mutexes == map[] && s.fileLock == None && s.replies == map[] && s.turn == None &&
    s.log == []
  }

  // ---------------------------------------------------------------- mutual exclusion

  predicate Placed(s: System, t: ThreadId)
    requires t in s.threads
  {
    match s.threads[t]
    case Authorising(_, _) => true
    case Waiting(op) => !op.SwitchUser?
    case Entering(op) => !op.SwitchUser? && Lookup(s.mutexes, t.process) == Some(t)
    case Running(op, held, _) =>
      !op.SwitchUser? && Lookup(s.mutexes, t.process) == Some(t) && s.turn == Some(t) &&
      (held ==> s.fileLock == Some(t)) && Coherent(s.View(t))
  }

  ghost predicate Exclusion(r: Regime, s: System) {
    (forall t :: t in s.threads ==> Placed(s, t)) &&
    (forall p :: p in s.mutexes ==> s.mutexes[p].process == p) &&
    (s.turn.Some? ==> s.Inside(s.turn.value)) &&
    (s.fileLock.Some? ==> s.Inside(s.fileLock.value)) &&
    (r.EverybodyLocks? ==> forall t :: s.Inside(t) ==> s.threads[t].lockHeld) &&
    (r.OneProcess? ==> forall t :: t in s.threads ==> t.process == r.process)
  }

  lemma ExclusionBegin(r: Regime, s: System, e: Event)
    requires Exclusion(r, s) && Enabled(s, e) && Obeys(r, e)
    requires e.BeginLogin? || e.BeginAuthorisation? || e.BeginLogout? || e.BeginRefresh? || e.Grant? || e.ReceiveGrant?
    ensures Exclusion(r, Next(s, e))
  {
    var n := Next(s, e);
    var a := n.threads[e.t];
    assert n.mutexes == s.mutexes && n.turn == s.turn && n.fileLock == s.fileLock && n.mems == s.mems;
    assert n.store == s.store && n.threads == s.threads[e.t := a];
    assert a.Authorising? || (a.Waiting? && !a.op.SwitchUser?);
    ExclusionOutside(r, s, n, e.t, a);
  }

  /** What a thread that is outside does next, as long as it stays outside. */
  lemma ExclusionOutside(r: Regime, s: System, n: System, t: ThreadId, a: Activity)
    requires Exclusion(r, s) && (t in s.threads ==> s.threads[t].Authorising?)
    requires r.OneProcess? ==> t.process == r.process
    requires n.mutexes == s.mutexes && n.turn == s.turn && n.fileLock == s.fileLock && n.mems == s.mems
    requires n.store == s.store && n.threads == s.threads[t := a]
    requires a.Authorising? || (a.Waiting? && !a.op.SwitchUser?)
    ensures Exclusion(r, n)
  {
    forall v | v in n.threads ensures Placed(n, v) {
      if v != t { assert Placed(s, v); }
    }
  }

  lemma ExclusionEnter(r: Regime, s: System, e: Event)
    requires Exclusion(r, s) && Enabled(s, e) && Obeys(r, e) && (e.TakeMutex? || e.TryFileLock?)
    ensures Exclusion(r, Next(s, e))
  {
    var n := Next(s, e);
    assert Placed(s, e.t);
    forall t | t in n.threads ensures Placed(n, t) {
      if t != e.t { assert Placed(s, t); }
    }
  }

  lemma ExclusionWork(r: Regime, s: System, e: Event)
    requires Exclusion(r, s) && Enabled(s, e) && Obeys(r, e) && e.Work?
    ensures Exclusion(r, Next(s, e))
  {
    var n := Next(s, e);
    assert Placed(s, e.t);
    forall t | t in n.threads ensures Placed(n, t) {
      if t != e.t { assert Placed(s, t); }
    }
  }

  lemma ExclusionLeave(r: Regime, s: System, e: Event)
    requires Exclusion(r, s) && Enabled(s, e) && Obeys(r, e) && e.Leave?
    ensures Exclusion(r, Next(s, e))
  {
    var n := Next(s, e);
    assert Placed(s, e.t);
    forall t | t in n.threads ensures Placed(n, t) {
      assert Placed(s, t);
    }
  }

  lemma ExclusionElse(r: Regime, s: System, e: Event)
    requires Exclusion(r, s) && Enabled(s, e) && (e.Tick? || e.Revoke? || e.Serve? || e.ServeStray?)
    ensures Exclusion(r, Next(s, e))
  {
    forall t | t in s.threads ensures Placed(Next(s, e), t) { assert Placed(s, t); }
  }

  lemma ExclusionNext(r: Regime, s: System, e: Event)
    requires Exclusion(r, s) && Enabled(s, e) && Obeys(r, e)
    ensures Exclusion(r, Next(s, e))
  {
    match e
    case Work(_, _) => ExclusionWork(r, s, e);
    case Leave(_) => ExclusionLeave(r, s, e);
    case TakeMutex(_) => ExclusionEnter(r, s, e);
    case TryFileLock(_, _) => ExclusionEnter(r, s, e);
    case Tick(_) => ExclusionElse(r, s, e);
    case Revoke(_) => ExclusionElse(r, s, e);
    case Serve(_, _) => ExclusionElse(r, s, e);
    case ServeStray(_, _) => ExclusionElse(r, s, e);
    case _ => ExclusionBegin(r, s, e);
  }

  /** Nobody is inside when a thread enters. */
  lemma EntersAlone(r: Regime, s: System, e: Event)
    requires Exclusion(r, s) && Enabled(s, e) && Obeys(r, e) && e.TryFileLock?
    ensures s.turn == None
  {
    assert Placed(s, e.t);
    assert s.turn.Some? ==> Placed(s, s.turn.value);
    assert s.turn.Some? && r.EverybodyLocks? ==> s.threads[s.turn.value].lockHeld;
  }
}
