/** The credential store of one host and the operations on it, written as small atomic steps.

    The shared part (`Store`) is the keyring and the config file; the private part of a running operation is its
    program counter and the in-memory config of its process. `Step` performs one keyring call, config write, reload or
    token exchange. Whatever the environment decides (does the call fail, what does the token endpoint answer, what time
    is it) is an `Outcome`, so an execution is a sequence of outcomes. */
module CredentialStore {
  import opened Wrappers

  /** Instants and durations are whole seconds. */
  const REFRESH_EXPIRY_LEEWAY := 600

  datatype Credential = Credential(token: string, refreshToken: string, expiresIn: int, refreshTokenExpiresIn: int,
                                   expiresAt: Option<int>, refreshTokenExpiresAt: Option<int>)

  const NO_CREDENTIAL := Credential("", "", 0, 0, None, None)

  /** What the token endpoint sends back on success; a zero lifetime means that none was reported. */
  datatype AccessToken = AccessToken(token: string, refreshToken: string, expiresIn: int, refreshTokenExpiresIn: int)

  predicate ValidCredential(c: Credential) {
    c.token != "" && c.refreshToken != ""
  }

  predicate AccessTokenNeedsRefresh(c: Credential, now: int) {
    c.expiresAt.None? || !(now + REFRESH_EXPIRY_LEEWAY < c.expiresAt.value)
  }

  /** Lifetimes are anchored at the instant the exchange was requested. */
  function CredentialFromAccessToken(t: AccessToken, requestedAt: int): Credential {
    Credential(t.token, t.refreshToken, t.expiresIn, t.refreshTokenExpiresIn,
               if t.expiresIn > 0 then Some(requestedAt + t.expiresIn) else None,
               if t.refreshTokenExpiresIn > 0 then Some(requestedAt + t.refreshTokenExpiresIn) else None)
  }

  // ---------------------------------------------------------------- config

  /** The host's section of the config: active user, git protocol, host-level plaintext token, the users in file order
      and the plaintext tokens kept under them. */
  datatype HostConfig = HostConfig(user: Option<string>, gitProtocol: Option<string>, hostToken: Option<string>,
                                   users: seq<string>, userTokens: map<string, string>)
  {
    function ForgetUserToken(u: string): HostConfig { this.(userTokens := userTokens - {u}) }

    function ForgetHostToken(): HostConfig { this.(hostToken := None) }

    function AddUser(u: string): HostConfig { if u in users then this else this.(users := users + [u]) }

    function DropUser(u: string): HostConfig { this.(users := Without(users, u), userTokens := userTokens - {u}) }

    function SetGitProtocol(p: string): HostConfig { if p == "" then this else this.(gitProtocol := Some(p)) }

    function Activate(u: string): HostConfig { this.(user := Some(u)) }
  }

  const NO_HOST := HostConfig(None, None, None, [], map[])

  function Without(users: seq<string>, u: string): seq<string> {
    if users == [] then [] else (if users[0] == u then [] else [users[0]]) + Without(users[1..], u)
  }

  /** The first user other than `u`, as the logout of the active user picks its successor. */
  function FirstOther(users: seq<string>, u: string): Option<string> {
    if users == [] then None else if users[0] != u then Some(users[0]) else FirstOther(users[1..], u)
  }

  // ---------------------------------------------------------------- store and execution state

  /** `tokens` holds the non-expiring keyring secrets by user, the host-level active slot under the empty user;
      `records` holds the refreshable ones; `file` is the config file. */
  datatype Store = Store(tokens: map<string, string>, records: map<string, Credential>, file: HostConfig)

  const ACTIVE := ""

  function Lookup<K, V>(m: map<K, V>, k: K): Option<V> {
    if k in m then Some(m[k]) else None
  }

  datatype Operation =
    | Login(user: string, token: string, gitProtocol: string)
    | LoginRefreshable(user: string, credential: Credential, gitProtocol: string)
    | Logout(user: string)
    | Refresh(user: string, given: Credential)
    | SwitchUser(user: string)

  datatype Status = Unnecessary | Expired | Failed | Renewed

  datatype Result = Success | Failure | Refreshed(status: Status, credential: Credential)

  /** What an activation is for: the last part of a login or logout, a switch that can be undone, or the undoing. */
  datatype Goal = ForLogin(user: string) | ForSwitch(user: string, previous: string) | ForUndo(user: string)

  datatype Pc =
    | Reload
    | LoginSet | LoginDelete | LoginCheck
    | RefreshableSet | RefreshableDelete | RefreshableCheck
    | ClearActive(goal: Goal) | FetchToken(goal: Goal) | CopyToken(goal: Goal, token: string)
    | FetchRecord(goal: Goal) | WriteActive(goal: Goal)
    | LogoutRecord | LogoutToken | LogoutActive | LogoutWrite
    | ReadRecord | Anchor(current: Credential) | Exchange(current: Credential, requestedAt: int)
    | RemoveRecord | RemoveToken | RemoveWrite
    | StoreRenewed(current: Credential, renewed: Credential) | WriteRenewed(current: Credential, renewed: Credential)
    | SwitchStart
    | PreviousToken(previous: string) | PreviousRecord(previous: string) | PreviousActive(previous: string)
    | Done(result: Result)

  datatype Reply = Unreachable | Rejected | Granted(token: AccessToken)

  /** The environment's part of one step: whether the keyring or file operation took effect, the clock, and the answer
      of the token endpoint. Steps read only the part that concerns them. */
  datatype Outcome = Outcome(ok: bool, now: int, reply: Reply)

  datatype State = State(op: Operation, lockHeld: bool, pc: Pc, mem: HostConfig, store: Store)
  {
    function At(next: Pc): State { this.(pc := next) }

    function Finish(r: Result): State { this.(pc := Done(r)) }

    function SetToken(u: string, t: string): State { this.(store := store.(tokens := store.tokens[u := t])) }

    function SetRecord(u: string, c: Credential): State { this.(store := store.(records := store.records[u := c])) }

    function DeleteToken(u: string, ok: bool): State {
      if ok then this.(store := store.(tokens := store.tokens - {u})) else this
    }

    function DeleteRecord(u: string, ok: bool): State {
      if ok then this.(store := store.(records := store.records - {u})) else this
    }

    function WriteFile(): State { this.(store := store.(file := mem)) }
  }

  // ---------------------------------------------------------------- the steps

  /** Where the body of an operation starts once the configuration is loaded. */
  function Body(op: Operation): Pc {
    match op
    case Login(_, _, _) => LoginSet
    case LoginRefreshable(u, c, _) => if u == "" || !ValidCredential(c) then Done(Failure) else RefreshableSet
    case Logout(_) => LogoutRecord
    case Refresh(_, _) => ReadRecord
    case SwitchUser(_) => SwitchStart
  }

  /** An operation never runs the steps of another one. */
  predicate Coherent(s: State) {
    match s.pc
    case LoginSet => s.op.Login?
    case LoginDelete => s.op.Login?
    case LoginCheck => s.op.Login?
    case RefreshableSet => s.op.LoginRefreshable? && s.op.user != "" && ValidCredential(s.op.credential)
    case RefreshableDelete => s.op.LoginRefreshable? && s.op.user != "" && ValidCredential(s.op.credential)
    case RefreshableCheck => s.op.LoginRefreshable? && s.op.user != "" && ValidCredential(s.op.credential)
    case LogoutRecord => s.op.Logout?
    case LogoutToken => s.op.Logout?
    case LogoutActive => s.op.Logout?
    case LogoutWrite => s.op.Logout?
    case ReadRecord => s.op.Refresh?
    case Anchor(c) => s.op.Refresh? && ValidCredential(c)
    case Exchange(c, _) => s.op.Refresh? && ValidCredential(c)
    case RemoveRecord => s.op.Refresh? && s.lockHeld
    case RemoveToken => s.op.Refresh? && s.lockHeld
    case RemoveWrite => s.op.Refresh? && s.lockHeld
    case StoreRenewed(c, r) => s.op.Refresh? && ValidCredential(c) && ValidCredential(r)
    case WriteRenewed(c, r) => s.op.Refresh? && ValidCredential(c) && ValidCredential(r)
    case SwitchStart => s.op.SwitchUser?
    case PreviousToken(_) => s.op.SwitchUser?
    case PreviousRecord(_) => s.op.SwitchUser?
    case PreviousActive(_) => s.op.SwitchUser?
    case Reload => !s.op.SwitchUser?
    case Done(r) => r.Refreshed? ==> s.op.Refresh?
    case _ =>
      if s.pc.goal.ForLogin? then s.op.Login? || s.op.LoginRefreshable? || s.op.Logout?
      else s.op.SwitchUser?
  }

  function Completed(s: State): State
    requires s.op.Login? || s.op.LoginRefreshable?
  {
    s.(mem := s.mem.SetGitProtocol(s.op.gitProtocol).AddUser(s.op.user), pc := ClearActive(ForLogin(s.op.user)))
  }

  function ActivationFound(s: State, g: Goal): State {
    var active := s.(mem := s.mem.Activate(g.user));
    if g.ForUndo? then active.Finish(Failure) else active.At(WriteActive(g))
  }

  function ActivationFailed(s: State, g: Goal): State {
    match g
    case ForLogin(_) => s.Finish(Failure)
    case ForSwitch(_, previous) => s.At(ClearActive(ForUndo(previous)))
    case ForUndo(u) => s.(mem := s.mem.Activate(u), pc := Done(Failure))
  }

  function StepLogin(s: State, o: Outcome): (next: State)
    requires Coherent(s)
    requires s.op.Login? && (s.pc.LoginSet? || s.pc.LoginDelete? || s.pc.LoginCheck?)
    ensures Coherent(next) && next.op == s.op && next.lockHeld == s.lockHeld
  {
    var u := s.op.user;
    match s.pc
    case LoginSet =>
      if !o.ok then s.Finish(Failure)
      else s.SetToken(u, s.op.token).(mem := s.mem.ForgetUserToken(u).ForgetHostToken()).At(LoginDelete)
    case LoginDelete => s.DeleteRecord(u, o.ok).At(LoginCheck)
    case LoginCheck =>
      if o.ok && u in s.store.records && ValidCredential(s.store.records[u]) then s.Finish(Failure) else Completed(s)
  }

  function StepLoginRefreshable(s: State, o: Outcome): (next: State)
    requires Coherent(s)
    requires s.op.LoginRefreshable? && (s.pc.RefreshableSet? || s.pc.RefreshableDelete? || s.pc.RefreshableCheck?)
    ensures Coherent(next) && next.op == s.op && next.lockHeld == s.lockHeld
  {
    var u := s.op.user;
    match s.pc
    case RefreshableSet =>
      if !o.ok then s.Finish(Failure) else s.SetRecord(u, s.op.credential).At(RefreshableDelete)
    case RefreshableDelete => s.(mem := s.mem.ForgetUserToken(u)).DeleteToken(u, o.ok).At(RefreshableCheck)
    case RefreshableCheck => if o.ok && u in s.store.tokens then s.Finish(Failure) else Completed(s)
  }

  predicate Activating(pc: Pc) {
    pc.ClearActive? || pc.FetchToken? || pc.CopyToken? || pc.FetchRecord? || pc.WriteActive?
  }

  function StepActivate(s: State, o: Outcome): (next: State)
    requires Coherent(s)
    requires Activating(s.pc)
    ensures Coherent(next) && next.op == s.op && next.lockHeld == s.lockHeld
  {
    var g := s.pc.goal;
    match s.pc
    case ClearActive(_) => s.DeleteToken(ACTIVE, o.ok).(mem := s.mem.ForgetHostToken()).At(FetchToken(g))
    case FetchToken(_) =>
      if o.ok && g.user in s.store.tokens then s.At(CopyToken(g, s.store.tokens[g.user])) else s.At(FetchRecord(g))
    case CopyToken(_, t) => if !o.ok then ActivationFailed(s, g) else ActivationFound(s.SetToken(ACTIVE, t), g)
    case FetchRecord(_) =>
      if !o.ok then ActivationFailed(s, g)
      else if g.user in s.store.records then
        if ValidCredential(s.store.records[g.user]) then ActivationFound(s, g) else ActivationFailed(s, g)
      else if g.user in s.mem.userTokens then
        ActivationFound(s.(mem := s.mem.(hostToken := Some(s.mem.userTokens[g.user]))), g)
      else ActivationFailed(s, g)
    case WriteActive(_) => if !o.ok then ActivationFailed(s, g) else s.WriteFile().Finish(Success)
  }

  predicate LoggingOut(pc: Pc) {
    pc.LogoutRecord? || pc.LogoutToken? || pc.LogoutActive? || pc.LogoutWrite?
  }

  function StepLogout(s: State, o: Outcome): (next: State)
    requires Coherent(s)
    requires s.op.Logout? && LoggingOut(s.pc)
    ensures Coherent(next) && next.op == s.op && next.lockHeld == s.lockHeld
  {
    var u := s.op.user;
    match s.pc
    case LogoutRecord => s.DeleteRecord(u, o.ok).At(LogoutToken)
    case LogoutToken =>
      var t := s.DeleteToken(u, o.ok);
      if |s.mem.users| < 2 then t.(mem := NO_HOST).At(LogoutActive)
      else
        var rest := t.(mem := t.mem.DropUser(u));
        var successor := FirstOther(s.mem.users, u);
        if s.mem.user != Some(u) || successor.None? then rest.At(LogoutWrite)
        else rest.At(ClearActive(ForLogin(successor.value)))
    case LogoutActive => s.DeleteToken(ACTIVE, o.ok).At(LogoutWrite)
    case LogoutWrite => if !o.ok then s.Finish(Failure) else s.WriteFile().Finish(Success)
  }

  predicate Refreshing(pc: Pc) {
    pc.ReadRecord? || pc.Anchor? || pc.Exchange? || pc.RemoveRecord? || pc.RemoveToken? || pc.RemoveWrite? ||
    pc.StoreRenewed? || pc.WriteRenewed?
  }

  function StepRefresh(s: State, o: Outcome): (next: State)
    requires Coherent(s)
    requires s.op.Refresh? && Refreshing(s.pc)
    ensures Coherent(next) && next.op == s.op && next.lockHeld == s.lockHeld
  {
    var u := s.op.user;
    match s.pc
    case ReadRecord =>
      if !o.ok || u !in s.store.records || !ValidCredential(s.store.records[u]) then
        s.Finish(Refreshed(Failed, s.op.given))
      else if !AccessTokenNeedsRefresh(s.store.records[u], o.now) then
        s.Finish(Refreshed(Unnecessary, s.store.records[u]))
      else s.At(Anchor(s.store.records[u]))
    case Anchor(current) => s.At(Exchange(current, o.now))
    case Exchange(current, requestedAt) =>
      (match o.reply
       case Unreachable => s.Finish(Refreshed(Failed, current))
       case Rejected =>
         if s.lockHeld then s.At(RemoveRecord) else s.Finish(Refreshed(Expired, NO_CREDENTIAL))
       case Granted(token) =>
         var renewed := CredentialFromAccessToken(token, requestedAt);
         if ValidCredential(renewed) then s.At(StoreRenewed(current, renewed))
         else s.Finish(Refreshed(Failed, current)))
    case RemoveRecord => s.DeleteRecord(u, o.ok).At(RemoveToken)
    case RemoveToken => s.DeleteToken(u, o.ok).(mem := s.mem.ForgetUserToken(u)).At(RemoveWrite)
    case RemoveWrite =>
      (if o.ok then s.WriteFile() else s).Finish(Refreshed(Expired, NO_CREDENTIAL))
    case StoreRenewed(current, renewed) =>
      if !o.ok then s.Finish(Refreshed(Failed, current))
      else s.SetRecord(u, renewed).At(WriteRenewed(current, renewed))
    case WriteRenewed(current, renewed) =>
      if !o.ok then s.Finish(Refreshed(Failed, current)) else s.WriteFile().Finish(Refreshed(Renewed, renewed))
  }

  predicate ResolvingPrevious(pc: Pc) {
    pc.SwitchStart? || pc.PreviousToken? || pc.PreviousRecord? || pc.PreviousActive?
  }

  /** A switch first resolves the active credential, whose source must be gh's own storage. */
  function StepSwitch(s: State, o: Outcome): (next: State)
    requires Coherent(s)
    requires s.op.SwitchUser? && ResolvingPrevious(s.pc)
    ensures Coherent(next) && next.op == s.op && next.lockHeld == s.lockHeld
  {
    match s.pc
    case SwitchStart =>
      if s.mem.user.None? then s.Finish(Failure)
      else if s.mem.user.value == "" then s.At(PreviousActive(s.mem.user.value))
      else s.At(PreviousToken(s.mem.user.value))
    case PreviousToken(p) =>
      if !o.ok then s.Finish(Failure)
      else if p in s.store.tokens then s.At(ClearActive(ForSwitch(s.op.user, p)))
      else s.At(PreviousRecord(p))
    case PreviousRecord(p) =>
      if !o.ok then s.Finish(Failure)
      else if p !in s.store.records then s.At(PreviousActive(p))
      else if ValidCredential(s.store.records[p]) then s.At(ClearActive(ForSwitch(s.op.user, p)))
      else s.Finish(Failure)
    case PreviousActive(p) =>
      if o.ok && ACTIVE in s.store.tokens then s.At(ClearActive(ForSwitch(s.op.user, p))) else s.Finish(Failure)
  }

  function Step(s: State, o: Outcome): (next: State)
    requires Coherent(s)
    ensures Coherent(next) && next.op == s.op && next.lockHeld == s.lockHeld
  {
    if s.pc.Done? then s
    else if s.pc.Reload? then
      if o.ok then s.(mem := s.store.file, pc := Body(s.op))
      else s.Finish(if s.op.Refresh? then Refreshed(Failed, s.op.given) else Failure)
    else if Activating(s.pc) then StepActivate(s, o)
    else if LoggingOut(s.pc) then StepLogout(s, o)
    else if Refreshing(s.pc) then StepRefresh(s, o)
    else if ResolvingPrevious(s.pc) then StepSwitch(s, o)
    else if s.op.Login? then StepLogin(s, o)
    else StepLoginRefreshable(s, o)
  }

  /** The execution of a sequence of outcomes from `s`. */
  function Exec(s: State, os: seq<Outcome>): (r: State)
    requires Coherent(s)
    ensures Coherent(r) && r.op == s.op && r.lockHeld == s.lockHeld
  {
    if os == [] then s else Step(Exec(s, os[..|os| - 1]), os[|os| - 1])
  }

  lemma ExecSnoc(s: State, os: seq<Outcome>, o: Outcome)
    requires Coherent(s)
    ensures Exec(s, os + [o]) == Step(Exec(s, os), o)
  {
    assert (os + [o])[..|os|] == os;
  }

  /** One more step, for runs that are written out. */
  lemma ExecMore(s: State, os: seq<Outcome>, o: Outcome, now: State, next: State) returns (more: seq<Outcome>)
    requires Coherent(s) && Exec(s, os) == now && Step(now, o) == next
    ensures more == os + [o] && Exec(s, more) == next
  {
    ExecSnoc(s, os, o);
    more := os + [o];
  }

  lemma {:induction false} ExecConcat(s: State, a: seq<Outcome>, b: seq<Outcome>)
    requires Coherent(s)
    ensures Exec(s, a + b) == Exec(Exec(s, a), b)
    decreases |b|
  {
    if b == [] {
      assert a + b == a;
    } else {
      var i := |b| - 1;
      assert a + b == (a + b[..i]) + [b[i]];
      ExecConcat(s, a, b[..i]);
      ExecSnoc(s, a + b[..i], b[i]);
    }
  }

  /** Every operation begins with the reload, except the switch, which works on the in-memory config it has. */
  function Start(op: Operation, lockHeld: bool, mem: HostConfig, store: Store): (s: State)
    ensures Coherent(s)
  {
    State(op, lockHeld, if op.SwitchUser? then SwitchStart else Reload, mem, store)
  }

  // ---------------------------------------------------------------- reading

  /** The credential of a user, keyring token first, with a keyring that answers. */
  function TokenForUser(store: Store, u: string): Option<Credential> {
    if u in store.tokens then Some(Credential(store.tokens[u], "", 0, 0, None, None))
    else if u in store.records && ValidCredential(store.records[u]) then Some(store.records[u])
    else None
  }

  /** The active credential, falling back to the unkeyed slot as the oldest gh versions need. */
  function ActiveToken(store: Store, config: HostConfig): Option<Credential> {
    var own := if config.user.Some? && config.user.value != "" then TokenForUser(store, config.user.value) else None;
    if own.Some? then own
    else if config.user.Some? && config.user.value != "" && config.user.value in store.records then None
    else if ACTIVE in store.tokens then Some(Credential(store.tokens[ACTIVE], "", 0, 0, None, None))
    else None
  }
}
