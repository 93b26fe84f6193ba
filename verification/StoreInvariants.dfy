/** What every run of a single operation does to the store, proved by giving an assertion for each program point. */
module StoreInvariants {
  import opened Wrappers
  import opened CredentialStore

  ghost predicate AllSucceed(os: seq<Outcome>) {
    forall i :: 0 <= i < |os| ==> os[i].ok
  }

  // ---------------------------------------------------------------- the active slot and the two credential forms

  /** The host-level slot holds the active user's own token, or nothing. */
  predicate SlotOwned(store: Store, config: HostConfig) {
    ACTIVE in store.tokens ==>
      config.user.Some? && config.user.value != ACTIVE && config.user.value in store.tokens &&
      store.tokens[config.user.value] == store.tokens[ACTIVE]
  }

  /** No user has both a non-expiring and a refreshable credential. */
  ghost predicate OneForm(store: Store) {
    forall u :: u != ACTIVE && u in store.tokens ==> u !in store.records
  }

  ghost predicate OneFormExcept(store: Store, v: string) {
    forall u :: u != ACTIVE && u != v && u in store.tokens ==> u !in store.records
  }

  ghost predicate Distinct(users: seq<string>) {
    forall i, j :: 0 <= i < j < |users| ==> users[i] != users[j]
  }

  ghost predicate Consistent(store: Store) {
    OneForm(store) && SlotOwned(store, store.file) && Distinct(store.file.users)
  }

  ghost predicate SlotAt(s: State) {
    Distinct(s.store.file.users) && (!s.pc.Reload? ==> Distinct(s.mem.users)) &&
    match s.pc
    case Reload => Consistent(s.store)
    case LoginSet => Consistent(s.store)
    case LoginDelete => OneFormExcept(s.store, s.op.user)
    case LoginCheck => OneForm(s.store) && s.op.user !in s.store.records
    case RefreshableSet => Consistent(s.store)
    case RefreshableDelete => OneFormExcept(s.store, s.op.user)
    case RefreshableCheck => OneForm(s.store) && s.op.user !in s.store.tokens
    case ClearActive(g) => OneForm(s.store) && UndoReady(s, g)
    case FetchToken(g) => OneForm(s.store) && UndoReady(s, g) && ACTIVE !in s.store.tokens
    case CopyToken(g, t) =>
      OneForm(s.store) && UndoReady(s, g) && ACTIVE !in s.store.tokens && Lookup(s.store.tokens, g.user) == Some(t)
    case FetchRecord(g) => OneForm(s.store) && UndoReady(s, g) && ACTIVE !in s.store.tokens
    case WriteActive(g) => OneForm(s.store) && SlotOwned(s.store, s.mem)
    case LogoutRecord => Consistent(s.store) && s.mem.user == s.store.file.user
    case LogoutToken => Consistent(s.store) && s.mem.user == s.store.file.user
    case LogoutActive => OneForm(s.store) && s.mem.user.None?
    case LogoutWrite => OneForm(s.store) && SlotOwned(s.store, s.mem)
    case Done(_) => Consistent(s.store)
    case ReadRecord => Consistent(s.store) && s.mem.user == s.store.file.user
    case Anchor(_) => RefreshReady(s)
    case Exchange(_, _) => RefreshReady(s)
    case RemoveRecord => RefreshReady(s)
    case RemoveToken => RefreshReady(s)
    case RemoveWrite => RefreshReady(s)
    case StoreRenewed(_, _) => RefreshReady(s)
    case WriteRenewed(_, _) => RefreshReady(s)
    case SwitchStart => Consistent(s.store) && s.mem.user == s.store.file.user
    case PreviousToken(p) => Consistent(s.store) && s.store.file.user == Some(p)
    case PreviousRecord(p) => Consistent(s.store) && s.store.file.user == Some(p)
    case PreviousActive(p) => Consistent(s.store) && s.store.file.user == Some(p)
  }

  predicate UndoReady(s: State, g: Goal) {
    match g
    case ForLogin(_) => true
    case ForSwitch(_, p) => s.store.file.user == Some(p)
    case ForUndo(p) => s.store.file.user == Some(p)
  }

  ghost predicate RefreshReady(s: State) {
    Consistent(s.store) && s.mem.user == s.store.file.user && (s.op.user == ACTIVE || s.op.user !in s.store.tokens)
  }

  lemma {:induction false} WithoutKeepsDistinct(users: seq<string>, u: string)
    requires Distinct(users)
    ensures Distinct(Without(users, u))
    ensures forall x :: x in Without(users, u) <==> x in users && x != u
  {
    if users != [] {
      WithoutKeepsDistinct(users[1..], u);
      var rest := Without(users[1..], u);
      assert users == [users[0]] + users[1..];
      assert users[0] !in users[1..];
      assert forall i, j :: 0 <= i < j < |rest| ==> rest[i] != rest[j];
    }
  }

  lemma SuccessorExists(users: seq<string>, u: string)
    requires Distinct(users) && |users| >= 2
    ensures FirstOther(users, u).Some? && FirstOther(users, u).value in users && FirstOther(users, u).value != u
  {
    if users[0] == u {
      assert users[1] != u;
      assert users[1..][0] == users[1];
    }
  }

  lemma SlotLogin(s: State, o: Outcome)
    requires Coherent(s) && SlotAt(s) && o.ok && s.op.Login?
    requires s.pc.LoginSet? || s.pc.LoginDelete? || s.pc.LoginCheck?
    ensures SlotAt(StepLogin(s, o))
  {
  }

  lemma SlotLoginRefreshable(s: State, o: Outcome)
    requires Coherent(s) && SlotAt(s) && o.ok && s.op.LoginRefreshable?
    requires s.pc.RefreshableSet? || s.pc.RefreshableDelete? || s.pc.RefreshableCheck?
    ensures SlotAt(StepLoginRefreshable(s, o))
  {
  }

  lemma SlotCopied(s: State, o: Outcome)
    requires Coherent(s) && SlotAt(s) && o.ok && s.pc.CopyToken?
    ensures SlotAt(StepActivate(s, o))
  {
  }

  lemma SlotNotFound(s: State, g: Goal)
    requires Coherent(s) && SlotAt(s) && s.pc == FetchRecord(g)
    ensures SlotAt(ActivationFailed(s, g))
  {
  }

  lemma SlotEmpty(s: State, g: Goal, mem: HostConfig)
    requires Coherent(s) && SlotAt(s) && s.pc == FetchRecord(g) && mem.users == s.mem.users
    ensures SlotAt(ActivationFound(s.(mem := mem), g))
  {
  }

  lemma SlotFound(s: State, o: Outcome)
    requires Coherent(s) && SlotAt(s) && o.ok && s.pc.FetchRecord?
    ensures SlotAt(StepActivate(s, o))
  {
    var g := s.pc.goal;
    SlotNotFound(s, g);
    SlotEmpty(s, g, s.mem);
    if g.user in s.mem.userTokens { SlotEmpty(s, g, s.mem.(hostToken := Some(s.mem.userTokens[g.user]))); }
  }

  lemma SlotActivate(s: State, o: Outcome)
    requires Coherent(s) && SlotAt(s) && o.ok && Activating(s.pc)
    ensures SlotAt(StepActivate(s, o))
  {
    if s.pc.CopyToken? {
      SlotCopied(s, o);
    } else if s.pc.FetchRecord? {
      SlotFound(s, o);
    }
  }

  lemma SlotLogout(s: State, o: Outcome)
    requires Coherent(s) && SlotAt(s) && o.ok && LoggingOut(s.pc)
    ensures SlotAt(StepLogout(s, o))
  {
    if s.pc.LogoutToken? {
      WithoutKeepsDistinct(s.mem.users, s.op.user);
      if |s.mem.users| >= 2 { SuccessorExists(s.mem.users, s.op.user); }
    }
  }

  lemma SlotRefresh(s: State, o: Outcome)
    requires Coherent(s) && SlotAt(s) && o.ok && Refreshing(s.pc)
    ensures SlotAt(StepRefresh(s, o))
  {
  }

  lemma SlotSwitch(s: State, o: Outcome)
    requires Coherent(s) && SlotAt(s) && o.ok && ResolvingPrevious(s.pc)
    ensures SlotAt(StepSwitch(s, o))
  {
  }

  lemma SlotReload(s: State)
    requires Coherent(s) && SlotAt(s) && s.pc.Reload?
    ensures SlotAt(s.(mem := s.store.file, pc := Body(s.op)))
  {
  }

  predicate LoggingIn(pc: Pc) {
    pc.LoginSet? || pc.LoginDelete? || pc.LoginCheck? || pc.RefreshableSet? || pc.RefreshableDelete? ||
    pc.RefreshableCheck?
  }

  lemma SlotLoggingIn(s: State, o: Outcome)
    requires Coherent(s) && SlotAt(s) && o.ok && LoggingIn(s.pc)
    ensures SlotAt(Step(s, o))
  {
    if s.op.Login? {
      assert Step(s, o) == StepLogin(s, o);
      SlotLogin(s, o);
    } else {
      assert Step(s, o) == StepLoginRefreshable(s, o);
      SlotLoginRefreshable(s, o);
    }
  }

  lemma SlotStep(s: State, o: Outcome)
    requires Coherent(s) && SlotAt(s) && o.ok
    ensures SlotAt(Step(s, o))
  {
    if s.pc.Done? {
    } else if s.pc.Reload? {
      SlotReload(s);
    } else if LoggingIn(s.pc) {
      SlotLoggingIn(s, o);
    } else if Activating(s.pc) {
      SlotActivate(s, o);
    } else if LoggingOut(s.pc) {
      SlotLogout(s, o);
    } else if Refreshing(s.pc) {
      SlotRefresh(s, o);
    } else {
      SlotSwitch(s, o);
    }
  }

  lemma {:induction false} SlotExec(s: State, os: seq<Outcome>)
    requires Coherent(s) && SlotAt(s) && AllSucceed(os)
    ensures SlotAt(Exec(s, os))
  {
    if os != [] {
      SlotExec(s, os[..|os| - 1]);
      SlotStep(Exec(s, os[..|os| - 1]), os[|os| - 1]);
    }
  }

  // ---------------------------------------------------------------- runs of whole commands

  /** One gh command: a process that reads the config file, runs an operation and meets these outcomes. */
  datatype Command = Command(op: Operation, lockHeld: bool, outcomes: seq<Outcome>)

  function RunCommand(store: Store, c: Command): (s: State) {
    Exec(Start(c.op, c.lockHeld, store.file, store), c.outcomes)
  }

  function RunCommands(store: Store, cs: seq<Command>): Store {
    if cs == [] then store else RunCommand(RunCommands(store, cs[..|cs| - 1]), cs[|cs| - 1]).store
  }

  /** Every command runs to its end, and no keyring or file operation fails. Commands may still end in an error. */
  ghost predicate Undisturbed(store: Store, cs: seq<Command>) {
    forall i :: 0 <= i < |cs| ==>
      AllSucceed(cs[i].outcomes) && RunCommand(RunCommands(store, cs[..i]), cs[i]).pc.Done?
  }

  /** Over any number of logins, switches, logouts and refreshes the slot and the credential forms stay consistent, so
      the active credential is always the active user's own and the unkeyed fallback is never somebody else's. */
  lemma {:induction false} SlotsOverRuns(store: Store, cs: seq<Command>)
    requires Consistent(store) && Undisturbed(store, cs)
    ensures Consistent(RunCommands(store, cs))
    ensures var end := RunCommands(store, cs);
            ActiveToken(end, end.file) ==
              if end.file.user.Some? && end.file.user.value != "" then TokenForUser(end, end.file.user.value) else None
  {
    if cs != [] {
      var front := cs[..|cs| - 1];
      var last := cs[|cs| - 1];
      forall i | 0 <= i < |front|
        ensures AllSucceed(front[i].outcomes) && RunCommand(RunCommands(store, front[..i]), front[i]).pc.Done?
      {
        assert front[..i] == cs[..i] && front[i] == cs[i];
      }
      SlotsOverRuns(store, front);
      var before := RunCommands(store, front);
      SlotExec(Start(last.op, last.lockHeld, before.file, before), last.outcomes);
    }
  }
}
