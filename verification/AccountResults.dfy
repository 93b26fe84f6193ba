/** What logins and logouts leave of the configuration file: every account that they were not about, and the account
    that becomes active. */
module AccountResults {
  import opened Wrappers
  import opened CredentialStore
  import opened StoreInvariants

  // ---------------------------------------------------------------- login

  /** The file after a login: the user is active and listed, behind those who were, and nothing of the user or of the
      host is in plaintext any more. */
  function LoggedIn(file: HostConfig, u: string, gitProtocol: string): HostConfig {
    HostConfig(Some(u), if gitProtocol != "" then Some(gitProtocol) else file.gitProtocol, None,
               file.users + if u in file.users then [] else [u],
               map v | v in file.userTokens && v != u :: file.userTokens[v])
  }

  predicate LoggingIn(op: Operation) { op.Login? || op.LoginRefreshable? }

  ghost predicate LoginConfigAt(s: State, old_: HostConfig)
    requires LoggingIn(s.op)
  {
    var u := s.op.user;
    var after := LoggedIn(old_, u, s.op.gitProtocol);
    match s.pc
    case Reload => s.store.file == old_
    case LoginSet => s.mem == old_
    case LoginDelete => s.mem == old_.(userTokens := after.userTokens, hostToken := None)
    case LoginCheck => s.mem == old_.(userTokens := after.userTokens, hostToken := None)
    case RefreshableSet => s.mem == old_
    case RefreshableDelete => s.mem == old_
    case RefreshableCheck => s.mem == old_.(userTokens := after.userTokens)
    case ClearActive(g) => g == ForLogin(u) && s.mem == after.(user := old_.user, hostToken := s.mem.hostToken)
    case FetchToken(g) => g == ForLogin(u) && s.mem == after.(user := old_.user)
    case CopyToken(g, _) => g == ForLogin(u) && s.mem == after.(user := old_.user)
    case FetchRecord(g) => g == ForLogin(u) && s.mem == after.(user := old_.user)
    case WriteActive(_) => s.mem == after
    case Done(Success) => s.store.file == after
    case _ => true
  }

  lemma LoginConfigActivating(s: State, o: Outcome, old_: HostConfig)
    requires Coherent(s) && LoggingIn(s.op) && Activating(s.pc) && LoginConfigAt(s, old_)
    ensures LoginConfigAt(StepActivate(s, o), old_)
  {
  }

  lemma LoginConfigStoring(s: State, o: Outcome, old_: HostConfig)
    requires Coherent(s) && s.op.Login? && (s.pc.LoginSet? || s.pc.LoginDelete? || s.pc.LoginCheck?)
    requires LoginConfigAt(s, old_)
    ensures LoginConfigAt(StepLogin(s, o), old_)
  {
    assert LoggedIn(old_, s.op.user, s.op.gitProtocol).userTokens == old_.userTokens - {s.op.user};
  }

  lemma RefreshableConfigStoring(s: State, o: Outcome, old_: HostConfig)
    requires Coherent(s) && s.op.LoginRefreshable? && LoginConfigAt(s, old_)
    requires s.pc.RefreshableSet? || s.pc.RefreshableDelete? || s.pc.RefreshableCheck?
    ensures LoginConfigAt(StepLoginRefreshable(s, o), old_)
  {
    assert LoggedIn(old_, s.op.user, s.op.gitProtocol).userTokens == old_.userTokens - {s.op.user};
  }

  lemma LoginConfigStep(s: State, o: Outcome, old_: HostConfig)
    requires Coherent(s) && LoggingIn(s.op) && LoginConfigAt(s, old_)
    ensures LoginConfigAt(Step(s, o), old_)
  {
    if Activating(s.pc) {
      LoginConfigActivating(s, o, old_);
    } else if s.pc.LoginSet? || s.pc.LoginDelete? || s.pc.LoginCheck? {
      LoginConfigStoring(s, o, old_);
    } else if s.pc.RefreshableSet? || s.pc.RefreshableDelete? || s.pc.RefreshableCheck? {
      RefreshableConfigStoring(s, o, old_);
    }
  }

  lemma {:induction false} LoginConfigExec(s: State, os: seq<Outcome>)
    requires Coherent(s) && LoggingIn(s.op) && s.pc.Reload?
    ensures LoginConfigAt(Exec(s, os), s.store.file)
  {
    if os != [] {
      LoginConfigExec(s, os[..|os| - 1]);
      LoginConfigStep(Exec(s, os[..|os| - 1]), os[|os| - 1], s.store.file);
    }
  }

  /** A successful login of either kind keeps every account that was listed, in its order, and every plaintext token but
      the user's own; the protocol changes only if one was given. */
  lemma LoginKeepsAccounts(op: Operation, held: bool, mem: HostConfig, store: Store, os: seq<Outcome>)
    requires LoggingIn(op) && Exec(Start(op, held, mem, store), os).pc == Done(Success)
    ensures Exec(Start(op, held, mem, store), os).store.file == LoggedIn(store.file, op.user, op.gitProtocol)
  {
    LoginConfigExec(Start(op, held, mem, store), os);
  }

  // ---------------------------------------------------------------- logout

  /** The others, in their order. */
  ghost predicate OthersOf(left: seq<string>, users: seq<string>, u: string) {
    if u in users then exists k :: 0 <= k < |users| && users[k] == u && left == users[..k] + users[k + 1..]
    else left == users
  }

  lemma {:induction false} WithoutAbsent(users: seq<string>, u: string)
    requires u !in users
    ensures Without(users, u) == users
  {
    if users != [] {
      WithoutAbsent(users[1..], u);
      assert users == [users[0]] + users[1..];
    }
  }

  lemma {:induction false} WithoutAt(users: seq<string>, u: string, k: nat)
    requires k < |users| && users[k] == u && Distinct(users)
    ensures Without(users, u) == users[..k] + users[k + 1..]
  {
    assert users == [users[0]] + users[1..];
    if k == 0 {
      WithoutAbsent(users[1..], u);
    } else {
      WithoutAt(users[1..], u, k - 1);
      assert users[..k] == [users[0]] + users[1..][..k - 1];
      assert users[1..][k..] == users[k + 1..];
    }
  }

  lemma WithoutIsOthers(users: seq<string>, u: string)
    requires Distinct(users)
    ensures OthersOf(Without(users, u), users, u)
  {
    if u in users {
      var k :| 0 <= k < |users| && users[k] == u;
      WithoutAt(users, u, k);
    } else {
      WithoutAbsent(users, u);
    }
  }

  lemma FirstOtherIs(users: seq<string>, u: string)
    requires Distinct(users) && |users| >= 2
    ensures FirstOther(users, u) == Some(users[if users[0] == u then 1 else 0])
  {
    if users[0] == u {
      assert users[1] != u && users[1..][0] == users[1];
    }
  }

  /** The file after a logout: on a host of one user nothing is left; otherwise the user is gone, and if it was the
      active one, the first that remains has become active, with its plaintext token, if it has to be, as that of the
      host. */
  ghost predicate LoggedOut(end: HostConfig, file: HostConfig, u: string) {
    if |file.users| < 2 then end == HostConfig(None, None, None, [], map[])
    else
      && OthersOf(end.users, file.users, u)
      && end.userTokens == (map v | v in file.userTokens && v != u :: file.userTokens[v])
      && end.gitProtocol == file.gitProtocol
      && if file.user != Some(u) then end.user == file.user && end.hostToken == file.hostToken
         else
           && end.user == Some(file.users[if file.users[0] == u then 1 else 0])
           && (end.hostToken == None || end.hostToken == Lookup(file.userTokens, end.user.value))
  }

  ghost predicate LogoutConfigAt(s: State, old_: HostConfig)
    requires s.op.Logout?
  {
    var u := s.op.user;
    var gone := old_.(users := Without(old_.users, u), userTokens := old_.userTokens - {u});
    match s.pc
    case Reload => s.store.file == old_
    case LogoutRecord => s.mem == old_
    case LogoutToken => s.mem == old_
    case LogoutActive => |old_.users| < 2 && s.mem == NO_HOST
    case LogoutWrite => if |old_.users| < 2 then s.mem == NO_HOST else old_.user != Some(u) && s.mem == gone
    case ClearActive(g) => Succeeds(g, old_, u) && s.mem == gone
    case FetchToken(g) => Succeeds(g, old_, u) && s.mem == gone.(hostToken := None)
    case CopyToken(g, _) => Succeeds(g, old_, u) && s.mem == gone.(hostToken := None)
    case FetchRecord(g) => Succeeds(g, old_, u) && s.mem == gone.(hostToken := None)
    case WriteActive(g) =>
      Succeeds(g, old_, u) && s.mem == gone.(user := Some(g.user), hostToken := s.mem.hostToken) &&
      (s.mem.hostToken == None || s.mem.hostToken == Lookup(old_.userTokens, g.user))
    case Done(Success) => LoggedOut(s.store.file, old_, u)
    case _ => true
  }

  predicate Succeeds(g: Goal, old_: HostConfig, u: string) {
    g.ForLogin? && |old_.users| >= 2 && old_.user == Some(u) && FirstOther(old_.users, u) == Some(g.user)
  }

  lemma LogoutConfigActivating(s: State, o: Outcome, old_: HostConfig)
    requires Coherent(s) && s.op.Logout? && Activating(s.pc) && LogoutConfigAt(s, old_) && Distinct(old_.users)
    ensures LogoutConfigAt(StepActivate(s, o), old_)
  {
    if s.pc.WriteActive? {
      WithoutIsOthers(old_.users, s.op.user);
      FirstOtherIs(old_.users, s.op.user);
    }
  }

  lemma LogoutConfigLeaving(s: State, o: Outcome, old_: HostConfig)
    requires Coherent(s) && s.op.Logout? && LoggingOut(s.pc) && LogoutConfigAt(s, old_) && Distinct(old_.users)
    ensures LogoutConfigAt(StepLogout(s, o), old_)
  {
    if s.pc.LogoutWrite? {
      WithoutIsOthers(old_.users, s.op.user);
    } else if s.pc.LogoutToken? && |old_.users| >= 2 {
      FirstOtherIs(old_.users, s.op.user);
    }
  }

  lemma {:induction false} LogoutConfigExec(s: State, os: seq<Outcome>)
    requires Coherent(s) && s.op.Logout? && s.pc.Reload? && Distinct(s.store.file.users)
    ensures LogoutConfigAt(Exec(s, os), s.store.file)
  {
    if os != [] {
      var before, o := Exec(s, os[..|os| - 1]), os[|os| - 1];
      LogoutConfigExec(s, os[..|os| - 1]);
      if Activating(before.pc) {
        LogoutConfigActivating(before, o, s.store.file);
      } else if LoggingOut(before.pc) {
        LogoutConfigLeaving(before, o, s.store.file);
      }
    }
  }

  /** A successful logout changes nothing of the other accounts, and the first that remains becomes active if the user
      was. */
  lemma LogoutPicksSuccessor(u: string, held: bool, mem: HostConfig, store: Store, os: seq<Outcome>)
    requires Distinct(store.file.users) && Exec(Start(Logout(u), held, mem, store), os).pc == Done(Success)
    ensures LoggedOut(Exec(Start(Logout(u), held, mem, store), os).store.file, store.file, u)
  {
    LogoutConfigExec(Start(Logout(u), held, mem, store), os);
  }
}
