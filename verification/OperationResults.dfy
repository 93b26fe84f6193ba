/** What a single operation achieves when it reports its result, whatever failed on the way. */
module OperationResults {
  import opened Wrappers
  import opened CredentialStore
  import opened StoreInvariants

  // ---------------------------------------------------------------- frame

  ghost predicate OthersKept(a: Store, b: Store, u: string) {
    forall v :: v != u && v != ACTIVE ==>
      Lookup(a.tokens, v) == Lookup(b.tokens, v) && Lookup(a.records, v) == Lookup(b.records, v)
  }

  lemma ActivationKeepsOthers(s: State, o: Outcome)
    requires Coherent(s) && Activating(s.pc)
    ensures OthersKept(s.store, StepActivate(s, o).store, s.op.user)
  {
  }

  lemma LogoutKeepsOthers(s: State, o: Outcome)
    requires Coherent(s) && LoggingOut(s.pc)
    ensures OthersKept(s.store, StepLogout(s, o).store, s.op.user)
  {
  }

  lemma RefreshKeepsOthers(s: State, o: Outcome)
    requires Coherent(s) && Refreshing(s.pc)
    ensures OthersKept(s.store, StepRefresh(s, o).store, s.op.user)
  {
  }

  lemma StepKeepsOthers(s: State, o: Outcome)
    requires Coherent(s)
    ensures OthersKept(s.store, Step(s, o).store, s.op.user)
  {
    if Activating(s.pc) {
      ActivationKeepsOthers(s, o);
    } else if LoggingOut(s.pc) {
      LogoutKeepsOthers(s, o);
    } else if Refreshing(s.pc) {
      RefreshKeepsOthers(s, o);
    }
  }

  /** No operation touches the credentials of a user it was not asked to. */
  lemma {:induction false} OthersUntouched(s: State, os: seq<Outcome>)
    requires Coherent(s)
    ensures OthersKept(s.store, Exec(s, os).store, s.op.user)
  {
    if os != [] {
      OthersUntouched(s, os[..|os| - 1]);
      StepKeepsOthers(Exec(s, os[..|os| - 1]), os[|os| - 1]);
    }
  }

  // ---------------------------------------------------------------- login

  predicate LoginAt(s: State)
    requires s.op.Login?
  {
    (s.pc.LoginSet? || s.pc.Reload? || s.pc == Done(Failure) ||
     Lookup(s.store.tokens, s.op.user) == Some(s.op.token)) &&
    (Activating(s.pc) ==> s.op.user in s.mem.users && s.pc.goal == ForLogin(s.op.user)) &&
    (s.pc.WriteActive? ==> s.mem.user == Some(s.op.user)) &&
    (s.pc.CopyToken? ==> s.pc.token == s.op.token) &&
    (s.pc == Done(Success) ==> s.store.file.user == Some(s.op.user) && s.op.user in s.store.file.users)
  }

  lemma LoginActivating(s: State, o: Outcome)
    requires Coherent(s) && s.op.Login? && s.op.user != "" && LoginAt(s) && Activating(s.pc)
    ensures LoginAt(StepActivate(s, o))
  {
  }

  lemma LoginStep(s: State, o: Outcome)
    requires Coherent(s) && s.op.Login? && s.op.user != "" && LoginAt(s)
    ensures LoginAt(Step(s, o))
  {
    if Activating(s.pc) { LoginActivating(s, o); }
  }

  lemma {:induction false} LoginExec(s: State, os: seq<Outcome>)
    requires Coherent(s) && s.op.Login? && s.op.user != "" && LoginAt(s)
    ensures LoginAt(Exec(s, os))
  {
    if os != [] {
      LoginExec(s, os[..|os| - 1]);
      LoginStep(Exec(s, os[..|os| - 1]), os[|os| - 1]);
    }
  }

  /** A login that reports success has made its token the active one, even if some of its clean-up silently failed. */
  lemma LoginActivates(u: string, t: string, p: string, held: bool, mem: HostConfig, store: Store, os: seq<Outcome>)
    requires u != ""
    requires Exec(Start(Login(u, t, p), held, mem, store), os).pc == Done(Success)
    ensures var end := Exec(Start(Login(u, t, p), held, mem, store), os).store;
            end.file.user == Some(u) && u in end.file.users &&
            ActiveToken(end, end.file) == Some(Credential(t, "", 0, 0, None, None))
  {
    LoginExec(Start(Login(u, t, p), held, mem, store), os);
  }

  predicate RefreshableAt(s: State)
    requires s.op.LoginRefreshable?
  {
    (s.pc.RefreshableSet? || s.pc.Reload? || s.pc == Done(Failure) ||
     (ValidCredential(s.op.credential) && Lookup(s.store.records, s.op.user) == Some(s.op.credential))) &&
    (Activating(s.pc) ==> s.op.user in s.mem.users && s.pc.goal == ForLogin(s.op.user) && !s.pc.CopyToken?) &&
    (Activating(s.pc) || s.pc == Done(Success) ==> s.op.user !in s.store.tokens) &&
    (s.pc.WriteActive? ==> s.mem.user == Some(s.op.user)) &&
    (s.pc == Done(Success) ==> s.store.file.user == Some(s.op.user) && s.op.user in s.store.file.users)
  }

  lemma RefreshableStep(s: State, o: Outcome)
    requires Coherent(s) && s.op.LoginRefreshable? && RefreshableAt(s)
    requires s.op.user == "" ==> s.pc.Reload? || s.pc == Done(Failure)
    requires s.pc.RefreshableCheck? ==> o.ok
    ensures RefreshableAt(Step(s, o)) && (s.op.user == "" ==> Step(s, o).pc.Reload? || Step(s, o).pc == Done(Failure))
  {
  }

  /** The read that verifies the removal of the non-expiring token got an answer. */
  ghost predicate RemovalVerified(s: State, os: seq<Outcome>)
    requires Coherent(s)
  {
    forall i :: 0 <= i < |os| && Exec(s, os[..i]).pc.RefreshableCheck? ==> os[i].ok
  }

  lemma {:induction false} RefreshableExec(s: State, os: seq<Outcome>)
    requires Coherent(s) && s.op.LoginRefreshable? && s.pc.Reload? && RemovalVerified(s, os)
    ensures RefreshableAt(Exec(s, os))
    ensures s.op.user == "" ==> Exec(s, os).pc.Reload? || Exec(s, os).pc == Done(Failure)
  {
    if os != [] {
      var front := os[..|os| - 1];
      forall i | 0 <= i < |front| && Exec(s, front[..i]).pc.RefreshableCheck? ensures front[i].ok {
        assert front[..i] == os[..i];
      }
      RefreshableExec(s, front);
      RefreshableStep(Exec(s, front), os[|os| - 1]);
    }
  }

  /** A refreshable login that reports success has made its credential the active one. */
  lemma LoginRefreshableActivates(u: string, c: Credential, p: string, held: bool, mem: HostConfig, store: Store,
                                  os: seq<Outcome>)
    requires var s := Start(LoginRefreshable(u, c, p), held, mem, store);
             RemovalVerified(s, os) && Exec(s, os).pc == Done(Success)
    ensures var end := Exec(Start(LoginRefreshable(u, c, p), held, mem, store), os).store;
            end.file.user == Some(u) && u in end.file.users && ActiveToken(end, end.file) == Some(c)
  {
    RefreshableExec(Start(LoginRefreshable(u, c, p), held, mem, store), os);
  }

  // ---------------------------------------------------------------- logout

  ghost predicate LogoutAt(s: State)
    requires s.op.Logout?
  {
    var u := s.op.user;
    (s.pc.Reload? || s.pc.LogoutRecord? || u !in s.store.records) &&
    (s.pc.Reload? || s.pc.LogoutRecord? || s.pc.LogoutToken? || u !in s.store.tokens) &&
    (s.pc.LogoutWrite? ==> u !in s.mem.users && s.mem.user != Some(u)) &&
    (s.pc.LogoutActive? ==> s.mem == NO_HOST) &&
    (Activating(s.pc) ==> u !in s.mem.users && s.pc.goal.user != u) &&
    (s.pc.WriteActive? ==> s.mem.user == Some(s.pc.goal.user)) &&
    (s.pc == Done(Success) ==> u !in s.store.file.users && s.store.file.user != Some(u)) &&
    Distinct(s.store.file.users) && (!s.pc.Reload? ==> Distinct(s.mem.users))
  }

  lemma LogoutLoggingOut(s: State, o: Outcome)
    requires Coherent(s) && s.op.Logout? && s.op.user != "" && LogoutAt(s) && LoggingOut(s.pc)
    requires s.pc.LogoutRecord? || s.pc.LogoutToken? ==> o.ok
    ensures LogoutAt(StepLogout(s, o))
  {
    if s.pc.LogoutToken? { WithoutKeepsDistinct(s.mem.users, s.op.user); }
    if s.pc.LogoutToken? && |s.mem.users| >= 2 { SuccessorExists(s.mem.users, s.op.user); }
  }

  lemma LogoutActivating(s: State, o: Outcome)
    requires Coherent(s) && s.op.Logout? && s.op.user != "" && LogoutAt(s) && Activating(s.pc)
    ensures LogoutAt(StepActivate(s, o))
  {
  }

  lemma LogoutStep(s: State, o: Outcome)
    requires Coherent(s) && s.op.Logout? && s.op.user != "" && LogoutAt(s)
    requires s.pc.LogoutRecord? || s.pc.LogoutToken? || s.pc.Reload? ==> o.ok
    ensures LogoutAt(Step(s, o))
  {
    if LoggingOut(s.pc) {
      LogoutLoggingOut(s, o);
    } else if Activating(s.pc) {
      LogoutActivating(s, o);
    }
  }

  /** The two keyring deletions of a logout took effect. */
  ghost predicate Deleted(s: State, os: seq<Outcome>)
    requires Coherent(s)
  {
    forall i :: 0 <= i < |os| ==>
      (Deleting(Exec(s, os[..i]).pc) ==> os[i].ok)
  }

  predicate Deleting(pc: Pc) {
    pc.Reload? || pc.LogoutRecord? || pc.LogoutToken?
  }

  lemma {:induction false} LogoutExec(s: State, os: seq<Outcome>)
    requires Coherent(s) && s.op.Logout? && s.op.user != "" && LogoutAt(s) && Deleted(s, os)
    ensures LogoutAt(Exec(s, os))
  {
    if os != [] {
      var front := os[..|os| - 1];
      forall i | 0 <= i < |front| ensures Deleting(Exec(s, front[..i]).pc) ==> front[i].ok {
        assert front[..i] == os[..i];
      }
      LogoutExec(s, front);
      LogoutStep(Exec(s, front), os[|os| - 1]);
    }
  }

  /** Once the two deletions took effect no credential of the user is left in the keyring, however the logout ends, and
      a logout that reports success has also removed the user from the config file. */
  lemma LogoutForgets(u: string, held: bool, mem: HostConfig, store: Store, os: seq<Outcome>)
    requires u != "" && Distinct(store.file.users)
    requires var s := Start(Logout(u), held, mem, store); Deleted(s, os) && Exec(s, os).pc.Done?
    ensures var end := Exec(Start(Logout(u), held, mem, store), os);
            TokenForUser(end.store, u) == None && u !in end.store.records &&
            (end.pc == Done(Success) ==> u !in end.store.file.users && end.store.file.user != Some(u))
  {
    LogoutExec(Start(Logout(u), held, mem, store), os);
  }

  /** The users that a logout leaves in the configuration. */
  function UsersLeft(users: seq<string>, u: string): seq<string> {
    if |users| < 2 then [] else Without(users, u)
  }

  predicate LeavingAt(s: State, users: seq<string>)
    requires s.op.Logout?
  {
    (s.pc.Reload? ==> s.store.file.users == users) &&
    (s.pc.LogoutRecord? || s.pc.LogoutToken? ==> s.mem.users == users) &&
    (s.pc.LogoutActive? || s.pc.LogoutWrite? || Activating(s.pc) ==> s.mem.users == UsersLeft(users, s.op.user)) &&
    (s.pc == Done(Success) ==> s.store.file.users == UsersLeft(users, s.op.user))
  }

  lemma LeavingStep(s: State, o: Outcome, users: seq<string>)
    requires Coherent(s) && s.op.Logout? && LeavingAt(s, users)
    ensures LeavingAt(Step(s, o), users)
  {
    if Activating(s.pc) {
      assert LeavingAt(StepActivate(s, o), users);
    } else if LoggingOut(s.pc) {
      assert LeavingAt(StepLogout(s, o), users);
    }
  }

  lemma {:induction false} LeavingExec(s: State, os: seq<Outcome>)
    requires Coherent(s) && s.op.Logout? && s.pc.Reload?
    ensures LeavingAt(Exec(s, os), s.store.file.users)
  {
    if os != [] {
      LeavingExec(s, os[..|os| - 1]);
      LeavingStep(Exec(s, os[..|os| - 1]), os[|os| - 1], s.store.file.users);
    }
  }

  /** A successful logout leaves the credential of a listed user behind, with nothing in the configuration that leads to
      it, exactly if that user is the only one and the name that was logged out is another. */
  lemma LogoutOrphans(u: string, v: string, held: bool, mem: HostConfig, store: Store, os: seq<Outcome>)
    requires u != "" && v != "" && Distinct(store.file.users) && v in store.file.users && TokenForUser(store, v).Some?
    requires var s := Start(Logout(u), held, mem, store); Deleted(s, os) && Exec(s, os).pc == Done(Success)
    ensures var end := Exec(Start(Logout(u), held, mem, store), os).store;
            v !in end.file.users && TokenForUser(end, v).Some? <==> u != v && |store.file.users| == 1
  {
    var s := Start(Logout(u), held, mem, store);
    LeavingExec(s, os);
    WithoutKeepsDistinct(store.file.users, u);
    if u == v {
      LogoutForgets(u, held, mem, store, os);
    } else {
      OthersUntouched(s, os);
      assert Lookup(store.tokens, v) == Lookup(Exec(s, os).store.tokens, v);
      assert Lookup(store.records, v) == Lookup(Exec(s, os).store.records, v);
    }
  }

  /** Mona, the only user, is logged in. */
  function OnlyMona(t: string): Store {
    Store(map["mona" := t, ACTIVE := t], map[], HostConfig(Some("mona"), None, None, ["mona"], map[]))
  }

  /** Such a run, in which nothing fails: a user who is not there logs out, and only the token of mona is left. */
  lemma LogoutOrphansToken(t: string) returns (os: seq<Outcome>)
    ensures AllSucceed(os)
    ensures var end := Exec(Start(Logout("hubot"), true, OnlyMona(t).file, OnlyMona(t)), os);
            end.pc == Done(Success) && end.store == Store(map["mona" := t], map[], NO_HOST)
  {
    var store := OnlyMona(t);
    var s := Start(Logout("hubot"), true, store.file, store);
    var emptied := store.(tokens := map["mona" := t]);
    assert store.tokens - {"hubot"} == store.tokens && store.tokens - {ACTIVE} == emptied.tokens;
    var hostGone := s.(mem := NO_HOST);
    var slotEmpty := hostGone.(store := emptied);
    os := OneMore(s, [], s, s.At(LogoutRecord));
    os := OneMoreLoggingOut(s, os, s.At(LogoutRecord), s.At(LogoutToken));
    os := OneMoreLoggingOut(s, os, s.At(LogoutToken), hostGone.At(LogoutActive));
    os := OneMoreLoggingOut(s, os, hostGone.At(LogoutActive), slotEmpty.At(LogoutWrite));
    os := OneMoreLoggingOut(s, os, slotEmpty.At(LogoutWrite), slotEmpty.WriteFile().Finish(Success));
  }

  // ---------------------------------------------------------------- switch

  ghost predicate SwitchAt(s: State, old_: State)
    requires s.op.SwitchUser?
  {
    s.store.records == old_.store.records &&
    s.store.tokens - {ACTIVE} == old_.store.tokens - {ACTIVE} &&
    s.mem.userTokens == old_.mem.userTokens && s.mem.users == old_.mem.users &&
    s.mem.gitProtocol == old_.mem.gitProtocol &&
    (s.pc != Done(Success) ==> s.store.file == old_.store.file) &&
    (ResolvingPrevious(s.pc) ==> s.mem == old_.mem && s.store == old_.store) &&
    (ResolvingPrevious(s.pc) && !s.pc.SwitchStart? ==> old_.mem.user == Some(s.pc.previous)) &&
    (s.pc.PreviousToken? ==> s.pc.previous != "") &&
    (s.pc.PreviousRecord? ==> s.pc.previous !in old_.store.tokens && s.pc.previous != "") &&
    (s.pc.PreviousActive? ==>
       s.pc.previous == "" || (s.pc.previous !in old_.store.tokens && s.pc.previous !in old_.store.records)) &&
    (Activating(s.pc) && s.pc.goal.ForSwitch? ==>
       s.pc.goal.user == s.op.user && old_.mem.user == Some(s.pc.goal.previous) &&
       ActiveToken(old_.store, old_.mem).Some?) &&
    (Activating(s.pc) && s.pc.goal.ForUndo? ==>
       old_.mem.user == Some(s.pc.goal.user) && ActiveToken(old_.store, old_.mem).Some? && !s.pc.WriteActive?) &&
    (s.pc.CopyToken? && s.pc.goal.user != ACTIVE ==> Lookup(s.store.tokens, s.pc.goal.user) == Some(s.pc.token)) &&
    (s.pc.WriteActive? ==> s.mem.user == Some(s.op.user)) &&
    (s.pc == Done(Success) ==> s.store.file == s.mem && s.mem.user == Some(s.op.user)) &&
    (s.pc == Done(Failure) ==> s.mem.user == old_.mem.user)
  }

  lemma SwitchStepResolving(s: State, o: Outcome, old_: State)
    requires Coherent(s) && ResolvingPrevious(s.pc) && SwitchAt(s, old_)
    ensures SwitchAt(StepSwitch(s, o), old_)
  {
  }

  lemma SwitchStepForward(s: State, o: Outcome, old_: State)
    requires Coherent(s) && s.op.SwitchUser? && Activating(s.pc) && s.pc.goal.ForSwitch? && SwitchAt(s, old_)
    ensures SwitchAt(StepActivate(s, o), old_)
  {
  }

  lemma SwitchStepBack(s: State, o: Outcome, old_: State)
    requires Coherent(s) && s.op.SwitchUser? && Activating(s.pc) && s.pc.goal.ForUndo? && SwitchAt(s, old_)
    ensures SwitchAt(StepActivate(s, o), old_)
  {
  }

  lemma SwitchStep(s: State, o: Outcome, old_: State)
    requires Coherent(s) && s.op.SwitchUser? && SwitchAt(s, old_)
    ensures SwitchAt(Step(s, o), old_)
  {
    if ResolvingPrevious(s.pc) {
      SwitchStepResolving(s, o, old_);
    } else if Activating(s.pc) {
      if s.pc.goal.ForSwitch? { SwitchStepForward(s, o, old_); } else { SwitchStepBack(s, o, old_); }
    } else {
      assert s.pc.Done?;
    }
  }

  lemma {:induction false} SwitchExec(s: State, os: seq<Outcome>)
    requires Coherent(s) && s.op.SwitchUser? && s.pc.SwitchStart?
    ensures SwitchAt(Exec(s, os), s)
  {
    if os != [] {
      SwitchExec(s, os[..|os| - 1]);
      SwitchStep(Exec(s, os[..|os| - 1]), os[|os| - 1], s);
    }
  }

  /** A switch that reports success activated the user; no per-user credential changed. */
  lemma SwitchActivates(u: string, mem: HostConfig, store: Store, os: seq<Outcome>)
    requires Exec(Start(SwitchUser(u), false, mem, store), os).pc == Done(Success)
    ensures var end := Exec(Start(SwitchUser(u), false, mem, store), os);
            end.store.file == end.mem && end.mem.user == Some(u) && end.mem.users == mem.users &&
            end.store.records == store.records && end.store.tokens - {ACTIVE} == store.tokens - {ACTIVE}
  {
    SwitchExec(Start(SwitchUser(u), false, mem, store), os);
  }

  /** The user has a credential of its own that a switch back can restore. */
  predicate HasOwnCredential(store: Store, config: HostConfig) {
    config.user.Some? && config.user.value != "" && TokenForUser(store, config.user.value).Some?
  }

  ghost predicate UndoAt(s: State, old_: State)
    requires s.op.SwitchUser?
  {
    SwitchAt(s, old_) &&
    match s.pc
    case ClearActive(g) => g.ForUndo?
    case FetchToken(g) => g.ForUndo? && ACTIVE !in s.store.tokens
    case CopyToken(g, _) => g.ForUndo? && g.user != ACTIVE && HasOwnCredential(old_.store, old_.mem)
    case FetchRecord(g) => g.ForUndo? && ACTIVE !in s.store.tokens
    case Done(r) =>
      r == Failure &&
      (ActiveToken(s.store, s.mem) == ActiveToken(old_.store, old_.mem) <==> HasOwnCredential(old_.store, old_.mem))
    case _ => false
  }

  lemma TokensExceptActive(a: map<string, string>, b: map<string, string>, v: string)
    requires a - {ACTIVE} == b - {ACTIVE} && v != ACTIVE
    ensures Lookup(a, v) == Lookup(b, v)
  {
    assert v in a <==> v in a - {ACTIVE};
    assert v in b <==> v in b - {ACTIVE};
    if v in a { assert (a - {ACTIVE})[v] == a[v] && (b - {ACTIVE})[v] == b[v]; }
  }

  lemma UndoStep(s: State, o: Outcome, old_: State)
    requires Coherent(s) && s.op.SwitchUser? && UndoAt(s, old_) && o.ok
    ensures UndoAt(Step(s, o), old_)
  {
    SwitchStep(s, o, old_);
    if old_.mem.user.Some? && old_.mem.user.value != ACTIVE {
      TokensExceptActive(s.store.tokens, old_.store.tokens, old_.mem.user.value);
      TokensExceptActive(Step(s, o).store.tokens, old_.store.tokens, old_.mem.user.value);
    }
  }

  lemma {:induction false} UndoExec(s: State, os: seq<Outcome>, old_: State)
    requires Coherent(s) && s.op.SwitchUser? && UndoAt(s, old_) && AllSucceed(os)
    ensures UndoAt(Exec(s, os), old_)
  {
    if os != [] {
      UndoExec(s, os[..|os| - 1], old_);
      UndoStep(Exec(s, os[..|os| - 1]), os[|os| - 1], old_);
    }
  }

  /** A switch that failed at any point after it began to change things, and whose restoring operations then succeed:
      the file and the active user are what they were, and the active token is what it was exactly if the previous user
      has a credential of its own. Only a token kept in the unkeyed slot alone is lost. */
  lemma SwitchRollsBack(s: State, attempt: seq<Outcome>, undo: seq<Outcome>)
    requires Coherent(s) && s.op.SwitchUser? && s.pc.SwitchStart?
    requires Exec(s, attempt).pc.ClearActive? && Exec(s, attempt).pc.goal.ForUndo?
    requires AllSucceed(undo) && Exec(s, attempt + undo).pc.Done?
    ensures var end := Exec(s, attempt + undo);
            end.pc == Done(Failure) && end.store.file == s.store.file && end.mem.user == s.mem.user &&
            end.store.records == s.store.records && end.store.tokens - {ACTIVE} == s.store.tokens - {ACTIVE} &&
            (ActiveToken(end.store, end.mem) == ActiveToken(s.store, s.mem) <==> HasOwnCredential(s.store, s.mem))
  {
    SwitchExec(s, attempt);
    ExecConcat(s, attempt, undo);
    UndoExec(Exec(s, attempt), undo, s);
  }

  /** The active user is mona, whose only credential is the one in the unkeyed slot, as the oldest versions left it. */
  function UnkeyedOnly(): State {
    var config := HostConfig(Some("mona"), None, None, ["mona", "hubot"], map[]);
    Start(SwitchUser("hubot"), false, config, Store(map[ACTIVE := "token"], map[], config))
  }

  const NO_FAILURE := Outcome(true, 0, Unreachable)

  lemma OneMore(s: State, os: seq<Outcome>, now: State, next: State) returns (more: seq<Outcome>)
    requires Coherent(s) && AllSucceed(os) && Exec(s, os) == now && Step(now, NO_FAILURE) == next
    ensures AllSucceed(more) && Exec(s, more) == next
  {
    more := ExecMore(s, os, NO_FAILURE, now, next);
  }

  lemma OneMoreActivating(s: State, os: seq<Outcome>, now: State, next: State) returns (more: seq<Outcome>)
    requires Coherent(s) && AllSucceed(os) && Exec(s, os) == now && Activating(now.pc)
    requires Coherent(now) && StepActivate(now, NO_FAILURE) == next
    ensures AllSucceed(more) && Exec(s, more) == next
  {
    more := OneMore(s, os, now, next);
  }

  lemma OneMoreLoggingOut(s: State, os: seq<Outcome>, now: State, next: State) returns (more: seq<Outcome>)
    requires Coherent(s) && AllSucceed(os) && Exec(s, os) == now && LoggingOut(now.pc)
    requires Coherent(now) && StepLogout(now, NO_FAILURE) == next
    ensures AllSucceed(more) && Exec(s, more) == next
  {
    more := OneMore(s, os, now, next);
  }

  lemma OneMoreResolving(s: State, os: seq<Outcome>, now: State, next: State) returns (more: seq<Outcome>)
    requires Coherent(s) && AllSucceed(os) && Exec(s, os) == now && ResolvingPrevious(now.pc)
    requires Coherent(now) && now.op.SwitchUser? && StepSwitch(now, NO_FAILURE) == next
    ensures AllSucceed(more) && Exec(s, more) == next
  {
    more := OneMore(s, os, now, next);
  }

  lemma UnkeyedAttempt() returns (attempt: seq<Outcome>)
    ensures AllSucceed(attempt)
    ensures Exec(UnkeyedOnly(), attempt) ==
            UnkeyedOnly().(store := UnkeyedOnly().store.(tokens := map[]), pc := ClearActive(ForUndo("mona")))
  {
    var s := UnkeyedOnly();
    var cleared := s.(store := s.store.(tokens := map[]));
    var goal := ForSwitch("hubot", "mona");
    attempt := OneMoreResolving(s, [], s, s.At(PreviousToken("mona")));
    attempt := OneMoreResolving(s, attempt, s.At(PreviousToken("mona")), s.At(PreviousRecord("mona")));
    attempt := OneMoreResolving(s, attempt, s.At(PreviousRecord("mona")), s.At(PreviousActive("mona")));
    attempt := OneMoreResolving(s, attempt, s.At(PreviousActive("mona")), s.At(ClearActive(goal)));
    attempt := OneMoreActivating(s, attempt, s.At(ClearActive(goal)), cleared.At(FetchToken(goal)));
    attempt := OneMoreActivating(s, attempt, cleared.At(FetchToken(goal)), cleared.At(FetchRecord(goal)));
    attempt := OneMoreActivating(s, attempt, cleared.At(FetchRecord(goal)), cleared.At(ClearActive(ForUndo("mona"))));
  }

  lemma UnkeyedUndo(s: State) returns (undo: seq<Outcome>)
    requires s == UnkeyedOnly().(store := UnkeyedOnly().store.(tokens := map[]), pc := ClearActive(ForUndo("mona")))
    ensures AllSucceed(undo) && Exec(s, undo) == s.Finish(Failure)
  {
    var goal := ForUndo("mona");
    undo := OneMoreActivating(s, [], s, s.At(FetchToken(goal)));
    undo := OneMoreActivating(s, undo, s.At(FetchToken(goal)), s.At(FetchRecord(goal)));
    undo := OneMoreActivating(s, undo, s.At(FetchRecord(goal)), s.Finish(Failure));
  }

  /** The other side of that condition can be met: a switch to a user without a credential, in which no call fails,
      loses the active token for good. */
  lemma SwitchLosesUnkeyedToken() returns (attempt: seq<Outcome>, undo: seq<Outcome>)
    ensures var s := UnkeyedOnly();
            Exec(s, attempt).pc == ClearActive(ForUndo("mona")) && AllSucceed(attempt) && AllSucceed(undo) &&
            Exec(s, attempt + undo).pc == Done(Failure) &&
            ActiveToken(s.store, s.mem) == Some(Credential("token", "", 0, 0, None, None)) &&
            ActiveToken(Exec(s, attempt + undo).store, Exec(s, attempt + undo).mem) == None
  {
    var s := UnkeyedOnly();
    attempt := UnkeyedAttempt();
    undo := UnkeyedUndo(Exec(s, attempt));
    ExecConcat(s, attempt, undo);
  }

  ghost predicate NotUndone(s: State, os: seq<Outcome>)
    requires Coherent(s)
  {
    forall i :: 0 <= i <= |os| ==> !Undoing(Exec(s, os[..i]))
  }

  predicate Undoing(s: State) {
    Activating(s.pc) && s.pc.goal.ForUndo?
  }

  lemma CleanStep(s: State, o: Outcome, old_: State)
    requires Coherent(s) && s.op.SwitchUser? && !Undoing(s) && !Undoing(Step(s, o))
    requires ResolvingPrevious(s.pc) || s.pc == Done(Failure) ==> s.store == old_.store && s.mem == old_.mem
    ensures Step(s, o).pc == Done(Failure) ==> Step(s, o).store == old_.store && Step(s, o).mem == old_.mem
  {
    if Activating(s.pc) {
      assert s.pc.goal.ForSwitch?;
    } else if !s.pc.Done? {
      assert ResolvingPrevious(s.pc);
    }
  }

  /** A switch that fails without needing to be undone has changed nothing at all. */
  lemma {:induction false} SwitchFailsCleanly(s: State, os: seq<Outcome>)
    requires Coherent(s) && s.op.SwitchUser? && s.pc.SwitchStart? && NotUndone(s, os)
    ensures Exec(s, os).pc == Done(Failure) ==> Exec(s, os).store == s.store && Exec(s, os).mem == s.mem
  {
    if os != [] {
      var front := os[..|os| - 1];
      forall i | 0 <= i <= |front|
        ensures !Undoing(Exec(s, front[..i]))
      {
        assert front[..i] == os[..i];
      }
      SwitchFailsCleanly(s, front);
      SwitchExec(s, front);
      assert front[..|front|] == front && os[..|os|] == os && os[..|front|] == front;
      CleanStep(Exec(s, front), os[|os| - 1], s);
    }
  }

  // ---------------------------------------------------------------- refresh

  ghost predicate RefreshAt(s: State, old_: Store)
    requires s.op.Refresh?
  {
    var u := s.op.user;
    match s.pc
    case Reload => s.store == old_
    case ReadRecord => s.store == old_ && s.mem == old_.file
    case Anchor(c) => s.store == old_ && s.mem == old_.file && Lookup(old_.records, u) == Some(c)
    case Exchange(c, _) => s.store == old_ && s.mem == old_.file && Lookup(old_.records, u) == Some(c)
    case RemoveRecord => s.store == old_ && s.mem == old_.file && s.lockHeld
    case RemoveToken => s.lockHeld && OnlyRemoved(s.store, old_, u) && s.store.file == s.mem == old_.file
    case RemoveWrite =>
      s.lockHeld && OnlyRemoved(s.store, old_, u) && s.store.file == old_.file && s.mem == old_.file.ForgetUserToken(u)
    case StoreRenewed(c, _) => s.store == old_ && s.mem == old_.file && Lookup(old_.records, u) == Some(c)
    case WriteRenewed(c, r) =>
      s.store == old_.(records := old_.records[u := r]) && s.mem == old_.file && Lookup(old_.records, u) == Some(c)
    case Done(Refreshed(Unnecessary, c)) => s.store == old_ && Lookup(old_.records, u) == Some(c)
    case Done(Refreshed(Renewed, c)) => ValidCredential(c) && s.store == old_.(records := old_.records[u := c])
    case Done(Refreshed(Expired, c)) =>
      c == NO_CREDENTIAL && OnlyRemoved(s.store, old_, u) && (!s.lockHeld ==> s.store == old_)
    case Done(Refreshed(Failed, c)) =>
      s.store == old_ || (Lookup(old_.records, u) == Some(c) && u in s.store.records &&
                          s.store == old_.(records := old_.records[u := s.store.records[u]]))
    case _ => false
  }

  /** Nothing is different except that some of the user's credentials may be gone, the plaintext one among them. */
  ghost predicate OnlyRemoved(s: Store, old_: Store, u: string) {
    (s.tokens == old_.tokens || s.tokens == old_.tokens - {u}) &&
    (s.records == old_.records || s.records == old_.records - {u}) &&
    (s.file == old_.file || s.file == old_.file.ForgetUserToken(u))
  }

  lemma RefreshRefreshing(s: State, o: Outcome, old_: Store)
    requires Coherent(s) && s.op.Refresh? && RefreshAt(s, old_) && Refreshing(s.pc)
    ensures RefreshAt(StepRefresh(s, o), old_)
  {
  }

  lemma RefreshStep(s: State, o: Outcome, old_: Store)
    requires Coherent(s) && s.op.Refresh? && RefreshAt(s, old_)
    ensures RefreshAt(Step(s, o), old_)
  {
    if Refreshing(s.pc) { RefreshRefreshing(s, o, old_); }
  }

  lemma {:induction false} RefreshExec(s: State, os: seq<Outcome>)
    requires Coherent(s) && s.op.Refresh? && s.pc.Reload?
    ensures RefreshAt(Exec(s, os), s.store)
  {
    if os != [] {
      RefreshExec(s, os[..|os| - 1]);
      RefreshStep(Exec(s, os[..|os| - 1]), os[|os| - 1], s.store);
    }
  }

  predicate Usable(store: Store, u: string) {
    u in store.records && ValidCredential(store.records[u])
  }

  /** What a refresh meets, outcome by outcome: the reload, the record and the clock, the clock again, the answer of the
      token endpoint, and then the two writes. The record was there and can be used. */
  predicate MetRecord(store: Store, u: string, os: seq<Outcome>) {
    |os| >= 2 && os[0].ok && os[1].ok && Usable(store, u)
  }

  /** The record was certain to be valid for more than ten minutes when it was read. */
  predicate MetFresh(store: Store, u: string, os: seq<Outcome>) {
    MetRecord(store, u, os) && store.records[u].expiresAt.Some? && os[1].now + 600 < store.records[u].expiresAt.value
  }

  /** The endpoint was asked. */
  predicate MetAnswer(store: Store, u: string, os: seq<Outcome>) {
    MetRecord(store, u, os) && !MetFresh(store, u, os) && |os| >= 4
  }

  predicate MetRejection(store: Store, u: string, os: seq<Outcome>) {
    MetAnswer(store, u, os) && os[3].reply.Rejected?
  }

  /** The endpoint granted a credential that can be used. */
  predicate MetGrant(store: Store, u: string, os: seq<Outcome>) {
    MetAnswer(store, u, os) && os[3].reply.Granted? && ValidCredential(GrantedTo(os))
  }

  /** Its lifetimes count from the instant before the endpoint was asked. */
  function GrantedTo(os: seq<Outcome>): Credential
    requires |os| >= 4 && os[3].reply.Granted?
  {
    CredentialFromAccessToken(os[3].reply.token, os[2].now)
  }

  /** It was granted and written. */
  predicate MetRenewal(store: Store, u: string, os: seq<Outcome>) {
    MetGrant(store, u, os) && |os| >= 6 && os[4].ok && os[5].ok
  }

  /** Further outcomes cannot change the verdict. */
  predicate Settled(store: Store, u: string, os: seq<Outcome>) {
    |os| >= 1 &&
    (os[0].ok ==> |os| >= 2) &&
    (MetRecord(store, u, os) && !MetFresh(store, u, os) ==>
       |os| >= 4 &&
       (MetGrant(store, u, os) ==> |os| >= 5 && (os[4].ok ==> |os| >= 6)))
  }

  /** The status says exactly what was met. */
  predicate Reported(r: Result, store: Store, u: string, os: seq<Outcome>) {
    r.Refreshed? &&
    (r.status == Unnecessary <==> MetFresh(store, u, os)) &&
    (r.status == Expired <==> MetRejection(store, u, os)) &&
    (r.status == Renewed <==> MetRenewal(store, u, os)) &&
    (r.status == Renewed ==> r.credential == GrantedTo(os))
  }

  ghost predicate VerdictAt(s: State, store: Store, os: seq<Outcome>)
    requires s.op.Refresh?
  {
    var u := s.op.user;
    match s.pc
    case Reload => |os| == 0 && s.store == store
    case ReadRecord => |os| == 1 && os[0].ok && s.store == store
    case Anchor(c) => |os| == 2 && MetRecord(store, u, os) && !MetFresh(store, u, os)
    case Exchange(c, at) => |os| == 3 && MetRecord(store, u, os) && !MetFresh(store, u, os) && at == os[2].now
    case RemoveRecord => MetRejection(store, u, os)
    case RemoveToken => MetRejection(store, u, os)
    case RemoveWrite => MetRejection(store, u, os)
    case StoreRenewed(_, r) => |os| == 4 && MetGrant(store, u, os) && r == GrantedTo(os)
    case WriteRenewed(_, r) => |os| == 5 && MetGrant(store, u, os) && r == GrantedTo(os) && os[4].ok
    case Done(r) => Settled(store, u, os) && Reported(r, store, u, os)
    case _ => false
  }

  lemma VerdictRefreshing(s: State, o: Outcome, store: Store, os: seq<Outcome>)
    requires Coherent(s) && s.op.Refresh? && VerdictAt(s, store, os) && Refreshing(s.pc)
    ensures VerdictAt(StepRefresh(s, o), store, os + [o])
  {
    var more := os + [o];
    assert forall i :: 0 <= i < |os| ==> more[i] == os[i];
    assert more[|os|] == o;
  }

  lemma VerdictStep(s: State, o: Outcome, store: Store, os: seq<Outcome>)
    requires Coherent(s) && s.op.Refresh? && VerdictAt(s, store, os)
    ensures VerdictAt(Step(s, o), store, os + [o])
  {
    var more := os + [o];
    assert forall i :: 0 <= i < |os| ==> more[i] == os[i];
    assert more[|os|] == o;
    if Refreshing(s.pc) { VerdictRefreshing(s, o, store, os); }
  }

  lemma {:induction false} VerdictExec(s: State, os: seq<Outcome>)
    requires Coherent(s) && s.op.Refresh? && s.pc.Reload?
    ensures VerdictAt(Exec(s, os), s.store, os)
  {
    if os != [] {
      var front, o := os[..|os| - 1], os[|os| - 1];
      VerdictExec(s, front);
      VerdictStep(Exec(s, front), o, s.store, front);
      assert os == front + [o];
    }
  }

  /** The result of a refresh tells the truth, for a refresh whose store nobody else changes meanwhile: about what it
      met and about what is stored. */
  lemma RefreshTruthful(u: string, given: Credential, held: bool, mem: HostConfig, store: Store, os: seq<Outcome>)
    requires Exec(Start(Refresh(u, given), held, mem, store), os).pc.Done?
    ensures var end := Exec(Start(Refresh(u, given), held, mem, store), os);
            Reported(end.pc.result, store, u, os) &&
            var c := end.pc.result.credential;
            match end.pc.result.status
            case Renewed => end.store == store.(records := store.records[u := c])
            case Unnecessary => end.store == store && c == store.records[u]
            case Expired => c == NO_CREDENTIAL && OnlyRemoved(end.store, store, u) && (!held ==> end.store == store)
            case Failed => end.store == store || WriteFailed(Start(Refresh(u, given), held, mem, store), os, u)
  {
    VerdictExec(Start(Refresh(u, given), held, mem, store), os);
    RefreshExec(Start(Refresh(u, given), held, mem, store), os);
    if Exec(Start(Refresh(u, given), held, mem, store), os).pc.result.status == Failed {
      FailedAfterStoring(Start(Refresh(u, given), held, mem, store), os);
    }
  }

  /** At some point the renewed credential was in the keyring and the config write that follows failed; the keyring
      holds that renewed credential. */
  ghost predicate WriteFailed(s: State, os: seq<Outcome>, u: string)
    requires Coherent(s)
  {
    exists i :: 0 <= i < |os| && Exec(s, os[..i]).pc.WriteRenewed? && !os[i].ok &&
      Exec(s, os).store == s.store.(records := s.store.records[u := Exec(s, os[..i]).pc.renewed])
  }

  lemma {:induction false} FailedAfterStoring(s: State, os: seq<Outcome>)
    requires Coherent(s) && s.op.Refresh? && s.pc.Reload?
    requires Exec(s, os).pc.Done? && Exec(s, os).pc.result.Refreshed? && Exec(s, os).pc.result.status == Failed
    ensures Exec(s, os).store == s.store || WriteFailed(s, os, s.op.user)
  {
    var front := os[..|os| - 1];
    var o := os[|os| - 1];
    var before := Exec(s, front);
    RefreshExec(s, front);
    if before.pc.Done? {
      FailedAfterStoring(s, front);
      if WriteFailed(s, front, s.op.user) {
        var i :| 0 <= i < |front| && Exec(s, front[..i]).pc.WriteRenewed? && !front[i].ok &&
          Exec(s, front).store == s.store.(records := s.store.records[s.op.user := Exec(s, front[..i]).pc.renewed]);
        assert front[..i] == os[..i] && front[i] == os[i];
      }
    } else {
      FailedInStep(before, o, s.store);
      if before.pc.WriteRenewed? { assert os[..|front|] == front; }
    }
  }

  lemma FailedInStep(before: State, o: Outcome, old_: Store)
    requires Coherent(before) && before.op.Refresh? && RefreshAt(before, old_) && !before.pc.Done?
    requires var pc := Step(before, o).pc; pc.Done? && pc.result.Refreshed? && pc.result.status == Failed
    ensures Step(before, o).store == old_ ||
            (before.pc.WriteRenewed? && !o.ok &&
             Step(before, o).store == old_.(records := old_.records[before.op.user := before.pc.renewed]))
  {
    if Refreshing(before.pc) { FailedRefreshing(before, o, old_); }
  }

  lemma FailedRefreshing(before: State, o: Outcome, old_: Store)
    requires Coherent(before) && before.op.Refresh? && RefreshAt(before, old_) && Refreshing(before.pc)
    requires var pc := StepRefresh(before, o).pc; pc.Done? && pc.result.Refreshed? && pc.result.status == Failed
    ensures StepRefresh(before, o).store == old_ ||
            (before.pc.WriteRenewed? && !o.ok &&
             StepRefresh(before, o).store == old_.(records := old_.records[before.op.user := before.pc.renewed]))
  {
  }

  /** A refresh that finds no usable record under the lock neither contacts the server nor stores anything. */
  lemma {:induction false} RefreshWithoutRecord(s: State, os: seq<Outcome>)
    requires Coherent(s) && s.op.Refresh? && s.pc.Reload? && !Usable(s.store, s.op.user)
    ensures var r := Exec(s, os);
            r.store == s.store && (r.pc.Reload? || r.pc.ReadRecord? || r.pc == Done(Refreshed(Failed, s.op.given)))
  {
    if os != [] {
      RefreshWithoutRecord(s, os[..|os| - 1]);
    }
  }

  lemma StepAddsNoRecord(s: State, o: Outcome, u: string)
    requires Coherent(s) && !s.op.LoginRefreshable? && !s.op.Refresh? && !Usable(s.store, u)
    ensures !Usable(Step(s, o).store, u)
  {
    if Activating(s.pc) {
      assert !Usable(StepActivate(s, o).store, u);
    } else if LoggingOut(s.pc) {
      assert !Usable(StepLogout(s, o).store, u);
    }
  }

  lemma {:induction false} NoRecordAppears(s: State, os: seq<Outcome>, u: string)
    requires Coherent(s) && !s.op.LoginRefreshable? && !s.op.Refresh? && !Usable(s.store, u)
    ensures !Usable(Exec(s, os).store, u)
  {
    if os != [] {
      NoRecordAppears(s, os[..|os| - 1], u);
      StepAddsNoRecord(Exec(s, os[..|os| - 1]), os[|os| - 1], u);
    }
  }

  /** Only a refreshable login of the user makes a usable record appear. */
  lemma RecordsComeFromLogins(store: Store, c: Command, u: string)
    requires u != "" && !Usable(store, u) && !(c.op.LoginRefreshable? && c.op.user == u)
    ensures !Usable(RunCommand(store, c).store, u)
  {
    var s := Start(c.op, c.lockHeld, store.file, store);
    if c.op.user != u {
      OthersUntouched(s, c.outcomes);
      assert Lookup(store.records, u) == Lookup(Exec(s, c.outcomes).store.records, u);
    } else if c.op.Refresh? {
      RefreshWithoutRecord(s, c.outcomes);
    } else {
      NoRecordAppears(s, c.outcomes, u);
    }
  }

  /** The read that verifies the removal of the refreshable record got an answer. */
  ghost predicate RecordRemovalVerified(s: State, os: seq<Outcome>)
    requires Coherent(s)
  {
    forall i :: 0 <= i < |os| && Exec(s, os[..i]).pc.LoginCheck? ==> os[i].ok
  }

  lemma LoginStepUnusable(s: State, o: Outcome)
    requires Coherent(s) && s.op.Login? && (s.pc.LoginCheck? ==> o.ok)
    requires Activating(s.pc) || s.pc == Done(Success) ==> !Usable(s.store, s.op.user)
    ensures Activating(Step(s, o).pc) || Step(s, o).pc == Done(Success) ==> !Usable(Step(s, o).store, s.op.user)
  {
  }

  /** A successful login leaves no usable refreshable record behind, provided its verification read was answered. */
  lemma {:induction false} LoginLeavesNoRecord(s: State, os: seq<Outcome>)
    requires Coherent(s) && s.op.Login? && s.pc.Reload? && RecordRemovalVerified(s, os)
    ensures Activating(Exec(s, os).pc) || Exec(s, os).pc == Done(Success) ==> !Usable(Exec(s, os).store, s.op.user)
  {
    if os != [] {
      var front := os[..|os| - 1];
      forall i | 0 <= i < |front| && Exec(s, front[..i]).pc.LoginCheck? ensures front[i].ok {
        assert front[..i] == os[..i];
      }
      LoginLeavesNoRecord(s, front);
      LoginStepUnusable(Exec(s, front), os[|os| - 1]);
    }
  }
}
