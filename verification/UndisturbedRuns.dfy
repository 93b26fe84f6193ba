/** Logins, logouts and switches in which nothing fails: the small steps do what a single step would, which says when an
    operation succeeds and what it leaves. */
module UndisturbedRuns {
  import opened Wrappers
  import opened CredentialStore
  import opened StoreInvariants
  import opened AccountResults

  // ---------------------------------------------------------------- in one step

  /** A user's token goes into the host-level slot; a record with both tokens needs none; a plaintext token becomes that
      of the host. Without any of these nobody can be activated. */
  function Activated(store: Store, config: HostConfig, u: string): Option<Store> {
    var cleared := store.tokens - {ACTIVE};
    var active := config.(user := Some(u), hostToken := None);
    if u in cleared then Some(Store(cleared[ACTIVE := cleared[u]], store.records, active))
    else if u in store.records then
      if store.records[u].token != "" && store.records[u].refreshToken != "" then
        Some(Store(cleared, store.records, active))
      else None
    else if u in config.userTokens then
      Some(Store(cleared, store.records, active.(hostToken := Some(config.userTokens[u]))))
    else None
  }

  /** If nobody can be activated the slot has been emptied all the same. */
  function Activation(store: Store, config: HostConfig, u: string): (Result, Store) {
    match Activated(store, config, u)
    case Some(s) => (Success, s)
    case None => (Failure, store.(tokens := store.tokens - {ACTIVE}))
  }

  /** The slot of the user who stays active when a switch is undone. */
  function Restored(tokens: map<string, string>, u: string): map<string, string> {
    var cleared := tokens - {ACTIVE};
    if u in cleared then cleared[ACTIVE := cleared[u]] else cleared
  }

  function FirstRemaining(users: seq<string>, u: string): string
    requires |users| >= 2
  {
    users[if users[0] == u then 1 else 0]
  }

  /** What an operation reports and leaves if nothing fails. A refresh is not one of these. */
  function AtOnce(op: Operation, mem: HostConfig, store: Store): (Result, Store)
    requires !op.Refresh?
  {
    var u := op.user;
    match op
    case Login(_, t, p) =>
      Activation(Store(store.tokens[u := t], store.records - {u}, store.file), LoggedIn(store.file, u, p), u)
    case LoginRefreshable(_, c, p) =>
      if u == "" || c.token == "" || c.refreshToken == "" then (Failure, store)
      else Activation(Store(store.tokens - {u}, store.records[u := c], store.file), LoggedIn(store.file, u, p), u)
    case Logout(_) =>
      var gone := Store(store.tokens - {u}, store.records - {u}, store.file);
      var rest := store.file.(users := Without(store.file.users, u), userTokens := store.file.userTokens - {u});
      if |store.file.users| < 2 then
        (Success, Store(store.tokens - {u, ACTIVE}, store.records - {u}, HostConfig(None, None, None, [], map[])))
      else if store.file.user != Some(u) then (Success, gone.(file := rest))
      else Activation(gone, rest, FirstRemaining(store.file.users, u))
    case SwitchUser(_) =>
      if mem.user.None? || ActiveToken(store, mem).None? then (Failure, store)
      else
        match Activated(store, mem, u)
        case Some(s) => (Success, s)
        case None => (Failure, store.(tokens := Restored(store.tokens, mem.user.value)))
  }

  // ---------------------------------------------------------------- step by step

  /** The rest of an activation, from each of its points. */
  predicate ActivatesTo(s: State, end: (Result, Store))
    requires Activating(s.pc)
  {
    var g := s.pc.goal;
    match s.pc
    case ClearActive(_) => end == Activation(s.store, s.mem, g.user)
    case FetchToken(_) =>
      ACTIVE !in s.store.tokens && s.mem.hostToken == None && end == Activation(s.store, s.mem, g.user)
    case CopyToken(_, t) =>
      ACTIVE !in s.store.tokens && s.mem.hostToken == None && Lookup(s.store.tokens, g.user) == Some(t) &&
      end == Activation(s.store, s.mem, g.user)
    case FetchRecord(_) =>
      ACTIVE !in s.store.tokens && s.mem.hostToken == None && g.user !in s.store.tokens &&
      end == Activation(s.store, s.mem, g.user)
    case WriteActive(_) => end == (Success, s.store.(file := s.mem))
  }

  lemma ClearAgain(tokens: map<string, string>)
    ensures (tokens - {ACTIVE}) - {ACTIVE} == tokens - {ACTIVE}
    ensures ACTIVE !in tokens ==> tokens - {ACTIVE} == tokens
  {
  }

  lemma ActivationStep(s: State, o: Outcome, end: (Result, Store))
    requires Coherent(s) && Activating(s.pc) && s.pc.goal.ForLogin? && o.ok && ActivatesTo(s, end)
    ensures var n := StepActivate(s, o);
            if n.pc.Done? then end == (n.pc.result, n.store)
            else Activating(n.pc) && n.pc.goal == s.pc.goal && ActivatesTo(n, end)
  {
    ClearAgain(s.store.tokens);
  }

  predicate Towards(s: State, end: (Result, Store))
    requires Coherent(s) && !s.op.Refresh? && !s.op.SwitchUser?
  {
    var u := s.op.user;
    match s.pc
    case Reload => end == AtOnce(s.op, s.mem, s.store)
    case Done(r) => end == (r, s.store)
    case LoginSet => s.mem == s.store.file && end == AtOnce(s.op, s.mem, s.store)
    case LoginDelete =>
      u !in s.mem.userTokens &&
      end == Activation(s.store.(records := s.store.records - {u}), LoggedIn(s.mem, u, s.op.gitProtocol), u)
    case LoginCheck =>
      u !in s.mem.userTokens && u !in s.store.records &&
      end == Activation(s.store, LoggedIn(s.mem, u, s.op.gitProtocol), u)
    case RefreshableSet => s.mem == s.store.file && end == AtOnce(s.op, s.mem, s.store)
    case RefreshableDelete =>
      end == Activation(s.store.(tokens := s.store.tokens - {u}), LoggedIn(s.mem, u, s.op.gitProtocol), u)
    case RefreshableCheck =>
      u !in s.mem.userTokens && u !in s.store.tokens &&
      end == Activation(s.store, LoggedIn(s.mem, u, s.op.gitProtocol), u)
    case LogoutRecord => s.mem == s.store.file && end == AtOnce(s.op, s.mem, s.store)
    case LogoutToken =>
      s.mem == s.store.file && u !in s.store.records && end == AtOnce(s.op, s.mem, s.store)
    case LogoutActive =>
      s.mem == NO_HOST && end == (Success, Store(s.store.tokens - {ACTIVE}, s.store.records, NO_HOST))
    case LogoutWrite => end == (Success, s.store.(file := s.mem))
    case _ => Activating(s.pc) && s.pc.goal.ForLogin? && ActivatesTo(s, end)
  }

  lemma TowardsActivating(s: State, o: Outcome, end: (Result, Store))
    requires Coherent(s) && !s.op.Refresh? && !s.op.SwitchUser? && Activating(s.pc) && o.ok && Towards(s, end)
    ensures Towards(StepActivate(s, o), end)
  {
    ActivationStep(s, o, end);
  }

  lemma SameActivation(store: Store, a: HostConfig, b: HostConfig, u: string)
    requires a.users == b.users && a.userTokens == b.userTokens && a.gitProtocol == b.gitProtocol
    ensures Activation(store, a, u) == Activation(store, b, u)
  {
  }

  lemma TowardsLogin(s: State, o: Outcome, end: (Result, Store))
    requires Coherent(s) && s.op.Login? && (s.pc.LoginSet? || s.pc.LoginDelete? || s.pc.LoginCheck?)
    requires o.ok && Towards(s, end)
    ensures Towards(StepLogin(s, o), end)
  {
    var u, p := s.op.user, s.op.gitProtocol;
    var n := StepLogin(s, o);
    if s.pc.LoginSet? {
      assert LoggedIn(n.mem, u, p) == LoggedIn(s.mem, u, p);
    } else if s.pc.LoginCheck? {
      assert LoggedIn(s.mem, u, p).userTokens == s.mem.userTokens;
      SameActivation(s.store, LoggedIn(s.mem, u, p), n.mem, u);
    }
  }

  lemma TowardsRefreshable(s: State, o: Outcome, end: (Result, Store))
    requires Coherent(s) && s.op.LoginRefreshable? && o.ok && Towards(s, end)
    requires s.pc.RefreshableSet? || s.pc.RefreshableDelete? || s.pc.RefreshableCheck?
    ensures Towards(StepLoginRefreshable(s, o), end)
  {
    var u, p := s.op.user, s.op.gitProtocol;
    var n := StepLoginRefreshable(s, o);
    if s.pc.RefreshableDelete? {
      assert LoggedIn(n.mem, u, p) == LoggedIn(s.mem, u, p);
    } else if s.pc.RefreshableCheck? {
      assert LoggedIn(s.mem, u, p).userTokens == s.mem.userTokens;
      SameActivation(s.store, LoggedIn(s.mem, u, p), n.mem, u);
    }
  }

  lemma TowardsLogout(s: State, o: Outcome, end: (Result, Store))
    requires Coherent(s) && s.op.Logout? && LoggingOut(s.pc) && o.ok && Towards(s, end)
    requires Distinct(s.store.file.users)
    ensures Towards(StepLogout(s, o), end)
  {
    var u := s.op.user;
    if s.pc.LogoutRecord? {
      assert (s.store.records - {u}) - {u} == s.store.records - {u};
    } else if s.pc.LogoutToken? {
      assert s.store.records - {u} == s.store.records;
      assert s.store.tokens - {u, ACTIVE} == (s.store.tokens - {u}) - {ACTIVE};
      if |s.mem.users| >= 2 { FirstOtherIs(s.mem.users, u); }
    }
  }

  lemma TowardsStep(s: State, o: Outcome, end: (Result, Store))
    requires Coherent(s) && !s.op.Refresh? && !s.op.SwitchUser? && o.ok && Towards(s, end)
    requires Distinct(s.store.file.users)
    ensures Towards(Step(s, o), end)
  {
    if Activating(s.pc) {
      TowardsActivating(s, o, end);
    } else if LoggingOut(s.pc) {
      TowardsLogout(s, o, end);
    } else if s.pc.Reload? {
      TowardsBody(s, o, end);
    } else if s.op.Login? && !s.pc.Done? {
      TowardsLogin(s, o, end);
    } else if !s.pc.Done? {
      TowardsRefreshable(s, o, end);
    }
  }

  lemma TowardsBody(s: State, o: Outcome, end: (Result, Store))
    requires Coherent(s) && !s.op.Refresh? && !s.op.SwitchUser? && s.pc.Reload? && o.ok && Towards(s, end)
    ensures Towards(Step(s, o), end)
  {
  }

  lemma KeepsFile(s: State, o: Outcome)
    requires Coherent(s) && !s.op.Refresh?
    ensures Step(s, o).pc.Done? || Step(s, o).store.file == s.store.file
  {
  }

  lemma {:induction false} TowardsExec(s: State, os: seq<Outcome>, end: (Result, Store))
    requires Coherent(s) && !s.op.Refresh? && !s.op.SwitchUser? && AllSucceed(os) && Towards(s, end)
    requires !s.pc.Done? && Distinct(s.store.file.users)
    ensures Towards(Exec(s, os), end)
    ensures Exec(s, os).pc.Done? || Exec(s, os).store.file == s.store.file
  {
    if os != [] {
      var before, o := Exec(s, os[..|os| - 1]), os[|os| - 1];
      TowardsExec(s, os[..|os| - 1], end);
      if !before.pc.Done? {
        TowardsStep(before, o, end);
        KeepsFile(before, o);
      }
    }
  }

  // ---------------------------------------------------------------- a switch, step by step

  /** The rest of a switch to `u`, from `p`. */
  function Switched(store: Store, config: HostConfig, u: string, p: string): (Result, Store) {
    match Activated(store, config, u)
    case Some(s) => (Success, s)
    case None => (Failure, store.(tokens := Restored(store.tokens, p)))
  }

  predicate SwitchTowards(s: State, end: (Result, Store))
    requires Coherent(s) && s.op.SwitchUser?
  {
    if Activating(s.pc) then (if s.pc.goal.ForSwitch? then SwitchesTo(s, end) else UndoesTo(s, end))
    else SwitchBegins(s, end)
  }

  predicate SwitchBegins(s: State, end: (Result, Store))
    requires Coherent(s) && s.op.SwitchUser?
  {
    match s.pc
    case SwitchStart => end == AtOnce(s.op, s.mem, s.store)
    case PreviousToken(p) => s.mem.user == Some(p) && p != "" && end == AtOnce(s.op, s.mem, s.store)
    case PreviousRecord(p) =>
      s.mem.user == Some(p) && p != "" && p !in s.store.tokens && end == AtOnce(s.op, s.mem, s.store)
    case PreviousActive(p) =>
      s.mem.user == Some(p) && (p == "" || (p !in s.store.tokens && p !in s.store.records)) &&
      end == AtOnce(s.op, s.mem, s.store)
    case Done(r) => end == (r, s.store)
    case _ => false
  }

  predicate SwitchesTo(s: State, end: (Result, Store))
    requires Activating(s.pc) && s.pc.goal.ForSwitch?
  {
    var g := s.pc.goal;
    g.user == s.op.user &&
    (s.pc.ClearActive? || s.pc.WriteActive? || (ACTIVE !in s.store.tokens && s.mem.hostToken == None)) &&
    match s.pc
    case CopyToken(_, t) =>
      Lookup(s.store.tokens, g.user) == Some(t) && end == Switched(s.store, s.mem, g.user, g.previous)
    case FetchRecord(_) => g.user !in s.store.tokens && end == Switched(s.store, s.mem, g.user, g.previous)
    case WriteActive(_) => end == (Success, s.store.(file := s.mem))
    case _ => end == Switched(s.store, s.mem, g.user, g.previous)
  }

  predicate UndoesTo(s: State, end: (Result, Store))
    requires Activating(s.pc)
  {
    var g := s.pc.goal;
    g.ForUndo? && !s.pc.WriteActive? && (s.pc.ClearActive? || ACTIVE !in s.store.tokens) &&
    (s.pc.CopyToken? ==> Lookup(s.store.tokens, g.user) == Some(s.pc.token)) &&
    (s.pc.FetchRecord? ==> g.user !in s.store.tokens) &&
    end == (Failure, s.store.(tokens := Restored(s.store.tokens, g.user)))
  }

  lemma SwitchTowardsResolving(s: State, o: Outcome, end: (Result, Store))
    requires Coherent(s) && ResolvingPrevious(s.pc) && o.ok && SwitchTowards(s, end)
    ensures SwitchTowards(StepSwitch(s, o), end)
  {
  }

  lemma SwitchTowardsSwitching(s: State, o: Outcome, end: (Result, Store))
    requires Coherent(s) && s.op.SwitchUser? && Activating(s.pc) && s.pc.goal.ForSwitch? && o.ok
    requires SwitchTowards(s, end)
    ensures SwitchTowards(StepActivate(s, o), end)
  {
    ClearAgain(s.store.tokens);
  }

  lemma SwitchTowardsUndoing(s: State, o: Outcome, end: (Result, Store))
    requires Coherent(s) && s.op.SwitchUser? && Activating(s.pc) && s.pc.goal.ForUndo? && o.ok
    requires SwitchTowards(s, end)
    ensures SwitchTowards(StepActivate(s, o), end)
  {
    ClearAgain(s.store.tokens);
  }

  lemma {:induction false} SwitchTowardsExec(s: State, os: seq<Outcome>, end: (Result, Store))
    requires Coherent(s) && s.op.SwitchUser? && AllSucceed(os) && SwitchTowards(s, end)
    ensures SwitchTowards(Exec(s, os), end)
  {
    if os != [] {
      var before, o := Exec(s, os[..|os| - 1]), os[|os| - 1];
      SwitchTowardsExec(s, os[..|os| - 1], end);
      if ResolvingPrevious(before.pc) {
        SwitchTowardsResolving(before, o, end);
      } else if Activating(before.pc) {
        if before.pc.goal.ForSwitch? {
          SwitchTowardsSwitching(before, o, end);
        } else {
          SwitchTowardsUndoing(before, o, end);
        }
      }
    }
  }

  // ---------------------------------------------------------------- the result

  /** A login, logout or switch in which nothing fails reports and leaves exactly what it would if it were a single
      step. */
  lemma UndisturbedRun(op: Operation, held: bool, mem: HostConfig, store: Store, os: seq<Outcome>)
    requires !op.Refresh? && Distinct(store.file.users) && AllSucceed(os)
    requires Exec(Start(op, held, mem, store), os).pc.Done?
    ensures var end := Exec(Start(op, held, mem, store), os); (end.pc.result, end.store) == AtOnce(op, mem, store)
  {
    var s := Start(op, held, mem, store);
    if op.SwitchUser? {
      SwitchTowardsExec(s, os, AtOnce(op, mem, store));
    } else {
      TowardsExec(s, os, AtOnce(op, mem, store));
    }
  }
}
