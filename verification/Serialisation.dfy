/** Every interleaving is equivalent to running the operations one after the other in the order in which they
    entered. */
module Serialisation {
  import opened Wrappers
  import opened CredentialStore
  import opened StoreInvariants
  import opened OperationResults
  import opened RefreshProtocol

  ghost predicate AllComplete(store: Store, cs: seq<Command>) {
    forall i :: 0 <= i < |cs| ==> Completes(store, cs, i)
  }

  predicate Completes(store: Store, cs: seq<Command>, i: nat)
    requires i < |cs|
  {
    RunCommand(RunCommands(store, cs[..i]), cs[i]).pc.Done?
  }

  /** Equal, except for the in-memory config until the reload has replaced it. */
  predicate SameRun(a: State, b: State) {
    a == b || (a.(mem := b.mem) == b && (b.pc.Reload? || b.pc.Done?))
  }

  lemma SameRunStep(a: State, b: State, o: Outcome)
    requires SameRun(a, b) && Coherent(a) && Coherent(b)
    ensures SameRun(Step(a, o), Step(b, o))
  {
  }

  ghost predicate Explained(store: Store, s: System) {
    match s.turn
    case None => AllComplete(store, s.log) && s.store == RunCommands(store, s.log)
    case Some(t) =>
      s.log != [] && s.Inside(t) &&
      var front := s.log[..|s.log| - 1];
      var last := s.log[|s.log| - 1];
      AllComplete(store, front) && last.op == s.threads[t].op && last.lockHeld == s.threads[t].lockHeld &&
      SameRun(RunCommand(RunCommands(store, front), last), s.View(t))
  }

  lemma ExplainedEnter(store: Store, r: Regime, s: System, e: Event)
    requires Exclusion(r, s) && Explained(store, s) && Enabled(s, e) && Obeys(r, e) && e.TryFileLock?
    ensures Explained(store, Next(s, e))
  {
    EntersAlone(r, s, e);
    assert Next(s, e).log[..|s.log|] == s.log;
  }

  lemma ExplainedWork(store: Store, r: Regime, s: System, e: Event)
    requires Exclusion(r, s) && Explained(store, s) && Enabled(s, e) && e.Work?
    ensures Explained(store, Next(s, e))
  {
    assert Placed(s, e.t);
    var front := s.log[..|s.log| - 1];
    var last := s.log[|s.log| - 1];
    var n := Next(s, e);
    assert n.log[..|n.log| - 1] == front;
    var base := RunCommands(store, front);
    ExecSnoc(Start(last.op, last.lockHeld, base.file, base), last.outcomes, e.outcome);
    SameRunStep(RunCommand(base, last), s.View(e.t), e.outcome);
  }

  lemma AllCompleteSnoc(store: Store, cs: seq<Command>)
    requires cs != [] && AllComplete(store, cs[..|cs| - 1])
    requires Completes(store, cs, |cs| - 1)
    ensures AllComplete(store, cs)
  {
    var front := cs[..|cs| - 1];
    forall i | 0 <= i < |cs| ensures Completes(store, cs, i) {
      if i < |front| {
        assert Completes(store, front, i);
        assert front[..i] == cs[..i];
      }
    }
  }

  lemma ExplainedLeave(store: Store, r: Regime, s: System, e: Event)
    requires Exclusion(r, s) && Explained(store, s) && Enabled(s, e) && e.Leave?
    ensures Explained(store, Next(s, e))
  {
    assert Placed(s, e.t);
    AllCompleteSnoc(store, s.log);
  }

  /** The other events change nothing that the log has to explain. */
  predicate Bystander(s: System, n: System) {
    n.log == s.log && n.store == s.store && n.mems == s.mems && n.turn == s.turn &&
    (s.turn.Some? && s.turn.value in s.threads && s.threads[s.turn.value].Running? ==>
       Lookup(n.threads, s.turn.value) == Some(s.threads[s.turn.value]))
  }

  lemma ElseBystander(s: System, e: Event)
    requires Enabled(s, e) && !e.TryFileLock? && !e.Work? && !e.Leave?
    ensures Bystander(s, Next(s, e))
  {
  }

  lemma ExplainedBystander(store: Store, s: System, n: System)
    requires Explained(store, s) && Bystander(s, n)
    ensures Explained(store, n)
  {
  }

  lemma ExplainedElse(store: Store, s: System, e: Event)
    requires Explained(store, s) && Enabled(s, e) && !e.TryFileLock? && !e.Work? && !e.Leave?
    ensures Explained(store, Next(s, e))
  {
    ElseBystander(s, e);
    ExplainedBystander(store, s, Next(s, e));
  }

  lemma ExplainedNext(store: Store, r: Regime, s: System, e: Event)
    requires Exclusion(r, s) && Explained(store, s) && Enabled(s, e) && Obeys(r, e)
    ensures Explained(store, Next(s, e))
  {
    match e
    case TryFileLock(_, _) => ExplainedEnter(store, r, s, e);
    case Work(_, _) => ExplainedWork(store, r, s, e);
    case Leave(_) => ExplainedLeave(store, r, s, e);
    case _ => ExplainedElse(store, s, e);
  }

  /** The invariant of every behaviour that starts quiet. */
  lemma {:induction false} Serialisable(r: Regime, s: System, es: seq<Event>)
    requires Quiet(s) && Behaviour(s, es) && Regular(r, es)
    ensures Exclusion(r, After(s, es)) && Explained(s.store, After(s, es))
  {
    if es != [] {
      Serialisable(r, s, es[..|es| - 1]);
      ExclusionNext(r, After(s, es[..|es| - 1]), es[|es| - 1]);
      ExplainedNext(s.store, r, After(s, es[..|es| - 1]), es[|es| - 1]);
    }
  }

  /** At every moment of every interleaving the keyring and the config file are what a sequential run of the operations,
      in the order in which they entered, has produced. */
  lemma InterleavingsAreSequential(r: Regime, s: System, es: seq<Event>)
    requires Quiet(s) && Behaviour(s, es) && Regular(r, es)
    ensures After(s, es).store == RunCommands(s.store, After(s, es).log)
    ensures After(s, es).turn.None? ==> AllComplete(s.store, After(s, es).log)
  {
    Serialisable(r, s, es);
  }

  // ---------------------------------------------------------------- consequences of the order of entry

  lemma RunsExtend(store: Store, cs: seq<Command>, i: nat)
    requires i < |cs|
    ensures RunCommands(store, cs[..i + 1]) == RunCommand(RunCommands(store, cs[..i]), cs[i]).store
  {
    assert cs[..i + 1][..i] == cs[..i];
  }

  lemma {:induction false} UnusableUntilLogin(store: Store, cs: seq<Command>, i: nat, j: nat, u: string)
    requires i <= j <= |cs| && u != "" && !Usable(RunCommands(store, cs[..i]), u)
    requires forall k :: i <= k < j ==> !(cs[k].op.LoginRefreshable? && cs[k].op.user == u)
    ensures !Usable(RunCommands(store, cs[..j]), u)
    decreases j
  {
    if i < j {
      UnusableUntilLogin(store, cs, i, j - 1, u);
      RunsExtend(store, cs, j - 1);
      RecordsComeFromLogins(RunCommands(store, cs[..j - 1]), cs[j - 1], u);
    }
  }

  /** The user's records were deleted by the `i`-th operation: a logout whose deletions took effect, or a successful
      login with a plain token that verified the removal. */
  ghost predicate Forgets(store: Store, cs: seq<Command>, i: nat, u: string)
    requires i < |cs|
  {
    var base := RunCommands(store, cs[..i]);
    var s := Start(cs[i].op, cs[i].lockHeld, base.file, base);
    cs[i].op.user == u && Exec(s, cs[i].outcomes).pc.Done? &&
    ((cs[i].op.Logout? && Distinct(base.file.users) && Deleted(s, cs[i].outcomes)) ||
     (cs[i].op.Login? && RecordRemovalVerified(s, cs[i].outcomes) && Exec(s, cs[i].outcomes).pc == Done(Success)))
  }

  lemma ForgetsMeansUnusable(store: Store, cs: seq<Command>, i: nat, u: string)
    requires i < |cs| && u != "" && Forgets(store, cs, i, u)
    ensures !Usable(RunCommands(store, cs[..i + 1]), u)
  {
    var base := RunCommands(store, cs[..i]);
    RunsExtend(store, cs, i);
    if cs[i].op.Logout? {
      LogoutForgets(u, cs[i].lockHeld, base.file, base, cs[i].outcomes);
    } else {
      LoginLeavesNoRecord(Start(cs[i].op, cs[i].lockHeld, base.file, base), cs[i].outcomes);
    }
  }

  /** A refresh that enters after a logout or a plain login of its user, with no refreshable login in between, leaves
      the store alone and never reaches the token endpoint, even if it began before with a credential it had read. */
  lemma RefreshAfterLogout(r: Regime, s: System, es: seq<Event>, i: nat, j: nat, u: string)
    requires Quiet(s) && Behaviour(s, es) && Regular(r, es) && After(s, es).turn.None?
    requires var log := After(s, es).log;
             i < j < |log| && u != "" && Forgets(s.store, log, i, u) && log[j].op.Refresh? && log[j].op.user == u &&
             forall k :: i < k < j ==> !(log[k].op.LoginRefreshable? && log[k].op.user == u)
    ensures var log := After(s, es).log;
            var before := RunCommands(s.store, log[..j]);
            RunCommands(s.store, log[..j + 1]) == before &&
            RunCommand(before, log[j]).pc == Done(Refreshed(Failed, log[j].op.given)) &&
            forall k :: 0 <= k <= |log[j].outcomes| ==>
              !Exec(Start(log[j].op, log[j].lockHeld, before.file, before), log[j].outcomes[..k]).pc.Exchange?
  {
    var log := After(s, es).log;
    InterleavingsAreSequential(r, s, es);
    ForgetsMeansUnusable(s.store, log, i, u);
    UnusableUntilLogin(s.store, log, i + 1, j, u);
    RunsExtend(s.store, log, j);
    assert Completes(s.store, log, j);
    var before := RunCommands(s.store, log[..j]);
    var start := Start(log[j].op, log[j].lockHeld, before.file, before);
    RefreshWithoutRecord(start, log[j].outcomes);
    forall k | 0 <= k <= |log[j].outcomes| ensures !Exec(start, log[j].outcomes[..k]).pc.Exchange? {
      RefreshWithoutRecord(start, log[j].outcomes[..k]);
    }
  }

  /** What makes the token of a plain login the active one, with nothing that a refresh could work on. */
  predicate LoggedIn(store: Store, u: string, t: string) {
    u != "" && store.file.user == Some(u) && Lookup(store.tokens, u) == Some(t) && !Usable(store, u)
  }

  lemma RefreshKeepsLogin(store: Store, c: Command, u: string, t: string)
    requires LoggedIn(store, u, t) && c.op.Refresh?
    ensures LoggedIn(RunCommand(store, c).store, u, t)
  {
    var s := Start(c.op, c.lockHeld, store.file, store);
    RefreshExec(s, c.outcomes);
    if c.op.user == u {
      RefreshWithoutRecord(s, c.outcomes);
    } else {
      OthersUntouched(s, c.outcomes);
      var end := Exec(s, c.outcomes).store;
      assert Lookup(store.tokens, u) == Lookup(end.tokens, u) && Lookup(store.records, u) == Lookup(end.records, u);
    }
  }

  lemma {:induction false} RefreshesKeepLogin(store: Store, cs: seq<Command>, i: nat, j: nat, u: string, t: string)
    requires i <= j <= |cs| && LoggedIn(RunCommands(store, cs[..i]), u, t)
    requires forall k :: i <= k < j ==> cs[k].op.Refresh?
    ensures LoggedIn(RunCommands(store, cs[..j]), u, t)
    decreases j
  {
    if i < j {
      RefreshesKeepLogin(store, cs, i, j - 1, u, t);
      var before, c := RunCommands(store, cs[..j - 1]), cs[j - 1];
      RefreshKeepsLogin(before, c, u, t);
      assert RunCommands(store, cs[..j]) == RunCommand(before, c).store by { RunsExtend(store, cs, j - 1); }
    }
  }

  lemma LoginLogsIn(store: Store, cs: seq<Command>, i: nat)
    requires i < |cs| && cs[i].op.Login? && cs[i].op.user != ""
    requires RunCommand(RunCommands(store, cs[..i]), cs[i]).pc == Done(Success)
    requires !Usable(RunCommands(store, cs[..i + 1]), cs[i].op.user)
    ensures LoggedIn(RunCommands(store, cs[..i + 1]), cs[i].op.user, cs[i].op.token)
  {
    var base := RunCommands(store, cs[..i]);
    RunsExtend(store, cs, i);
    LoginExec(Start(cs[i].op, cs[i].lockHeld, base.file, base), cs[i].outcomes);
  }

  /** Refreshes that enter after a successful login which left no usable record, whenever they began and whatever
      happens to them, never displace the credential it stored; those that entered before it are superseded by it. */
  lemma LoginNeverDisplaced(r: Regime, s: System, es: seq<Event>, i: nat)
    requires Quiet(s) && Behaviour(s, es) && Regular(r, es) && After(s, es).turn.None?
    requires var log := After(s, es).log;
             i < |log| && log[i].op.Login? && log[i].op.user != "" &&
             RunCommand(RunCommands(s.store, log[..i]), log[i]).pc == Done(Success) &&
             !Usable(RunCommands(s.store, log[..i + 1]), log[i].op.user) &&
             forall k :: i < k < |log| ==> log[k].op.Refresh?
    ensures var end := After(s, es).store;
            ActiveToken(end, end.file) == Some(Credential(After(s, es).log[i].op.token, "", 0, 0, None, None))
  {
    var log := After(s, es).log;
    LoginLogsIn(s.store, log, i);
    RefreshesKeepLogin(s.store, log, i + 1, |log|, log[i].op.user, log[i].op.token);
    assert After(s, es).store == RunCommands(s.store, log[..|log|]) by {
      InterleavingsAreSequential(r, s, es);
      assert log[..|log|] == log;
    }
  }

  /** A refresh under the lock whose token is rejected and whose first deletion fails. */
  function Displacing(store: Store, u: string): Command
    requires Usable(store, u)
  {
    var c := store.records[u];
    var late := if c.expiresAt.Some? then c.expiresAt.value else 0;
    var fine, fails := Outcome(true, late, Rejected), Outcome(false, late, Rejected);
    Command(Refresh(u, c), true, [fine, fine, fine, fine, fails, fine, fine])
  }

  lemma DisplacingRuns(store: Store, u: string)
    requires Usable(store, u)
    ensures var end := RunCommand(store, Displacing(store, u));
            end.pc == Done(Refreshed(Expired, NO_CREDENTIAL)) &&
            end.store == Store(store.tokens - {u}, store.records, store.file.ForgetUserToken(u))
  {
    var d := Displacing(store, u);
    var c, late := store.records[u], d.outcomes[0].now;
    var fine, fails := Outcome(true, late, Rejected), Outcome(false, late, Rejected);
    var s := State(d.op, true, Reload, store.file, store);
    var end := Store(store.tokens - {u}, store.records, store.file.ForgetUserToken(u));
    var forgetting := s.(mem := end.file, store := store.(tokens := end.tokens));
    var os := ExecMore(s, [], fine, s, s.At(ReadRecord));
    os := ExecMore(s, os, fine, s.At(ReadRecord), s.At(Anchor(c)));
    os := ExecMore(s, os, fine, s.At(Anchor(c)), s.At(Exchange(c, late)));
    os := ExecMore(s, os, fine, s.At(Exchange(c, late)), s.At(RemoveRecord));
    os := ExecMore(s, os, fails, s.At(RemoveRecord), s.At(RemoveToken));
    os := ExecMore(s, os, fine, s.At(RemoveToken), forgetting.At(RemoveWrite));
    var written := forgetting.WriteFile();
    os := ExecMore(s, os, fine, forgetting.At(RemoveWrite), written.Finish(Refreshed(Expired, NO_CREDENTIAL)));
    assert os == d.outcomes;
  }

  /** The condition is exact: if a usable record is left beside the token, some refresh displaces it. */
  lemma LoginDisplacedIff(store: Store, u: string, t: string)
    requires u != "" && store.file.user == Some(u) && Lookup(store.tokens, u) == Some(t)
    ensures (forall c: Command :: c.op.Refresh? ==>
               var end := RunCommand(store, c).store;
               ActiveToken(end, end.file) == Some(Credential(t, "", 0, 0, None, None))) <==> !Usable(store, u)
  {
    if Usable(store, u) {
      DisplacingRuns(store, u);
      assert Displacing(store, u).op.Refresh?;
    } else {
      forall c: Command | c.op.Refresh?
        ensures var end := RunCommand(store, c).store;
                ActiveToken(end, end.file) == Some(Credential(t, "", 0, 0, None, None))
      {
        RefreshKeepsLogin(store, c, u, t);
      }
    }
  }

  // ---------------------------------------------------------------- refreshes after a refreshable login

  /** The user's refreshable credential is the active one. */
  predicate Holds(store: Store, u: string, c: Credential) {
    u != "" && store.file.user == Some(u) && u !in store.tokens && Lookup(store.records, u) == Some(c) &&
    ValidCredential(c)
  }

  /** There is nothing left of it. */
  predicate Gone(store: Store, u: string) {
    u != "" && store.file.user == Some(u) && u !in store.tokens && !Usable(store, u)
  }

  ghost predicate Renews(store: Store, cs: seq<Command>, k: nat, u: string, c: Credential)
    requires k < |cs|
  {
    cs[k].op.Refresh? && cs[k].op.user == u && MetGrant(RunCommands(store, cs[..k]), u, cs[k].outcomes) &&
    c == GrantedTo(cs[k].outcomes)
  }

  ghost predicate IsRefused(store: Store, cs: seq<Command>, k: nat, u: string)
    requires k < |cs|
  {
    cs[k].op.Refresh? && cs[k].op.user == u && MetRejection(RunCommands(store, cs[..k]), u, cs[k].outcomes)
  }

  lemma RefreshKeepsHolder(store: Store, c: Command, u: string, held: Credential)
    requires Holds(store, u, held) && c.op.Refresh? && RunCommand(store, c).pc.Done?
    ensures var end := RunCommand(store, c).store;
            Holds(end, u, held) ||
            (c.op.user == u && MetGrant(store, u, c.outcomes) && Holds(end, u, GrantedTo(c.outcomes))) ||
            (c.op.user == u && MetRejection(store, u, c.outcomes) && Gone(end, u))
  {
    var s := Start(c.op, c.lockHeld, store.file, store);
    RefreshExec(s, c.outcomes);
    if c.op.user == u {
      RefreshTruthful(u, c.op.given, c.lockHeld, store.file, store, c.outcomes);
      if WriteFailed(s, c.outcomes, u) { WriteFailedGrant(s, c.outcomes, u); }
    } else {
      OthersUntouched(s, c.outcomes);
      var end := Exec(s, c.outcomes).store;
      assert Lookup(store.tokens, u) == Lookup(end.tokens, u) && Lookup(store.records, u) == Lookup(end.records, u);
    }
  }

  lemma WriteFailedGrant(s: State, os: seq<Outcome>, u: string)
    requires Coherent(s) && s.op.Refresh? && s.op.user == u && s.pc.Reload? && WriteFailed(s, os, u)
    ensures MetGrant(s.store, u, os) && Exec(s, os).store == s.store.(records := s.store.records[u := GrantedTo(os)])
  {
    var i :| 0 <= i < |os| && Exec(s, os[..i]).pc.WriteRenewed? && !os[i].ok &&
      Exec(s, os).store == s.store.(records := s.store.records[u := Exec(s, os[..i]).pc.renewed]);
    VerdictExec(s, os[..i]);
  }

  /** The credential in force is the first one, or one that a refresh in this stretch of the log was granted for it; or
      such a refresh was refused and nothing is left. */
  ghost predicate Succession(store: Store, cs: seq<Command>, i: nat, j: nat, u: string, first: Credential)
    requires i <= j <= |cs|
  {
    var end := RunCommands(store, cs[..j]);
    (u in end.records && Holds(end, u, end.records[u]) && Heir(store, cs, i, j, u, first, end.records[u])) ||
    (Gone(end, u) && RefusedIn(store, cs, i, j, u))
  }

  ghost predicate Heir(store: Store, cs: seq<Command>, i: nat, j: nat, u: string, first: Credential, c: Credential)
    requires i <= j <= |cs|
  {
    c == first || exists k :: i <= k < j && Renews(store, cs, k, u, c)
  }

  ghost predicate RefusedIn(store: Store, cs: seq<Command>, i: nat, j: nat, u: string)
    requires i <= j <= |cs|
  {
    exists k :: i <= k < j && IsRefused(store, cs, k, u)
  }

  lemma RefreshKeepsGone(store: Store, c: Command, u: string)
    requires Gone(store, u) && c.op.Refresh?
    ensures Gone(RunCommand(store, c).store, u)
  {
    RefreshExec(Start(c.op, c.lockHeld, store.file, store), c.outcomes);
    RecordsComeFromLogins(store, c, u);
    OthersUntouched(Start(c.op, c.lockHeld, store.file, store), c.outcomes);
    assert c.op.user != u ==> Lookup(store.tokens, u) == Lookup(RunCommand(store, c).store.tokens, u);
  }

  predicate CompleteRefresh(store: Store, cs: seq<Command>, k: nat)
    requires k < |cs|
  {
    cs[k].op.Refresh? && Completes(store, cs, k)
  }

  lemma SuccessionStep(store: Store, cs: seq<Command>, i: nat, j: nat, u: string, first: Credential)
    requires i <= j < |cs| && Succession(store, cs, i, j, u, first)
    requires CompleteRefresh(store, cs, j)
    ensures Succession(store, cs, i, j + 1, u, first)
  {
    var before := RunCommands(store, cs[..j]);
    RunsExtend(store, cs, j);
    if Gone(before, u) && RefusedIn(store, cs, i, j, u) {
      RefreshKeepsGone(before, cs[j], u);
    } else {
      var c := before.records[u];
      RefreshKeepsHolder(before, cs[j], u, c);
      assert Heir(store, cs, i, j + 1, u, first, c);
      if MetGrant(before, u, cs[j].outcomes) && cs[j].op.user == u {
        assert Renews(store, cs, j, u, GrantedTo(cs[j].outcomes));
      }
      if MetRejection(before, u, cs[j].outcomes) && cs[j].op.user == u {
        assert IsRefused(store, cs, j, u);
      }
    }
  }

  lemma {:induction false} SuccessionKept(store: Store, cs: seq<Command>, i: nat, j: nat, u: string, first: Credential)
    requires i <= j <= |cs| && Holds(RunCommands(store, cs[..i]), u, first) && CompleteRefreshes(store, cs, i, j)
    ensures Succession(store, cs, i, j, u, first)
    decreases j
  {
    if i == j {
      SuccessionStart(store, cs, i, u, first);
    } else {
      ShorterStretch(store, cs, i, j);
      SuccessionKept(store, cs, i, j - 1, u, first);
      SuccessionStep(store, cs, i, j - 1, u, first);
    }
  }

  predicate CompleteRefreshes(store: Store, cs: seq<Command>, i: nat, j: nat)
    requires i <= j <= |cs|
  {
    forall k :: i <= k < j ==> CompleteRefresh(store, cs, k)
  }

  lemma ShorterStretch(store: Store, cs: seq<Command>, i: nat, j: nat)
    requires i < j <= |cs| && CompleteRefreshes(store, cs, i, j)
    ensures CompleteRefreshes(store, cs, i, j - 1) && CompleteRefresh(store, cs, j - 1)
  {
  }

  lemma SuccessionStart(store: Store, cs: seq<Command>, i: nat, u: string, first: Credential)
    requires i <= |cs| && Holds(RunCommands(store, cs[..i]), u, first)
    ensures Succession(store, cs, i, i, u, first)
  {
  }

  lemma RefreshableLoginHolds(store: Store, cs: seq<Command>, i: nat)
    requires i < |cs| && cs[i].op.LoginRefreshable?
    requires RunCommand(RunCommands(store, cs[..i]), cs[i]).pc == Done(Success)
    requires var base := RunCommands(store, cs[..i]);
             RemovalVerified(Start(cs[i].op, cs[i].lockHeld, base.file, base), cs[i].outcomes)
    ensures Holds(RunCommands(store, cs[..i + 1]), cs[i].op.user, cs[i].op.credential)
  {
    var base := RunCommands(store, cs[..i]);
    RunsExtend(store, cs, i);
    RefreshableExec(Start(cs[i].op, cs[i].lockHeld, base.file, base), cs[i].outcomes);
  }

  /** Refreshes that enter after a successful refreshable login, whenever they began and whatever credential they began
      with, only ever renew the credential of that login: it, or what it was exchanged for in turn, stays the active one
      until the server refuses it. */
  lemma RefreshableLoginSucceeded(r: Regime, s: System, es: seq<Event>, i: nat)
    requires Quiet(s) && Behaviour(s, es) && Regular(r, es) && After(s, es).turn.None?
    requires var log := After(s, es).log;
             i < |log| && log[i].op.LoginRefreshable? &&
             RunCommand(RunCommands(s.store, log[..i]), log[i]).pc == Done(Success) &&
             var base := RunCommands(s.store, log[..i]);
             RemovalVerified(Start(log[i].op, log[i].lockHeld, base.file, base), log[i].outcomes) &&
             forall k :: i < k < |log| ==> log[k].op.Refresh?
    ensures var log, end := After(s, es).log, After(s, es).store;
            var u, first := log[i].op.user, log[i].op.credential;
            (u in end.records && Heir(s.store, log, i + 1, |log|, u, first, end.records[u]) &&
             ActiveToken(end, end.file) == Some(end.records[u])) ||
            (Gone(end, u) && RefusedIn(s.store, log, i + 1, |log|, u))
  {
    var log := After(s, es).log;
    InterleavingsAreSequential(r, s, es);
    RefreshableLoginHolds(s.store, log, i);
    forall k | i < k < |log| ensures CompleteRefresh(s.store, log, k) {
      assert Completes(s.store, log, k);
    }
    SuccessionKept(s.store, log, i + 1, |log|, log[i].op.user, log[i].op.credential);
    assert log[..|log|] == log;
  }

  /** The active slot stays consistent through every interleaving in which no keyring or file operation fails. */
  lemma SlotsOverInterleavings(r: Regime, s: System, es: seq<Event>)
    requires Quiet(s) && Behaviour(s, es) && Regular(r, es) && After(s, es).turn.None? && Consistent(s.store)
    requires forall i :: 0 <= i < |After(s, es).log| ==> AllSucceed(After(s, es).log[i].outcomes)
    ensures Consistent(After(s, es).store)
  {
    InterleavingsAreSequential(r, s, es);
    var log := After(s, es).log;
    forall i | 0 <= i < |log|
      ensures AllSucceed(log[i].outcomes) && RunCommand(RunCommands(s.store, log[..i]), log[i]).pc.Done?
    {
      assert Completes(s.store, log, i);
    }
    SlotsOverRuns(s.store, log);
  }
}
