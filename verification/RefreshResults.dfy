/** What a refresh records of the credential that it was granted, and how long later refreshes leave it alone. */
module RefreshResults {
  import opened Wrappers
  import opened CredentialStore
  import opened StoreInvariants
  import opened OperationResults

  /** The credential is the one that was granted, with each reported lifetime counted from the request and no expiry
      where none was reported. */
  predicate Records(c: Credential, t: AccessToken, requestedAt: int) {
    c.token == t.token && c.refreshToken == t.refreshToken &&
    c.expiresIn == t.expiresIn && c.refreshTokenExpiresIn == t.refreshTokenExpiresIn &&
    (if t.expiresIn > 0 then c.expiresAt == Some(requestedAt + t.expiresIn) else c.expiresAt == None) &&
    (if t.refreshTokenExpiresIn > 0 then c.refreshTokenExpiresAt == Some(requestedAt + t.refreshTokenExpiresIn)
     else c.refreshTokenExpiresAt == None)
  }

  predicate Whole(c: Credential) { c.token != "" && c.refreshToken != "" }

  /** The credential runs for more than ten minutes beyond `now`. */
  predicate RunsOn(c: Credential, now: int) { c.expiresAt.Some? && now + 600 < c.expiresAt.value }

  /** A refresh that reports success has stored the credential that the endpoint granted, which has both tokens. */
  lemma RenewalRecorded(u: string, given: Credential, held: bool, mem: HostConfig, store: Store, os: seq<Outcome>)
    requires var end := Exec(Start(Refresh(u, given), held, mem, store), os);
             end.pc.Done? && end.pc.result.Refreshed? && end.pc.result.status == Renewed
    ensures var end := Exec(Start(Refresh(u, given), held, mem, store), os);
            |os| >= 6 && os[3].reply.Granted? && u in end.store.records &&
            end.store.records[u] == end.pc.result.credential && Whole(end.store.records[u]) &&
            Records(end.store.records[u], os[3].reply.token, os[2].now)
  {
    RefreshTruthful(u, given, held, mem, store, os);
  }

  /** A refresh whose reads get through finds it unnecessary, and changes nothing, exactly if the stored credential has
      both tokens and runs for more than ten minutes. */
  lemma UnnecessaryIff(u: string, given: Credential, held: bool, mem: HostConfig, store: Store, os: seq<Outcome>)
    requires |os| >= 2 && os[0].ok && os[1].ok && Exec(Start(Refresh(u, given), held, mem, store), os).pc.Done?
    ensures var end := Exec(Start(Refresh(u, given), held, mem, store), os);
            end.pc.result.Refreshed? &&
            (end.pc.result.status == Unnecessary <==>
               u in store.records && Whole(store.records[u]) && RunsOn(store.records[u], os[1].now)) &&
            (end.pc.result.status == Unnecessary ==> end.store == store && end.pc.result.credential == store.records[u])
  {
    RefreshTruthful(u, given, held, mem, store, os);
  }

  /** After a renewal, another refresh leaves the credential alone for as long as the lifetime that was granted, counted
      from the request, has more than ten minutes to go, and no longer. */
  lemma RenewalLasts(u: string, given: Credential, held: bool, mem: HostConfig, store: Store, os: seq<Outcome>,
                     given': Credential, held': bool, mem': HostConfig, os': seq<Outcome>)
    requires var end := Exec(Start(Refresh(u, given), held, mem, store), os);
             end.pc.Done? && end.pc.result.Refreshed? && end.pc.result.status == Renewed &&
             |os'| >= 2 && os'[0].ok && os'[1].ok &&
             Exec(Start(Refresh(u, given'), held', mem', end.store), os').pc.Done?
    ensures var end := Exec(Start(Refresh(u, given), held, mem, store), os);
            var again := Exec(Start(Refresh(u, given'), held', mem', end.store), os');
            again.pc.result.Refreshed? && |os| >= 6 && os[3].reply.Granted? &&
            var lifetime := os[3].reply.token.expiresIn;
            (again.pc.result.status == Unnecessary <==> lifetime > 0 && os'[1].now + 600 < os[2].now + lifetime) &&
            (again.pc.result.status == Unnecessary ==>
               again.store == end.store && again.pc.result.credential == end.pc.result.credential)
  {
    var end := Exec(Start(Refresh(u, given), held, mem, store), os);
    RenewalRecorded(u, given, held, mem, store, os);
    UnnecessaryIff(u, given', held', mem', end.store, os');
  }

  // ---------------------------------------------------------------- a rejected credential

  /** Without the user's credentials, in whichever form. */
  function Removed(store: Store, u: string): Store {
    Store(map v | v in store.tokens && v != u :: store.tokens[v],
          map v | v in store.records && v != u :: store.records[v],
          store.file.(userTokens := map v | v in store.file.userTokens && v != u :: store.file.userTokens[v]))
  }

  predicate RemovingAt(s: State, old_: Store) {
    var u, gone := s.op.user, Removed(old_, s.op.user);
    match s.pc
    case RemoveRecord => s.store == old_ && s.mem == old_.file
    case RemoveToken => s.store == old_.(records := gone.records) && s.mem == old_.file
    case RemoveWrite => s.store == gone.(file := old_.file) && s.mem == gone.file
    case Done(Refreshed(Expired, _)) => s.store == if s.lockHeld then gone else old_
    case Done(_) => true
    case StoreRenewed(_, _) => true
    case WriteRenewed(_, _) => true
    case _ => s.store == old_ && (!s.pc.Reload? ==> s.mem == old_.file)
  }

  lemma RemovingStep(s: State, o: Outcome, old_: Store)
    requires Coherent(s) && s.op.Refresh? && Refreshing(s.pc) && o.ok && RemovingAt(s, old_)
    ensures RemovingAt(StepRefresh(s, o), old_)
  {
    var u := s.op.user;
    assert Removed(old_, u).records == old_.records - {u} && Removed(old_, u).tokens == old_.tokens - {u};
    assert Removed(old_, u).file.userTokens == old_.file.userTokens - {u};
  }

  lemma {:induction false} RemovingExec(s: State, os: seq<Outcome>)
    requires Coherent(s) && s.op.Refresh? && s.pc.Reload? && AllSucceed(os)
    ensures RemovingAt(Exec(s, os), s.store)
  {
    if os != [] {
      RemovingExec(s, os[..|os| - 1]);
      if Refreshing(Exec(s, os[..|os| - 1]).pc) {
        RemovingStep(Exec(s, os[..|os| - 1]), os[|os| - 1], s.store);
      }
    }
  }

  /** A refresh that reports that the credential expired, and whose writes succeed, has removed every credential of the
      user if it holds the lock, and nothing otherwise. */
  lemma ExpiredRemoves(u: string, given: Credential, held: bool, mem: HostConfig, store: Store, os: seq<Outcome>)
    requires AllSucceed(os)
    requires var end := Exec(Start(Refresh(u, given), held, mem, store), os);
             end.pc.Done? && end.pc.result.Refreshed? && end.pc.result.status == Expired
    ensures Exec(Start(Refresh(u, given), held, mem, store), os).store == if held then Removed(store, u) else store
  {
    RemovingExec(Start(Refresh(u, given), held, mem, store), os);
  }
}
