/** The imperative form: an `AuthConfig` object over a keyring and a config file that can fail at every call. Each
    method is proved to follow the steps of `CredentialStore` exactly, with the outcomes that it met as ghost
    results. */
module AuthConfiguration {
  import opened Wrappers
  import opened CredentialStore
  import opened StoreInvariants
  import opened OperationResults
  import opened AccountResults
  import opened RefreshResults

  /** `os` leads from `from` to `s`. */
  ghost predicate Ran(from: State, os: seq<Outcome>, s: State) {
    Coherent(from) && Exec(from, os) == s
  }

  /** The outcome of a keyring or file call. */
  function Answer(ok: bool): Outcome { Outcome(ok, 0, Unreachable) }

  lemma Follow(from: State, os: seq<Outcome>, s: State, o: Outcome) returns (os': seq<Outcome>, s': State)
    requires Ran(from, os, s)
    ensures s' == Step(s, o) && Ran(from, os', s') && os' == os + [o]
  {
    ExecSnoc(from, os, o);
    os', s' := os + [o], Step(s, o);
  }

  /** The same, for one part of the steps each. */
  lemma FollowLogin(from: State, os: seq<Outcome>, s: State, o: Outcome) returns (os': seq<Outcome>, s': State)
    requires Ran(from, os, s) && s.op.Login? && (s.pc.LoginSet? || s.pc.LoginDelete? || s.pc.LoginCheck?)
    ensures Coherent(s) && s' == StepLogin(s, o) && Ran(from, os', s') && os' == os + [o]
  {
    os', s' := Follow(from, os, s, o);
  }

  lemma FollowLoginRefreshable(from: State, os: seq<Outcome>, s: State, o: Outcome)
    returns (os': seq<Outcome>, s': State)
    requires Ran(from, os, s) && s.op.LoginRefreshable?
    requires s.pc.RefreshableSet? || s.pc.RefreshableDelete? || s.pc.RefreshableCheck?
    ensures Coherent(s) && s' == StepLoginRefreshable(s, o) && Ran(from, os', s') && os' == os + [o]
  {
    os', s' := Follow(from, os, s, o);
  }

  lemma FollowActivate(from: State, os: seq<Outcome>, s: State, o: Outcome) returns (os': seq<Outcome>, s': State)
    requires Ran(from, os, s) && Activating(s.pc)
    ensures Coherent(s) && s' == StepActivate(s, o) && Ran(from, os', s') && os' == os + [o]
  {
    os', s' := Follow(from, os, s, o);
  }

  lemma FollowLogout(from: State, os: seq<Outcome>, s: State, o: Outcome) returns (os': seq<Outcome>, s': State)
    requires Ran(from, os, s) && LoggingOut(s.pc)
    ensures Coherent(s) && s.op.Logout? && s' == StepLogout(s, o) && Ran(from, os', s') && os' == os + [o]
  {
    os', s' := Follow(from, os, s, o);
  }

  lemma FollowRefresh(from: State, os: seq<Outcome>, s: State, o: Outcome) returns (os': seq<Outcome>, s': State)
    requires Ran(from, os, s) && Refreshing(s.pc)
    ensures Coherent(s) && s.op.Refresh? && s' == StepRefresh(s, o) && Ran(from, os', s') && os' == os + [o]
  {
    os', s' := Follow(from, os, s, o);
  }

  lemma FollowSwitch(from: State, os: seq<Outcome>, s: State, o: Outcome) returns (os': seq<Outcome>, s': State)
    requires Ran(from, os, s) && ResolvingPrevious(s.pc)
    ensures Coherent(s) && s.op.SwitchUser? && s' == StepSwitch(s, o) && Ran(from, os', s') && os' == os + [o]
  {
    os', s' := Follow(from, os, s, o);
  }

  /** The system keyring. Reads can fail, writes can fail, and a deletion can silently leave the secret in place. */
  class Keyring {
    var tokens: map<string, string>
    var records: map<string, Credential>

    constructor ()
      ensures tokens == map[] && records == map[]
    {
      tokens, records := map[], map[];
    }

    method GetToken(user: string) returns (ok: bool, token: Option<string>)
      ensures token == if ok then Lookup(tokens, user) else None
    {
      ok := *;
      token := if ok then Lookup(tokens, user) else None;
    }

    method SetToken(user: string, token: string) returns (ok: bool)
      modifies this
      ensures tokens == if ok then old(tokens)[user := token] else old(tokens)
      ensures records == old(records)
    {
      ok := *;
      if ok { tokens := tokens[user := token]; }
    }

    method DeleteToken(user: string) returns (gone: bool)
      modifies this
      ensures tokens == if gone then old(tokens) - {user} else old(tokens)
      ensures records == old(records)
    {
      gone := *;
      if gone { tokens := tokens - {user}; }
    }

    method GetRecord(user: string) returns (ok: bool, record: Option<Credential>)
      ensures record == if ok then Lookup(records, user) else None
    {
      ok := *;
      record := if ok then Lookup(records, user) else None;
    }

    method SetRecord(user: string, record: Credential) returns (ok: bool)
      modifies this
      ensures records == if ok then old(records)[user := record] else old(records)
      ensures tokens == old(tokens)
    {
      ok := *;
      if ok { records := records[user := record]; }
    }

    method DeleteRecord(user: string) returns (gone: bool)
      modifies this
      ensures records == if gone then old(records) - {user} else old(records)
      ensures tokens == old(tokens)
    {
      gone := *;
      if gone { records := records - {user}; }
    }
  }

  class ConfigFile {
    var contents: HostConfig

    constructor (contents: HostConfig)
      ensures this.contents == contents
    {
      this.contents := contents;
    }

    method Read() returns (ok: bool, config: HostConfig)
      ensures ok ==> config == contents
    {
      ok, config := *, contents;
    }

    method Write(config: HostConfig) returns (ok: bool)
      modifies this
      ensures contents == if ok then config else old(contents)
    {
      ok := *;
      if ok { contents := config; }
    }
  }

  method Now() returns (now: int) { now := *; }

  method AskTokenEndpoint(refreshToken: string) returns (reply: Reply) { reply := *; }

  class AuthConfig {
    var mem: HostConfig
    const keyring: Keyring
    const file: ConfigFile

    constructor (keyring: Keyring, file: ConfigFile)
      ensures this.keyring == keyring && this.file == file && mem == file.contents
    {
      this.keyring, this.file, this.mem := keyring, file, file.contents;
    }

    function Contents(): Store
      reads keyring, file
    {
      Store(keyring.tokens, keyring.records, file.contents)
    }

    predicate Tracks(s: State)
      reads this, keyring, file
    {
      s.mem == mem && s.store == Contents()
    }

    /** Waits for the locks and reloads the configuration, going on without the file lock when it cannot be had. */
    method Enter(op: Operation)
      returns (lockHeld: bool, loaded: bool, ghost from: State, ghost os: seq<Outcome>, ghost s: State)
      requires !op.SwitchUser?
      modifies this
      ensures from == Start(op, lockHeld, old(mem), old(Contents())) && Ran(from, os, s) && Tracks(s)
      ensures s.pc == (if loaded then Body(op)
                       else Done(if op.Refresh? then Refreshed(Failed, op.given) else Failure))
      ensures s.op == op && s.lockHeld == lockHeld && (loaded ==> mem == file.contents)
    {
      lockHeld := *;
      from := Start(op, lockHeld, mem, Contents());
      os, s := [], from;
      var config;
      loaded, config := file.Read();
      if loaded { mem := config; }
      os, s := Follow(from, os, s, Answer(loaded));
    }

    // -------------------------------------------------------------- activation

    /** Empties the host-level slot and looks for the user's own token. */
    method ClearAndFetch(user: string, ghost goal: Goal, ghost from: State, ghost os0: seq<Outcome>, ghost s0: State)
      returns (token: Option<string>, ghost os: seq<Outcome>, ghost s: State)
      requires Ran(from, os0, s0) && Tracks(s0) && s0.pc == ClearActive(goal) && goal.user == user
      modifies this, keyring
      ensures Ran(from, os, s) && Tracks(s) && s.op == s0.op && s.lockHeld == s0.lockHeld
      ensures s.pc == if token.Some? then CopyToken(goal, token.value) else FetchRecord(goal)
      ensures mem == old(mem).(hostToken := None)
    {
      var gone := keyring.DeleteToken(ACTIVE);
      mem := mem.ForgetHostToken();
      os, s := FollowActivate(from, os0, s0, Answer(gone));
      assert s.pc == FetchToken(goal) && Tracks(s) && s.op == s0.op && s.lockHeld == s0.lockHeld;
      var ok;
      ok, token := keyring.GetToken(user);
      os, s := FollowActivate(from, os, s, Answer(ok));
    }

    method SetActiveCredential(user: string, ghost goal: Goal, ghost from: State, ghost os0: seq<Outcome>,
                               ghost s0: State)
      returns (found: bool, ghost os: seq<Outcome>, ghost s: State)
      requires Ran(from, os0, s0) && Tracks(s0) && s0.pc == ClearActive(goal) && goal.user == user
      modifies this, keyring
      ensures var here := s0.(mem := mem, store := Contents());
              Ran(from, os, s) && s == if found then ActivationFound(here, goal) else ActivationFailed(here, goal)
      ensures mem == old(mem).(hostToken := mem.hostToken)
    {
      var token;
      token, os, s := ClearAndFetch(user, goal, from, os0, s0);
      if token.Some? {
        var ok := keyring.SetToken(ACTIVE, token.value);
        os, s := FollowActivate(from, os, s, Answer(ok));
        return ok, os, s;
      }

      found, os, s := FindElsewhere(user, goal, from, os, s);
    }

    /** Activates a user who has no token in the keyring. */
    method FindElsewhere(user: string, ghost goal: Goal, ghost from: State, ghost os0: seq<Outcome>, ghost s0: State)
      returns (found: bool, ghost os: seq<Outcome>, ghost s: State)
      requires Ran(from, os0, s0) && Tracks(s0) && s0.pc == FetchRecord(goal) && goal.user == user
      modifies this
      ensures var here := s0.(mem := mem, store := Contents());
              Ran(from, os, s) && s == if found then ActivationFound(here, goal) else ActivationFailed(here, goal)
      ensures mem == old(mem).(hostToken := mem.hostToken)
    {
      os, s := os0, s0;
      var readable, record := keyring.GetRecord(user);
      os, s := FollowActivate(from, os, s, Answer(readable));
      if !readable { return false, os, s; }
      if record.Some? { return ValidCredential(record.value), os, s; }

      if user in mem.userTokens {
        mem := mem.(hostToken := Some(mem.userTokens[user]));
        return true, os, s;
      }
      found := false;
    }

    method ActivateUser(user: string, ghost goal: Goal, ghost from: State, ghost os0: seq<Outcome>, ghost s0: State)
      returns (ok: bool, ghost os: seq<Outcome>, ghost s: State)
      requires Ran(from, os0, s0) && Tracks(s0) && s0.pc == ClearActive(goal) && goal.user == user && !goal.ForUndo?
      modifies this, keyring, file
      ensures Ran(from, os, s)
      ensures var here := s0.(mem := mem, store := Contents());
              s == if ok then here.Finish(Success) else ActivationFailed(here, goal)
      ensures ok ==> file.contents == mem == old(mem).(user := Some(user), hostToken := mem.hostToken)
    {
      var found;
      found, os, s := SetActiveCredential(user, goal, from, os0, s0);
      if !found { return false, os, s; }
      mem := mem.Activate(user);
      ok := file.Write(mem);
      os, s := FollowActivate(from, os, s, Answer(ok));
    }

    method CompleteLogin(user: string, gitProtocol: string, ghost from: State, ghost os0: seq<Outcome>, ghost s0: State)
      returns (ok: bool, ghost os: seq<Outcome>, ghost s: State)
      requires (s0.op.Login? || s0.op.LoginRefreshable?) && s0.op.user == user && s0.op.gitProtocol == gitProtocol
      requires Tracks(s0) && Coherent(s0) && Ran(from, os0, Completed(s0))
      modifies this, keyring, file
      ensures Ran(from, os, s) && Tracks(s) && s.pc == Done(if ok then Success else Failure)
      ensures var users, protocol := old(mem.users), old(mem.gitProtocol);
              ok ==>
                file.contents == mem ==
                HostConfig(Some(user), if gitProtocol != "" then Some(gitProtocol) else protocol, mem.hostToken,
                           users + if user in users then [] else [user], old(mem.userTokens))
    {
      if gitProtocol != "" { mem := mem.SetGitProtocol(gitProtocol); }
      if user !in mem.users { mem := mem.AddUser(user); }
      ok, os, s := ActivateUser(user, ForLogin(user), from, os0, Completed(s0));
    }

    // -------------------------------------------------------------- login

    method PurgeRefreshableForLogin(user: string, ghost from: State, ghost os0: seq<Outcome>, ghost s0: State)
      returns (survives: bool, ghost os: seq<Outcome>, ghost s: State)
      requires Ran(from, os0, s0) && Tracks(s0) && s0.pc == LoginDelete && s0.op.user == user
      modifies keyring
      ensures var here := s0.(store := Contents());
              Ran(from, os, s) && s == if survives then here.Finish(Failure) else Completed(here)
    {
      var gone := keyring.DeleteRecord(user);
      os, s := FollowLogin(from, os0, s0, Answer(gone));
      var readable, record := keyring.GetRecord(user);
      os, s := FollowLogin(from, os, s, Answer(readable));
      survives := record.Some? && ValidCredential(record.value);
    }

    method Login(user: string, token: string, gitProtocol: string)
      returns (ok: bool, lockHeld: bool, ghost os: seq<Outcome>)
      modifies this, keyring, file
      ensures var op := Operation.Login(user, token, gitProtocol);
              Ran(old(Start(op, lockHeld, mem, Contents())), os,
                  State(op, lockHeld, Done(if ok then Success else Failure), mem, Contents()))
      ensures ok ==> file.contents == LoggedIn(old(file.contents), user, gitProtocol)
      ensures ok && user != "" ==>
                ActiveToken(Contents(), file.contents) == Some(Credential(token, "", 0, 0, None, None))
    {
      ghost var from, s;
      var loaded;
      lockHeld, loaded, from, os, s := Enter(Operation.Login(user, token, gitProtocol));
      if !loaded { return false, lockHeld, os; }

      ok := keyring.SetToken(user, token);
      os, s := FollowLogin(from, os, s, Answer(ok));
      if !ok { return false, lockHeld, os; }
      mem := mem.ForgetUserToken(user);
      mem := mem.ForgetHostToken();

      ghost var here := s;
      var survives;
      survives, os, s := PurgeRefreshableForLogin(user, from, os, s);
      if survives { return false, lockHeld, os; }
      ok, os, s := CompleteLogin(user, gitProtocol, from, os, here.(store := Contents()));
      if ok {
        LoginKeepsAccounts(from.op, lockHeld, from.mem, from.store, os);
        if user != "" { LoginActivates(user, token, gitProtocol, lockHeld, from.mem, from.store, os); }
      }
    }

    method PurgeNonExpiringForRefreshableLogin(user: string, ghost from: State, ghost os0: seq<Outcome>,
                                               ghost s0: State)
      returns (survives: bool, ghost os: seq<Outcome>, ghost s: State)
      requires Ran(from, os0, s0) && Tracks(s0) && s0.pc == RefreshableDelete && s0.op.user == user
      modifies this, keyring
      ensures var here := s0.(mem := mem, store := Contents());
              Ran(from, os, s) && s == if survives then here.Finish(Failure) else Completed(here)
    {
      mem := mem.ForgetUserToken(user);
      var gone := keyring.DeleteToken(user);
      os, s := FollowLoginRefreshable(from, os0, s0, Answer(gone));
      assert s == s0.(mem := mem, store := Contents(), pc := RefreshableCheck);
      var readable, token := keyring.GetToken(user);
      os, s := FollowLoginRefreshable(from, os, s, Answer(readable));
      survives := token.Some?;
    }

    method LoginRefreshable(user: string, credential: Credential, gitProtocol: string)
      returns (ok: bool, lockHeld: bool, ghost os: seq<Outcome>)
      modifies this, keyring, file
      ensures var op := Operation.LoginRefreshable(user, credential, gitProtocol);
              Ran(old(Start(op, lockHeld, mem, Contents())), os,
                  State(op, lockHeld, Done(if ok then Success else Failure), mem, Contents()))
      ensures var op := Operation.LoginRefreshable(user, credential, gitProtocol);
              ok && RemovalVerified(old(Start(op, lockHeld, mem, Contents())), os) ==>
                ActiveToken(Contents(), file.contents) == Some(credential)
      ensures ok ==> file.contents == LoggedIn(old(file.contents), user, gitProtocol)
    {
      ghost var from, s;
      var loaded;
      lockHeld, loaded, from, os, s := Enter(Operation.LoginRefreshable(user, credential, gitProtocol));
      if !loaded || user == "" || !ValidCredential(credential) { return false, lockHeld, os; }

      ok := keyring.SetRecord(user, credential);
      os, s := FollowLoginRefreshable(from, os, s, Answer(ok));
      if !ok { return false, lockHeld, os; }

      ghost var here := s;
      var survives;
      survives, os, s := PurgeNonExpiringForRefreshableLogin(user, from, os, s);
      if survives { return false, lockHeld, os; }
      ok, os, s := CompleteLogin(user, gitProtocol, from, os, here.(mem := mem, store := Contents()));
      if ok { LoginKeepsAccounts(from.op, lockHeld, from.mem, from.store, os); }
      if ok && RemovalVerified(from, os) {
        LoginRefreshableActivates(user, credential, gitProtocol, lockHeld, from.mem, from.store, os);
      }
    }
 
    // -------------------------------------------------------------- logout

    method Logout(user: string) returns (ok: bool, lockHeld: bool, ghost os: seq<Outcome>)
      requires Distinct(file.contents.users)
      modifies this, keyring, file
      ensures Ran(old(Start(Operation.Logout(user), lockHeld, mem, Contents())), os,
                  State(Operation.Logout(user), lockHeld, Done(if ok then Success else Failure), mem, Contents()))
      ensures user != "" && Deleted(old(Start(Operation.Logout(user), lockHeld, mem, Contents())), os) ==>
                TokenForUser(Contents(), user) == None && user !in keyring.records &&
                (ok ==> user !in file.contents.users && file.contents.user != Some(user))
      ensures ok ==> LoggedOut(file.contents, old(file.contents), user)
    {
      ghost var from, s;
      var loaded;
      lockHeld, loaded, from, os, s := Enter(Operation.Logout(user));
      ok := loaded;
      if loaded { ok, os, s := LogoutBody(user, from, os, s); }
      if ok { LogoutPicksSuccessor(user, lockHeld, from.mem, from.store, os); }
      if user != "" && Deleted(from, os) {
        LogoutForgets(user, lockHeld, from.mem, from.store, os);
      }
    }

    method LogoutBody(user: string, ghost from: State, ghost os0: seq<Outcome>, ghost s0: State)
      returns (ok: bool, ghost os: seq<Outcome>, ghost s: State)
      requires Ran(from, os0, s0) && Tracks(s0) && s0.op == Operation.Logout(user) && s0.pc == LogoutRecord
      requires Distinct(mem.users)
      modifies this, keyring, file
      ensures Ran(from, os, s) && Tracks(s) && s.pc == Done(if ok then Success else Failure)
    {
      var users := mem.users;
      var gone := keyring.DeleteRecord(user);
      os, s := FollowLogout(from, os0, s0, Answer(gone));
      gone := keyring.DeleteToken(user);
      os, s := FollowLogout(from, os, s, Answer(gone));

      if |users| < 2 {
        mem := NO_HOST;
        gone := keyring.DeleteToken(ACTIVE);
        os, s := FollowLogout(from, os, s, Answer(gone));
        ok, os, s := WriteLogout(from, os, s);
      } else {
        SuccessorExists(users, user);
        mem := mem.DropUser(user);
        if mem.user != Some(user) {
          ok, os, s := WriteLogout(from, os, s);
        } else {
          var successor := FirstOther(users, user).value;
          ok, os, s := ActivateUser(successor, ForLogin(successor), from, os, s);
        }
      }
    }

    method WriteLogout(ghost from: State, ghost os0: seq<Outcome>, ghost s0: State)
      returns (ok: bool, ghost os: seq<Outcome>, ghost s: State)
      requires Ran(from, os0, s0) && Tracks(s0) && s0.pc == LogoutWrite
      modifies file
      ensures Ran(from, os, s) && Tracks(s) && s.pc == Done(if ok then Success else Failure)
    {
      ok := file.Write(mem);
      os, s := FollowLogout(from, os0, s0, Answer(ok));
    }

    // -------------------------------------------------------------- refresh

    method RemoveCredentialForUser(user: string, ghost from: State, ghost os0: seq<Outcome>, ghost s0: State)
      returns (ghost os: seq<Outcome>, ghost s: State)
      requires Ran(from, os0, s0) && Tracks(s0) && s0.op.Refresh? && s0.op.user == user && s0.pc == RemoveRecord
      modifies this, keyring, file
      ensures Ran(from, os, s) && Tracks(s) && s.pc == Done(Refreshed(Expired, NO_CREDENTIAL))
    {
      var gone := keyring.DeleteRecord(user);
      os, s := FollowRefresh(from, os0, s0, Answer(gone));
      gone := keyring.DeleteToken(user);
      mem := mem.ForgetUserToken(user);
      os, s := FollowRefresh(from, os, s, Answer(gone));
      var ok := file.Write(mem);
      os, s := FollowRefresh(from, os, s, Answer(ok));
    }

    method PersistRefreshedCredential(user: string, renewed: Credential, ghost from: State, ghost os0: seq<Outcome>,
                                      ghost s0: State)
      returns (ok: bool, ghost os: seq<Outcome>, ghost s: State)
      requires Ran(from, os0, s0) && Tracks(s0) && s0.op.Refresh? && s0.op.user == user
      requires s0.pc.StoreRenewed? && s0.pc.renewed == renewed
      modifies keyring, file
      ensures Ran(from, os, s) && Tracks(s)
      ensures s.pc == Done(if ok then Refreshed(Renewed, renewed) else Refreshed(Failed, s0.pc.current))
    {
      ok := keyring.SetRecord(user, renewed);
      os, s := FollowRefresh(from, os0, s0, Answer(ok));
      if !ok { return; }
      ok := file.Write(mem);
      os, s := FollowRefresh(from, os, s, Answer(ok));
    }

    /** Renews `credential`, which the caller has resolved, if it is about to expire. */
    method RefreshCredentialForUser(user: string, credential: Credential)
      returns (result: Credential, status: Status, now: int, entered: bool, lockHeld: bool, ghost os: seq<Outcome>)
      modifies this, keyring, file
      ensures !entered <==> !AccessTokenNeedsRefresh(credential, now)
      ensures !entered ==>
                status == Unnecessary && result == credential && mem == old(mem) && Contents() == old(Contents())
      ensures entered ==>
                Ran(old(Start(Refresh(user, credential), lockHeld, mem, Contents())), os,
                    State(Refresh(user, credential), lockHeld, Done(Refreshed(status, result)), mem, Contents()))
      ensures entered ==>
                Reported(Refreshed(status, result), old(Contents()), user, os) &&
                match status
                case Renewed =>
                  Contents() == old(Contents()).(records := old(keyring.records)[user := result]) && Whole(result) &&
                  |os| >= 6 && os[3].reply.Granted? && Records(result, os[3].reply.token, os[2].now)
                case Unnecessary => Contents() == old(Contents()) && result == keyring.records[user]
                case Expired =>
                  result == NO_CREDENTIAL && OnlyRemoved(Contents(), old(Contents()), user) &&
                  (!lockHeld ==> Contents() == old(Contents()))
                case Failed =>
                  Contents() == old(Contents()) ||
                  WriteFailed(old(Start(Refresh(user, credential), lockHeld, mem, Contents())), os, user)
    {
      result, status, entered, lockHeld, os := credential, Unnecessary, false, false, [];
      now := Now();
      if !AccessTokenNeedsRefresh(credential, now) { return; }

      ghost var from, s;
      var loaded;
      lockHeld, loaded, from, os, s := Enter(Refresh(user, credential));
      entered, status := true, Failed;
      if loaded { result, status, os, s := RefreshBody(user, credential, lockHeld, from, os, s); }
      RefreshTruthful(user, credential, lockHeld, from.mem, from.store, os);
      if status == Renewed { RenewalRecorded(user, credential, lockHeld, from.mem, from.store, os); }
    }

    method RefreshBody(user: string, given: Credential, lockHeld: bool, ghost from: State, ghost os0: seq<Outcome>,
                       ghost s0: State)
      returns (result: Credential, status: Status, ghost os: seq<Outcome>, ghost s: State)
      requires Ran(from, os0, s0) && Tracks(s0) && s0.op == Refresh(user, given) && s0.pc == ReadRecord
      requires s0.lockHeld == lockHeld
      modifies this, keyring, file
      ensures Ran(from, os, s) && Tracks(s) && s.pc == Done(Refreshed(status, result))
    {
      result, status := given, Failed;
      var readable, record := keyring.GetRecord(user);
      var now := Now();
      os, s := FollowRefresh(from, os0, s0, Outcome(readable, now, Unreachable));
      if record.None? || !ValidCredential(record.value) { return; }
      var current := record.value;
      if !AccessTokenNeedsRefresh(current, now) { return current, Unnecessary, os, s; }

      var requestedAt := Now();
      os, s := FollowRefresh(from, os, s, Outcome(true, requestedAt, Unreachable));
      var reply := AskTokenEndpoint(current.refreshToken);
      os, s := FollowRefresh(from, os, s, Outcome(true, requestedAt, reply));
      result := current;
      match reply {
        case Unreachable =>
        case Rejected =>
          result, status := NO_CREDENTIAL, Expired;
          if lockHeld { os, s := RemoveCredentialForUser(user, from, os, s); }
        case Granted(token) =>
          var renewed := CredentialFromAccessToken(token, requestedAt);
          if !ValidCredential(renewed) { return; }
          var stored;
          stored, os, s := PersistRefreshedCredential(user, renewed, from, os, s);
          if stored { result, status := renewed, Renewed; }
      }
    }

    // -------------------------------------------------------------- resolution and switching

    /** The credential of a user; a keyring failure is not the same as finding none. As a part of a switch it is one of
        its steps. */
    method ResolveUser(user: string, ghost switching: bool, ghost from: State, ghost os0: seq<Outcome>, ghost s0: State)
      returns (ok: bool, credential: Option<Credential>, ghost os: seq<Outcome>, ghost s: State)
      requires switching ==> Ran(from, os0, s0) && Tracks(s0) && s0.op.SwitchUser? && s0.pc == PreviousToken(user)
      ensures ok && (credential.Some? || user !in keyring.records) ==> credential == TokenForUser(Contents(), user)
      ensures ok && credential.None? ==> user !in keyring.tokens && user !in keyring.records
      ensures !ok ==> credential == None
      ensures switching ==>
                Ran(from, os, s) && Tracks(s) &&
                s.pc == if credential.Some? then ClearActive(ForSwitch(s0.op.user, user))
                        else if ok then PreviousActive(user) else Done(Failure)
    {
      credential, os, s := None, os0, s0;
      var token, record;
      ok, token := keyring.GetToken(user);
      if switching { os, s := FollowSwitch(from, os, s, Answer(ok)); }
      if !ok { return; }
      if token.Some? { return true, Some(Credential(token.value, "", 0, 0, None, None)), os, s; }
      ok, record := keyring.GetRecord(user);
      if switching { os, s := FollowSwitch(from, os, s, Answer(ok)); }
      if record.Some? {
        ok := ValidCredential(record.value);
        if ok { credential := record; }
      }
    }

    /** The active credential, for which a user need not be configured. A switch, which needs one, begins with this. */
    method ActiveCredential(ghost switching: bool, ghost from: State, ghost os0: seq<Outcome>, ghost s0: State)
      returns (ok: bool, credential: Option<Credential>, ghost os: seq<Outcome>, ghost s: State)
      requires switching ==>
                 Ran(from, os0, s0) && Tracks(s0) && s0.op.SwitchUser? && s0.pc == SwitchStart && mem.user.Some?
      ensures credential == if ok then ActiveToken(Contents(), mem) else None
      ensures switching ==>
                Ran(from, os, s) && Tracks(s) &&
                s.pc == if credential.Some? then ClearActive(ForSwitch(s0.op.user, mem.user.value)) else Done(Failure)
    {
      os, s := os0, s0;
      if switching { os, s := FollowSwitch(from, os, s, Answer(true)); }
      if mem.user.Some? && mem.user.value != "" {
        ok, credential, os, s := ResolveUser(mem.user.value, switching, from, os, s);
        if !ok || credential.Some? { return; }
      }
      var token;
      ok, token := keyring.GetToken(ACTIVE);
      if switching { os, s := FollowSwitch(from, os, s, Answer(ok)); }
      credential := if token.Some? then Some(Credential(token.value, "", 0, 0, None, None)) else None;
    }

    /** Switches the active user, undoing a failed switch. The switch takes no lock and does not reload. */
    method SwitchUser(user: string) returns (ok: bool, ghost os: seq<Outcome>)
      modifies this, keyring, file
      ensures Ran(old(Start(Operation.SwitchUser(user), false, mem, Contents())), os,
                  State(Operation.SwitchUser(user), false, Done(if ok then Success else Failure), mem, Contents()))
      ensures ok ==> file.contents == mem && mem.user == Some(user)
      ensures !ok ==> file.contents == old(file.contents) && mem.user == old(mem.user)
      ensures keyring.records == old(keyring.records) && keyring.tokens - {ACTIVE} == old(keyring.tokens) - {ACTIVE}
    {
      ghost var from := Start(Operation.SwitchUser(user), false, mem, Contents());
      ghost var s := from;
      os := [];
      if mem.user.None? {
        os, s := FollowSwitch(from, os, s, Answer(true));
        return false, os;
      }
      var previous := mem.user.value;
      var credential;
      ok, credential, os, s := ActiveCredential(true, from, os, s);
      if credential.None? {
        SwitchExec(from, os);
        return false, os;
      }
      ok, os, s := ActivateUser(user, ForSwitch(user, previous), from, os, s);
      if !ok {
        var found;
        found, os, s := SetActiveCredential(previous, ForUndo(previous), from, os, s);
        mem := mem.Activate(previous);
      }
      SwitchExec(from, os);
    }
  }
}
