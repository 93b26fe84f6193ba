/** The rooted file system. Every call on it can fail, and other programs may change the tree between any two calls.
    The log of calls that succeeded is ghost state: it says what a result was based on. */
module RootedDirectories {
  import opened Strings
  import opened RootedPaths

  type Handle = nat

  datatype Fault =
    | NotExist | Exist | SymbolicLink | NotDirectory | Changed | IsDirectory | NamedPipe | Traversal | TrailingSeparator
    | Failed

  datatype Result<+T> = Ok(value: T) | Err(fault: Fault)

  /** What the system says about a directory entry or an open handle. A reparse point is a link of Windows. */
  datatype Entry = Entry(identity: int, link: bool, reparse: bool, directory: bool, pipe: bool, regular: bool)

  predicate Redirects(e: Entry) { e.link || e.reparse }

  datatype Event =
    | Looked(parent: Handle, name: string, entry: Entry)
    | Opened(parent: Handle, name: string, handle: Handle)
    | Examined(handle: Handle, entry: Entry)
    | Made(parent: Handle, name: string)
    | Created(parent: Handle, name: string, handle: Handle)
    | Removed(parent: Handle, name: string)
    | Truncated(handle: Handle)

  /** The operating system. Every call needs its handles open, so that the proofs rule out use after close and double
      close; closing releases the handle even when it reports an error. `failures` counts the calls that failed. */
  class FileSystem {
    var open: set<Handle>
    var next: Handle
    const nonblocking: bool
    ghost var log: seq<Event>
    ghost var failures: nat

    constructor (nonblocking: bool)
      ensures Valid() && open == {} && log == [] && this.nonblocking == nonblocking
    {
      this.nonblocking, open, next, log, failures := nonblocking, {}, 0, [], 0;
    }

    predicate Valid()
      reads this
    {
      forall h :: h in open ==> h < next
    }

    /** A call whose success is all that matters. */
    method Ask() returns (r: Result<()>)
      modifies this`failures
      ensures failures == old(failures) + if r.Ok? then 0 else 1
    {
      var ok, fault := *, *;
      r := if ok then Ok(()) else Err(fault);
      failures := failures + if ok then 0 else 1;
    }

    method Look(parent: Handle, name: string) returns (r: Result<Entry>)
      requires Valid() && parent in open
      modifies this`log, this`failures
      ensures log == old(log) + if r.Ok? then [Looked(parent, name, r.value)] else []
      ensures failures == old(failures) + if r.Ok? then 0 else 1
    {
      r := *;
      log := log + if r.Ok? then [Looked(parent, name, r.value)] else [];
      failures := failures + if r.Ok? then 0 else 1;
    }

    method ReadLink(parent: Handle, name: string) returns (r: Result<()>)
      requires Valid() && parent in open
      modifies this`failures
      ensures failures == old(failures) + if r.Ok? then 0 else 1
    {
      r := Ask();
    }

    /** Where a redirect leads; this call does follow it. */
    method LookThrough(parent: Handle, name: string) returns (r: Result<Entry>)
      requires Valid() && parent in open
      modifies this`failures
      ensures failures == old(failures) + if r.Ok? then 0 else 1
    {
      r := *;
      failures := failures + if r.Ok? then 0 else 1;
    }

    method Examine(handle: Handle) returns (r: Result<Entry>)
      requires Valid() && handle in open
      modifies this`log, this`failures
      ensures log == old(log) + if r.Ok? then [Examined(handle, r.value)] else []
      ensures failures == old(failures) + if r.Ok? then 0 else 1
    {
      r := *;
      log := log + if r.Ok? then [Examined(handle, r.value)] else [];
      failures := failures + if r.Ok? then 0 else 1;
    }

    method Open(parent: Handle, name: string) returns (r: Result<Handle>)
      requires Valid() && parent in open
      modifies this
      ensures Valid()
      ensures r.Ok? ==> r.value !in old(open) && open == old(open) + {r.value} &&
                        log == old(log) + [Opened(parent, name, r.value)]
      ensures r.Err? ==> open == old(open) && log == old(log)
      ensures failures == old(failures) + if r.Ok? then 0 else 1
    {
      var asked := Ask();
      if asked.Err? { return Err(asked.fault); }
      r := Ok(next);
      open, next, log := open + {next}, next + 1, log + [Opened(parent, name, next)];
    }

    /** Creates the file; fails if the name is taken. */
    method OpenNew(parent: Handle, name: string) returns (r: Result<Handle>)
      requires Valid() && parent in open
      modifies this
      ensures Valid()
      ensures r.Ok? ==> r.value !in old(open) && open == old(open) + {r.value} &&
                        log == old(log) + [Created(parent, name, r.value)]
      ensures r.Err? ==> open == old(open) && log == old(log)
      ensures failures == old(failures) + if r.Ok? then 0 else 1
    {
      var asked := Ask();
      if asked.Err? { return Err(asked.fault); }
      r := Ok(next);
      open, next, log := open + {next}, next + 1, log + [Created(parent, name, next)];
    }

    /** Opens a directory by its path from outside any root, creating it when missing. */
    method OpenRoot(path: string) returns (r: Result<Handle>)
      requires Valid()
      modifies this`open, this`next, this`failures
      ensures Valid()
      ensures r.Ok? ==> r.value !in old(open) && open == old(open) + {r.value}
      ensures r.Err? ==> open == old(open)
      ensures failures == old(failures) + if r.Ok? then 0 else 1
    {
      var asked := Ask();
      if asked.Err? { return Err(asked.fault); }
      r := Ok(next);
      open, next := open + {next}, next + 1;
    }

    method Close(handle: Handle) returns (r: Result<()>)
      requires Valid() && handle in open
      modifies this`open, this`failures
      ensures Valid() && open == old(open) - {handle}
      ensures failures == old(failures) + if r.Ok? then 0 else 1
    {
      open := open - {handle};
      r := Ask();
    }

    method MakeDirectory(parent: Handle, name: string) returns (r: Result<()>)
      requires Valid() && parent in open
      modifies this`log, this`failures
      ensures log == old(log) + if r.Ok? then [Made(parent, name)] else []
      ensures failures == old(failures) + if r.Ok? then 0 else 1
    {
      r := Ask();
      log := log + if r.Ok? then [Made(parent, name)] else [];
    }

    method Remove(parent: Handle, name: string) returns (r: Result<()>)
      requires Valid() && parent in open
      modifies this`log, this`failures
      ensures log == old(log) + if r.Ok? then [Removed(parent, name)] else []
      ensures failures == old(failures) + if r.Ok? then 0 else 1
    {
      r := Ask();
      log := log + if r.Ok? then [Removed(parent, name)] else [];
    }

    method Truncate(file: Handle) returns (r: Result<()>)
      requires Valid() && file in open
      modifies this`log, this`failures
      ensures log == old(log) + if r.Ok? then [Truncated(file)] else []
      ensures failures == old(failures) + if r.Ok? then 0 else 1
    {
      r := Ask();
      log := log + if r.Ok? then [Truncated(file)] else [];
    }

    method Use(file: Handle) returns (r: Result<()>)
      requires Valid() && file in open
      modifies this`failures
      ensures failures == old(failures) + if r.Ok? then 0 else 1
    {
      r := Ask();
    }
  }

  // ---------------------------------------------------------------- what a handle stands for

  /** `h` was opened under `name` between two looks at that name, all three seeing the same file, and neither look
      saw a redirect. */
  predicate VerifiedAt(did: seq<Event>, i: nat, j: nat, k: nat, l: nat, parent: Handle, name: string, h: Handle) {
    && i < j < k < l < |did|
    && did[i].Looked? && did[i].parent == parent && did[i].name == name && !Redirects(did[i].entry)
    && did[j] == Opened(parent, name, h)
    && did[k].Examined? && did[k].handle == h && did[k].entry.identity == did[i].entry.identity
    && did[l].Looked? && did[l].parent == parent && did[l].name == name && !Redirects(did[l].entry)
    && did[l].entry.identity == did[i].entry.identity
  }

  ghost predicate Verified(did: seq<Event>, parent: Handle, name: string, h: Handle) {
    exists i, j, k, l :: VerifiedAt(did, i, j, k, l, parent, name, h)
  }

  /** `h` was reached from `root` through the components one by one, each verified under the one before it. */
  ghost predicate Reached(did: seq<Event>, root: Handle, components: seq<string>, h: Handle)
    decreases |components|
  {
    if components == [] then h == root
    else
      var n := |components| - 1;
      exists p :: Reached(did, root, components[..n], p) && Verified(did, p, components[n], h)
  }

  ghost predicate ReachedDirectory(did: seq<Event>, root: Handle, name: string, h: Handle) {
    if name == "." then Verified(did, root, ".", h) else Reached(did, root, Components(Split(name, '/')), h)
  }

  predicate SawRedirect(did: seq<Event>, parent: Handle, name: string) {
    exists i :: 0 <= i < |did| && did[i].Looked? && did[i].parent == parent && did[i].name == name &&
                Redirects(did[i].entry)
  }

  /** The name does not stand for one and the same file throughout. */
  predicate ChangedAt(did: seq<Event>, i: nat, j: nat, k: nat) {
    && i < |did| && j < |did| && k < |did|
    && did[i].Looked? && did[j].Opened? && did[j].parent == did[i].parent && did[j].name == did[i].name
    && (did[k].Looked? || did[k].Examined?) && did[k].entry.identity != did[i].entry.identity
    && (did[k].Looked? ==> did[k].parent == did[i].parent && did[k].name == did[i].name)
    && (did[k].Examined? ==> did[k].handle == did[j].handle)
  }

  ghost predicate SawChange(did: seq<Event>) {
    exists i, j, k :: ChangedAt(did, i, j, k)
  }

  predicate Blocks(e: Event) {
    e.Looked? && (Redirects(e.entry) || !e.entry.directory)
  }

  /** On the way down a redirect, something other than a directory, or a name changing hands was seen. */
  ghost predicate Obstructed(did: seq<Event>) {
    (exists i :: 0 <= i < |did| && Blocks(did[i])) || SawChange(did)
  }

  lemma ObstructedWithin(a: seq<Event>, did: seq<Event>, b: seq<Event>)
    requires Obstructed(did)
    ensures Obstructed(a + did + b)
  {
    var all, n := a + did + b, |a|;
    if i :| 0 <= i < |did| && Blocks(did[i]) {
      assert all[n + i] == did[i];
    } else {
      var i: nat, j: nat, k: nat :| ChangedAt(did, i, j, k);
      assert all[n + i] == did[i] && all[n + j] == did[j] && all[n + k] == did[k];
      assert ChangedAt(all, n + i, n + j, n + k);
    }
  }

  /** A second look that disagrees with the first. */
  predicate Contradicts(e: Event, before: Entry) {
    (e.Examined? && e.entry.identity != before.identity) ||
    (e.Looked? && (Redirects(e.entry) || e.entry.identity != before.identity))
  }

  lemma ContradictionShows(so: seq<Event>, more: seq<Event>, i: nat, parent: Handle, name: string, before: Entry,
                           h: Handle)
    requires so == [Looked(parent, name, before), Opened(parent, name, h)]
    requires forall e :: e in more ==>
               (e.Examined? && e.handle == h) || (e.Looked? && e.parent == parent && e.name == name)
    requires i < |more| && Contradicts(more[i], before)
    ensures Obstructed(so + more) && Unfit(so + more, parent, name)
  {
    var did := so + more;
    assert did[0] == so[0] && did[1] == so[1] && did[2 + i] == more[i] && more[i] in more;
    if more[i].entry.identity != before.identity {
      assert ChangedAt(did, 0, 1, 2 + i);
    } else {
      assert Blocks(did[2 + i]);
    }
  }

  /** What makes a file unfit to be opened for replacement under `name`. */
  ghost predicate Unfit(did: seq<Event>, parent: Handle, name: string) {
    SawRedirect(did, parent, name) || SawChange(did) ||
    exists i :: 0 <= i < |did| && did[i].Looked? && did[i].parent == parent && did[i].name == name &&
                (did[i].entry.directory || did[i].entry.pipe)
  }

  lemma UnfitWithin(a: seq<Event>, did: seq<Event>, b: seq<Event>, parent: Handle, name: string)
    requires Unfit(did, parent, name)
    ensures Unfit(a + did + b, parent, name)
  {
    var all, n := a + did + b, |a|;
    assert forall i :: 0 <= i < |did| ==> all[n + i] == did[i];
    if SawChange(did) {
      var i: nat, j: nat, k: nat :| ChangedAt(did, i, j, k);
      assert all[n + i] == did[i] && all[n + j] == did[j] && all[n + k] == did[k];
      assert ChangedAt(all, n + i, n + j, n + k);
    } else {
      var i :| 0 <= i < |did| && did[i].Looked? && did[i].parent == parent && did[i].name == name &&
               (did[i].entry.directory || did[i].entry.pipe || Redirects(did[i].entry));
      assert all[n + i] == did[i];
    }
  }

  /** The way down was obstructed, or the existing file under the name cannot be replaced. */
  ghost predicate Prevented(did: seq<Event>, base: string, replace: bool) {
    Obstructed(did) || (replace && exists parent :: Unfit(did, parent, base))
  }

  /** Only looks, opened handles and new directories. */
  predicate Harmless(did: seq<Event>) {
    forall e :: e in did ==> e.Looked? || e.Opened? || e.Examined? || e.Made?
  }

  lemma VerifiedWithin(a: seq<Event>, did: seq<Event>, b: seq<Event>,
                                          parent: Handle, name: string, h: Handle)
    requires Verified(did, parent, name, h)
    ensures Verified(a + did + b, parent, name, h)
  {
    var i: nat, j: nat, k: nat, l: nat :| VerifiedAt(did, i, j, k, l, parent, name, h);
    var all, n := a + did + b, |a|;
    assert all[n + i] == did[i] && all[n + j] == did[j] && all[n + k] == did[k] && all[n + l] == did[l];
    assert VerifiedAt(all, n + i, n + j, n + k, n + l, parent, name, h);
  }

  lemma VerifiedLater(did: seq<Event>, b: seq<Event>, parent: Handle, name: string, h: Handle)
    requires Verified(did, parent, name, h)
    ensures Verified(did + b, parent, name, h)
  {
    VerifiedWithin([], did, b, parent, name, h);
    assert [] + did + b == did + b;
  }

  lemma {:induction false} ReachedLater(did: seq<Event>, b: seq<Event>, root: Handle, components: seq<string>,
                                        h: Handle)
    requires Reached(did, root, components, h)
    ensures Reached(did + b, root, components, h)
    decreases |components|
  {
    if components != [] {
      var n := |components| - 1;
      var p :| Reached(did, root, components[..n], p) && Verified(did, p, components[n], h);
      ReachedLater(did, b, root, components[..n], p);
      VerifiedLater(did, b, p, components[n], h);
    }
  }

  lemma ReachedNext(did: seq<Event>, more: seq<Event>, root: Handle, components: seq<string>,
                                       p: Handle, component: string, h: Handle)
    requires Reached(did, root, components, p) && Verified(more, p, component, h)
    ensures Reached(did + more, root, components + [component], h)
  {
    ReachedLater(did, more, root, components, p);
    VerifiedWithin(did, more, [], p, component, h);
    assert did + more + [] == did + more;
    assert (components + [component])[..|components|] == components;
  }

  lemma ReachedDirectoryLater(did: seq<Event>, b: seq<Event>, root: Handle, name: string, h: Handle)
    requires ReachedDirectory(did, root, name, h)
    ensures ReachedDirectory(did + b, root, name, h)
  {
    if name == "." {
      VerifiedLater(did, b, root, ".", h);
    } else {
      ReachedLater(did, b, root, Components(Split(name, '/')), h);
    }
  }

  /** What may happen to existing files: none is emptied unless it was verified as `base` under `parent`, nothing is
      removed but `base` itself after a look that saw a redirect there, nothing is created but `base`; and nothing is
      emptied or removed unless a replacement was asked for. */
  ghost predicate Careful(did: seq<Event>, parent: Handle, base: string, replace: bool) {
    && (forall e :: e in did && e.Truncated? ==> replace && Verified(did, parent, base, e.handle))
    && (forall e :: e in did && e.Removed? ==> replace && e == Removed(parent, base) && SawRedirect(did, parent, base))
    && (forall e :: e in did && e.Created? ==> e.parent == parent && e.name == base)
  }

  /** `file` is a new file `base` under `parent`, or the verified existing one if replacement was asked for. */
  ghost predicate Holds(did: seq<Event>, parent: Handle, base: string, replace: bool, file: Handle) {
    Created(parent, base, file) in did || (replace && Verified(did, parent, base, file))
  }

  /** The calls found the file's directory by verified steps, were careful there, and the result is that file. */
  ghost predicate Placed(did: seq<Event>, root: Handle, path: string, replace: bool, r: Result<Handle>) {
    exists parent :: ReachedDirectory(did, root, Dir(path), parent) && Careful(did, parent, Base(path), replace) &&
                     (r.Ok? ==> Holds(did, parent, Base(path), replace, r.value))
  }

  lemma CreatedBelow(there: seq<Event>, here: seq<Event>, root: Handle, path: string, parent: Handle,
                                        replace: bool, r: Result<Handle>)
    requires Harmless(there) && ReachedDirectory(there, root, Dir(path), parent)
    requires Careful(here, parent, Base(path), replace)
    requires r.Ok? ==> Holds(here, parent, Base(path), replace, r.value)
    ensures Placed(there + here, root, path, replace, r)
  {
    ReachedDirectoryLater(there, here, root, Dir(path), parent);
    CarefulAfter(there, here, parent, Base(path), replace);
    if r.Ok? && Created(parent, Base(path), r.value) !in here {
      VerifiedWithin(there, here, [], parent, Base(path), r.value);
      assert there + here + [] == there + here;
    }
  }

  lemma CarefulReplacement(looked: seq<Event>, did: seq<Event>, parent: Handle, base: string)
    requires forall e :: e in looked ==> e.Looked?
    requires forall e :: e in did && e.Truncated? ==> Verified(did, parent, base, e.handle)
    requires forall e :: e in did ==> !e.Removed? && !e.Created?
    ensures Careful(looked + did, parent, base, true)
  {
    assert looked + did + [] == looked + did;
    forall e | e in did && e.Truncated?
      ensures Verified(looked + did, parent, base, e.handle)
    {
      VerifiedWithin(looked, did, [], parent, base, e.handle);
    }
  }

  lemma CarefulAfter(there: seq<Event>, here: seq<Event>, parent: Handle, base: string,
                                        replace: bool)
    requires Harmless(there) && Careful(here, parent, base, replace)
    ensures Careful(there + here, parent, base, replace)
  {
    var did := there + here;
    assert there + here + [] == did;
    forall e | e in did && e.Truncated?
      ensures replace && Verified(did, parent, base, e.handle)
    {
      VerifiedWithin(there, here, [], parent, base, e.handle);
    }
    if SawRedirect(here, parent, base) {
      var i :| 0 <= i < |here| && here[i].Looked? && here[i].parent == parent && here[i].name == base &&
               Redirects(here[i].entry);
      assert did[|there| + i] == here[i];
    }
  }

  function Dir(path: string): string {
    var parts := Split(path, '/');
    if |parts| == 1 then "." else Join(parts[..|parts| - 1], "/")
  }

  function Base(path: string): string {
    var parts := Split(path, '/');
    parts[|parts| - 1]
  }

  /** The directory and the name of a descending path: the directory descends too and the name is a real one. */
  lemma DirDescends(path: string)
    requires Descends(path) && path != "."
    ensures Dir(path) == "." || Components(Split(Dir(path), '/')) != []
    ensures Real(Base(path)) && Base(path) != ".."
  {
    var parts := Split(path, '/');
    if |parts| > 1 {
      SplitJoin(parts[..|parts| - 1], '/');
      assert Split(Dir(path), '/')[0] == parts[0];
    }
  }

  predicate EndsInSeparator(path: string) {
    path != "" && path[|path| - 1] == '/'
  }

  /** Names that no file below the root can have. */
  predicate BadFileName(name: string) {
    EndsInSeparator(name) || !IsLocal(Clean(name)) || Clean(name) == "."
  }

  function LocalPath(name: string): Result<string> {
    if IsLocal(Clean(name)) then Ok(Clean(name)) else Err(Traversal)
  }

  // ---------------------------------------------------------------- the rooted operations

  class Root {
    const fs: FileSystem
    const handle: Handle

    constructor (fs: FileSystem, handle: Handle)
      ensures this.fs == fs && this.handle == handle
    {
      this.fs, this.handle := fs, handle;
    }

    method IsPathRedirect(parent: Handle, name: string, entry: Entry) returns (r: Result<bool>)
      requires fs.Valid() && parent in fs.open
      modifies fs`failures
      ensures r.Ok? ==> r.value == Redirects(entry)
      ensures fs.failures == old(fs.failures) + if r.Ok? then 0 else 1
    {
      if entry.link { return Ok(true); }
      if !entry.reparse { return Ok(false); }
      var read := fs.ReadLink(parent, name);
      r := if read.Err? then Err(read.fault) else Ok(true);
    }

    /** Looks again once `h` is open, and closes it unless the name still stands for the file that was seen before. */
    method Confirm(parent: Handle, name: string, before: Entry, h: Handle, file: bool)
      returns (r: Result<()>, ghost did: seq<Event>)
      requires fs.Valid() && parent in fs.open && h in fs.open && parent != h
      modifies fs
      ensures fs.Valid() && fs.log == old(fs.log) + did && fs.failures >= old(fs.failures)
      ensures fs.open == if r.Ok? then old(fs.open) else old(fs.open) - {h}
      ensures r.Ok? ==>
                |did| == 2 && did[0].Examined? && did[0].handle == h && did[0].entry.identity == before.identity &&
                did[1].Looked? && did[1].parent == parent && did[1].name == name &&
                did[1].entry.identity == before.identity && !Redirects(did[1].entry)
      ensures forall e :: e in did ==>
                (e.Examined? && e.handle == h) || (e.Looked? && e.parent == parent && e.name == name)
      ensures r.Err? ==> fs.failures > old(fs.failures) ||
                         exists i :: 0 <= i < |did| && Contradicts(did[i], before)
    {
      did := [];
      var examined := fs.Examine(h);
      if examined.Err? {
        var _ := fs.Close(h);
        return Err(examined.fault), did;
      }
      did := did + [Examined(h, examined.value)];
      var after := fs.Look(parent, name);
      if after.Err? {
        var _ := fs.Close(h);
        return Err(after.fault), did;
      }
      did := did + [Looked(parent, name, after.value)];
      assert did[0] == Examined(h, examined.value) && did[1] == Looked(parent, name, after.value);
      var redirect := IsPathRedirect(parent, name, after.value);
      if redirect.Err? {
        var _ := fs.Close(h);
        return Err(redirect.fault), did;
      }
      if redirect.value {
        var _ := fs.Close(h);
        return Err(SymbolicLink), did;
      }
      if before.identity != examined.value.identity || before.identity != after.value.identity {
        var _ := fs.Close(h);
        return Err(Changed), did;
      }
      if file && fs.nonblocking {
        r := fs.Use(h);
        if r.Err? { var _ := fs.Close(h); }
        return;
      }
      r := Ok(());
    }

    /** On success the handle is verified; on every failure whatever was opened is closed again. */
    method OpenVerified(parent: Handle, name: string, file: bool) returns (r: Result<Handle>, ghost did: seq<Event>)
      requires fs.Valid() && parent in fs.open
      modifies fs
      ensures fs.Valid() && fs.log == old(fs.log) + did && Harmless(did)
      ensures r.Err? ==> fs.open == old(fs.open)
      ensures r.Ok? ==> r.value !in old(fs.open) && fs.open == old(fs.open) + {r.value} &&
                        Verified(did, parent, name, r.value)
      ensures fs.failures >= old(fs.failures)
      ensures r.Err? ==> fs.failures > old(fs.failures) ||
                         if file then Unfit(did, parent, name) else Obstructed(did)
    {
      did := [];
      var before := fs.Look(parent, name);
      if before.Err? { return Err(before.fault), did; }
      did := [Looked(parent, name, before.value)];
      assert did[0] == Looked(parent, name, before.value);
      var redirect := IsPathRedirect(parent, name, before.value);
      if redirect.Err? { return Err(redirect.fault), did; }
      if redirect.value { return Err(SymbolicLink), did; }
      if file && before.value.pipe { return Err(NamedPipe), did; }

      var acquired := fs.Open(parent, name);
      if acquired.Err? { return Err(acquired.fault), did; }
      var h := acquired.value;
      ghost var so := [Looked(parent, name, before.value), Opened(parent, name, h)];
      ghost var more;
      var confirmed;
      assert fs.log == old(fs.log) + so;
      confirmed, more := Confirm(parent, name, before.value, h, file);
      did := so + more;
      Associate(old(fs.log), so, more);
      if confirmed.Err? {
        if i: nat :| i < |more| && Contradicts(more[i], before.value) {
          ContradictionShows(so, more, i, parent, name, before.value, h);
        }
        return Err(confirmed.fault), did;
      }
      assert did[0] == so[0] && did[1] == so[1] && did[2] == more[0] && did[3] == more[1];
      assert VerifiedAt(did, 0, 1, 2, 3, parent, name, h);
      r := Ok(h);
    }

    /** What is found under the name, where a directory is made if nothing is. */
    method LookOrMake(parent: Handle, component: string) returns (info: Result<Entry>, ghost did: seq<Event>)
      requires fs.Valid() && parent in fs.open
      modifies fs
      ensures fs.Valid() && fs.log == old(fs.log) + did && Harmless(did) && fs.open == old(fs.open)
      ensures info.Ok? ==> did != [] && did[|did| - 1] == Looked(parent, component, info.value)
      ensures fs.failures >= old(fs.failures) && (info.Err? ==> fs.failures > old(fs.failures))
    {
      did := [];
      info := fs.Look(parent, component);
      if info.Ok? { did := did + [Looked(parent, component, info.value)]; }
      if info == Err(NotExist) {
        var made := fs.MakeDirectory(parent, component);
        if made.Ok? { did := did + [Made(parent, component)]; }
        if made.Err? && made.fault != Exist { return Err(made.fault), did; }
        info := fs.Look(parent, component);
        if info.Ok? { did := did + [Looked(parent, component, info.value)]; }
      }
    }

    /** Descends one component below `parent`, creating the directory if it is missing. */
    method Descend(parent: Handle, component: string) returns (r: Result<Handle>, ghost did: seq<Event>)
      requires fs.Valid() && parent in fs.open
      modifies fs
      ensures fs.Valid() && fs.log == old(fs.log) + did && Harmless(did)
      ensures r.Err? ==> fs.open == old(fs.open)
      ensures r.Ok? ==> r.value !in old(fs.open) && fs.open == old(fs.open) + {r.value} &&
                        Verified(did, parent, component, r.value)
      ensures fs.failures >= old(fs.failures)
      ensures r.Err? ==> fs.failures > old(fs.failures) || Obstructed(did)
    {
      var info;
      info, did := LookOrMake(parent, component);
      if info.Err? { return Err(info.fault), did; }
      var redirect := IsPathRedirect(parent, component, info.value);
      if redirect.Err? { return Err(redirect.fault), did; }
      assert did[|did| - 1] == Looked(parent, component, info.value);
      if redirect.value { return Err(SymbolicLink), did; }
      if !info.value.directory { return Err(NotDirectory), did; }
      ghost var more;
      ghost var so := did;
      r, more := OpenVerified(parent, component, false);
      did := so + more;
      Associate(old(fs.log), so, more);
      assert so + more + [] == did;
      if r.Ok? {
        VerifiedWithin(so, more, [], parent, component, r.value);
      } else if Obstructed(more) {
        ObstructedWithin(so, more, []);
      }
    }

    /** Moves on from `parent` to a component below it. An owned `parent` is closed, whatever happens. */
    method Advance(parent: Handle, parentOwned: bool, component: string)
      returns (r: Result<Handle>, ghost did: seq<Event>)
      requires fs.Valid() && parent in fs.open
      modifies fs
      ensures fs.Valid() && fs.log == old(fs.log) + did && Harmless(did)
      ensures r.Err? ==> fs.open == old(fs.open) - if parentOwned then {parent} else {}
      ensures r.Ok? ==> r.value !in old(fs.open) && Verified(did, parent, component, r.value) &&
                        fs.open == old(fs.open) - (if parentOwned then {parent} else {}) + {r.value}
      ensures fs.failures >= old(fs.failures)
      ensures r.Err? ==> fs.failures > old(fs.failures) || Obstructed(did)
    {
      r, did := Descend(parent, component);
      if r.Err? {
        if parentOwned { var _ := fs.Close(parent); }
        return;
      }
      if parentOwned {
        var closed := fs.Close(parent);
        if closed.Err? {
          var _ := fs.Close(r.value);
          return Err(closed.fault), did;
        }
      }
    }

    /** Whatever call fails, every handle opened on the way is closed again, except the one returned. The result is a
        handle of its own unless the name has no component at all, and it was reached through the name's components
        in order, each of them verified. */
    method OpenDirectories(name: string) returns (r: Result<Handle>, ghost did: seq<Event>)
      requires fs.Valid() && handle in fs.open
      modifies fs
      ensures fs.Valid() && fs.log == old(fs.log) + did && Harmless(did)
      ensures r.Err? ==> fs.open == old(fs.open)
      ensures r.Ok? ==> ReachedDirectory(did, handle, name, r.value)
      ensures r.Ok? && (name == "." || Components(Split(name, '/')) != []) ==>
                r.value !in old(fs.open) && fs.open == old(fs.open) + {r.value}
      ensures r.Ok? && name != "." && Components(Split(name, '/')) == [] ==>
                r.value == handle && fs.open == old(fs.open)
      ensures fs.failures >= old(fs.failures)
      ensures r.Err? ==> fs.failures > old(fs.failures) || Obstructed(did)
    {
      if name == "." {
        r, did := OpenVerified(handle, ".", false);
      } else {
        r, did := Walk(Split(name, '/'));
      }
    }

    /** The loop over the parts of a name. */
    method Walk(parts: seq<string>) returns (r: Result<Handle>, ghost did: seq<Event>)
      requires fs.Valid() && handle in fs.open
      modifies fs
      ensures fs.Valid() && fs.log == old(fs.log) + did && Harmless(did)
      ensures r.Err? ==> fs.open == old(fs.open)
      ensures r.Ok? ==> Reached(did, handle, Components(parts), r.value)
      ensures r.Ok? && Components(parts) != [] ==>
                r.value !in old(fs.open) && fs.open == old(fs.open) + {r.value}
      ensures r.Ok? && Components(parts) == [] ==> r.value == handle && fs.open == old(fs.open)
      ensures fs.failures >= old(fs.failures)
      ensures r.Err? ==> fs.failures > old(fs.failures) || Obstructed(did)
    {
      did := [];
      var parent, parentOwned := handle, false;
      ghost var components: seq<string> := [];
      var i := 0;
      while i < |parts|
        invariant 0 <= i <= |parts| && components == Components(parts[..i])
        invariant fs.Valid() && fs.log == old(fs.log) + did && Harmless(did)
        invariant parentOwned == (components != [])
        invariant parentOwned ==> parent !in old(fs.open)
        invariant parent in fs.open && fs.open == old(fs.open) + if parentOwned then {parent} else {}
        invariant Reached(did, handle, components, parent) && fs.failures >= old(fs.failures)
      {
        var component := parts[i];
        ComponentsSnoc(parts, i);
        i := i + 1;
        if component == "" || component == "." { continue; }
        var next;
        ghost var more;
        next, more := WalkOn(did, components, parent, parentOwned, component);
        Associate(old(fs.log), did, more);
        did := did + more;
        if next.Err? { return Err(next.fault), did; }
        components := components + [component];
        parent, parentOwned := next.value, true;
      }
      assert parts[..i] == parts;
      r := Ok(parent);
    }

    /** One component further on the way that `did` tells of. */
    method WalkOn(ghost did: seq<Event>, ghost components: seq<string>, parent: Handle, parentOwned: bool,
                  component: string)
      returns (r: Result<Handle>, ghost more: seq<Event>)
      requires fs.Valid() && parent in fs.open && Harmless(did) && Reached(did, handle, components, parent)
      modifies fs
      ensures fs.Valid() && fs.log == old(fs.log) + more && Harmless(did + more)
      ensures r.Err? ==> fs.open == old(fs.open) - if parentOwned then {parent} else {}
      ensures r.Ok? ==> r.value !in old(fs.open) && Reached(did + more, handle, components + [component], r.value) &&
                        fs.open == old(fs.open) - (if parentOwned then {parent} else {}) + {r.value}
      ensures fs.failures >= old(fs.failures)
      ensures r.Err? ==> fs.failures > old(fs.failures) || Obstructed(did + more)
    {
      r, more := Advance(parent, parentOwned, component);
      if r.Ok? {
        ReachedNext(did, more, handle, components, parent, component, r.value);
      } else if Obstructed(more) {
        ObstructedWithin(did, more, []);
        assert did + more + [] == did + more;
      }
    }

    /** A new root of its own, or no handle at all: the two roots can be closed independently. */
    method Sub(name: string) returns (r: Result<Root>, ghost did: seq<Event>)
      requires fs.Valid() && handle in fs.open
      modifies fs
      ensures fs.Valid() && fs.log == old(fs.log) + did && Harmless(did)
      ensures r.Ok? ==> ReachedDirectory(did, handle, Clean(name), r.value.handle)
      ensures r.Err? ==> fs.open == old(fs.open)
      ensures r.Err? ==> !IsLocal(Clean(name)) || fs.failures > old(fs.failures) || Obstructed(did)
      ensures r.Ok? ==> r.value.fs == fs && r.value.handle !in old(fs.open) &&
                        fs.open == old(fs.open) + {r.value.handle} && IsLocal(Clean(name))
    {
      var local := LocalPath(name);
      if local.Err? { return Err(local.fault), []; }
      LocalDescends(name);
      var acquired;
      acquired, did := OpenDirectories(local.value);
      if acquired.Err? { return Err(acquired.fault), did; }
      var root := new Root(fs, acquired.value);
      r := Ok(root);
    }

    /** Whatever the outcome, the same handles are open afterwards, the root's own among them. */
    method MkdirAll(name: string) returns (r: Result<()>, ghost did: seq<Event>)
      requires fs.Valid() && handle in fs.open
      modifies fs
      ensures fs.Valid() && fs.open == old(fs.open) && fs.log == old(fs.log) + did && Harmless(did)
      ensures r.Ok? ==> IsLocal(Clean(name))
      ensures r.Ok? ==> Clean(name) == "." || exists h :: ReachedDirectory(did, handle, Clean(name), h)
      ensures r.Err? ==> !IsLocal(Clean(name)) || fs.failures > old(fs.failures) || Obstructed(did)
    {
      var local := LocalPath(name);
      if local.Err? { return Err(local.fault), []; }
      if local.value == "." { return Ok(()), []; }
      LocalDescends(name);
      var acquired;
      acquired, did := OpenDirectories(local.value);
      if acquired.Err? { return Err(acquired.fault), did; }
      r := fs.Close(acquired.value);
    }

    /** Opens the existing, non-redirect file `base` for replacement, emptying it only once it is verified. */
    method OpenForReplacement(parent: Handle, base: string, entry: Entry)
      returns (r: Result<Handle>, ghost did: seq<Event>)
      requires fs.Valid() && parent in fs.open
      modifies fs
      ensures fs.Valid() && fs.log == old(fs.log) + did && fs.failures >= old(fs.failures)
      ensures r.Err? ==> fs.open == old(fs.open)
      ensures r.Err? ==> fs.failures > old(fs.failures) || entry.directory || entry.pipe || Unfit(did, parent, base)
      ensures r.Ok? ==> r.value !in old(fs.open) && fs.open == old(fs.open) + {r.value} &&
                        Verified(did, parent, base, r.value)
      ensures forall e :: e in did && e.Truncated? ==> Verified(did, parent, base, e.handle)
      ensures forall e :: e in did ==> !e.Removed? && !e.Created?
    {
      did := [];
      if entry.directory { return Err(IsDirectory), did; }
      if entry.pipe { return Err(NamedPipe), did; }
      ghost var verified;
      r, verified := OpenVerified(parent, base, true);
      did := verified;
      if r.Ok? && entry.regular {
        var truncated := fs.Truncate(r.value);
        if truncated.Ok? {
          did := did + [Truncated(r.value)];
          VerifiedLater(verified, [Truncated(r.value)], parent, base, r.value);
        }
        if truncated.Err? {
          var _ := fs.Close(r.value);
          return Err(truncated.fault), did;
        }
        var sought := fs.Use(r.value);
        if sought.Err? {
          var _ := fs.Close(r.value);
          return Err(sought.fault), did;
        }
      }
    }

    /** The last step of `Create`, inside the parent directory that it has opened. */
    method CreateIn(parent: Handle, base: string, replace: bool) returns (r: Result<Handle>, ghost did: seq<Event>)
      requires fs.Valid() && parent in fs.open
      modifies fs
      ensures fs.Valid() && fs.log == old(fs.log) + did
      ensures r.Err? ==> fs.open == old(fs.open)
      ensures r.Ok? ==> r.value !in old(fs.open) && fs.open == old(fs.open) + {r.value}
      ensures r.Ok? ==> Holds(did, parent, base, replace, r.value)
      ensures Careful(did, parent, base, replace)
      ensures fs.failures >= old(fs.failures)
      ensures r.Err? ==> fs.failures > old(fs.failures) || (replace && Unfit(did, parent, base))
    {
      did := [];
      if replace {
        var info := fs.Look(parent, base);
        if info.Ok? {
          ghost var looked := [Looked(parent, base, info.value)];
          did := looked;
          var redirect := IsPathRedirect(parent, base, info.value);
          if redirect.Err? { return Err(redirect.fault), did; }
          assert did[0] == Looked(parent, base, info.value);
          if redirect.value {
            var target := fs.LookThrough(parent, base);
            if target.Err? && target.fault != NotExist { return Err(target.fault), did; }
            if target.Ok? && target.value.directory { return Err(IsDirectory), did; }
            var removed := fs.Remove(parent, base);
            if removed.Err? { return Err(removed.fault), did; }
            did := did + [Removed(parent, base)];
            assert did[0] == Looked(parent, base, info.value) && Redirects(did[0].entry);
          } else {
            ghost var more;
            r, more := OpenForReplacement(parent, base, info.value);
            did := looked + more;
            Associate(old(fs.log), looked, more);
            CarefulReplacement(looked, more, parent, base);
            assert looked + more + [] == did;
            assert did[0] == Looked(parent, base, info.value);
            if r.Ok? {
              VerifiedWithin(looked, more, [], parent, base, r.value);
            } else if Unfit(more, parent, base) {
              UnfitWithin(looked, more, [], parent, base);
            }
            return;
          }
        } else if info.fault != NotExist {
          return Err(info.fault), did;
        }
      }
      ghost var so := did;
      r := fs.OpenNew(parent, base);
      if r.Ok? {
        did := so + [Created(parent, base, r.value)];
        assert did[|so|] == Created(parent, base, r.value);
        assert so != [] ==> did[0] == so[0];
      }
    }

    method CreateBelow(path: string, replace: bool) returns (r: Result<Handle>, ghost did: seq<Event>)
      requires fs.Valid() && handle in fs.open
      requires Descends(path) && path != "."
      modifies fs
      ensures fs.Valid() && fs.log == old(fs.log) + did
      ensures r.Err? ==> fs.open == old(fs.open)
      ensures r.Ok? ==> r.value !in old(fs.open) && fs.open == old(fs.open) + {r.value}
      ensures (r.Err? && Harmless(did)) || Placed(did, handle, path, replace, r)
      ensures fs.failures >= old(fs.failures)
      ensures r.Err? ==> fs.failures > old(fs.failures) || Prevented(did, Base(path), replace)
    {
      DirDescends(path);
      var acquired;
      ghost var there, here;
      acquired, there := OpenDirectories(Dir(path));
      if acquired.Err? { return Err(acquired.fault), there; }
      var parent := acquired.value;
      r, here := CreateIn(parent, Base(path), replace);
      did := there + here;
      Associate(old(fs.log), there, here);
      CreatedBelow(there, here, handle, path, parent, replace, r);
      if r.Err? && Unfit(here, parent, Base(path)) {
        UnfitWithin(there, here, [], parent, Base(path));
        assert there + here + [] == did;
      }
      var _ := fs.Close(parent);
    }

    /** Creates or replaces a file below the root. On success exactly one handle is new, on failure none; without
        `replace` nothing existing is touched; with it, a file is emptied only once verified and only a redirect is
        removed. */
    method Create(name: string, replace: bool) returns (r: Result<Handle>, ghost did: seq<Event>)
      requires fs.Valid() && handle in fs.open
      modifies fs
      ensures fs.Valid() && fs.log == old(fs.log) + did
      ensures r.Err? ==> fs.open == old(fs.open)
      ensures r.Ok? ==> r.value !in old(fs.open) && fs.open == old(fs.open) + {r.value}
      ensures r.Ok? ==> !EndsInSeparator(name) && IsLocal(Clean(name)) && Clean(name) != "." &&
                        Real(Base(Clean(name))) && Base(Clean(name)) != ".."
      ensures (r.Err? && Harmless(did)) || Placed(did, handle, Clean(name), replace, r)
      ensures fs.failures >= old(fs.failures)
      ensures r.Err? ==> BadFileName(name) || fs.failures > old(fs.failures) ||
                         Prevented(did, Base(Clean(name)), replace)
    {
      if EndsInSeparator(name) { return Err(TrailingSeparator), []; }
      var local := LocalPath(name);
      if local.Err? { return Err(local.fault), []; }
      if local.value == "." { return Err(IsDirectory), []; }
      LocalDescends(name);
      DirDescends(local.value);
      r, did := CreateBelow(local.value, replace);
    }

    /** Writes a whole file. Whatever happens, the same handles are open afterwards. */
    method WriteFile(name: string, replace: bool) returns (r: Result<()>, ghost did: seq<Event>)
      requires fs.Valid() && handle in fs.open
      modifies fs
      ensures fs.Valid() && fs.open == old(fs.open) && fs.log == old(fs.log) + did
      ensures r.Ok? ==> exists file :: Placed(did, handle, Clean(name), replace, Ok(file))
      ensures r.Err? ==> BadFileName(name) || fs.failures > old(fs.failures) ||
                         Prevented(did, Base(Clean(name)), replace)
    {
      var created;
      created, did := Create(name, replace);
      if created.Err? { return Err(created.fault), did; }
      assert Placed(did, handle, Clean(name), replace, Ok(created.value));
      r := Fill(created.value);
    }

    /** Writes to the file and closes it, whatever happens. */
    method Fill(file: Handle) returns (r: Result<()>)
      requires fs.Valid() && file in fs.open
      modifies fs
      ensures fs.Valid() && fs.open == old(fs.open) - {file} && fs.log == old(fs.log)
      ensures fs.failures >= old(fs.failures) && (r.Err? ==> fs.failures > old(fs.failures))
    {
      r := fs.Use(file);
      var closed := fs.Close(file);
      if r.Ok? && closed.Err? { r := closed; }
    }
  }

  /** Opens a file by a path from outside any root, through a root over its parent directory. */
  method OpenFile(fs: FileSystem, path: string, replace: bool) returns (r: Result<Handle>, ghost did: seq<Event>)
    requires fs.Valid()
    modifies fs
    ensures fs.Valid() && fs.log == old(fs.log) + did
    ensures r.Err? ==> fs.open == old(fs.open)
    ensures r.Ok? ==> r.value !in old(fs.open) && fs.open == old(fs.open) + {r.value}
    ensures r.Ok? ==> exists root :: Placed(did, root, Clean(FileName(path)), replace, r)
    ensures r.Err? ==> EndsInSeparator(path) || BadFileName(FileName(path)) || fs.failures > old(fs.failures) ||
                       Prevented(did, Base(Clean(FileName(path))), replace)
  {
    did := [];
    if EndsInSeparator(path) { return Err(TrailingSeparator), did; }
    var acquired := fs.OpenRoot(path);
    if acquired.Err? { return Err(acquired.fault), did; }
    var root := new Root(fs, acquired.value);
    var created;
    created, did := root.Create(FileName(path), replace);
    var closed := fs.Close(root.handle);
    if created.Err? { return Err(created.fault), did; }
    if closed.Err? {
      var _ := fs.Close(created.value);
      return Err(closed.fault), did;
    }
    r := Ok(created.value);
  }

  function FileName(path: string): string {
    if path == "" then "." else Base(path)
  }
}
