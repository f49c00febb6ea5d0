/**
 Replacing a file by write-temporary, sync, check, rename.

 A `Disk` is a map from paths to nodes that changes one system call at a time. An environment
 decides which calls fail, what other processes write just before a call, and which ancestor
 checks reject. Every call is logged with the files before and after it, so a statement about
 all log entries is a statement about a crash after any step.
 */
module AtomicWrite {
  import opened Wrappers

  /** A mode is the set of its one bits. */
  type Mode = set<nat>

  const DEFAULT_MODE: Mode := {1, 2, 4, 5, 7, 8}

  datatype Node =
    | File(ino: nat, content: string, mode: Mode, synced: bool)
    | Symlink
    | Directory

  type Files = map<string, Node>

  datatype Call = Call(before: Files, after: Files)

  /**
   What the outside decides, by the number of the system call. Other processes may write or
   remove any path but the secret ones, whose random names they do not know. `unlinked` is what
   an open file holds that has been replaced at its path.
   */
  datatype Env = Env(umask: Mode, firstIno: nat, faults: set<nat>, redirected: set<nat>, written: nat, unlinked: string,
                     secret: set<string>, others: map<nat, map<string, Option<Node>>>)

  datatype WriteError = NotReplaced | Replaced

  function Permissions(m: Mode): Mode { set b | b in m && b < 9 }

  function At(files: Files, path: string): Option<Node> {
    if path in files then Some(files[path]) else None
  }

  function ContentOf(node: Option<Node>): Option<string> {
    if node.Some? && node.value.File? then Some(node.value.content) else None
  }

  function ContentAt(files: Files, path: string): Option<string> { ContentOf(At(files, path)) }

  // ---------- other processes ----------

  /** Another process writes or removes the path just before the call. */
  predicate Writes(env: Env, call: nat, path: string) {
    call in env.others && path in env.others[call] && path !in env.secret
  }

  function Foreign(env: Env, call: nat, path: string, node: Option<Node>): (r: Option<Node>)
    ensures path in env.secret ==> r == node
  {
    if Writes(env, call, path) then env.others[call][path] else node
  }

  function Disturbed(files: Files, call: nat, env: Env): (r: Files)
    ensures forall p :: At(r, p) == Foreign(env, call, p, At(files, p))
  {
    if call !in env.others then files
    else
      map p | p in files.Keys + env.others[call].Keys && Foreign(env, call, p, At(files, p)).Some?
        :: Foreign(env, call, p, At(files, p)).value
  }

  /** The last foreign write of a path before the calls in a range. */
  function LastForeign(env: Env, path: string, from: nat, end: nat): Option<Option<Node>>
    decreases end
  {
    if end <= from then None
    else if Writes(env, end - 1, path) then Some(env.others[end - 1][path])
    else LastForeign(env, path, from, end - 1)
  }

  /** It is none exactly when there is no foreign write in the range, and else a write after which there is none. */
  lemma {:induction false} LastForeignExactly(env: Env, path: string, from: nat, end: nat)
    ensures LastForeign(env, path, from, end).None? <==> forall n: nat | from <= n < end :: !Writes(env, n, path)
    ensures LastForeign(env, path, from, end).Some? ==> exists n: nat ::
      && from <= n < end && Writes(env, n, path) && LastForeign(env, path, from, end).value == env.others[n][path]
      && forall m: nat | n < m < end :: !Writes(env, m, path)
    decreases end
  {
    hide Writes;
    if from < end { LastForeignExactly(env, path, from, end - 1); }
  }

  /** What other processes make of a path before the calls in a range. */
  function Left(env: Env, path: string, from: nat, end: nat, node: Option<Node>): Option<Node> {
    match LastForeign(env, path, from, end)
    case None => node
    case Some(n) => n
  }

  /** No other process writes the path from a call on. */
  ghost predicate Untouched(env: Env, path: string, from: nat) {
    forall n: nat | n >= from :: !Writes(env, n, path)
  }

  /** The same regular file, or the same node. */
  predicate Alike(a: Option<Node>, b: Option<Node>) {
    a == b || (a.Some? && b.Some? && a.value.File? && b.value.File? && a.value.ino == b.value.ino)
  }

  /** From a call on other processes write the path, if at all, in place. */
  ghost predicate Lasting(env: Env, path: string, from: nat, node: Option<Node>) {
    forall n: nat | n >= from && Writes(env, n, path) ::
      node.Some? && node.value.File? && Alike(env.others[n][path], node)
  }

  /** No call fails or is redirected from a call on. */
  predicate NoFaults(env: Env, from: nat) {
    (forall k | k in env.faults :: k < from) && forall k | k in env.redirected :: k < from
  }

  // ---------- logs ----------

  /** The files after the first `i` calls. */
  function Prior(initial: Files, calls: seq<Call>, i: nat): Files
    requires i <= |calls|
  {
    if i == 0 then initial else calls[i - 1].after
  }

  /** Between two calls only other processes change the files. */
  ghost predicate Linked(env: Env, initial: Files, calls: seq<Call>) {
    forall i | 0 <= i < |calls| :: calls[i].before == Disturbed(Prior(initial, calls, i), i, env)
  }

  /** The calls made since the log was as given change no path but these. */
  ghost predicate Since(log: seq<Call>, calls: seq<Call>, paths: set<string>) {
    log <= calls && forall k, p | |log| <= k < |calls| && p !in paths :: At(calls[k].after, p) == At(calls[k].before, p)
  }

  lemma SinceExtends(log: seq<Call>, calls: seq<Call>, paths: set<string>)
    requires Since(log, calls, paths)
    ensures log <= calls
  {
  }

  lemma SinceNow(log: seq<Call>)
    ensures Since(log, log, {})
  {
  }

  lemma SinceThen(a: seq<Call>, b: seq<Call>, c: seq<Call>, first: set<string>, next: set<string>, all: set<string>)
    requires Since(a, b, first) && Since(b, c, next) && first <= all && next <= all
    ensures Since(a, c, all)
  {
    hide At;
    forall k, p | |a| <= k < |c| && p !in all ensures At(c[k].after, p) == At(c[k].before, p) {
      if k < |b| { assert c[k] == b[k]; }
    }
  }

  lemma SinceAt(log: seq<Call>, calls: seq<Call>, paths: set<string>, i: nat, path: string)
    requires Since(log, calls, paths) && |log| <= i < |calls| && path !in paths
    ensures At(calls[i].after, path) == At(calls[i].before, path)
  {
  }

  lemma LeftThen(env: Env, path: string, from: nat, end: nat, node: Option<Node>)
    requires from < end
    ensures Left(env, path, from, end, node) == Foreign(env, end - 1, path, Left(env, path, from, end - 1, node))
  {
  }

  lemma LeftNow(env: Env, path: string, from: nat, node: Option<Node>)
    ensures Left(env, path, from, from, node) == node
  {
  }

  lemma ForeignIsAlike(env: Env, call: nat, path: string, from: nat, node: Option<Node>, now: Option<Node>)
    requires from <= call && Lasting(env, path, from, node) && Alike(now, node)
    ensures Alike(Foreign(env, call, path, now), node)
  {
  }

  lemma ForeignIsNothing(env: Env, call: nat, path: string, from: nat, now: Option<Node>)
    requires from <= call && Untouched(env, path, from)
    ensures Foreign(env, call, path, now) == now
  {
  }

  /** A path that no own call changes is left to the other processes. */
  lemma {:induction false} PathFollows(env: Env, initial: Files, log: seq<Call>, calls: seq<Call>, paths: set<string>,
                                       path: string, end: nat)
    requires Linked(env, initial, calls) && Since(log, calls, paths) && path !in paths && |log| <= end <= |calls|
    ensures At(Prior(initial, calls, end), path) == Left(env, path, |log|, end, At(Prior(initial, calls, |log|), path))
    decreases end
  {
    hide Since, Linked, At, Left, Foreign;
    var node := At(Prior(initial, calls, |log|), path);
    if end > |log| {
      PathFollows(env, initial, log, calls, paths, path, end - 1);
      SinceAt(log, calls, paths, end - 1, path);
      FoundAt(env, initial, calls, end - 1, path);
      LeftThen(env, path, |log|, end, node);
    } else {
      LeftNow(env, path, end, node);
    }
  }

  /** What a call finds at a path. */
  lemma FoundAt(env: Env, initial: Files, calls: seq<Call>, k: nat, path: string)
    requires Linked(env, initial, calls) && k < |calls|
    ensures At(calls[k].before, path) == Foreign(env, k, path, At(Prior(initial, calls, k), path))
  {
  }

  lemma {:induction false} UntouchedIsLeft(env: Env, path: string, from: nat, end: nat, node: Option<Node>)
    requires Untouched(env, path, from)
    ensures Left(env, path, from, end, node) == node
    decreases end
  {
    if end > from { UntouchedIsLeft(env, path, from, end - 1, node); }
  }

  lemma {:induction false} LastingIsLeft(env: Env, path: string, from: nat, end: nat, node: Option<Node>, now: Option<Node>)
    requires Lasting(env, path, from, node) && Alike(now, node)
    ensures Alike(Left(env, path, from, end, now), node)
    decreases end
  {
    if end > from { LastingIsLeft(env, path, from, end - 1, node, now); }
  }

  lemma SecretIsUntouched(env: Env, path: string, from: nat)
    requires path in env.secret
    ensures Untouched(env, path, from)
  {
  }

  /** One more call keeps the log linked. */
  lemma LinkedThen(env: Env, initial: Files, calls: seq<Call>, found: Files, after: Files)
    requires Linked(env, initial, calls) && found == Disturbed(Prior(initial, calls, |calls|), |calls|, env)
    ensures Linked(env, initial, calls + [Call(found, after)])
    ensures Prior(initial, calls + [Call(found, after)], |calls| + 1) == after
  {
    hide Disturbed;
    var more := calls + [Call(found, after)];
    forall i | 0 <= i < |more| ensures more[i].before == Disturbed(Prior(initial, more, i), i, env) {
      if i < |calls| {
        assert calls[i].before == Disturbed(Prior(initial, calls, i), i, env);
        assert Prior(initial, more, i) == Prior(initial, calls, i);
      } else {
        assert Prior(initial, more, i) == Prior(initial, calls, i);
      }
    }
  }

  lemma SinceOne(calls: seq<Call>, found: Files, after: Files, paths: set<string>)
    requires forall p | p !in paths :: At(after, p) == At(found, p)
    ensures Since(calls, calls + [Call(found, after)], paths)
  {
  }

  // ---------- the disk ----------

  predicate SameDestination(before: Option<Node>, after: Option<Node>) {
    if before.None? || after.None? then before == after
    else before.value.File? && after.value.File? && before.value.ino == after.value.ino
  }

  /** The mode of the new file: the requested one, else the old file's, else the default. */
  function FinalMode(requested: Option<Mode>, stat: Option<Node>, umask: Mode): Mode {
    if requested.Some? then Permissions(requested.value)
    else if stat.Some? && stat.value.File? then Permissions(stat.value.mode)
    else DEFAULT_MODE - umask
  }

  class Disk {
    var files: Files
    var count: nat
    ghost var calls: seq<Call>
    ghost const initial: Files
    const env: Env

    /** The log accounts for the files. */
    ghost predicate Consistent() reads this`calls, this`files, this`count {
      |calls| == count && files == Prior(initial, calls, |calls|) && Linked(env, initial, calls)
    }

    constructor (files: Files, env: Env)
      ensures Consistent()
      ensures this.files == files && this.env == env && count == 0 && calls == [] && initial == files
    {
      this.files, this.env, count, calls, initial := files, env, 0, [], files;
    }

    /** What the next call finds. */
    ghost function Found(): (r: Files)
      reads this`files, this`count
      ensures forall p :: At(r, p) == Foreign(env, count, p, At(files, p))
    {
      Disturbed(files, count, env)
    }

    /** Start a system call: others act first, then it may fail. */
    method Enter() returns (fails: bool)
      requires Consistent()
      modifies this`files, this`count
      ensures files == old(Found()) && count == old(count) + 1
      ensures |calls| + 1 == count && Linked(env, initial, calls)
      ensures files == Disturbed(Prior(initial, calls, |calls|), |calls|, env)
      ensures fails <==> old(count) in env.faults
    {
      files := Disturbed(files, count, env);
      fails := count in env.faults;
      count := count + 1;
    }

    /** Log a call that found and left the files so. */
    method Log(ghost found: Files, ghost paths: set<string>)
      requires |calls| + 1 == count && Linked(env, initial, calls)
      requires found == Disturbed(Prior(initial, calls, |calls|), |calls|, env)
      requires forall p | p !in paths :: At(files, p) == At(found, p)
      modifies this`calls
      ensures calls == old(calls) + [Call(found, files)] && Consistent()
      ensures Since(old(calls), calls, paths)
    {
      hide Linked, Prior, Disturbed, Since;
      LinkedThen(env, initial, calls, found, files);
      SinceOne(calls, found, files, paths);
      calls := calls + [Call(found, files)];
    }

    /** The last call changed nothing. */
    ghost predicate Looked(log: seq<Call>) reads this`calls, this`files {
      calls == log + [Call(files, files)] && Since(log, calls, {})
    }

    method CheckAncestors() returns (ok: bool)
      requires Consistent()
      modifies this`files, this`count, this`calls
      ensures Consistent()
      ensures files == old(Found()) && Looked(old(calls)) && count == old(count) + 1
      ensures ok <==> old(count) !in env.faults && old(count) !in env.redirected
    {
      hide Linked, Prior, Since, Foreign;
      var redirected := count in env.redirected;
      var fails := Enter();
      Log(files, {});
      ok := !fails && !redirected;
    }

    /** The node of a destination that may be replaced: absent or a regular file. */
    method RegularDestination(path: string) returns (stat: Result<Option<Node>, ()>)
      requires Consistent()
      modifies this`files, this`count, this`calls
      ensures Consistent()
      ensures files == old(Found()) && Looked(old(calls)) && count == old(count) + 1
      ensures stat.Ok? <==> old(count) !in env.faults && (path !in files || files[path].File?)
      ensures stat.Ok? ==> stat.value == At(files, path)
    {
      hide Linked, Prior, Since, Foreign;
      var fails := Enter();
      Log(files, {});
      if fails || (path in files && !files[path].File?) { return Err(()); }
      return Ok(At(files, path));
    }

    /** A failing call and a missing path look alike. */
    method Access(path: string) returns (present: bool)
      requires Consistent()
      modifies this`files, this`count, this`calls
      ensures Consistent()
      ensures files == old(Found()) && Looked(old(calls)) && count == old(count) + 1
      ensures present <==> old(count) !in env.faults && path in files
    {
      hide Linked, Prior, Since, Foreign;
      var fails := Enter();
      Log(files, {});
      present := !fails && path in files;
    }

    method ReadFile(path: string) returns (content: Result<string, ()>)
      requires Consistent()
      modifies this`files, this`count, this`calls
      ensures Consistent()
      ensures files == old(Found()) && Looked(old(calls)) && count == old(count) + 1
      ensures content.Ok? <==> old(count) !in env.faults && path in files && files[path].File?
      ensures content.Ok? ==> content.value == files[path].content
    {
      hide Linked, Prior, Since, Foreign;
      var fails := Enter();
      Log(files, {});
      if fails || path !in files || !files[path].File? { return Err(()); }
      return Ok(files[path].content);
    }

    /** Read from a file opened earlier at a path, where another file may stand by now. */
    method ReadHandle(path: string, ino: nat) returns (content: Result<string, ()>)
      requires Consistent()
      modifies this`files, this`count, this`calls
      ensures Consistent()
      ensures files == old(Found()) && Looked(old(calls)) && count == old(count) + 1
      ensures content.Ok? <==> old(count) !in env.faults
      ensures content.Ok? && path in files && files[path].File? && files[path].ino == ino ==> content.value == files[path].content
    {
      hide Linked, Prior, Since, Foreign;
      var fails := Enter();
      Log(files, {});
      if fails { return Err(()); }
      return Ok(if path in files && files[path].File? && files[path].ino == ino then files[path].content else env.unlinked);
    }

    /** Create a file that must not exist yet. */
    method OpenExclusive(path: string, mode: Mode) returns (ok: bool)
      requires Consistent()
      modifies this`files, this`count, this`calls
      ensures Consistent()
      ensures Since(old(calls), calls, {path}) && count == old(count) + 1
      ensures ok <==> old(count) !in env.faults && path !in old(Found())
      ensures !ok ==> files == old(Found())
      ensures ok ==> files == old(Found())[path := File(env.firstIno + old(count), "", mode - env.umask, false)]
    {
      hide Linked, Prior, Since, Foreign;
      var ino := env.firstIno + count;
      var fails := Enter();
      ghost var found := files;
      ok := !fails && path !in files;
      if ok { files := files[path := File(ino, "", mode - env.umask, false)]; }
      Log(found, {path});
    }

    /** Write to a file that only this process knows; a failure leaves any prefix. */
    method Write(path: string, content: string) returns (ok: bool)
      requires path in env.secret && path in files && files[path].File?
      requires Consistent()
      modifies this`files, this`count, this`calls
      ensures Consistent()
      ensures Since(old(calls), calls, {path}) && count == old(count) + 1
      ensures ok <==> old(count) !in env.faults
      ensures path in files && files[path].File?
      ensures ok ==> files[path] == old(files[path]).(content := content, synced := false)
    {
      hide Linked, Prior, Since, Foreign;
      var fails := Enter();
      ghost var found := files;
      assert At(files, path) == old(At(files, path));
      ok := !fails;
      var kept := if ok || |content| <= env.written then content else content[..env.written];
      files := files[path := files[path].(content := kept, synced := false)];
      Log(found, {path});
    }

    method Chmod(path: string, mode: Mode) returns (ok: bool)
      requires path in env.secret && path in files && files[path].File?
      requires Consistent()
      modifies this`files, this`count, this`calls
      ensures Consistent()
      ensures Since(old(calls), calls, {path}) && count == old(count) + 1
      ensures ok <==> old(count) !in env.faults
      ensures path in files && files[path] == if ok then old(files[path]).(mode := mode) else old(files[path])
    {
      hide Linked, Prior, Since, Foreign;
      var fails := Enter();
      ghost var found := files;
      assert At(files, path) == old(At(files, path));
      ok := !fails;
      if ok { files := files[path := files[path].(mode := mode)]; }
      Log(found, {path});
    }

    method Sync(path: string) returns (ok: bool)
      requires path in env.secret && path in files && files[path].File?
      requires Consistent()
      modifies this`files, this`count, this`calls
      ensures Consistent()
      ensures Since(old(calls), calls, {path}) && count == old(count) + 1
      ensures ok <==> old(count) !in env.faults
      ensures path in files && files[path] == if ok then old(files[path]).(synced := true) else old(files[path])
    {
      hide Linked, Prior, Since, Foreign;
      var fails := Enter();
      ghost var found := files;
      assert At(files, path) == old(At(files, path));
      ok := !fails;
      if ok { files := files[path := files[path].(synced := true)]; }
      Log(found, {path});
    }

    method Rename(from: string, to: string) returns (ok: bool)
      requires from in env.secret && from != to && from in files
      requires Consistent()
      modifies this`files, this`count, this`calls
      ensures Consistent()
      ensures calls == old(calls) + [Call(old(Found()), files)] && count == old(count) + 1
      ensures !ok ==> Since(old(calls), calls, {})
      ensures ok <==> old(count) !in env.faults && !(to in old(Found()) && old(Found())[to].Directory?)
      ensures files == if ok then old(Found())[to := old(files[from])] - {from} else old(Found())
    {
      hide Linked, Prior, Since, Foreign;
      var fails := Enter();
      ghost var found := files;
      assert At(files, from) == old(At(files, from));
      ok := !fails && !(to in files && files[to].Directory?);
      if ok { files := files[to := files[from]] - {from}; }
      Log(found, if ok then {from, to} else {});
    }

    method Remove(path: string) returns (ok: bool)
      requires Consistent()
      modifies this`files, this`count, this`calls
      ensures Consistent()
      ensures calls == old(calls) + [Call(old(Found()), files)] && count == old(count) + 1
      ensures Since(old(calls), calls, if ok then {path} else {})
      ensures ok <==> old(count) !in env.faults && !(path in old(Found()) && old(Found())[path].Directory?)
      ensures files == if ok then old(Found()) - {path} else old(Found())
    {
      hide Linked, Prior, Since, Foreign;
      var fails := Enter();
      ghost var found := files;
      ok := !fails && !(path in files && files[path].Directory?);
      if ok { files := files - {path}; }
      Log(found, if ok then {path} else {});
    }

    // ---------- the write ----------

    /** Create and fill the temporary file. */
    method FillTemporary(tmp: string, content: string, mode: Option<Mode>) returns (created: bool, filled: bool)
      requires tmp in env.secret
      requires Consistent()
      modifies this`files, this`count, this`calls
      ensures Consistent() && count > old(count)
      ensures Since(old(calls), calls, {tmp})
      ensures filled ==> created
      ensures created ==> tmp in files && files[tmp].File?
      ensures filled ==> IsNew(files[tmp], content, if mode.Some? then mode.value else DEFAULT_MODE - env.umask)
      ensures created ==> tmp !in old(files)
      ensures !created && tmp !in old(files) ==> tmp !in files
      ensures NoFaults(env, old(count)) ==> (created <==> tmp !in old(files)) && (created ==> filled)
    {
      hide Found, Linked, Prior, Since, Foreign;
      filled := false;
      ghost var s0 := calls;
      assert At(Found(), tmp) == At(files, tmp);
      created := OpenExclusive(tmp, if mode.Some? then mode.value else DEFAULT_MODE);
      if !created { return; }
      ghost var first := calls;
      var ok := Write(tmp, content);
      SinceThen(s0, first, calls, {tmp}, {tmp}, {tmp});
      if ok && mode.Some? {
        ghost var second := calls;
        ok := Chmod(tmp, mode.value);
        SinceThen(s0, second, calls, {tmp}, {tmp}, {tmp});
      }
      if ok {
        ghost var third := calls;
        filled := Sync(tmp);
        SinceThen(s0, third, calls, {tmp}, {tmp}, {tmp});
      }
    }

    /** The path still holds the same file, and others write it at most in place. */
    ghost predicate Stays(path: string, from: nat, node: Option<Node>) reads this`files, this`count {
      from <= count && Lasting(env, path, from, node) && Alike(At(files, path), node)
    }

    /** The path holds a node that no one else writes. */
    ghost predicate Rests(path: string, from: nat, node: Option<Node>) reads this`files, this`count {
      from <= count && Untouched(env, path, from) && At(files, path) == node
    }

    /** What the next call finds at such a path. */
    lemma StaysFound(path: string, from: nat, node: Option<Node>)
      ensures Stays(path, from, node) ==> Alike(At(Found(), path), node)
      ensures Rests(path, from, node) ==> At(Found(), path) == node
    {
      hide Foreign, Lasting, Untouched;
      if Stays(path, from, node) { ForeignIsAlike(env, count, path, from, node, At(files, path)); }
      if Rests(path, from, node) { ForeignIsNothing(env, count, path, from, At(files, path)); }
    }

    /** The checks just before the rename; `at` is the call that saw the expected content. */
    method Recheck(dest: string, seen: Option<Node>, expected: Option<Option<string>>) returns (ok: bool, ghost at: nat)
      requires seen.Some? ==> seen.value.File?
      requires Consistent()
      modifies this`files, this`count, this`calls
      ensures Consistent() && count > old(count)
      ensures Since(old(calls), calls, {})
      ensures ok && expected.Some? ==>
        |old(calls)| <= at < |calls| && ContentAt(calls[at].before, dest) == expected.value
      ensures NoFaults(env, old(count)) && expected.None? && old(Stays(dest, count, seen)) ==> ok
      ensures NoFaults(env, old(count)) && expected.Some? && old(Rests(dest, count, seen)) ==>
        (ok <==> expected.value == ContentOf(seen))
    {
      hide Linked, Prior, Since, Foreign, Lasting, Untouched;
      at := 0;
      ghost var s0, from := calls, count;
      StaysFound(dest, from, seen);
      ok := CheckAncestors();
      if !ok { return; }
      ghost var log := calls;
      ok := false;
      StaysFound(dest, from, seen);
      var stat := RegularDestination(dest);
      SinceThen(s0, log, calls, {}, {}, {});
      if stat.Err? || !SameDestination(seen, stat.value) { return; }
      if expected.None? { ok := true; return; }
      at := |calls| - 1;
      var current: Option<string> := None;
      if stat.value.Some? {
        log := calls;
        StaysFound(dest, from, seen);
        var read := ReadFile(dest);
        SinceThen(s0, log, calls, {}, {}, {});
        if read.Err? { return; }
        current := Some(read.value);
        at := |calls| - 1;
      }
      if current != expected.value { return; }
      log := calls;
      StaysFound(dest, from, seen);
      var again := RegularDestination(dest);
      SinceThen(s0, log, calls, {}, {}, {});
      ok := again.Ok? && SameDestination(stat.value, again.value);
    }

    /** The calls since an earlier state have left a path to the other processes. */
    lemma LeftToOthers(log: seq<Call>, was: Files, paths: set<string>, path: string, node: Option<Node>)
      requires Consistent() && Since(log, calls, paths) && path !in paths && was == Prior(initial, log, |log|)
      ensures Lasting(env, path, |log|, node) && Alike(At(was, path), node) ==> Stays(path, |log|, node)
      ensures Untouched(env, path, |log|) && At(was, path) == node ==> Rests(path, |log|, node)
      ensures path in env.secret ==> At(files, path) == At(was, path)
    {
      hide Linked, Since, Left, Lasting, Untouched, Foreign;
      SinceExtends(log, calls, paths);
      PathFollows(env, initial, log, calls, paths, path, |calls|);
      SamePrior(log, calls, initial);
      if Lasting(env, path, |log|, node) && Alike(At(was, path), node) {
        LastingIsLeft(env, path, |log|, count, node, At(was, path));
      }
      if path in env.secret { SecretIsUntouched(env, path, |log|); }
      if Untouched(env, path, |log|) { UntouchedIsLeft(env, path, |log|, count, At(was, path)); }
    }

    /** Check once more, then rename; `k` is the number of the rename in the log. */
    method PutInPlace(dest: string, tmp: string, seen: Option<Node>, expected: Option<Option<string>>)
      returns (renamed: bool, valid: bool, ghost at: nat, ghost k: nat)
      requires tmp in env.secret && tmp != dest && tmp in files && (seen.Some? ==> seen.value.File?) && files[tmp].File?
      requires Consistent()
      modifies this`files, this`count, this`calls
      ensures Consistent() && count > old(count)
      ensures valid ==> renamed
      ensures !renamed ==> Since(old(calls), calls, {}) && tmp in files && files[tmp].File?
      ensures renamed ==> |old(calls)| <= k < |calls| && Since(old(calls), calls[..k], {}) && Since(calls[..k + 1], calls, {})
      ensures renamed ==> tmp in calls[k].before && calls[k].before[tmp] == old(files[tmp])
      ensures renamed ==> calls[k].after == calls[k].before[dest := calls[k].before[tmp]] - {tmp}
      ensures renamed && expected.Some? ==> |old(calls)| <= at < k && ContentAt(calls[at].before, dest) == expected.value
      ensures NoFaults(env, old(count)) && expected.None? && old(Stays(dest, count, seen)) ==> valid
      ensures NoFaults(env, old(count)) && expected.Some? && old(Rests(dest, count, seen)) ==>
        valid == renamed == (expected.value == ContentOf(seen))
    {
      hide Linked, Prior, Since, Foreign, Lasting, Untouched, Found;
      renamed, valid := false, false;
      ghost var log, was, from := calls, files, count;
      var ok;
      ok, at := Recheck(dest, seen, expected);
      k := |calls|;
      LeftToOthers(log, was, {}, tmp, None);
      LeftToOthers(log, was, {}, dest, seen);
      if !ok { return; }
      ghost var before := calls;
      SinceExtends(log, before, {});
      FoundHere(tmp);
      StaysFound(dest, from, seen);
      renamed := Rename(tmp, dest);
      if !renamed { SinceThen(log, before, calls, {}, {}, {}); return; }
      ghost var after := calls;
      PlacedStays(dest, from, seen);
      var placed := RegularDestination(dest);
      valid := placed.Ok? && placed.value.Some?;
      assert calls[..k] == before && calls[..k + 1] == after;
    }

    lemma FoundHere(path: string)
      requires path in env.secret
      ensures At(Found(), path) == At(files, path)
    {
    }

    /** A file put in place of one that others write only in place remains a file. */
    lemma PlacedStays(dest: string, from: nat, seen: Option<Node>)
      requires dest in files && files[dest].File? && from <= count
      ensures Lasting(env, dest, from, seen) || Untouched(env, dest, from) ==>
        At(Found(), dest).Some? && At(Found(), dest).value.File?
    {
    }

    /** Look up the destination and stage the new file beside it. */
    method Stage(dest: string, tmp: string, content: string, requested: Option<Mode>)
      returns (seen: Option<Node>, created: bool, filled: bool)
      requires tmp in env.secret && tmp != dest
      requires Consistent()
      modifies this`files, this`count, this`calls
      ensures Consistent() && count > old(count)
      ensures Since(old(calls), calls, {tmp})
      ensures filled ==> created
      ensures created ==> |calls| > |old(calls)| + 1 && seen == At(calls[|old(calls)| + 1].before, dest)
      ensures created ==> (seen.Some? ==> seen.value.File?) && tmp in files && files[tmp].File? && tmp !in old(files)
      ensures filled ==> IsNew(files[tmp], content, FinalMode(requested, seen, env.umask))
      ensures !created && tmp !in old(files) ==> tmp !in files
      ensures NoFaults(env, old(count)) && old(Stays(dest, count, At(files, dest))) ==>
        && (created <==> filled)
        && (created <==> tmp !in old(files) && (dest in old(files) ==> old(files)[dest].File?))
        && (created ==> Stays(dest, count, seen))
      ensures created && old(Rests(dest, count, At(files, dest))) ==> Rests(dest, count, At(old(files), dest)) && seen == At(files, dest)
    {
      hide Linked, Prior, Since, Foreign, Lasting, Untouched, Found, FinalMode;
      seen, created, filled := None, false, false;
      ghost var log, was, node := calls, files, At(files, dest);
      StaysFound(dest, count, node);
      var ok := CheckAncestors();
      SinceThen(log, calls, calls, {}, {}, {tmp}) by { SinceNow(calls); }
      LeftToOthers(log, was, {}, tmp, None);
      if !ok { return; }
      ghost var first := calls;
      LeftToOthers(log, was, {tmp}, dest, node);
      StaysFound(dest, |log|, node);
      var stat := RegularDestination(dest);
      SinceThen(log, first, calls, {}, {}, {tmp});
      LeftToOthers(log, was, {}, tmp, None) by { SinceThen(log, first, calls, {}, {}, {}); }
      if stat.Err? { return; }
      seen := stat.value;
      var mode := if requested.Some? then Some(Permissions(requested.value))
                  else if seen.Some? then Some(Permissions(seen.value.mode)) else None;
      FinalModeIs(requested, seen, env.umask);
      ghost var second := calls;
      created, filled := FillTemporary(tmp, content, mode);
      SinceThen(log, second, calls, {tmp}, {tmp}, {tmp});
      SinceExtends(second, calls, {tmp});
      LeftToOthers(log, was, {tmp}, dest, node);
      LastingMoves(env, dest, |log|, count, node, seen);
    }

    /**
     Replace the destination. `seen` is the destination as first looked up, `at` the call that saw
     the expected content, and `k` the call that put the new file in place, if any did.
     */
    method AtomicWrite(dest: string, tmp: string, content: string, requested: Option<Mode>, expected: Option<Option<string>>)
      returns (r: Result<(), WriteError>, seen: Option<Node>, ghost at: nat, ghost k: nat)
      requires tmp in env.secret && tmp != dest
      requires Consistent()
      modifies this`files, this`count, this`calls
      ensures Consistent() && count > old(count)
      ensures Since(old(calls), calls, if r == Err(NotReplaced) then {tmp} else {dest, tmp})
      ensures r == Err(NotReplaced) ==> tmp !in files || tmp in old(files) || count - 1 in env.faults
      ensures r != Err(NotReplaced) ==> tmp !in files
      ensures r != Err(NotReplaced) ==>
        ReplacedAt(old(calls), calls, k, dest, tmp, content, FinalMode(requested, seen, env.umask))
      ensures r != Err(NotReplaced) ==> |old(calls)| + 1 < k && seen == At(calls[|old(calls)| + 1].before, dest)
      ensures r != Err(NotReplaced) && expected.Some? ==>
        |old(calls)| <= at < k < |calls| && ContentAt(calls[at].before, dest) == expected.value
      ensures NoFaults(env, old(count)) && Calm(env, dest, old(count), At(old(files), dest), expected.Some?) ==>
        (r.Ok? <==> Replaceable(old(files), dest, tmp, expected))
      ensures Untouched(env, dest, old(count)) ==>
        if r != Err(NotReplaced)
        then dest in files && IsNew(files[dest], content, FinalMode(requested, At(old(files), dest), env.umask))
        else At(files, dest) == At(old(files), dest)
      ensures forall p | p != dest && p != tmp && Untouched(env, p, old(count)) :: At(files, p) == At(old(files), p)
    {
      hide Linked, Prior, Since, Foreign, Lasting, Untouched, Found, FinalMode, Permissions, ReplacedAt, Alike;
      ghost var log, was := calls, files;
      r, seen, at, k := Attempt(dest, tmp, content, requested, expected);
      ghost var mode := FinalMode(requested, seen, env.umask);
      if r != Err(NotReplaced) {
        SinceAll(log, calls, k, dest, tmp, content, mode);
        SecretIsUntouched(env, tmp, k + 1);
        TemporaryGoes(log, calls, k, dest, tmp, content, mode);
        RestsAfter(k, tmp);
      }
      forall p | p != tmp && Untouched(env, p, |log|)
        ensures p != dest ==> At(files, p) == At(was, p)
        ensures p == dest && r == Err(NotReplaced) ==> At(files, p) == At(was, p)
        ensures p == dest && r != Err(NotReplaced) ==> dest in files && IsNew(files[dest], content, mode)
      {
        if r == Err(NotReplaced) {
          LeftToOthers(log, was, {tmp}, p, At(was, p));
        } else {
          Outcome(log, was, k, dest, tmp, content, mode, p);
        }
      }
    }

    /** The write itself. */
    method Attempt(dest: string, tmp: string, content: string, requested: Option<Mode>, expected: Option<Option<string>>)
      returns (r: Result<(), WriteError>, seen: Option<Node>, ghost at: nat, ghost k: nat)
      requires tmp in env.secret && tmp != dest
      requires Consistent()
      modifies this`files, this`count, this`calls
      ensures Consistent() && count > old(count)
      ensures r == Err(NotReplaced) ==> Since(old(calls), calls, {tmp})
      ensures r == Err(NotReplaced) ==> tmp !in files || tmp in old(files) || count - 1 in env.faults
      ensures r != Err(NotReplaced) ==>
        ReplacedAt(old(calls), calls, k, dest, tmp, content, FinalMode(requested, seen, env.umask))
      ensures r != Err(NotReplaced) ==> |old(calls)| + 1 < k && seen == At(calls[|old(calls)| + 1].before, dest)
      ensures r != Err(NotReplaced) && expected.Some? ==>
        |old(calls)| <= at < k < |calls| && ContentAt(calls[at].before, dest) == expected.value
      ensures NoFaults(env, old(count)) && Calm(env, dest, old(count), At(old(files), dest), expected.Some?) ==>
        (r.Ok? <==> Replaceable(old(files), dest, tmp, expected))
      ensures Untouched(env, dest, old(count)) && r != Err(NotReplaced) ==> seen == At(old(files), dest)
    {
      hide Linked, Prior, Since, Foreign, Lasting, Untouched, Found, FinalMode, Permissions;
      at, k := 0, 0;
      r := Err(NotReplaced);
      ghost var start, node := calls, At(files, dest);
      LastingNow(env, dest, count, node);
      var created, filled;
      seen, created, filled := Stage(dest, tmp, content, requested);
      if !created { return; }
      ghost var staged := calls;
      SinceExtends(start, staged, {tmp});
      if filled {
        var renamed, valid;
        renamed, valid, at, k := PutInPlace(dest, tmp, seen, expected);
        if renamed {
          SinceThen(start, staged, calls[..k], {tmp}, {}, {tmp});
          SinceExtends(staged, calls[..k], {});
          r := if valid then Ok(()) else Err(Replaced);
          return;
        }
        SinceThen(start, staged, calls, {tmp}, {}, {tmp});
        staged := calls;
      }
      FoundHere(tmp);
      var removed := Remove(tmp);
      SinceThen(start, staged, calls, {tmp}, if removed then {tmp} else {}, {tmp});
    }

    /** Paths that no one else writes end up as the write left them. */
    lemma Outcome(log: seq<Call>, was: Files, k: nat, dest: string, tmp: string, content: string, mode: Mode, path: string)
      requires Consistent() && was == Prior(initial, log, |log|) && Untouched(env, path, |log|) && tmp != dest
      requires ReplacedAt(log, calls, k, dest, tmp, content, mode)
      ensures path != dest && path != tmp ==> At(files, path) == At(was, path)
      ensures path == dest ==> dest in files && IsNew(files[dest], content, mode)
    {
      hide Linked, Prior, Since, Foreign, Untouched;
      SinceAll(log, calls, k, dest, tmp, content, mode);
      if path == dest {
        LastingMoves(env, path, |log|, k + 1, None, None);
        RestsAfter(k, path);
      } else if path != tmp {
        LeftToOthers(log, was, {dest, tmp}, path, At(was, path));
      }
    }

    /** A path that nobody changed after call `k`. */
    lemma RestsAfter(k: nat, path: string)
      requires Consistent() && k < |calls| && Since(calls[..k + 1], calls, {}) && Untouched(env, path, k + 1)
      ensures At(files, path) == At(calls[k].after, path)
    {
      hide Linked, Since, Foreign, Untouched;
      assert Prior(initial, calls[..k + 1], k + 1) == calls[k].after;
      hide Prior;
      LeftToOthers(calls[..k + 1], calls[k].after, {}, path, At(calls[k].after, path));
    }
  }

  lemma TemporaryGoes(log: seq<Call>, calls: seq<Call>, k: nat, dest: string, tmp: string, content: string, mode: Mode)
    requires ReplacedAt(log, calls, k, dest, tmp, content, mode) && tmp != dest
    ensures k < |calls| && tmp !in calls[k].after && Since(calls[..k + 1], calls, {})
  {
  }

  lemma SinceAll(log: seq<Call>, calls: seq<Call>, k: nat, dest: string, tmp: string, content: string, mode: Mode)
    requires ReplacedAt(log, calls, k, dest, tmp, content, mode) && tmp != dest
    ensures Since(log, calls, {dest, tmp}) && Since(log, calls[..k + 1], {dest, tmp})
    ensures At(calls[k].after, dest).Some? && IsNew(At(calls[k].after, dest).value, content, mode)
  {
    forall i, p | |log| <= i < |calls| && p !in {dest, tmp} ensures At(calls[i].after, p) == At(calls[i].before, p) {
      if i < k {
        SinceAt(log, calls[..k], {tmp}, i, p);
      } else if i > k {
        SinceAt(calls[..k + 1], calls, {}, i, p);
      }
    }
  }

  /** Other processes write the path at most in place, or not at all. */
  ghost predicate Calm(env: Env, path: string, from: nat, node: Option<Node>, strictly: bool) {
    if strictly then Untouched(env, path, from) else Lasting(env, path, from, node)
  }

  lemma LastingNow(env: Env, path: string, from: nat, node: Option<Node>)
    ensures Untouched(env, path, from) ==> Lasting(env, path, from, node)
  {
  }

  lemma LastingMoves(env: Env, path: string, from: nat, now: nat, node: Option<Node>, next: Option<Node>)
    requires from <= now
    ensures Lasting(env, path, from, node) && Alike(next, node) ==> Lasting(env, path, now, next)
    ensures Untouched(env, path, from) ==> Untouched(env, path, now)
  {
  }

  lemma FinalModeIs(requested: Option<Mode>, seen: Option<Node>, umask: Mode)
    ensures FinalMode(requested, seen, umask)
         == if requested.Some? then Permissions(requested.value)
            else if seen.Some? && seen.value.File? then Permissions(seen.value.mode) else DEFAULT_MODE - umask
  {
  }

  /** Bit by bit: nine permission bits are kept of a mode that is asked for or found, and new files are read-write but for the umask. */
  lemma FinalModeBits(requested: Option<Mode>, seen: Option<Node>, umask: Mode, b: nat)
    ensures b in FinalMode(requested, seen, umask) <==>
      if requested.Some? then b in requested.value && b <= 8
      else if seen.Some? && seen.value.File? then b in seen.value.mode && b <= 8
      else b in {8, 7, 5, 4, 2, 1} && b !in umask
  {
  }

  /** What a write needs of the files to succeed. */
  predicate Replaceable(files: Files, dest: string, tmp: string, expected: Option<Option<string>>) {
    && tmp !in files && (dest in files ==> files[dest].File?)
    && (expected.Some? ==> expected.value == ContentAt(files, dest))
  }

  /** Call `k` put the whole new file in place, and no other call touched anything but the temporary. */
  ghost predicate ReplacedAt(log: seq<Call>, calls: seq<Call>, k: nat, dest: string, tmp: string, content: string, mode: Mode) {
    && |log| <= k < |calls| && Since(log, calls[..k], {tmp}) && Since(calls[..k + 1], calls, {})
    && tmp in calls[k].before && IsNew(calls[k].before[tmp], content, mode)
    && calls[k].after == calls[k].before[dest := calls[k].before[tmp]] - {tmp}
  }

  lemma SamePrior(log: seq<Call>, calls: seq<Call>, initial: Files)
    requires log <= calls
    ensures Prior(initial, calls, |log|) == Prior(initial, log, |log|)
  {
  }

  /** A whole new file, safely on disk. */
  predicate IsNew(n: Node, content: string, mode: Mode) {
    n.File? && n.content == content && n.mode == mode && n.synced
  }

  // ---------- a crash after any step ----------

  /** What a path may hold after a crash in which it had the given node: unsynced contents may be lost. */
  predicate MayHold(node: Option<Node>, content: Option<string>) {
    match node
    case Some(File(_, c, _, synced)) => content.Some? && (synced ==> content.value == c)
    case _ => content.None?
  }

  /** Whatever other processes do, each own call leaves the destination as it found it, or whole and new. */
  lemma EveryCallKeepsOrReplaces(log: seq<Call>, calls: seq<Call>, k: nat, dest: string, tmp: string,
                                 content: string, mode: Mode, i: nat)
    requires Since(log, calls, {tmp}) || ReplacedAt(log, calls, k, dest, tmp, content, mode)
    requires tmp != dest && |log| <= i < |calls|
    ensures var n := At(calls[i].after, dest);
      n == At(calls[i].before, dest) || (n.Some? && IsNew(n.value, content, mode))
  {
    if ReplacedAt(log, calls, k, dest, tmp, content, mode) {
      if i < k {
        SinceAt(log, calls[..k], {tmp}, i, dest);
      } else if i > k {
        SinceAt(calls[..k + 1], calls, {}, i, dest);
      }
    } else {
      SinceAt(log, calls, {tmp}, i, dest);
    }
  }

  /** If others leave the destination alone, it is after every call as the write found it, or whole and new. */
  lemma {:induction false} DestinationIsOldOrNew(env: Env, initial: Files, log: seq<Call>, calls: seq<Call>, k: nat,
                                                 dest: string, tmp: string, content: string, mode: Mode, i: nat)
    requires Since(log, calls, {tmp}) || ReplacedAt(log, calls, k, dest, tmp, content, mode)
    requires Linked(env, initial, calls) && Untouched(env, dest, |log| + 1) && tmp != dest && |log| <= i < |calls|
    ensures var n := At(calls[i].after, dest);
      n == At(calls[|log|].before, dest) || (n.Some? && IsNew(n.value, content, mode))
    decreases i
  {
    hide Since, ReplacedAt, Linked, Foreign, Untouched, At, IsNew;
    EveryCallKeepsOrReplaces(log, calls, k, dest, tmp, content, mode, i);
    if i > |log| {
      DestinationIsOldOrNew(env, initial, log, calls, k, dest, tmp, content, mode, i - 1);
      FoundAt(env, initial, calls, i, dest);
      ForeignIsNothing(env, i, dest, |log| + 1, At(Prior(initial, calls, i), dest));
    }
  }

  /**
   A crash after any call leaves the destination with its whole old content or the whole new one,
   even if the directory falls back to an earlier entry.
   */
  lemma CrashLeavesOldOrNew(env: Env, initial: Files, log: seq<Call>, calls: seq<Call>, k: nat, dest: string, tmp: string,
                            content: string, mode: Mode, i: nat, left: Option<string>)
    requires Since(log, calls, {tmp}) || ReplacedAt(log, calls, k, dest, tmp, content, mode)
    requires Linked(env, initial, calls) && Untouched(env, dest, |log| + 1) && tmp != dest && |log| <= i < |calls|
    requires var n := At(calls[|log|].before, dest); n.Some? && n.value.File? ==> n.value.synced
    requires MayHold(At(calls[i].after, dest), left)
    ensures left == ContentAt(calls[|log|].before, dest) || left == Some(content)
  {
    hide Since, ReplacedAt, Linked, Untouched;
    DestinationIsOldOrNew(env, initial, log, calls, k, dest, tmp, content, mode, i);
  }
}
