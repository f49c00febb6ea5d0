/**
 The rule editor on a disk: read, decide, back up, replace or delete.

 The texts written are those of `RuleEdit`; the replacing is `Disk.AtomicWrite`. Random file
 names are parameters, and secret: other processes may write any path but these at any call. The
 contracts name the call that read the target for its backup and the call that replaced or
 removed it, and say what becomes of the bytes in between.
 */
module RuleEditor {
  import opened Wrappers
  import opened AtomicWrite
  import opened RuleText
  import RuleEdit

  datatype Outcome = Added | Refused | Skipped | Updated | Removed | WouldAdd | WouldUpdate | WouldRemove

  datatype FileCheck = Missing | Untracked | Managed(checks: seq<RuleEdit.Check>)

  datatype EditError = BackupFailed | ReadFailed | WriteFailed

  /** The random names of one edit: the backup, and the temporaries of its two writes. */
  datatype Names = Names(backup: string, backupTmp: string, tmp: string)

  /** The random names are distinct, unknown to others, and not the target. */
  predicate SecretNames(n: Names, target: string, env: Env) {
    && n.backup != n.backupTmp && n.backup != n.tmp && n.backupTmp != n.tmp
    && n.backup in env.secret && n.backupTmp in env.secret && n.tmp in env.secret
    && target != n.backup && target != n.backupTmp && target != n.tmp
  }

  predicate Unused(n: Names, files: Files) {
    n.backup !in files && n.backupTmp !in files && n.tmp !in files
  }

  function Own(n: Names): set<string> { {n.backup, n.backupTmp, n.tmp} }

  /** A target that may be replaced: absent or a regular file. */
  predicate Regular(files: Files, target: string) {
    target in files ==> files[target].File?
  }

  /** What a backup holds. */
  datatype Copy = Copy(content: string, mode: Mode)

  function CopyContent(copy: Option<Copy>): Option<string> {
    if copy.Some? then Some(copy.value.content) else None
  }

  /**
   The copy is of the file opened at call `at`, with the permissions seen just before: its bytes
   are those at that call unless others wrote the target before the next, which read them. No copy
   means that there was no file.
   */
  ghost predicate CopyOf(env: Env, calls: seq<Call>, at: nat, target: string, copy: Option<Copy>) {
    && 0 < at < |calls|
    && match copy
       case None => At(calls[at].before, target).None?
       case Some(c) =>
         && At(calls[at - 1].before, target).Some? && At(calls[at - 1].before, target).value.File?
         && c.mode == Permissions(At(calls[at - 1].before, target).value.mode)
         && (LastForeign(env, target, at + 1, at + 2).None? ==> ContentAt(calls[at].before, target) == Some(c.content))
  }

  predicate Holds(files: Files, path: string, copy: Option<Copy>) {
    copy.Some? ==> path in files && IsNew(files[path], copy.value.content, copy.value.mode)
  }

  /** The last foreign write of the target, if any, left the bytes that the copy has. */
  predicate Spared(env: Env, target: string, from: nat, end: nat, copy: Option<Copy>) {
    var last := LastForeign(env, target, from, end);
    last.Some? ==> ContentOf(last.value) == CopyContent(copy)
  }

  /**
   Call `k` is the only own one that changes the target, the backup is in place by then, and the
   bytes the call destroys are the backup's exactly when no other process wrote the target since
   the backup's read, or the last that did wrote the same bytes.
   */
  ghost predicate Destroys(env: Env, log: seq<Call>, calls: seq<Call>, at: nat, copy: Option<Copy>, k: nat,
                           target: string, names: Names)
  {
    && |log| <= at < k < |calls|
    && Since(log, calls[..k], Own(names))
    && Since(calls[..k], calls, {target, names.tmp}) && Since(calls[..k + 1], calls, {names.tmp})
    && CopyOf(env, calls, at, target, copy) && Holds(calls[k].before, names.backup, copy)
    && (ContentAt(calls[k].before, target) == CopyContent(copy) <==> Spared(env, target, at + 1, k + 1, copy))
  }

  lemma {:induction false} NoneIsNoneBefore(env: Env, path: string, from: nat, mid: nat, end: nat)
    requires LastForeign(env, path, from, end).None? && mid <= end
    ensures LastForeign(env, path, from, mid).None?
    decreases end
  {
    if mid < end && from < end { NoneIsNoneBefore(env, path, from, mid, end - 1); }
  }

  /** The bytes found by a later call, when no own call in between changes the path. */
  lemma FoundLater(env: Env, initial: Files, calls: seq<Call>, at: nat, k: nat, paths: set<string>, path: string)
    requires Linked(env, initial, calls) && at < k < |calls| && path !in paths
    requires Since(calls[..at], calls[..k], paths)
    ensures At(calls[k].before, path) == Left(env, path, at + 1, k + 1, At(calls[at].before, path))
  {
    hide Since, Linked, At, Left, Foreign;
    var log, prefix := calls[..at + 1], calls[..k];
    assert prefix[..at + 1] == log && prefix[at] == calls[at];
    SinceFrom(calls[..at], prefix, at + 1, paths);
    PrefixIsLinked(env, initial, calls, k);
    SinceAt(calls[..at], prefix, paths, at, path);
    PriorIs(initial, calls, at + 1, k);
    PathFollows(env, initial, log, prefix, paths, path, k);
    LeftThen(env, path, at + 1, k + 1, At(calls[at].before, path));
    FoundAt(env, initial, calls, k, path);
  }

  lemma DestroyedExactly(env: Env, initial: Files, calls: seq<Call>, at: nat, k: nat, paths: set<string>,
                         target: string, copy: Option<Copy>)
    requires Linked(env, initial, calls) && at < k < |calls| && target !in paths
    requires Since(calls[..at], calls[..k], paths) && CopyOf(env, calls, at, target, copy)
    ensures ContentAt(calls[k].before, target) == CopyContent(copy) <==> Spared(env, target, at + 1, k + 1, copy)
  {
    hide Since, Linked, LastForeign;
    FoundLater(env, initial, calls, at, k, paths, target);
    if LastForeign(env, target, at + 1, k + 1).None? { NoneIsNoneBefore(env, target, at + 1, at + 2, k + 1); }
  }

  /** Read a regular file together with its permissions, or find that there is none. */
  method ReadSource(disk: Disk, target: string) returns (r: Result<Option<(string, Mode)>, EditError>, ghost at: nat)
    requires disk.Consistent()
    modifies disk
    ensures disk.Consistent() && Since(old(disk.calls), disk.calls, {})
    ensures r.Ok? ==>
      var copy := if r.value.Some? then Some(Copy(r.value.value.0, r.value.value.1)) else None;
      && at == |old(disk.calls)| + (if copy.Some? then 3 else 2)
      && at + (if copy.Some? then 1 else 0) < |disk.calls|
      && CopyOf(disk.env, disk.calls, at, target, copy)
    ensures r.Ok? && r.value.Some? ==> Permissions(r.value.value.1) == r.value.value.1
    ensures NoFaults(disk.env, old(disk.count)) && Lasting(disk.env, target, old(disk.count), At(old(disk.files), target)) ==>
      (r.Ok? <==> Regular(old(disk.files), target))
  {
    hide Linked, Prior, Since, Foreign, Lasting, Untouched, Disk.Found, Permissions;
    ghost var log, was, node := disk.calls, disk.files, At(disk.files, target);
    at := 0;
    SinceNow(log);
    var ok := disk.CheckAncestors();
    if !ok { return Err(BackupFailed), at; }
    var safe := LookUp(disk, target, log, was);
    if safe.Err? { return Err(BackupFailed), at; }
    var source := LookUp(disk, target, log, was);
    if source.Err? { return Err(BackupFailed), at; }
    at := |log| + 2;
    if source.value.None? { return Ok(None), at; }
    var handle := LookUp(disk, target, log, was);
    if handle.Err? || handle.value.None? || !SameDestination(source.value, handle.value) { return Err(BackupFailed), at; }
    at := |log| + 3;
    ghost var handed := disk.calls;
    NoneIsNothing(disk.env, target, at + 1, At(disk.files, target));
    var content := disk.ReadHandle(target, handle.value.value.ino);
    SinceThen(log, handed, disk.calls, {}, {}, {});
    if content.Err? { return Err(BackupFailed), at; }
    PermissionsTwice(source.value.value.mode);
    return Ok(Some((content.value, Permissions(source.value.value.mode)))), at;
  }

  /** Look the target up once more; so far nothing was changed since the log was as given. */
  method LookUp(disk: Disk, target: string, ghost log: seq<Call>, ghost was: Files) returns (stat: Result<Option<Node>, ()>)
    requires disk.Consistent() && Since(log, disk.calls, {}) && was == Prior(disk.initial, log, |log|)
    modifies disk
    ensures disk.Consistent() && Since(log, disk.calls, {})
    ensures old(disk.calls) <= disk.calls && |disk.calls| == |old(disk.calls)| + 1
    ensures stat.Ok? ==> stat.value == At(disk.files, target) == At(disk.calls[|old(disk.calls)|].before, target)
    ensures stat.Ok? && stat.value.Some? ==> stat.value.value.File?
    ensures NoFaults(disk.env, |log|) && Lasting(disk.env, target, |log|, At(was, target)) ==>
      && (stat.Ok? <==> Regular(was, target))
      && (stat.Ok? ==> Alike(stat.value, At(was, target)))
  {
    hide Linked, Prior, Since, Foreign, Lasting, Untouched, Disk.Found;
    ghost var before := disk.calls;
    SinceExtends(log, before, {});
    disk.LeftToOthers(log, was, {}, target, At(was, target));
    disk.StaysFound(target, |log|, At(was, target));
    stat := disk.RegularDestination(target);
    SinceThen(log, before, disk.calls, {}, {}, {});
  }

  lemma NoneIsNothing(env: Env, path: string, call: nat, node: Option<Node>)
    ensures LastForeign(env, path, call, call + 1).None? ==> Foreign(env, call, path, node) == node
  {
  }

  /** Copy an existing file to the backup path. */
  method BackupExisting(disk: Disk, target: string, names: Names)
    returns (r: Result<Option<string>, EditError>, ghost at: nat, ghost copy: Option<Copy>)
    requires disk.Consistent() && SecretNames(names, target, disk.env)
    modifies disk
    ensures disk.Consistent() && Since(old(disk.calls), disk.calls, {names.backup, names.backupTmp})
    ensures r.Ok? ==>
      && r.value == (if copy.Some? then Some(names.backup) else None)
      && at == |old(disk.calls)| + (if copy.Some? then 3 else 2)
      && at + (if copy.Some? then 1 else 0) < |disk.calls|
      && (names.backupTmp !in old(disk.files) ==> names.backupTmp !in disk.files)
      && CopyOf(disk.env, disk.calls, at, target, copy)
      && Holds(disk.files, names.backup, copy)
    ensures NoFaults(disk.env, old(disk.count)) && Unused(names, old(disk.files)) ==>
      Lasting(disk.env, target, old(disk.count), At(old(disk.files), target)) ==> (r.Ok? <==> Regular(old(disk.files), target))
  {
    hide Linked, Prior, Since, Foreign, Lasting, Untouched, Disk.Found, CopyOf, FinalMode, ReplacedAt;
    ghost var log, was := disk.calls, disk.files;
    var source;
    source, at := ReadSource(disk, target);
    copy := None;
    SinceThen(log, disk.calls, disk.calls, {}, {}, {names.backup, names.backupTmp}) by { SinceNow(disk.calls); }
    disk.LeftToOthers(log, was, {}, names.backup, None);
    disk.LeftToOthers(log, was, {}, names.backupTmp, None);
    if source.Err? { return Err(BackupFailed), at, copy; }
    if source.value.None? { return Ok(None), at, copy; }
    ghost var read := disk.calls;
    SinceExtends(log, read, {});
    SecretIsUntouched(disk.env, names.backup, disk.count);
    LastingNow(disk.env, names.backup, disk.count, At(disk.files, names.backup));
    var (content, mode) := source.value.value;
    copy := Some(Copy(content, mode));
    var w, seen, _, k := disk.AtomicWrite(names.backup, names.backupTmp, content, Some(mode), None);
    var own := {names.backup, names.backupTmp};
    SinceThen(log, read, disk.calls, {}, if w == Err(NotReplaced) then {names.backupTmp} else {names.backup, names.backupTmp}, own);
    if w.Err? { return Err(BackupFailed), at, copy; }
    ModeIsKept(mode, disk.env.umask);
    SinceExtends(read, disk.calls, own);
    CopyStands(disk.env, read, disk.calls, at, target, copy);
    return Ok(Some(names.backup)), at, copy;
  }

  lemma ModeIsKept(mode: Mode, umask: Mode)
    requires Permissions(mode) == mode
    ensures forall seen :: FinalMode(Some(mode), seen, umask) == mode
  {
  }

  lemma PermissionsTwice(mode: Mode)
    ensures Permissions(Permissions(mode)) == Permissions(mode)
  {
  }

  lemma CopyStands(env: Env, calls: seq<Call>, more: seq<Call>, at: nat, target: string, copy: Option<Copy>)
    requires CopyOf(env, calls, at, target, copy) && calls <= more
    ensures CopyOf(env, more, at, target, copy)
  {
    hide LastForeign, Permissions;
  }
  /** What one edit did to the target: nothing, or one call destroyed what a logged copy may hold. */
  datatype Trace = Trace(at: nat, copy: Option<Copy>, k: Option<nat>)

  ghost predicate Accounted(env: Env, log: seq<Call>, calls: seq<Call>, trace: Trace, target: string, names: Names) {
    && Since(log, calls, if trace.k.Some? then Own(names) + {target} else Own(names))
    && (trace.k.Some? ==> Destroys(env, log, calls, trace.at, trace.copy, trace.k.value, target, names))
  }

  lemma OwnIsAll(names: Names, target: string)
    ensures {names.backup, names.backupTmp} <= Own(names) && {names.tmp} <= Own(names)
    ensures {target, names.tmp} <= Own(names) + {target} && {} <= Own(names) && {target} <= Own(names) + {target}
  {
  }

  /** The call after the backup that changes the target is accounted for. */
  lemma DestroyingCall(env: Env, initial: Files, log: seq<Call>, mid: seq<Call>, calls: seq<Call>, at: nat, copy: Option<Copy>,
                       k: nat, target: string, names: Names)
    requires Linked(env, initial, calls) && SecretNames(names, target, env)
    requires Since(log, mid, {names.backup, names.backupTmp}) && |log| <= at < |mid| <= k < |calls|
    requires Since(mid, calls[..k], {names.tmp}) && Since(mid, calls, {target, names.tmp})
    requires Since(calls[..k + 1], calls, {names.tmp})
    requires CopyOf(env, mid, at, target, copy) && Holds(Prior(initial, mid, |mid|), names.backup, copy)
    ensures Destroys(env, log, calls, at, copy, k, target, names)
  {
    hide Linked, Prior, Since, CopyOf, LastForeign;
    var before := calls[..k];
    OwnIsAll(names, target);
    SinceThen(log, mid, before, {names.backup, names.backupTmp}, {names.tmp}, Own(names));
    SinceExtends(mid, before, {names.tmp});
    SinceExtends(log, mid, {names.backup, names.backupTmp});
    PrefixIsLinked(env, initial, calls, k);
    CopyStands(env, mid, calls, at, target, copy);
    SinceFrom(log, before, at, Own(names));
    SinceFrom(mid, calls, k, {target, names.tmp});
    assert before[..at] == calls[..at];
    DestroyedExactly(env, initial, calls, at, k, Own(names), target, copy);
    PathFollows(env, initial, mid, before, {names.tmp}, names.backup, k);
    SecretIsUntouched(env, names.backup, |mid|);
    UntouchedIsLeft(env, names.backup, |mid|, k, At(Prior(initial, before, |mid|), names.backup));
    SamePrior(mid, before, initial);
    FoundAt(env, initial, calls, k, names.backup);
    PrefixPrior(initial, calls, k);
  }

  lemma PrefixIsLinked(env: Env, initial: Files, calls: seq<Call>, k: nat)
    requires Linked(env, initial, calls) && k <= |calls|
    ensures Linked(env, initial, calls[..k])
  {
    hide Disturbed;
    forall i | 0 <= i < k ensures calls[..k][i].before == Disturbed(Prior(initial, calls[..k], i), i, env) {
      assert calls[i].before == Disturbed(Prior(initial, calls, i), i, env);
    }
  }

  lemma PrefixPrior(initial: Files, calls: seq<Call>, k: nat)
    requires k <= |calls|
    ensures Prior(initial, calls[..k], k) == Prior(initial, calls, k)
  {
  }

  /** The files after a call, in any longer log. */
  lemma PriorIs(initial: Files, calls: seq<Call>, at: nat, k: nat)
    requires 0 < at <= k <= |calls|
    ensures Prior(initial, calls[..k], at) == calls[at - 1].after == Prior(initial, calls, at)
    ensures Prior(initial, calls[..k], k) == Prior(initial, calls, k)
  {
  }

  lemma SinceFrom(log: seq<Call>, calls: seq<Call>, at: nat, paths: set<string>)
    requires Since(log, calls, paths) && |log| <= at <= |calls|
    ensures Since(calls[..at], calls, paths)
  {
  }

  /** Back up the target, then put the new text in its place. */
  method ReplaceWithBackup(disk: Disk, target: string, names: Names, text: string)
    returns (r: Result<(), EditError>, ghost trace: Trace)
    requires disk.Consistent() && SecretNames(names, target, disk.env)
    modifies disk
    ensures disk.Consistent() && Accounted(disk.env, old(disk.calls), disk.calls, trace, target, names)
    ensures r.Ok? ==> trace.k.Some?
    ensures trace.k.Some? ==>
      && trace.at == |old(disk.calls)| + (if trace.copy.Some? then 3 else 2)
      && trace.at + (if trace.copy.Some? then 1 else 0) < trace.k.value
      && trace.k.value < |disk.calls| && ContentAt(disk.calls[trace.k.value].after, target) == Some(text)
      && Since(disk.calls[..trace.k.value + 1], disk.calls, {})
      && names.tmp !in disk.files && (names.backupTmp !in old(disk.files) ==> names.backupTmp !in disk.files)
    ensures NoFaults(disk.env, old(disk.count)) && Unused(names, old(disk.files)) ==>
      Lasting(disk.env, target, old(disk.count), At(old(disk.files), target)) ==> (r.Ok? <==> Regular(old(disk.files), target))
  {
    hide Linked, Prior, Since, Foreign, Lasting, Untouched, Disk.Found, CopyOf, FinalMode, Own;
    ghost var log, was, node := disk.calls, disk.files, At(disk.files, target);
    var backup;
    ghost var at, copy;
    backup, at, copy := BackupExisting(disk, target, names);
    ghost var mid, midFiles, own := disk.calls, disk.files, {names.backup, names.backupTmp};
    trace := Trace(at, copy, None);
    OwnIsAll(names, target);
    SinceThen(log, mid, mid, own, {}, Own(names)) by { SinceNow(mid); }
    if backup.Err? { return Err(backup.error), trace; }
    SinceExtends(log, mid, own);
    disk.LeftToOthers(log, was, own, target, node);
    disk.LeftToOthers(log, was, own, names.tmp, None);
    LastingMoves(disk.env, target, |log|, disk.count, node, At(disk.files, target));
    var w, _, _, k := disk.AtomicWrite(target, names.tmp, text, None, None);
    SinceThen(log, mid, disk.calls, own, if w == Err(NotReplaced) then {names.tmp} else {target, names.tmp},
              if w == Err(NotReplaced) then Own(names) else Own(names) + {target});
    if w != Err(NotReplaced) {
      disk.LeftToOthers(mid, midFiles, {target, names.tmp}, names.backupTmp, None);
      WeakerSince(disk.calls[..k + 1], disk.calls, {names.tmp});
      DestroyingCall(disk.env, disk.initial, log, mid, disk.calls, at, copy, k, target, names);
      trace := Trace(at, copy, Some(k));
    }
    if w.Err? { return Err(WriteFailed), trace; }
    return Ok(()), trace;
  }

  lemma WeakerSince(log: seq<Call>, calls: seq<Call>, paths: set<string>)
    requires Since(log, calls, {})
    ensures Since(log, calls, paths)
  {
    hide Since;
    SinceNow(calls);
    SinceThen(log, calls, calls, {}, {}, paths);
  }

  /** Back up the target, then delete it. */
  method DeleteWithBackup(disk: Disk, target: string, names: Names) returns (r: Result<(), EditError>, ghost trace: Trace)
    requires disk.Consistent() && SecretNames(names, target, disk.env)
    modifies disk
    ensures disk.Consistent() && Accounted(disk.env, old(disk.calls), disk.calls, trace, target, names)
    ensures r.Ok? ==> trace.k.Some?
    ensures trace.k.Some? ==>
      && trace.k.value < |disk.calls| && target !in disk.calls[trace.k.value].after
      && Since(disk.calls[..trace.k.value + 1], disk.calls, {})
    ensures NoFaults(disk.env, old(disk.count)) && Unused(names, old(disk.files)) ==>
      Lasting(disk.env, target, old(disk.count), At(old(disk.files), target)) ==> (r.Ok? <==> Regular(old(disk.files), target))
  {
    hide Linked, Prior, Since, Foreign, Lasting, Untouched, Disk.Found, CopyOf, FinalMode, Own;
    ghost var log, was, node := disk.calls, disk.files, At(disk.files, target);
    var backup;
    ghost var at, copy;
    backup, at, copy := BackupExisting(disk, target, names);
    ghost var mid, midFiles, own := disk.calls, disk.files, {names.backup, names.backupTmp};
    trace := Trace(at, copy, None);
    OwnIsAll(names, target);
    SinceThen(log, mid, mid, own, {}, Own(names)) by { SinceNow(mid); }
    if backup.Err? { return Err(backup.error), trace; }
    SinceExtends(log, mid, own);
    disk.LeftToOthers(log, was, own, target, node);
    LastingMoves(disk.env, target, |log|, |mid|, node, At(midFiles, target));
    var ok := disk.CheckAncestors();
    SinceThen(log, mid, disk.calls, own, {}, Own(names));
    if !ok { return Err(WriteFailed), trace; }
    var safe := LookUp(disk, target, mid, midFiles);
    SinceThen(log, mid, disk.calls, own, {}, Own(names));
    if safe.Err? { return Err(WriteFailed), trace; }
    ghost var before, k := disk.calls, |disk.calls|;
    SinceExtends(mid, before, {});
    disk.LeftToOthers(mid, midFiles, {}, target, At(midFiles, target));
    disk.StaysFound(target, |mid|, At(midFiles, target));
    var gone := disk.Remove(target);
    if !gone {
      SinceThen(log, before, disk.calls, Own(names), {}, Own(names));
      return Err(WriteFailed), trace;
    }
    SinceThen(log, before, disk.calls, Own(names), {target}, Own(names) + {target});
    assert disk.calls[..k] == before && disk.calls[..k + 1] == disk.calls;
    SinceNow(disk.calls);
    WeakerSince(disk.calls[..k + 1], disk.calls, {names.tmp});
    WeakerSince(mid, before, {names.tmp});
    SinceThen(mid, before, disk.calls, {}, {target}, {target, names.tmp});
    DestroyingCall(disk.env, disk.initial, log, mid, disk.calls, at, copy, k, target, names);
    trace := Trace(at, copy, Some(k));
    return Ok(()), trace;
  }

  // ---------- the editor ----------

  /** The decision on an existing file. */
  method Decide(existing: string, r: Rule, force: bool, hash: string -> Sha) returns (e: RuleEdit.Edit)
    ensures e == RuleEdit.AddText(Some(existing), r, force, hash)
  {
    hide FindBlock, Content;
    var blocks := ExtractBlocks(existing);
    if blocks == [] {
      return if force then RuleEdit.Edit(RuleEdit.Updated, Some(Content(r))) else RuleEdit.Edit(RuleEdit.Refused, None);
    }
    var first := blocks[0];
    var actualSha := hash(first.body);
    if actualSha != first.declaredSha {
      return if force then RuleEdit.Edit(RuleEdit.Updated, Some(Content(r))) else RuleEdit.Edit(RuleEdit.Refused, None);
    }
    var fullBlock := existing[first.start..first.end];
    if Begin(r) <= fullBlock && first.body == Body(r) { return RuleEdit.Edit(RuleEdit.Skipped, None); }
    return RuleEdit.Edit(RuleEdit.Updated, Some(existing[..first.start] + Content(r) + existing[first.end..]));
  }

  /** What an outcome is called, when nothing may be written and when it may. */
  function Report(a: RuleEdit.Action, dryRun: bool): Outcome {
    match a
    case Added => if dryRun then WouldAdd else Added
    case Updated => if dryRun then WouldUpdate else Updated
    case Skipped => Skipped
    case Refused => Refused
  }

  /** A dry run reports a write that it would make, and every other outcome as it is. */
  lemma ReportedExactly(existing: Option<string>, r: Rule, force: bool, dryRun: bool, hash: string -> Sha)
    ensures var e := RuleEdit.AddText(existing, r, force, hash);
      && (Report(e.action, dryRun) in {Added, Updated} <==> !dryRun && e.text.Some?)
      && (Report(e.action, dryRun) in {WouldAdd, WouldUpdate} <==> dryRun && e.text.Some?)
      && (Report(e.action, dryRun) in {Added, WouldAdd} <==> existing.None?)
      && (Report(e.action, dryRun) == Refused <==> existing.Some? && !force && !RuleEdit.Undiverged(existing.value, hash))
      && Report(e.action, dryRun) != Removed && Report(e.action, dryRun) != WouldRemove
  {
    RuleEdit.RefusedExactly(existing, r, force, hash);
    hide FindBlock, Content, Begin, Body, RuleEdit.Undiverged;
  }

  /** No call fails, no other process writes the target, and it may be replaced; other paths are free to change. */
  ghost predicate Smooth(disk: Disk, names: Names, target: string) reads disk {
    && NoFaults(disk.env, disk.count) && Untouched(disk.env, target, disk.count)
    && Unused(names, disk.files) && Regular(disk.files, target)
  }

  const NoTrace := Trace(0, None, None)

  /** Looking first changes nothing in the account. */
  lemma AccountedFrom(env: Env, log: seq<Call>, mid: seq<Call>, calls: seq<Call>, trace: Trace, target: string, names: Names)
    requires Since(log, mid, {}) && Accounted(env, mid, calls, trace, target, names)
    ensures Accounted(env, log, calls, trace, target, names)
  {
    hide Since, Own, Spared, Holds;
    SinceExtends(log, mid, {});
    SinceThen(log, mid, calls, {}, if trace.k.Some? then Own(names) + {target} else Own(names),
              if trace.k.Some? then Own(names) + {target} else Own(names));
    if trace.k.Some? {
      SinceThen(log, mid, calls[..trace.k.value], {}, Own(names), Own(names));
    }
  }

  lemma NothingToAccount(env: Env, log: seq<Call>, calls: seq<Call>, target: string, names: Names)
    requires Since(log, calls, {})
    ensures Accounted(env, log, calls, NoTrace, target, names)
  {
    WeakerSince(log, calls, Own(names));
  }

  /** The target after an edit, when no other process writes it. */
  lemma TargetAfter(disk: Disk, log: seq<Call>, was: Files, trace: Trace, target: string, names: Names)
    requires disk.Consistent() && Accounted(disk.env, log, disk.calls, trace, target, names)
    requires was == Prior(disk.initial, log, |log|) && SecretNames(names, target, disk.env)
    requires trace.k.Some? ==> Since(disk.calls[..trace.k.value + 1], disk.calls, {})
    ensures Untouched(disk.env, target, |log|) ==>
      At(disk.files, target) == if trace.k.Some? then At(disk.calls[trace.k.value].after, target) else At(was, target)
  {
    hide Linked, Prior, Since, Foreign, Untouched, Spared, Holds;
    if Untouched(disk.env, target, |log|) {
      if trace.k.Some? {
        LastingMoves(disk.env, target, |log|, trace.k.value + 1, None, None);
        disk.RestsAfter(trace.k.value, target);
      } else {
        disk.LeftToOthers(log, was, Own(names), target, At(was, target));
      }
    }
  }

  /** Look whether the target is there, and read it. */
  method Examine(disk: Disk, target: string) returns (existing: Result<Option<string>, EditError>)
    requires disk.Consistent()
    modifies disk
    ensures disk.Consistent() && Since(old(disk.calls), disk.calls, {}) && old(disk.calls) <= disk.calls
    ensures NoFaults(disk.env, old(disk.count)) && Untouched(disk.env, target, old(disk.count)) ==>
      && At(disk.files, target) == At(old(disk.files), target)
      && (Regular(old(disk.files), target) ==> existing == Ok(ContentAt(old(disk.files), target)))
  {
    hide Linked, Prior, Since, Foreign, Untouched, Lasting, Disk.Found;
    ghost var log, was, node := disk.calls, disk.files, At(disk.files, target);
    disk.StaysFound(target, |log|, node);
    var present := disk.Access(target);
    ghost var mid := disk.calls;
    disk.LeftToOthers(log, was, {}, target, node);
    if !present { return Ok(None); }
    disk.StaysFound(target, |log|, node);
    var content := disk.ReadFile(target);
    SinceThen(log, mid, disk.calls, {}, {}, {});
    disk.LeftToOthers(log, was, {}, target, node);
    if content.Err? { return Err(ReadFailed); }
    return Ok(Some(content.value));
  }

  /** Add the rule to one file. */
  method AddRule(disk: Disk, target: string, names: Names, r: Rule, force: bool, dryRun: bool, hash: string -> Sha)
    returns (result: Result<Outcome, EditError>, ghost trace: Trace)
    requires disk.Consistent() && SecretNames(names, target, disk.env)
    modifies disk
    ensures disk.Consistent() && Accounted(disk.env, old(disk.calls), disk.calls, trace, target, names)
    ensures dryRun ==> Since(old(disk.calls), disk.calls, {}) && trace == NoTrace
    ensures old(Smooth(disk, names, target)) ==>
      var e := RuleEdit.AddText(ContentAt(old(disk.files), target), r, force, hash);
      && result == Ok(Report(e.action, dryRun))
      && ContentAt(disk.files, target) == if !dryRun && e.text.Some? then e.text else ContentAt(old(disk.files), target)
  {
    hide Linked, Prior, Since, Foreign, Untouched, Lasting, Accounted, Content, FindBlock, RuleEdit.AddText;
    ghost var log, was := disk.calls, disk.files;
    trace := NoTrace;
    var existing := Examine(disk, target);
    ghost var mid, midFiles := disk.calls, disk.files;
    NothingToAccount(disk.env, log, mid, target, names);
    if existing.Err? { return Err(existing.error), trace; }
    var e;
    if existing.value.Some? {
      e := Decide(existing.value.value, r, force, hash);
    } else {
      e := RuleEdit.Edit(RuleEdit.Added, Some(Content(r)));
      NewText(r, force, hash);
    }
    if dryRun || e.text.None? { return Ok(Report(e.action, dryRun)), trace; }
    disk.LeftToOthers(log, was, {}, names.backup, None);
    disk.LeftToOthers(log, was, {}, names.backupTmp, None);
    disk.LeftToOthers(log, was, {}, names.tmp, None);
    LastingNow(disk.env, target, |mid|, At(midFiles, target));
    LastingMoves(disk.env, target, |log|, |mid|, None, None);
    var w;
    w, trace := ReplaceWithBackup(disk, target, names, e.text.value);
    TargetAfter(disk, mid, midFiles, trace, target, names);
    AccountedFrom(disk.env, log, mid, disk.calls, trace, target, names);
    if w.Err? { return Err(w.error), trace; }
    return Ok(Report(e.action, dryRun)), trace;
  }

  lemma NewText(r: Rule, force: bool, hash: string -> Sha)
    ensures RuleEdit.AddText(None, r, force, hash) == RuleEdit.Edit(RuleEdit.Added, Some(Content(r)))
  {
  }

  /** The target's bytes after a removal. */
  function AfterRemoval(existing: string): Option<string> {
    match RuleEdit.RemoveText(existing)
    case Untouched => Some(existing)
    case Deleted => None
    case Rewritten(text) => Some(text)
  }

  /** Remove every managed block from one file. */
  method RemoveRule(disk: Disk, target: string, names: Names, dryRun: bool)
    returns (result: Result<Outcome, EditError>, ghost trace: Trace)
    requires disk.Consistent() && SecretNames(names, target, disk.env)
    modifies disk
    ensures disk.Consistent() && Accounted(disk.env, old(disk.calls), disk.calls, trace, target, names)
    ensures dryRun ==> Since(old(disk.calls), disk.calls, {}) && trace == NoTrace && result == Ok(WouldRemove)
    ensures old(Smooth(disk, names, target)) && !dryRun ==>
      && result == Ok(Removed)
      && ContentAt(disk.files, target) == if target in old(disk.files) then AfterRemoval(old(disk.files)[target].content) else None
  {
    hide Linked, Prior, Since, Foreign, Untouched, Lasting, Accounted, FindBlock, RuleEdit.RemoveText;
    ghost var log, was := disk.calls, disk.files;
    trace := NoTrace;
    if dryRun {
      var present := disk.Access(target);
      NothingToAccount(disk.env, log, disk.calls, target, names);
      return Ok(WouldRemove), trace;
    }
    var existing := Examine(disk, target);
    ghost var mid, midFiles := disk.calls, disk.files;
    NothingToAccount(disk.env, log, mid, target, names);
    if existing.Err? { return Err(existing.error), trace; }
    if existing.value.None? { return Ok(Removed), trace; }
    disk.LeftToOthers(log, was, {}, names.backup, None);
    disk.LeftToOthers(log, was, {}, names.backupTmp, None);
    disk.LeftToOthers(log, was, {}, names.tmp, None);
    LastingNow(disk.env, target, |mid|, At(midFiles, target));
    LastingMoves(disk.env, target, |log|, |mid|, None, None);
    var removal := RuleEdit.Remove(existing.value.value);
    if removal.Untouched? { return Ok(Removed), trace; }
    var w;
    if removal.Deleted? {
      w, trace := DeleteWithBackup(disk, target, names);
    } else {
      w, trace := ReplaceWithBackup(disk, target, names, removal.text);
    }
    TargetAfter(disk, mid, midFiles, trace, target, names);
    AccountedFrom(disk.env, log, mid, disk.calls, trace, target, names);
    if w.Err? { return Err(w.error), trace; }
    return Ok(Removed), trace;
  }

  /** Check one file; nothing is written. */
  method CheckRule(disk: Disk, target: string, hash: string -> Sha) returns (result: Result<FileCheck, EditError>)
    requires disk.Consistent()
    modifies disk
    ensures disk.Consistent() && Since(old(disk.calls), disk.calls, {})
    ensures NoFaults(disk.env, old(disk.count)) && Untouched(disk.env, target, old(disk.count)) && Regular(old(disk.files), target)
      ==> result == Ok(match ContentAt(old(disk.files), target)
                       case None => Missing
                       case Some(s) => if Blocks(s) == [] then Untracked else Managed(RuleEdit.CheckText(s, hash)))
  {
    hide Linked, Prior, Since, Foreign, Untouched, FindBlock, RuleEdit.CheckBlock;
    var existing := Examine(disk, target);
    if existing.Err? { return Err(ReadFailed); }
    if existing.value.None? { return Ok(Missing); }
    var checks := RuleEdit.CheckContent(existing.value.value, hash);
    return Ok(if checks == [] then Untracked else Managed(checks));
  }

  // ---------- bytes that are lost ----------

  /** A file system with one file, on which another process writes that file once, before call 5. */
  function OneForeignWrite(target: string, names: Names, theirs: string): Env {
    Env({}, 2, {}, {}, 0, "", Own(names), map[5 := map[target := Some(File(1, theirs, {}, true))]])
  }

  lemma {:induction false} OnlyWriteIsLast(env: Env, path: string, call: nat, from: nat, end: nat)
    requires Writes(env, call, path) && forall n: nat :: Writes(env, n, path) ==> n == call
    ensures LastForeign(env, path, from, end) == if from <= call < end then Some(env.others[call][path]) else None
    decreases end
  {
    if from < end { OnlyWriteIsLast(env, path, call, from, end - 1); }
  }

  /** What a call finds at the target, counted from the start of the log. */
  lemma FoundFromStart(env: Env, initial: Files, calls: seq<Call>, at: nat, k: nat, paths: set<string>, path: string)
    requires Linked(env, initial, calls) && at < k <= |calls| && Since([], calls[..k], paths) && path !in paths
    ensures At(calls[at].before, path) == Left(env, path, 0, at + 1, At(initial, path))
  {
    hide Since, Linked, Left, Foreign;
    PrefixIsLinked(env, initial, calls, k);
    PathFollows(env, initial, [], calls[..k], paths, path, at);
    LeftThen(env, path, 0, at + 1, At(initial, path));
    FoundAt(env, initial, calls[..k], at, path);
  }

  /** The one foreign write is of the target, just before call 5. */
  ghost predicate OnlyTheirs(env: Env, target: string, theirs: string) {
    && (forall n: nat, p :: Writes(env, n, p) <==> n == 5 && p == target)
    && Writes(env, 5, target) && ContentOf(env.others[5][target]) == Some(theirs)
  }

  /** An edit from the start of the log, around which another process wrote the target before call 5. */
  ghost predicate EditedAround(disk: Disk, target: string, names: Names, ours: string, theirs: string, trace: Trace)
    reads disk
  {
    && OnlyTheirs(disk.env, target, theirs) && SecretNames(names, target, disk.env)
    && ContentAt(disk.initial, target) == Some(ours) && Linked(disk.env, disk.initial, disk.calls)
    && Accounted(disk.env, [], disk.calls, trace, target, names) && trace.k.Some?
    && trace.at == (if trace.copy.Some? then 3 else 2) && trace.at + (if trace.copy.Some? then 1 else 0) < trace.k.value
  }

  /** The copy is of the file before the foreign write. */
  lemma CopyIsOurs(disk: Disk, target: string, names: Names, ours: string, theirs: string, trace: Trace)
    requires EditedAround(disk, target, names, ours, theirs, trace)
    ensures trace.copy.Some? && trace.copy.value.content == ours
  {
    var k, calls, env := trace.k.value, disk.calls, disk.env;
    hide Linked, Prior, Since, Foreign, LastForeign, Writes, Spared, Holds;
    FoundFromStart(env, disk.initial, calls, trace.at, k, Own(names), target);
    OnlyWriteIsLast(env, target, 5, 0, trace.at + 1);
    OnlyWriteIsLast(env, target, 5, trace.at + 1, trace.at + 2);
  }

  /** The call that puts the rule in place finds the foreign bytes. */
  lemma TheirsAreFound(disk: Disk, target: string, names: Names, ours: string, theirs: string, trace: Trace)
    requires EditedAround(disk, target, names, ours, theirs, trace) && theirs != ours
    ensures trace.k.value < |disk.calls| && ContentAt(disk.calls[trace.k.value].before, target) == Some(theirs)
  {
    CopyIsOurs(disk, target, names, ours, theirs, trace);
    var k, calls, env := trace.k.value, disk.calls, disk.env;
    hide Linked, Prior, Since, Foreign, LastForeign, Writes, Spared, Holds, CopyOf;
    SinceFrom([], calls[..k], trace.at, Own(names));
    assert calls[..k][..trace.at] == calls[..trace.at];
    FoundLater(env, disk.initial, calls, trace.at, k, Own(names), target);
    OnlyWriteIsLast(env, target, 5, trace.at + 1, k + 1);
  }

  /** Afterwards no file holds the foreign bytes. */
  lemma TheirsAreGone(disk: Disk, target: string, names: Names, ours: string, theirs: string, text: string, trace: Trace)
    requires disk.Consistent() && EditedAround(disk, target, names, ours, theirs, trace) && theirs != ours && theirs != text
    requires var k := trace.k.value; k < |disk.calls| ==>
      Since(disk.calls[..k + 1], disk.calls, {}) && ContentAt(disk.calls[k].after, target) == Some(text)
    requires names.tmp !in disk.files && names.backupTmp !in disk.files
    requires forall p | p != target :: At(disk.initial, p).None?
    ensures ContentAt(disk.files, target) == Some(text) && ContentAt(disk.files, names.backup) == Some(ours)
    ensures forall p :: ContentAt(disk.files, p) != Some(theirs)
  {
    hide Linked, Prior, Since, Foreign, Untouched, LastForeign, Writes, Own, EditedAround, At;
    EditFacts(disk, target, names, ours, theirs, trace);
    var k := trace.k.value;
    CopyIsOurs(disk, target, names, ours, theirs, trace);
    NothingElsewhere(disk, target, names, ours, theirs, trace);
    disk.RestsAfter(k, target);
    Remains(disk, k, {target, names.tmp}, names.backup);
    GoneEverywhere(disk.files, names, target, theirs);
  }

  lemma EditFacts(disk: Disk, target: string, names: Names, ours: string, theirs: string, trace: Trace)
    requires EditedAround(disk, target, names, ours, theirs, trace) && theirs != ours
    ensures trace.k.Some? && var k := trace.k.value;
      && k < |disk.calls| && Since(disk.calls[..k], disk.calls, {target, names.tmp})
      && Untouched(disk.env, target, k + 1) && names.backup in disk.env.secret
      && names.backup != target && names.backup != names.tmp
      && (trace.copy.Some? ==> ContentAt(disk.calls[k].before, names.backup) == Some(trace.copy.value.content))
  {
    var k := trace.k.value;
    TheirsAreFound(disk, target, names, ours, theirs, trace);
    hide Linked, Since, Untouched, LastForeign, Writes, Spared, CopyOf, Own;
    CopyIsOurs(disk, target, names, ours, theirs, trace);
    LateIsUntouched(disk.env, target, k + 1);
  }

  lemma GoneEverywhere(files: Files, names: Names, target: string, theirs: string)
    requires forall p | p !in Own(names) + {target} :: At(files, p).None?
    requires names.tmp !in files && names.backupTmp !in files
    requires ContentAt(files, target) != Some(theirs) && ContentAt(files, names.backup) != Some(theirs)
    ensures forall p :: ContentAt(files, p) != Some(theirs)
  {
    hide Own;
    forall p ensures ContentAt(files, p) != Some(theirs) {
      OwnMembers(names, target, p);
    }
  }

  lemma OwnMembers(names: Names, target: string, path: string)
    ensures path in Own(names) + {target} ==>
      path == names.backup || path == names.backupTmp || path == names.tmp || path == target
  {
  }

  lemma NothingElsewhere(disk: Disk, target: string, names: Names, ours: string, theirs: string, trace: Trace)
    requires disk.Consistent() && EditedAround(disk, target, names, ours, theirs, trace)
    requires forall p | p != target :: At(disk.initial, p).None?
    ensures forall p | p !in Own(names) + {target} :: At(disk.files, p).None?
  {
    var start := disk.initial;
    assert Prior(start, [], 0) == start;
    hide Linked, Prior, Since, Foreign, Untouched, LastForeign, Writes, Destroys, Own;
    forall p | p !in Own(names) + {target} ensures At(disk.files, p).None? {
      ElsewhereUntouched(disk.env, target, p);
      disk.LeftToOthers([], start, Own(names) + {target}, p, At(start, p));
    }
  }

  lemma OnlyOneWrite(target: string, names: Names, theirs: string)
    requires target !in Own(names)
    ensures var env := OneForeignWrite(target, names, theirs);
      OnlyTheirs(env, target, theirs) && env.others[5][target] == Some(File(1, theirs, {}, true))
  {
  }

  lemma InPlace(env: Env, target: string, node: Option<Node>, theirs: string)
    requires forall n: nat :: Writes(env, n, target) ==> n == 5
    requires Writes(env, 5, target) && env.others[5][target] == Some(File(1, theirs, {}, true))
    requires node.Some? && node.value.File? && node.value.ino == 1
    ensures Lasting(env, target, 0, node)
  {
  }

  lemma LateIsUntouched(env: Env, path: string, from: nat)
    requires from > 5 && forall n: nat, p :: Writes(env, n, p) ==> n == 5
    ensures Untouched(env, path, from)
  {
  }

  lemma ElsewhereUntouched(env: Env, target: string, path: string)
    requires path != target && forall n: nat, p :: Writes(env, n, p) ==> p == target
    ensures Untouched(env, path, 0)
  {
  }

  /** A secret path that the calls from `k` on do not change. */
  lemma Remains(disk: Disk, k: nat, paths: set<string>, path: string)
    requires disk.Consistent() && k < |disk.calls| && Since(disk.calls[..k], disk.calls, paths)
    requires path in disk.env.secret && path !in paths
    ensures At(disk.files, path) == At(disk.calls[k].before, path)
  {
    hide Linked, Prior, Since;
    PrefixPrior(disk.initial, disk.calls, k);
    disk.LeftToOthers(disk.calls[..k], Prior(disk.initial, disk.calls, k), paths, path, None);
    FoundAt(disk.env, disk.initial, disk.calls, k, path);
  }

  /** Replacing the one file, around which another process writes it before call 5. */
  method ReplaceAround(disk: Disk, target: string, names: Names, ours: string, theirs: string, text: string)
    returns (ghost trace: Trace)
    requires disk.Consistent() && disk.calls == [] && disk.count == 0 && disk.initial == disk.files
    requires SecretNames(names, target, disk.env) && NoFaults(disk.env, 0) && OnlyTheirs(disk.env, target, theirs)
    requires disk.files == map[target := File(1, ours, {}, true)]
    requires Lasting(disk.env, target, 0, At(disk.files, target))
    modifies disk
    ensures disk.Consistent() && EditedAround(disk, target, names, ours, theirs, trace)
    ensures var k := trace.k.value;
      && k < |disk.calls| && ContentAt(disk.calls[k].after, target) == Some(text)
      && Since(disk.calls[..k + 1], disk.calls, {})
    ensures names.tmp !in disk.files && names.backupTmp !in disk.files
  {
    hide Linked, Since, LastForeign, Lasting, Accounted, OnlyTheirs, Prior, Own;
    var r;
    r, trace := ReplaceWithBackup(disk, target, names, text);
  }

  /**
   Bytes that another process writes after the backup's read and before the rename are in no file
   afterwards: the target holds the rule, the backup what was read.
   */
  method ForeignBytesAreLost(target: string, names: Names, ours: string, theirs: string, text: string)
    returns (disk: Disk, ghost k: nat)
    requires SecretNames(names, target, OneForeignWrite(target, names, theirs)) && theirs != ours && theirs != text
    ensures fresh(disk) && disk.env == OneForeignWrite(target, names, theirs)
    ensures disk.initial == map[target := File(1, ours, {}, true)]
    ensures k < |disk.calls| && ContentAt(disk.calls[k].before, target) == Some(theirs)
    ensures ContentAt(disk.files, target) == Some(text) && ContentAt(disk.files, names.backup) == Some(ours)
    ensures forall p :: ContentAt(disk.files, p) != Some(theirs)
  {
    ghost var start := map[target := File(1, ours, {}, true)];
    disk := new Disk(map[target := File(1, ours, {}, true)], OneForeignWrite(target, names, theirs));
    OnlyOneWrite(target, names, theirs);
    InPlace(disk.env, target, At(start, target), theirs);
    hide Linked, Since, LastForeign, Lasting, Writes, Prior, Own, Accounted, EditedAround, OnlyTheirs;
    ghost var trace := ReplaceAround(disk, target, names, ours, theirs, text);
    k := trace.k.value;
    hide OneForeignWrite, At, SecretNames, Disk.Consistent;
    TheirsAreFound(disk, target, names, ours, theirs, trace);
    TheirsAreGone(disk, target, names, ours, theirs, text, trace);
  }
}
