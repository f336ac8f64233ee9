/** Atomic upload: stage under a sibling name, then replace the destination by one rename.  Any request
    may take effect on the server and still report failure, because its reply was lost; and the
    uploading process may be gone after any request. */
module AtomicUpload {
  import opened Wrappers
  import opened Paths

  datatype RemoteFile = RemoteFile(data: seq<bv8>, mode: nat)

  /** Mode 0600. */
  const PRIVATE_MODE: nat := 384

  const BUFFER: nat := 32 * 1024

  // ---------- The server ----------

  class Server {
    /** Nothing fails here, and the client stays. */
    const reliable: bool

    /** A file that is there is unlinked when that is asked for, even where other things fail. */
    const unlinks: bool

    var files: map<string, RemoteFile>

    predicate Unlinks() { reliable || unlinks }

    function FileAt(path: string): Option<RemoteFile>
      reads this
    {
      if path in files then Some(files[path]) else None
    }

    /** Anything that can fail without touching a file: deadlines, opening the subsystem, closing. */
    method Attempt() returns (fate: Fate)
      ensures reliable ==> fate == Done
    {
      fate := *;
      if reliable { fate := Done; }
    }

    /** Exclusive creation. */
    method Open(path: string) returns (fate: Fate)
      modifies `files
      ensures reliable ==> fate != Crashed && (path !in old(files) ==> fate == Done)
      ensures fate == Done ==> path !in old(files)
      ensures fate == Done ==> files == old(files)[path := RemoteFile([], PRIVATE_MODE)]
      ensures files == old(files) || (path !in old(files) && files == old(files)[path := RemoteFile([], PRIVATE_MODE)])
    {
      fate := *;
      if reliable { fate := Done; }
      var happened: bool := *;
      if path in files {
        fate := if fate == Done then Failed else fate;
      } else if fate == Done || happened {
        files := files[path := RemoteFile([], PRIVATE_MODE)];
      }
    }

    /** Append some of the bytes; the count is only known when the reply arrives, and some of the bytes that
        it counts may have been lost. */
    method Append(path: string, bytes: seq<bv8>) returns (fate: Fate, count: nat, ghost kept: nat)
      requires path in files
      modifies `files
      ensures kept <= count <= |bytes| && (reliable && bytes != [] ==> fate == Done && count > 0)
      ensures reliable ==> kept == count
      ensures files == old(files)[path := old(files[path]).(data := old(files[path]).data + bytes[..kept])]
    {
      fate := *;
      if reliable { fate := Done; }
      assert |bytes| <= |bytes| && (bytes != [] ==> |bytes| > 0);
      count :| count <= |bytes| && (reliable && bytes != [] ==> count > 0);
      var stored: nat := count;
      if !reliable { stored := *; }
      if stored > count { stored := count; }
      kept := stored;
      files := files[path := files[path].(data := files[path].data + bytes[..stored])];
    }

    method Size(path: string) returns (fate: Fate, size: Option<nat>)
      requires path in files
      ensures reliable ==> fate == Done && size.Some?
      ensures fate == Done && size.Some? ==> size.value == |files[path].data|
    {
      fate := *;
      if reliable { fate := Done; }
      var known: bool := *;
      size := if known || reliable then Some(|files[path].data|) else None;
    }

    method SetMode(path: string, mode: nat) returns (fate: Fate)
      requires path in files
      modifies `files
      ensures reliable ==> fate == Done
      ensures fate == Done ==> files == old(files)[path := old(files[path]).(mode := mode)]
      ensures files == old(files) || files == old(files)[path := old(files[path]).(mode := mode)]
    {
      fate := *;
      if reliable { fate := Done; }
      var happened: bool := *;
      if fate == Done || happened {
        files := files[path := files[path].(mode := mode)];
      }
    }

    /** The POSIX rename extension: replaces the destination in a single step. */
    method Rename(source: string, target: string) returns (fate: Fate)
      requires source in files && source != target
      modifies `files
      ensures reliable ==> fate == Done
      ensures fate == Done ==> files == (old(files) - {source})[target := old(files[source])]
      ensures files == old(files) || files == (old(files) - {source})[target := old(files[source])]
    {
      fate := *;
      if reliable { fate := Done; }
      var happened: bool := *;
      if fate == Done || happened {
        files := (files - {source})[target := files[source]];
      }
    }

    /** Unlinking an absent file fails. */
    method Unlink(path: string) returns (fate: Fate)
      modifies `files
      ensures Unlinks() ==> fate == if path in old(files) then Done else Failed
      ensures fate == Done ==> path in old(files) && files == old(files) - {path}
      ensures files == old(files) || files == old(files) - {path}
    {
      fate := *;
      if Unlinks() { fate := Done; }
      var happened: bool := *;
      if path !in files {
        fate := if fate == Done then Failed else fate;
      } else if fate == Done || happened {
        files := files - {path};
      }
    }
  }

  /** Read the next part of the local source; nothing is left exactly when nothing is read. */
  method ReadSource(reliable: bool, source: seq<bv8>, at: nat, limit: nat) returns (fate: Fate, count: nat)
    requires at <= |source| && limit > 0
    ensures reliable ==> fate == Done
    ensures count <= limit && at + count <= |source|
    ensures fate == Done ==> (count == 0 <==> at == |source|)
  {
    fate := *;
    if reliable { fate := Done; }
    var left := if |source| - at < limit then |source| - at else limit;
    assert left <= left && (left > 0 ==> left > 0);
    count :| count <= left && (left > 0 ==> count > 0);
  }

  // ---------- Names ----------

  /** The directory that the destination is in, if it names a file there. */
  function ParentPath(remote: string): Option<string> {
    if '\0' in remote || '\\' in remote then None
    else
      var start := NameStart(remote, |remote|);
      var name := remote[start..];
      if name in {"", ".", ".."} then None
      else if start == 0 then Some(".")
      else if start == 1 then Some("/")
      else Some(remote[..start - 1])
  }

  function TemporaryPath(parent: string, name: string): string {
    TrimSlashes(parent) + "/" + name
  }

  predicate IsName(name: string) { '/' !in name && name !in {"", ".", ".."} }

  function LastName(remote: string): string { remote[NameStart(remote, |remote|)..] }

  lemma ParentShape(remote: string)
    requires ParentPath(remote).Some?
    ensures IsName(LastName(remote))
    ensures var parent, last := ParentPath(remote).value, LastName(remote);
      || (parent == "." && remote == last)
      || (parent == "/" && remote == "/" + last)
      || (parent != "" && remote == parent + "/" + last)
  {
    var start := NameStart(remote, |remote|);
    if start == 1 {
      assert remote == "/" + LastName(remote);
    } else if start > 1 {
      assert remote == remote[..start - 1] + "/" + LastName(remote);
    }
  }

  /** Every proper file name is accepted, in the current directory, in the root and in any other. */
  lemma DestinationIsAccepted(dir: string, name: string)
    requires IsName(name) && '\0' !in dir + name && '\\' !in dir + name
    ensures ParentPath(name) == Some(".") && ParentPath("/" + name) == Some("/")
    ensures dir != "" ==> ParentPath(dir + "/" + name) == Some(dir)
  {
    NameBehindSlash("", name);
    NameBehindSlash(dir, name);
    assert forall i | 0 <= i < |name| :: name[i] in name && name[i] in dir + name;
    assert forall c | c in dir :: c in dir + name;
    assert NameStart(name, |name|) == 0 && name[0..] == name && "" + "/" + name == "/" + name;
    hide NameStart;
    assert (dir + "/" + name)[..|dir|] == dir;
  }

  lemma NameBehindSlash(dir: string, name: string)
    requires '/' !in name
    ensures NameStart(dir + "/" + name, |dir + "/" + name|) == |dir| + 1
    ensures (dir + "/" + name)[|dir| + 1..] == name
  {
    var remote := dir + "/" + name;
    var start := NameStart(remote, |remote|);
    assert remote[|dir|] == '/';
    assert forall i | |dir| < i < |remote| :: remote[i] == name[i - |dir| - 1] && remote[i] in name;
  }

  /** The staging file is in the directory of the destination. */
  lemma StagedBeside(remote: string, name: string)
    requires ParentPath(remote).Some? && IsName(name)
    ensures var parent := Resolve(ParentPath(remote).value);
      && Resolve(remote) == Place(parent.absolute, parent.names + [LastName(remote)])
      && Resolve(TemporaryPath(ParentPath(remote).value, name)) == Place(parent.absolute, parent.names + [name])
  {
    ParentShape(remote);
    hide Walk, Split, TrimSlashes, Resolve, LastName, ParentPath, TemporaryPath;
    var parent, last := ParentPath(remote).value, LastName(remote);
    TrimParent(parent, name);
    RelativeName(last);
    RootName(last);
    if remote == parent + "/" + last { ResolveChild(parent, last); }
  }

  lemma StagedApart(remote: string, name: string)
    requires ParentPath(remote).Some? && IsName(name) && name != LastName(remote)
    ensures TemporaryPath(ParentPath(remote).value, name) != remote
  {
    StagedBeside(remote, name);
    hide *;
    var names := Resolve(ParentPath(remote).value).names;
    var last := LastName(remote);
    assert (names + [name])[|names|] != (names + [last])[|names|];
  }

  lemma RelativeName(name: string)
    requires IsName(name)
    ensures Resolve(name) == Place(false, [name]) && Resolve(".") == Place(false, [])
  {
    SplitName(name);
    SplitName(".");
    hide Split;
    assert Walk(false, [], ["."]) == [];
    assert Walk(false, [], [name]) == Go(false, [], name) == [name];
  }

  lemma RootName(name: string)
    requires IsName(name)
    ensures Resolve("/" + name) == Place(true, [name]) && Resolve("/") == Place(true, [])
  {
    SplitName(name);
    SplitStep('/', name);
    SplitStep('/', "");
    assert ['/'] + "" == "/";
    assert Walk(true, [], ["", name]) == Walk(true, [], [name]) == [name];
    assert Walk(true, [], ["", ""]) == [];
  }

  lemma TrimParent(parent: string, name: string)
    requires parent != "" && IsName(name)
    ensures var p := Resolve(parent); Resolve(TemporaryPath(parent, name)) == Place(p.absolute, p.names + [name])
  {
    hide Walk, Split;
    if TrimSlashes(parent) == "" {
      OnlySlashes(parent);
      RootName(name);
      assert "" + "/" + name == "/" + name;
    } else {
      ResolveTrimmed(parent);
      ResolveChild(TrimSlashes(parent), name);
    }
  }

  lemma {:induction false} OnlySlashes(s: string)
    requires s != "" && TrimSlashes(s) == ""
    ensures Resolve(s) == Place(true, [])
  {
    assert s[0] == '/';
    if |s| == 1 {
      assert s == "/";
      RootName("x");
    } else {
      var t := s[..|s| - 1];
      assert s[|s| - 1] == '/';
      OnlySlashes(t);
      SplitAround(t, "");
      assert s == t + "/" + "";
      WalkOn(true, [], Split(t), [""]);
    }
  }

  // ---------- The upload ----------

  datatype Creation = NotAttempted | Unconfirmed | Confirmed

  datatype Outcome =
    | Rejected
    | Uploaded(sent: nat)
    | NotUploaded(creation: Creation, renameStarted: bool, cleaned: Option<bool>)
    | Gone

  /** Nothing has changed but that a staging file was added where there was none. */
  ghost predicate OnlyStaged(before: map<string, RemoteFile>, after: map<string, RemoteFile>, temporary: string) {
    after == before || (temporary !in before && temporary in after && after == before[temporary := after[temporary]])
  }

  /** The destination was replaced by the whole source. */
  ghost predicate Replaced(before: map<string, RemoteFile>, after: map<string, RemoteFile>, temporary: string,
                           remote: string, source: seq<bv8>, size: nat, mode: nat)
  {
    && size <= |source| && temporary !in before
    && after == before[remote := RemoteFile(source[..size], mode)]
  }

  /** No more than what was sent has arrived; and all of it, if as much. */
  ghost predicate Received(data: seq<bv8>, source: seq<bv8>, sent: nat, reliable: bool) {
    && |data| <= sent <= |source|
    && (|data| == sent ==> data == source[..sent])
    && (reliable ==> |data| == sent)
  }

  lemma ReceivesMore(data: seq<bv8>, source: seq<bv8>, from: nat, to: nat, count: nat, kept: nat, reliable: bool)
    requires Received(data, source, from, reliable) && from <= to <= |source| && kept <= count <= to - from
    requires reliable ==> kept == count
    ensures Received(data + source[from..to][..kept], source, from + count, reliable)
  {
    assert kept == count ==> source[..from] + source[from..to][..kept] == source[..from + count];
  }

  /** Copy the source to the staging file, in parts of any size. */
  method SendSource(server: Server, temporary: string, source: seq<bv8>, size: nat) returns (fate: Fate, sent: nat)
    requires temporary in server.files && server.files[temporary] == RemoteFile([], PRIVATE_MODE)
    modifies server`files
    ensures temporary in server.files && server.files[temporary].mode == PRIVATE_MODE
    ensures server.files == old(server.files)[temporary := server.files[temporary]]
    ensures fate == Done ==> sent == size <= |source| && |server.files[temporary].data| <= size
    ensures fate == Done && |server.files[temporary].data| == size ==> server.files[temporary].data == source[..size]
    ensures server.reliable ==> fate != Crashed && (size <= |source| ==> fate == Done)
    ensures server.reliable && fate == Done ==> |server.files[temporary].data| == size
  {
    sent := 0;
    fate := Done;
    while sent < size
      invariant sent <= size && sent <= |source| && fate == Done
      invariant temporary in server.files && server.files[temporary].mode == PRIVATE_MODE
      invariant Received(server.files[temporary].data, source, sent, server.reliable)
      invariant server.files == old(server.files)[temporary := server.files[temporary]]
    {
      fate := server.Attempt();
      if fate != Done { return; }
      var count;
      fate, count := ReadSource(server.reliable, source, sent, if size - sent < BUFFER then size - sent else BUFFER);
      if fate != Done { return; }
      if count == 0 { return Failed, sent; }  // the source shrank
      var written := 0;
      while written < count
        invariant written <= count && fate == Done
        invariant temporary in server.files && server.files[temporary].mode == PRIVATE_MODE
        invariant Received(server.files[temporary].data, source, sent + written, server.reliable)
        invariant server.files == old(server.files)[temporary := server.files[temporary]]
      {
        fate := server.Attempt();
        if fate != Done { return; }
        var part;
        ghost var kept;
        ghost var data := server.files[temporary].data;
        fate, part, kept := server.Append(temporary, source[sent + written..sent + count]);
        ReceivesMore(data, source, sent + written, sent + count, part, kept, server.reliable);
        if fate != Done { return; }
        if part == 0 { return Failed, sent; }  // no further bytes accepted
        written := written + part;
      }
      sent := sent + count;
    }
  }

  /** Create, fill, verify and close the staging file. */
  method Stage(server: Server, temporary: string, source: seq<bv8>, size: nat, mode: nat)
    returns (fate: Fate, creation: Creation, sent: nat)
    modifies server`files
    ensures OnlyStaged(old(server.files), server.files, temporary)
    ensures creation == NotAttempted ==> server.files == old(server.files)
    ensures creation == Confirmed ==> temporary !in old(server.files)
    ensures fate == Done ==> sent == size <= |source| && creation == Confirmed
    ensures fate == Done ==> server.files == old(server.files)[temporary := RemoteFile(source[..size], mode)]
    ensures creation == Confirmed ==> temporary in server.files
    ensures server.reliable ==> fate != Crashed && creation != NotAttempted
    ensures server.reliable ==> (fate == Done <==> size <= |source| && temporary !in old(server.files))
    ensures server.reliable ==> (creation == Confirmed <==> temporary !in old(server.files))
  {
    creation, sent := NotAttempted, 0;
    fate := server.Attempt();  // choose a name, open the subsystem
    if fate != Done { return; }
    creation := Unconfirmed;
    fate := server.Open(temporary);
    if fate != Done { return; }
    creation := Confirmed;
    fate, sent := SendSource(server, temporary, source, size);
    if fate != Done { return; }
    fate := server.Attempt();
    if fate != Done { return; }
    var stat;
    fate, stat := server.Size(temporary);
    if fate != Done { return; }
    if stat != Some(size) { fate := Failed; return; }
    fate := server.Attempt();
    if fate != Done { return; }
    fate := server.SetMode(temporary, mode);
    if fate != Done { return; }
    fate := server.Attempt();  // close
  }

  /** Stage, then replace the destination. */
  method StageAndRename(server: Server, temporary: string, remote: string, source: seq<bv8>, size: nat, mode: nat)
    returns (fate: Fate, creation: Creation, renameStarted: bool, sent: nat)
    requires temporary != remote
    modifies server`files
    ensures server.reliable ==> fate != Crashed && (fate != Done ==> !renameStarted) && creation != NotAttempted
    ensures server.reliable ==> (fate == Done <==> size <= |source| && temporary !in old(server.files))
    ensures server.reliable ==> (creation == Confirmed <==> temporary !in old(server.files))
    ensures creation == Confirmed && !renameStarted ==> temporary in server.files
    ensures fate == Done ==> sent == size && creation == Confirmed
    ensures fate == Done ==> Replaced(old(server.files), server.files, temporary, remote, source, size, mode)
    ensures fate != Done ==>
      || OnlyStaged(old(server.files), server.files, temporary)
      || (renameStarted && Replaced(old(server.files), server.files, temporary, remote, source, size, mode))
    ensures creation == NotAttempted ==> server.files == old(server.files)
    ensures creation == Confirmed ==> temporary !in old(server.files)
  {
    renameStarted := false;
    fate, creation, sent := Stage(server, temporary, source, size, mode);
    if fate != Done { return; }
    renameStarted := true;
    fate := server.Attempt();  // a new channel for the rename
    if fate != Done { return; }
    fate := server.Rename(temporary, remote);
    assert old(server.files)[temporary := RemoteFile(source[..size], mode)] - {temporary} == old(server.files);
  }

  /** The whole protocol.  `name` is the random name that was drawn. */
  method Upload(server: Server, remote: string, name: string, source: seq<bv8>, size: nat,
                mode: nat) returns (outcome: Outcome)
    requires IsName(name) && (ParentPath(remote).Some? ==> name != LastName(remote))
    modifies server`files
    ensures outcome == Rejected <==> ParentPath(remote) == None
    ensures outcome == Rejected ==> server.files == old(server.files)
    // Whatever happens, the destination is the old file or the complete new one.
    ensures server.FileAt(remote) == old(server.FileAt(remote))
         || (size <= |source| && server.FileAt(remote) == Some(RemoteFile(source[..size], mode)))
    ensures outcome.Uploaded? ==>
        && outcome.sent == size <= |source|
        && server.files == old(server.files)[remote := RemoteFile(source[..size], mode)]
    ensures outcome.NotUploaded? && !outcome.renameStarted ==> server.FileAt(remote) == old(server.FileAt(remote))
    // No other file is touched; one that was already there under the staging name survives.
    ensures ParentPath(remote).Some? ==> forall p | p != remote && p != TemporaryPath(ParentPath(remote).value, name) ::
        server.FileAt(p) == old(server.FileAt(p))
    ensures ParentPath(remote).Some? ==> var temporary := TemporaryPath(ParentPath(remote).value, name);
        temporary in old(server.files) ==> server.FileAt(temporary) == old(server.FileAt(temporary))
    // What is reported about the staging file is so.
    ensures outcome.NotUploaded? ==> (outcome.cleaned.Some? <==> outcome.creation == Confirmed)
    ensures outcome.NotUploaded? && outcome.creation == NotAttempted ==> server.files == old(server.files)
    ensures outcome.NotUploaded? && outcome.cleaned == Some(true) ==>
        TemporaryPath(ParentPath(remote).value, name) !in server.files
    // A staging file that is known to be its own is cleaned up, whatever else failed.
    ensures outcome.NotUploaded? && outcome.creation == Confirmed && server.Unlinks() ==>
        TemporaryPath(ParentPath(remote).value, name) !in server.files
    ensures outcome.NotUploaded? && outcome.creation == Confirmed && server.Unlinks() && !outcome.renameStarted ==>
        outcome.cleaned == Some(true) && server.files == old(server.files)
    // Where nothing fails, only a file under the staging name or a source that is too short is in the way.
    ensures ParentPath(remote).Some? && server.reliable ==>
        var free := TemporaryPath(ParentPath(remote).value, name) !in old(server.files);
        outcome == if free && size <= |source| then Uploaded(size)
                   else NotUploaded(if free then Confirmed else Unconfirmed, false, if free then Some(true) else None)
  {
    var parent := ParentPath(remote);
    if parent.None? { return Rejected; }
    StagedApart(remote, name);
    var temporary := TemporaryPath(parent.value, name);
    hide ParentPath, TemporaryPath, NameStart, Resolve;
    var fate, creation, renameStarted, sent := StageAndRename(server, temporary, remote, source, size, mode);
    if fate == Done { return Uploaded(sent); }
    if fate == Crashed { return Gone; }
    if creation != Confirmed { return NotUploaded(creation, renameStarted, None); }
    var cleanup := server.Unlink(temporary);
    if cleanup == Crashed { return Gone; }
    outcome := NotUploaded(creation, renameStarted, Some(cleanup == Done));
  }
}
