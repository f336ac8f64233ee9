/** Publishing a state file: staged next to its destination, then put in place by one rename. */
module Storage {
  import opened Wrappers
  import opened Paths
  import opened Configuration
  import opened HomeState

  /** `NotWritten` stands for any error for which `write_was_published` is false, `Published` for the
      one for which it is true. */
  datatype Written = Written | NotWritten | Published | WriteCrashed

  /** The staging file: a hidden sibling whose name carries a stamp. */
  function TempSibling(path: string, stamp: string): string {
    var start := NameStart(path, |path|);
    path[..start] + "." + path[start..] + "." + stamp + ".tmp"
  }

  lemma TempIsAnother(path: string, stamp: string)
    ensures TempSibling(path, stamp) != path
  {
    assert |TempSibling(path, stamp)| > |path|;
  }

  /** The complete new contents, private and synced. */
  predicate IsNew(file: Option<File>, contents: Config) {
    file.Some? && file.value == File(Whole(contents), true, true, file.value.listed)
  }

  /** Write the staging file. */
  method WriteTemp(home: Home, temp: string, contents: Config) returns (fate: Fate)
    modifies home`files
    ensures home.reliable ==> fate != Crashed && (temp !in old(home.files) ==> fate == Done)
    ensures fate == Done ==>
      temp !in old(home.files) && home.files == old(home.files)[temp := File(Whole(contents), true, true, false)]
    ensures forall p | p != temp :: home.FileAt(p) == old(home.FileAt(p))
    ensures temp in old(home.files) ==> fate != Done && home.files == old(home.files)
  {
    fate := home.CreateNew(temp);
    if fate != Done { return; }
    fate := home.WriteAll(temp, contents);
    if fate != Done { return; }
    fate := home.SyncFile(temp);
  }

  /** Everything before the rename. */
  method Prepare(home: Home, temp: string, contents: Config) returns (fate: Fate)
    modifies home`files
    ensures home.reliable ==> fate != Crashed && (temp !in old(home.files) ==> fate == Done)
    ensures fate == Done ==>
      temp !in old(home.files) && home.files == old(home.files)[temp := File(Whole(contents), true, true, false)]
    ensures forall p | p != temp :: home.FileAt(p) == old(home.FileAt(p))
    ensures temp in old(home.files) ==> fate != Done && home.files == old(home.files)
  {
    fate := home.Attempt();  // create the parent directory
    if fate == Done { fate := WriteTemp(home, temp, contents); }
    if fate == Done { fate := home.SetOwnerOnly(temp); }
    if fate == Done { fate := home.Attempt(); }  // reopen the staging file
    if fate == Done { fate := home.SyncFile(temp); }
  }

  /** Whatever step fails and wherever a crash falls, the destination holds its complete old contents
      or the complete new ones.  Success and `Published` mean new; every other error means old, provided
      that a rename that reports a failure has had no effect; new contents are private and synced; no other
      file is touched but a staging file that was not there. */
  method WriteOwnerOnlyAtomic(home: Home, path: string, contents: Config, stamp: string) returns (written: Written)
    modifies home`files
    ensures home.FileAt(path) == old(home.FileAt(path)) || IsNew(home.FileAt(path), contents)
    ensures home.reliable ==> written == if TempSibling(path, stamp) in old(home.files) then NotWritten else Written
    ensures written in {Written, Published} ==> IsNew(home.FileAt(path), contents)
    ensures written == Written ==> home.FileAt(path) == Some(File(Whole(contents), true, true, true))
    ensures written == NotWritten && home.truthful ==> home.FileAt(path) == old(home.FileAt(path))
    ensures forall p | p in old(home.files) && p != path :: home.FileAt(p) == old(home.FileAt(p))
  {
    var temp := TempSibling(path, stamp);
    TempIsAnother(path, stamp);
    hide TempSibling;
    var fate := Prepare(home, temp, contents);
    if fate == Done { fate := home.Rename(temp, path); }
    if fate == Failed { return NotWritten; }
    if fate == Crashed { return WriteCrashed; }
    fate := home.SyncParent(path);
    written := match fate
      case Done => Written
      case Failed => Published
      case Crashed => WriteCrashed;
  }

  /** Nothing stands in the way of a save: no fault, no staging file in the way, no change since the load. */
  ghost predicate Undisturbed(home: Home, files: map<string, File>, path: string, revision: Option<Doc>,
                              stamp: string) {
    && home.reliable
    && TempSibling(path, stamp) !in files
    && revision == if path in files then Some(files[path].doc) else None
  }

  /** Save the working copy unless the file is no longer what was loaded. */
  method SaveConfigIfUnchanged(home: Home, path: string, revision: Option<Doc>,
                               stamp: string) returns (written: Written)
    modifies home`files
    ensures home.FileAt(path) == old(home.FileAt(path)) || IsNew(home.FileAt(path), home.config)
    ensures old(home.DocAt(path)) != revision ==> written in {NotWritten, WriteCrashed} && home.files == old(home.files)
    ensures home.reliable ==>
      written == if Undisturbed(home, old(home.files), path, revision, stamp) then Written else NotWritten
    ensures written in {Written, Published} ==> IsNew(home.FileAt(path), home.config)
    ensures written == Written ==> home.FileAt(path) == Some(File(Whole(home.config), true, true, true))
    ensures written == NotWritten && home.truthful ==> home.FileAt(path) == old(home.FileAt(path))
    ensures forall p | p in old(home.files) && p != path :: home.FileAt(p) == old(home.FileAt(p))
  {
    var fate := home.Attempt();  // read the file again
    if fate == Failed { return NotWritten; }
    if fate == Crashed { return WriteCrashed; }
    if home.DocAt(path) != revision { return NotWritten; }
    written := WriteOwnerOnlyAtomic(home, path, home.config, stamp);
  }
}
