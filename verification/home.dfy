/** One home as its commands see it: the state files, the credential store, and the working copy of
    the configuration.  Every effect has three outcomes, and what it leaves behind when it is not
    confirmed is left open: a failed effect may have happened, and a crash may fall before or after.
    Whether that goes for the rename that publishes, too, is a property of the home. */
module HomeState {
  import opened Wrappers
  import opened Configuration

  /** The contents of a state file: cut short, or complete. */
  datatype Doc = Torn | Whole(config: Config)

  /** A file: what it holds, whether only its owner can read it, and whether its contents and attributes, and its
      entry in the directory, have been synced. */
  datatype File = File(doc: Doc, ownerOnly: bool, synced: bool, listed: bool)

  class Home {
    /** Nothing fails here and nothing crashes. */
    const reliable: bool

    /** A rename that reports a failure has left the destination as it was. */
    const truthful: bool

    /** Entries that the store may refuse to delete, in a home where things fail. */
    const stuck: set<Entry>

    /** The entry is deleted when that is asked for. */
    predicate Deletes(entry: Entry) { reliable || entry !in stuck }

    var files: map<string, File>
    var store: map<Entry, string>
    var config: Config

    function FileAt(path: string): Option<File>
      reads `files
    {
      if path in files then Some(files[path]) else None
    }

    function DocAt(path: string): Option<Doc>
      reads `files
    {
      if path in files then Some(files[path].doc) else None
    }

    /** Create a file that must not exist yet; it starts out empty and private. */
    method CreateNew(path: string) returns (fate: Fate)
      modifies `files
      ensures reliable ==> fate != Crashed && (path !in old(files) ==> fate == Done)
      ensures fate == Done ==> path !in old(files) && files == old(files)[path := File(Torn, true, false, false)]
      ensures files == old(files)
           || (path !in old(files) && files == old(files)[path := File(Torn, true, false, false)])
    {
      fate := *;
      if reliable { fate := Done; }
      var happened: bool := *;
      if path in files {
        fate := if fate == Done then Failed else fate;
      } else if fate == Done || happened {
        files := files[path := File(Torn, true, false, false)];
      }
    }

    method WriteAll(path: string, contents: Config) returns (fate: Fate)
      requires path in files
      modifies `files
      ensures reliable ==> fate == Done
      ensures exists doc ::
        files == old(files)[path := File(doc, old(files[path].ownerOnly), false, old(files[path].listed))]
      ensures fate == Done ==> files[path].doc == Whole(contents)
    {
      fate := *;
      if reliable { fate := Done; }
      var complete: bool := *;
      var doc := if fate == Done || complete then Whole(contents) else Torn;
      files := files[path := File(doc, files[path].ownerOnly, false, files[path].listed)];
    }

    method SyncFile(path: string) returns (fate: Fate)
      requires path in files
      modifies `files
      ensures reliable ==> fate == Done
      ensures fate == Done ==> files == old(files)[path := old(files[path]).(synced := true)]
      ensures files == old(files) || files == old(files)[path := old(files[path]).(synced := true)]
    {
      fate := *;
      if reliable { fate := Done; }
      var happened: bool := *;
      if fate == Done || happened {
        files := files[path := files[path].(synced := true)];
      }
    }

    method SetOwnerOnly(path: string) returns (fate: Fate)
      requires path in files
      modifies `files
      ensures reliable ==> fate == Done
      ensures fate == Done ==> files == old(files)[path := old(files[path]).(ownerOnly := true, synced := false)]
      ensures files == old(files) || files == old(files)[path := old(files[path]).(ownerOnly := true, synced := false)]
    {
      fate := *;
      if reliable { fate := Done; }
      var happened: bool := *;
      if fate == Done || happened {
        files := files[path := files[path].(ownerOnly := true, synced := false)];
      }
    }

    /** Replace one file by another in a single step.  A refused replacement discards the source. */
    method Rename(source: string, target: string) returns (fate: Fate)
      requires source in files && source != target
      modifies `files
      ensures reliable ==> fate == Done
      ensures fate == Done ==> files == (old(files) - {source})[target := old(files[source]).(listed := false)]
      ensures || files == old(files)
              || files == old(files) - {source}
              || ((fate == Failed ==> !truthful)
                  && files == (old(files) - {source})[target := old(files[source]).(listed := false)])
    {
      fate := *;
      if reliable { fate := Done; }
      var happened: bool := *;
      var discarded: bool := *;
      if fate == Done || (happened && (fate == Failed ==> !truthful)) {
        files := (files - {source})[target := files[source].(listed := false)];
      } else if discarded {
        files := files - {source};
      }
    }

    /** Sync the directory that the file is in. */
    method SyncParent(path: string) returns (fate: Fate)
      requires path in files
      modifies `files
      ensures reliable ==> fate == Done
      ensures fate == Done ==> files == old(files)[path := old(files[path]).(listed := true)]
      ensures files == old(files) || files == old(files)[path := old(files[path]).(listed := true)]
    {
      fate := *;
      if reliable { fate := Done; }
      var happened: bool := *;
      if fate == Done || happened {
        files := files[path := files[path].(listed := true)];
      }
    }

    /** An effect that leaves the modelled state alone: creating directories, reading. */
    method Attempt() returns (fate: Fate)
      ensures reliable ==> fate == Done
    {
      fate := *;
      if reliable { fate := Done; }
    }

    method SetPassword(entry: Entry, password: string) returns (fate: Fate)
      modifies `store
      ensures reliable ==> fate == Done
      ensures fate == Done ==> store == old(store)[entry := password]
      ensures store == old(store) || store == old(store)[entry := password]
    {
      fate := *;
      if reliable { fate := Done; }
      var happened: bool := *;
      if fate == Done || happened {
        store := store[entry := password];
      }
    }

    /** Deleting an absent entry succeeds. */
    method DeletePassword(entry: Entry) returns (fate: Fate)
      modifies `store
      ensures Deletes(entry) ==> fate == Done
      ensures fate == Done ==> store == old(store) - {entry}
      ensures store == old(store) || store == old(store) - {entry}
    {
      fate := *;
      if Deletes(entry) { fate := Done; }
      var happened: bool := *;
      if fate == Done || happened {
        store := store - {entry};
      }
    }
  }
}
