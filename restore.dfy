/**
 * `restore`: offer the snapshots newest first, read a selection and a
 * confirmation, then replace each listed project path that the snapshot holds
 * with the snapshot's copy.
 */
module Restore {
  import opened Wrappers
  import opened Text
  import opened Tree
  import opened Store
  import opened Backup

  /** The paths restored when the snapshot's record gives none. */
  const DefaultFiles: seq<string> := [
    "src", "index.html", "package.json", "tailwind.config.js",
    "vite.config.js", "postcss.config.js", "eslint.config.js"
  ]

  /** The default list is the list `backup` captures. */
  lemma DefaultIsCaptured()
    ensures DefaultFiles == BackupPaths
  {
  }

  // ---------------------------------------------------------------------------
  // Choosing a snapshot
  // ---------------------------------------------------------------------------

  /** What the first answer selects among `count` snapshots. */
  datatype Selection = Quit | Invalid | Chosen(index: nat)

  /**
   * `q` in either case quits; otherwise `parseInt(choice) - 1` must be a
   * number in `[0, count)`, and NaN or anything outside is invalid.
   */
  function Select(choice: string, count: nat): (s: Selection)
    ensures s == Quit <==> IsQuit(choice)
    ensures s.Chosen? <==> !IsQuit(choice) && ParseInt(choice).Some? && 1 <= ParseInt(choice).value <= count
    ensures s.Chosen? ==> s.index < count && ParseInt(choice) == Some(s.index as int + 1)
  {
    if IsQuit(choice) then Quit else Pick(ParseInt(choice), count)
  }

  /** `index = parseInt(choice) - 1` checked against `[0, count)`. */
  function Pick(v: Option<int>, count: nat): (s: Selection)
    ensures s != Quit
    ensures s.Chosen? <==> v.Some? && 1 <= v.value <= count
    ensures s.Chosen? ==> s.index < count && v == Some(s.index as int + 1)
  {
    match v
    case None => Invalid
    case Some(n) => if 0 <= n - 1 < count then Chosen(n - 1) else Invalid
  }

  /** A number as the user types it selects the snapshot it numbers, and "0" or one too large is invalid. */
  lemma SelectNumber(k: nat, count: nat)
    ensures Select(Decimal(k), count) == if 1 <= k <= count then Chosen(k - 1) else Invalid
  {
    ParseIntDecimal(k);
    NumeralIsNoAnswer(Decimal(k));
    SelectParsed(Decimal(k), count, k);
  }

  /** A negative number is invalid, "-0" included. */
  lemma SelectNegative(k: nat, count: nat)
    ensures Select("-" + Decimal(k), count) == Invalid
  {
    var s := "-" + Decimal(k);
    ParseIntNegated(k);
    assert ParseInt(s) == Some(-(k as int));
    LongIsNoQuit(s);
    assert !IsQuit(s);
    SelectParsed(s, count, -(k as int));
  }

  lemma LongIsNoQuit(s: string)
    requires |s| >= 2
    ensures !IsQuit(s)
  {
    assert |AsciiLower(s)| >= 2;
  }

  /** An answer other than `q` that reads as the number `v`. */
  lemma SelectParsed(choice: string, count: nat, v: int)
    requires !IsQuit(choice) && ParseInt(choice) == Some(v)
    ensures Select(choice, count) == if 1 <= v <= count then Chosen(v - 1) else Invalid
  {
  }

  /** Text that is not a number is invalid unless it is "q" or "Q". */
  lemma SelectNaN(choice: string, count: nat)
    requires ParseInt(choice) == None
    ensures Select(choice, count) == if choice == "q" || choice == "Q" then Quit else Invalid
  {
    QuitSpellings(choice);
  }

  lemma NumeralIsNoAnswer(s: string)
    requires |s| >= 1 && forall i :: 1 <= i < |s| ==> '0' <= s[i] <= '9'
    requires '0' <= s[0] <= '9' || s[0] == '-'
    ensures !IsQuit(s) && !IsYes(s)
  {
    assert AsciiLower(s)[0] == LowerChar(s[0]);
  }

  // ---------------------------------------------------------------------------
  // The paths to restore
  // ---------------------------------------------------------------------------

  /** The record's `files` when the record was read and has them, else the default list. */
  function FilesToRestore(info: Option<Info>): (files: seq<string>)
    ensures info.Some? && info.value.files.Some? ==> files == info.value.files.value
    ensures info.None? || info.value.files.None? ==> files == DefaultFiles
  {
    if info.Some? && info.value.files.Some? then info.value.files.value else DefaultFiles
  }

  /** A snapshot without a readable record is restored along the default list. */
  lemma MissingRecordFallsBack(snapshot: Node)
    requires snapshot.Dir?
    requires InfoFile !in snapshot.entries || snapshot.entries[InfoFile].Dir? || snapshot.entries[InfoFile].json.None?
    ensures FilesToRestore(ReadInfo(snapshot)) == DefaultFiles
  {
  }

  /**
   * The project after restoring `files` from `snapshot`: each listed path the
   * snapshot holds becomes the snapshot's copy, and every other entry stays.
   */
  function RestoredProject(project: map<string, Node>, snapshot: map<string, Node>, files: set<string>): (r: map<string, Node>)
    ensures r.Keys == project.Keys + (files * snapshot.Keys)
  {
    map k | k in project.Keys + (files * snapshot.Keys) :: if k in files && k in snapshot then snapshot[k] else project[k]
  }

  /**
   * A listed path the snapshot holds is exactly the snapshot's copy, with
   * nothing left of the old one; a listed path the snapshot lacks, and any
   * path not listed, is as it was.
   */
  lemma RestoredPaths(project: map<string, Node>, snapshot: map<string, Node>, files: set<string>)
    ensures forall k :: k in files && k in snapshot ==> k in RestoredProject(project, snapshot, files) && RestoredProject(project, snapshot, files)[k] == snapshot[k]
    ensures forall k :: !(k in files && k in snapshot) ==>
              (k in RestoredProject(project, snapshot, files) <==> k in project)
    ensures forall k :: !(k in files && k in snapshot) && k in project ==> RestoredProject(project, snapshot, files)[k] == project[k]
  {
  }

  /** Restoring twice in a row changes nothing the first run did not. */
  lemma RestoreIdempotent(project: map<string, Node>, snapshot: map<string, Node>, files: set<string>)
    ensures RestoredProject(RestoredProject(project, snapshot, files), snapshot, files) == RestoredProject(project, snapshot, files)
  {
  }

  /**
   * A snapshot taken into a fresh folder restores the project as it was at
   * backup time along the paths it recorded, whatever the project holds now;
   * paths outside the record keep their current state.
   */
  lemma BackupThenRestore(atBackup: map<string, Node>, now: map<string, Node>, info: Info, infoBytes: nat)
    requires info.files == Some(RecordedFiles(atBackup))
    ensures FilesToRestore(ReadInfo(Dir(Snapshot(map[], atBackup, info, infoBytes)))) == RecordedFiles(atBackup)
    ensures var r := RestoredProject(now, Snapshot(map[], atBackup, info, infoBytes), Elems(RecordedFiles(atBackup)));
            && (forall k :: k in BackupPaths && k in atBackup ==> k in r && r[k] == atBackup[k])
            && (forall k :: k !in BackupPaths || k !in atBackup ==> (k in r <==> k in now))
            && (forall k :: (k !in BackupPaths || k !in atBackup) && k in now ==> r[k] == now[k])
  {
    FreshSnapshot(atBackup, info, infoBytes);
    BackupPathsDistinct();
  }

  /** A run into an unchanged project gives the project back. */
  lemma RestoreRoundTrip(project: map<string, Node>, info: Info, infoBytes: nat)
    requires info.files == Some(RecordedFiles(project))
    ensures RestoredProject(project, Snapshot(map[], project, info, infoBytes), Elems(RecordedFiles(project))) == project
  {
    BackupThenRestore(project, project, info, infoBytes);
    var r := RestoredProject(project, Snapshot(map[], project, info, infoBytes), Elems(RecordedFiles(project)));
    assert r.Keys == project.Keys;
    forall k | k in project ensures r[k] == project[k] {
      if k !in BackupPaths {
        assert r[k] == project[k];
      }
    }
  }

  // ---------------------------------------------------------------------------
  // A run
  // ---------------------------------------------------------------------------

  /** How a run ends. */
  datatype Outcome = NoStore | NoBackups | Cancelled | InvalidSelection | Declined
                   | Restored(name: string, files: seq<string>)

  /** The outcome of a run over the snapshots `backups` (newest first) given the two answers. */
  function Decide(store: map<string, Node>, backups: seq<string>, choice: string, confirm: string): (o: Outcome)
    requires forall i :: 0 <= i < |backups| ==> backups[i] in store
    ensures o.Restored? <==> backups != [] && Select(choice, |backups|).Chosen? && IsYes(confirm)
    ensures o.Restored? ==>
              && o.name == backups[Select(choice, |backups|).index]
              && o.files == FilesToRestore(ReadInfo(store[o.name]))
    ensures o == NoBackups <==> backups == []
    ensures o == Cancelled <==> backups != [] && IsQuit(choice)
    ensures o == InvalidSelection <==> backups != [] && Select(choice, |backups|) == Invalid
    ensures o == Declined <==> backups != [] && Select(choice, |backups|).Chosen? && !IsYes(confirm)
  {
    if backups == [] then NoBackups
    else
      match Select(choice, |backups|)
      case Quit => Cancelled
      case Invalid => InvalidSelection
      case Chosen(i) =>
        if !IsYes(confirm) then Declined
        else Restored(backups[i], FilesToRestore(ReadInfo(store[backups[i]])))
  }

  /**
   * The restore loop: for each listed path the snapshot holds, remove the
   * project's copy (`removeDir` for a directory, `unlinkSync` for a file),
   * then `copyDir` or `copyFile` the snapshot's copy in.
   */
  method RestoreFiles(w: Workspace, snapshot: map<string, Node>, files: seq<string>)
    modifies w
    ensures w.backups == old(w.backups)
    ensures w.project == RestoredProject(old(w.project), snapshot, Elems(files))
  {
    for i := 0 to |files|
      invariant w.backups == old(w.backups)
      invariant w.project == RestoredProject(old(w.project), snapshot, Elems(files[..i]))
    {
      var file := files[i];
      ElemsPrefix(files, i);
      RestoredStep(old(w.project), snapshot, Elems(files[..i]), file);
      if file in snapshot {
        w.project := RestoreOne(w.project, snapshot, file);
      }
    }
    assert files[..|files|] == files;
  }

  /** Restoring one more path replaces it with the snapshot's copy when the snapshot holds it. */
  lemma RestoredStep(project: map<string, Node>, snapshot: map<string, Node>, files: set<string>, file: string)
    ensures file in snapshot ==>
              RestoredProject(project, snapshot, files + {file}) == RestoredProject(project, snapshot, files)[file := snapshot[file]]
    ensures file !in snapshot ==>
              RestoredProject(project, snapshot, files + {file}) == RestoredProject(project, snapshot, files)
  {
  }

  /** One listed path the snapshot holds: the old copy removed, then the snapshot's copied in. */
  method RestoreOne(project: map<string, Node>, snapshot: map<string, Node>, file: string) returns (r: map<string, Node>)
    requires file in snapshot
    ensures r == project[file := snapshot[file]]
  {
    r := project;
    if file in r {
      if r[file].Dir? {
        r := RemoveDir(r, file);
      } else {
        r := Unlink(r, file);
      }
    }
    if snapshot[file].Dir? {
      var copied := CopyDir(snapshot[file], None);
      OverlayFresh(snapshot[file]);
      r := r[file := Dir(copied)];
    } else {
      r := CopyFile(r, file, snapshot[file]);
    }
  }

  /**
   * A run of `restore` with the two answers. The snapshots are the store's
   * directories sorted and reversed; nothing changes unless a valid number
   * is chosen and confirmed, and the store itself never changes.
   */
  method RunRestore(w: Workspace, choice: string, confirm: string) returns (backups: seq<string>, outcome: Outcome)
    modifies w
    ensures w.backups == old(w.backups)
    ensures old(w.backups).None? ==> outcome == NoStore && w.project == old(w.project)
    ensures old(w.backups).Some? ==>
              && StrictlyDescending(backups)
              && Elems(backups) == DirNames(old(w.backups).value)
              && (forall i :: 0 <= i < |backups| ==> backups[i] in old(w.backups).value)
              && outcome == Decide(old(w.backups).value, backups, choice, confirm)
    ensures !outcome.Restored? ==> w.project == old(w.project)
    ensures outcome.Restored? ==>
              old(w.backups).Some? && outcome.name in old(w.backups).value && old(w.backups).value[outcome.name].Dir? &&
              w.project == RestoredProject(old(w.project), old(w.backups).value[outcome.name].entries, Elems(outcome.files))
  {
    if w.backups.None? {
      return [], NoStore;
    }
    var store := w.backups.value;
    var ascending := Candidates(store);
    backups := Reverse(ascending);
    ReverseDescending(ascending);
    assert forall i :: 0 <= i < |backups| ==> backups[i] in DirNames(store) by {
      assert forall i :: 0 <= i < |backups| ==> backups[i] in Elems(backups);
    }
    if backups == [] {
      return backups, NoBackups;
    }
    var selection := Select(choice, |backups|);
    if selection == Quit {
      return backups, Cancelled;
    }
    if selection == Invalid {
      return backups, InvalidSelection;
    }
    if !IsYes(confirm) {
      return backups, Declined;
    }
    var name := backups[selection.index];
    var files := FilesToRestore(ReadInfo(store[name]));
    RestoreFiles(w, store[name].entries, files);
    outcome := Restored(name, files);
  }
}
