/** A whole session: the start script scans the workspace and backs up
    every snapshot path; the stop script diffs a fresh scan against that
    snapshot and undoes every change that is not kept. */
module Session {
  import opened Outcomes
  import opened Seqs
  import opened Workspace
  import opened StopSession

  /** With lists that do not overlap, as `detect_changes` produces, each
      category is handled on its own: an added file is removed unless kept,
      a modified or deleted file is restored unless kept, and a path in no
      list is left alone. */
  lemma UndoByCategory(files: Files, backup: Files, c: ChangeSet, keep: KeepSets, r: Files, p: Path)
    requires forall q :: !(q in c.added && q in c.modified)
    requires forall q :: !(q in c.added && q in c.deleted)
    requires forall q :: !(q in c.modified && q in c.deleted)
    requires IsUndo(files, backup, c, keep, r)
    ensures p in c.added && p !in keep.added ==> p !in r
    ensures p in c.modified && p !in keep.modified && p in backup ==> p in r && r[p] == backup[p]
    ensures p in c.deleted && p !in keep.deleted && p in backup ==> p in r && r[p] == backup[p]
    ensures (p in c.added && p in keep.added) || (p in c.modified && p in keep.modified)
            || (p in c.deleted && p in keep.deleted)
            || (p !in c.added && p !in c.modified && p !in c.deleted)
            ==> (p in r <==> p in files) && (p in r ==> r[p] == files[p])
  {
  }

  /** The default scenario: with nothing kept, the added `y.txt` is
      removed and the modified `x.txt` and deleted `c.txt` come back from
      the backup. */
  lemma DefaultDecisions(files: Files, backup: Files, r: Files)
    requires "x.txt" in backup && "c.txt" in backup
    requires IsUndo(files, backup, ChangeSet(["y.txt"], ["x.txt"], ["c.txt"]), KeepNothing, r)
    ensures "y.txt" !in r
    ensures "x.txt" in r && r["x.txt"] == backup["x.txt"]
    ensures "c.txt" in r && r["c.txt"] == backup["c.txt"]
  {
    var c := ChangeSet(["y.txt"], ["x.txt"], ["c.txt"]);
    assert Restores(c, KeepNothing, "x.txt") && Restores(c, KeepNothing, "c.txt");
    assert "y.txt" != "x.txt" && "y.txt" != "c.txt";
    assert !Restores(c, KeepNothing, "y.txt") && Removes(c, KeepNothing, "y.txt");
  }

  /** Keeping nothing puts back the start content of every snapshot path,
      when the backup holds that content and the hash tells contents
      apart. */
  lemma UndoRestoresSnapshotContent(
    snapshot: Snapshot, current: Snapshot, files0: Files, files1: Files, backup: Files,
    hash: Hasher, r: Files)
    requires snapshot.Valid() && current.Valid()
    requires Injective(hash)
    requires forall p :: p in snapshot.digests ==>
               p in files0 && snapshot.digests[p] == hash(files0[p])
               && p in backup && backup[p] == files0[p]
    requires forall p :: p in current.digests ==> p in files1 && current.digests[p] == hash(files1[p])
    requires IsUndo(files1, backup, DetectChanges(snapshot, current), KeepNothing, r)
    ensures forall p :: p in snapshot.digests ==> p in r && r[p] == files0[p]
  {
    var changes := DetectChanges(snapshot, current);
    forall p | p in snapshot.digests
      ensures p in r && r[p] == files0[p]
    {
      if p in current.digests {
        if current.digests[p] != snapshot.digests[p] {
          assert p in changes.modified && Restores(changes, KeepNothing, p);
        } else {
          assert files1[p] == files0[p];
          assert !Restores(changes, KeepNothing, p) && !Removes(changes, KeepNothing, p);
        }
      } else {
        assert p in changes.deleted && Restores(changes, KeepNothing, p);
      }
    }
  }

  /** Keeping nothing leaves no scannable path outside the snapshot, when
      the stop scan saw every scannable file. */
  lemma UndoLeavesOnlySnapshotPaths(
    w: SecureWorkspace, snapshot: Snapshot, current: Snapshot, files1: Files, backup: Files, r: Files)
    requires snapshot.Valid() && current.Valid()
    requires forall p :: p in files1 && Scanned(w, p, {}) ==> p in current.digests
    requires forall p :: p in current.digests ==> p in files1
    requires IsUndo(files1, backup, DetectChanges(snapshot, current), KeepNothing, r)
    ensures forall p :: p in r && Scanned(w, p, {}) ==> p in snapshot.digests
    ensures forall p :: p in DetectChanges(snapshot, current).added ==> p !in r
  {
    var changes := DetectChanges(snapshot, current);
    forall p | p !in snapshot.digests && Scanned(w, p, {})
      ensures p !in r
    {
      assert !Restores(changes, KeepNothing, p);
      if p in files1 {
        assert Removes(changes, KeepNothing, p);
      } else {
        assert p !in changes.added;
      }
    }
    forall p | p in changes.added
      ensures p !in r
    {
      assert !Restores(changes, KeepNothing, p) && Removes(changes, KeepNothing, p);
    }
  }

  /** A rescan of the undone disk has the snapshot's fingerprints when it
      holds exactly the snapshot's scannable paths with their start
      content. */
  lemma RescanMatchesSnapshot(w: SecureWorkspace, snapshot: Snapshot, after: Snapshot, files0: Files,
                              r: Files, hash: Hasher)
    requires forall p :: p in after.digests <==> p in r && Scanned(w, p, {})
    requires forall p :: p in after.digests ==> after.digests[p] == hash(r[p])
    requires forall p :: p in snapshot.digests ==>
               Scanned(w, p, {}) && p in r && p in files0 && r[p] == files0[p]
               && snapshot.digests[p] == hash(files0[p])
    requires forall p :: p in r && Scanned(w, p, {}) ==> p in snapshot.digests
    ensures after.digests == snapshot.digests
  {
  }

  /** Start, work, stop keeping nothing: every snapshot path holds the
      content it had at the start, every added file is gone, and a fresh
      diff against the same snapshot reports no change. The stop scan and
      the rescan read every file; the hash distinguishes contents. */
  lemma UndoEverythingRestoresSnapshot(
    w: SecureWorkspace, files0: Files, walk0: seq<Path>, unreadable0: set<Path>, previous: Files,
    files1: Files, walk1: seq<Path>, hash: Hasher, r: Files, walk2: seq<Path>)
    requires IsListing(walk0, files0) && IsListing(walk1, files1) && IsListing(walk2, r)
    requires Injective(hash)
    requires var snapshot := ScanDirectory(w, files0, walk0, hash, unreadable0);
             var changes := DetectChanges(snapshot, ScanDirectory(w, files1, walk1, hash, {}));
             IsUndo(files1, BackupFiles(snapshot, files0, previous), changes, KeepNothing, r)
    ensures var snapshot := ScanDirectory(w, files0, walk0, hash, unreadable0);
            forall p :: p in snapshot.digests ==> p in r && r[p] == files0[p]
    ensures var snapshot := ScanDirectory(w, files0, walk0, hash, unreadable0);
            var changes := DetectChanges(snapshot, ScanDirectory(w, files1, walk1, hash, {}));
            forall p :: p in changes.added ==> p !in r
    ensures var snapshot := ScanDirectory(w, files0, walk0, hash, unreadable0);
            DetectChanges(snapshot, ScanDirectory(w, r, walk2, hash, {})).IsEmpty()
  {
    var snapshot := ScanDirectory(w, files0, walk0, hash, unreadable0);
    var backup := BackupFiles(snapshot, files0, previous);
    var current := ScanDirectory(w, files1, walk1, hash, {});
    var after := ScanDirectory(w, r, walk2, hash, {});
    UndoEverythingCore(w, snapshot, current, after, files0, files1, backup, hash, r);
  }

  /** `UndoEverythingRestoresSnapshot` stated over what the three scans and
      the backup guarantee. */
  lemma UndoEverythingCore(w: SecureWorkspace, snapshot: Snapshot, current: Snapshot, after: Snapshot,
                           files0: Files, files1: Files, backup: Files, hash: Hasher, r: Files)
    requires snapshot.Valid() && current.Valid() && after.Valid()
    requires Injective(hash)
    requires forall p :: p in snapshot.digests ==>
               Scanned(w, p, {}) && p in files0 && snapshot.digests[p] == hash(files0[p])
               && p in backup && backup[p] == files0[p]
    requires forall p :: p in files1 && Scanned(w, p, {}) ==> p in current.digests
    requires forall p :: p in current.digests ==> p in files1 && current.digests[p] == hash(files1[p])
    requires forall p :: p in after.digests <==> p in r && Scanned(w, p, {})
    requires forall p :: p in after.digests ==> p in r && after.digests[p] == hash(r[p])
    requires IsUndo(files1, backup, DetectChanges(snapshot, current), KeepNothing, r)
    ensures forall p :: p in snapshot.digests ==> p in r && r[p] == files0[p]
    ensures forall p :: p in DetectChanges(snapshot, current).added ==> p !in r
    ensures DetectChanges(snapshot, after).IsEmpty()
  {
    UndoRestoresSnapshotContent(snapshot, current, files0, files1, backup, hash, r);
    UndoLeavesOnlySnapshotPaths(w, snapshot, current, files1, backup, r);
    RescanMatchesSnapshot(w, snapshot, after, files0, r, hash);
    NoChangesIffSameDigests(snapshot, after);
  }

  /** A file whose read failed when the session started is missing from
      the snapshot, so when the stop scan reads it, it is reported as added
      and, with nothing kept, deleted. */
  // Not inductive: the attribute keeps Dafny from adding induction
  // hypotheses over the walks, which swamp the solver.
  lemma {:induction false} UnreadableAtStartIsRemoved(
    w: SecureWorkspace, files0: Files, walk0: seq<Path>, unreadable0: set<Path>, previous: Files,
    files1: Files, walk1: seq<Path>, hash: Hasher, r: Files, p: Path)
    requires IsListing(walk0, files0) && IsListing(walk1, files1)
    requires var snapshot := ScanDirectory(w, files0, walk0, hash, unreadable0);
             var changes := DetectChanges(snapshot, ScanDirectory(w, files1, walk1, hash, {}));
             IsUndo(files1, BackupFiles(snapshot, files0, previous), changes, KeepNothing, r)
    requires p in unreadable0 && p in files1 && Scanned(w, p, {})
    ensures p !in r
  {
    var snapshot := ScanDirectory(w, files0, walk0, hash, unreadable0);
    var current := ScanDirectory(w, files1, walk1, hash, {});
    assert !Scanned(w, p, unreadable0);
    assert p !in snapshot.digests;
    assert p in walk1;
    assert p in current.digests;
    assert p in DetectChanges(snapshot, current).added;
    UndoLeavesOnlySnapshotPaths(w, snapshot, current, files1,
                                BackupFiles(snapshot, files0, previous), r);
  }

  /** The other side of a failed read: a file created during the session
      whose read fails when the session stops is in no change list, so a
      stop that keeps nothing leaves it on disk untouched, and a later scan
      that reads it reports it as added. */
  // Not inductive: the attribute keeps Dafny from adding induction
  // hypotheses over the walks, which swamp the solver.
  lemma {:induction false} UnreadableAtStopSurvives(
    w: SecureWorkspace, files0: Files, walk0: seq<Path>, unreadable0: set<Path>, previous: Files,
    files1: Files, walk1: seq<Path>, unreadable1: set<Path>, hash: Hasher, r: Files,
    walk2: seq<Path>, p: Path)
    requires IsListing(walk0, files0) && IsListing(walk1, files1) && IsListing(walk2, r)
    requires var snapshot := ScanDirectory(w, files0, walk0, hash, unreadable0);
             var changes := DetectChanges(snapshot, ScanDirectory(w, files1, walk1, hash, unreadable1));
             IsUndo(files1, BackupFiles(snapshot, files0, previous), changes, KeepNothing, r)
    requires p !in ScanDirectory(w, files0, walk0, hash, unreadable0).digests
    requires p in files1 && p in unreadable1
    ensures var snapshot := ScanDirectory(w, files0, walk0, hash, unreadable0);
            var changes := DetectChanges(snapshot, ScanDirectory(w, files1, walk1, hash, unreadable1));
            p !in changes.added && p !in changes.modified && p !in changes.deleted
    ensures p in r && r[p] == files1[p]
    ensures Scanned(w, p, {}) ==>
              var snapshot := ScanDirectory(w, files0, walk0, hash, unreadable0);
              p in DetectChanges(snapshot, ScanDirectory(w, r, walk2, hash, {})).added
  {
    var snapshot := ScanDirectory(w, files0, walk0, hash, unreadable0);
    var changes := DetectChanges(snapshot, ScanDirectory(w, files1, walk1, hash, unreadable1));
    assert !Restores(changes, KeepNothing, p) && !Removes(changes, KeepNothing, p);
  }

  /** The name `save_snapshot` gives the snapshot file inside the backup
      directory. */
  const SnapshotFileName: Path := "snapshot.json"

  /** The start script with the code's layout: `save_snapshot` writes the
      serialised snapshot `stored` into the backup directory `dir`, then
      `backup_files` copies each snapshot path into that same directory
      under its relative path. A snapshot path named like the snapshot file
      replaces it. */
  function StartSharedDir(snapshot: Snapshot, stored: Content, files: Files, dir: Files): (d: Files)
    ensures SnapshotFileName in d
    ensures SnapshotFileName in snapshot.order && SnapshotFileName in files
            ==> d[SnapshotFileName] == files[SnapshotFileName]
    ensures !(SnapshotFileName in snapshot.order && SnapshotFileName in files)
            ==> d[SnapshotFileName] == stored
  {
    BackupFiles(snapshot, files, dir[SnapshotFileName := stored])
  }

  /** A home directory with its own top-level `snapshot.json`: after the
      start script, the snapshot file holds the user's file and not the
      snapshot, so the stop script loads the wrong content. */
  lemma HomeSnapshotJsonReplacesSnapshot()
    ensures var user: Content := [1];
            var stored: Content := [2];
            var snapshot := Snapshot([SnapshotFileName], map[SnapshotFileName := "d"]);
            var d := StartSharedDir(snapshot, stored, map[SnapshotFileName := user], map[]);
            d[SnapshotFileName] == user && d[SnapshotFileName] != stored
  {
  }

  /** What the start script leaves behind when the snapshot file is kept
      apart from the copies. */
  datatype StartStore = StartStore(snapshotFile: Content, backup: Files)

  /** The start script with the snapshot file kept apart from the backup
      copies: the stored snapshot is what `save_snapshot` wrote, whatever the
      home directory holds, and the copies are those of `backup_files`. The
      rest of the model uses this layout: `StopSession.Stop` takes the
      stored snapshot and the backup as two inputs. */
  function StartSeparateDirs(snapshot: Snapshot, stored: Content, files: Files, dir: Files): (s: StartStore)
    ensures s.snapshotFile == stored
    ensures forall p :: p in snapshot.order && p in files ==> p in s.backup && s.backup[p] == files[p]
    ensures forall p :: !(p in snapshot.order && p in files) ==>
              (p in s.backup <==> p in dir) && (p in s.backup ==> s.backup[p] == dir[p])
  {
    StartStore(stored, BackupFiles(snapshot, files, dir))
  }

  /** Keeping the snapshot file apart changes nothing but the snapshot file:
      every other backup entry is the same in both layouts, and the stored
      snapshot reads back as written. */
  lemma SeparateDirsDifferOnlyInSnapshotFile(snapshot: Snapshot, stored: Content, files: Files, dir: Files)
    ensures var shared := StartSharedDir(snapshot, stored, files, dir);
            var apart := StartSeparateDirs(snapshot, stored, files, dir);
            && apart.snapshotFile == stored
            && (forall p :: p != SnapshotFileName ==>
                  (p in shared <==> p in apart.backup)
                  && (p in shared ==> shared[p] == apart.backup[p]))
  {
  }
}
