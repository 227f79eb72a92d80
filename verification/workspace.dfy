/** The change-tracking engine of the secure workspace: exclusion rules, the
    scan that fingerprints every file under the home directory, the diff
    between a stored snapshot and a fresh scan, and the copies between the
    workspace and the backup directory that make an undo possible.

    The disk is a map from home-relative path to file content; the backup
    directory is a second such map. Content hashing is a parameter. */
module Workspace {
  import opened Outcomes
  import opened Seqs
  import opened Text

  newtype byte = b: int | 0 <= b < 256

  type Path = string
  type Content = seq<byte>
  type Digest = string

  /** A tree of regular files (or the backup directory), by relative path. */
  type Files = map<Path, Content>

  /** The content fingerprint (the source uses the hex SHA-256 digest). */
  type Hasher = Content -> Digest

  /** Equal fingerprints mean equal content. */
  ghost predicate Injective(hash: Hasher)
  {
    forall a: Content, b: Content :: hash(a) == hash(b) ==> a == b
  }

  /** The patterns used when the caller gives none. */
  const DefaultExclude: seq<string> := [
    ".git", ".svn", ".hg", "__pycache__", ".pyc", ".pyo", ".pyd",
    ".pytest_cache", ".coverage", ".eggs", "node_modules",
    ".idea", ".vscode", ".vs", "*.swp", "*.swo",
    ".DS_Store", "Thumbs.db"
  ]

  /** The configuration of one workspace: its home directory and the
      substrings that exclude a path. */
  datatype SecureWorkspace = SecureWorkspace(home: Path, exclude: seq<string>)

  /** The constructor: a missing or empty home directory falls back to the
      user's home, and a missing or empty pattern list to the defaults. */
  function NewWorkspace(homeDir: Option<Path>, userHome: Path, patterns: Option<seq<string>>)
    : (w: SecureWorkspace)
    ensures homeDir.Some? && homeDir.value != "" ==> w.home == homeDir.value
    ensures homeDir.None? || homeDir.value == "" ==> w.home == userHome
    ensures patterns.Some? && patterns.value != [] ==> w.exclude == patterns.value
    ensures patterns.None? || patterns.value == [] ==> w.exclude == DefaultExclude
    ensures w.exclude != []
  {
    var home := if homeDir.Some? && homeDir.value != "" then homeDir.value else userHome;
    var exclude := if patterns.Some? && patterns.value != [] then patterns.value else DefaultExclude;
    SecureWorkspace(home, exclude)
  }

  /** `any(pattern in path for pattern in patterns)`. */
  function IsExcluded(patterns: seq<string>, path: string): (r: bool)
    ensures r <==> exists i :: 0 <= i < |patterns| && Contains(path, patterns[i])
    decreases |patterns|
  {
    if |patterns| == 0 then false
    else if Contains(path, patterns[0]) then true
    else
      var r := IsExcluded(patterns[1..], path);
      assert forall i :: 1 <= i < |patterns| ==> patterns[i] == patterns[1..][i - 1];
      r
  }

  /** Exclusion is literal substring matching, not glob matching. */
  lemma IsExcludedIffSubstring(patterns: seq<string>, path: string)
    ensures IsExcluded(patterns, path)
            <==> exists i, k :: 0 <= i < |patterns| && OccursAt(path, patterns[i], k)
  {
    forall i | 0 <= i < |patterns| {
      ContainsIffOccurs(path, patterns[i]);
    }
  }

  /** The string of `Path(home) / rel`, for a normalised `home`. */
  function FullPath(home: Path, rel: Path): (full: Path)
    ensures IsPrefix(home, full)
    ensures |home| + |rel| <= |full| <= |home| + |rel| + 1
    ensures full[|full| - |rel|..] == rel
    ensures |full| == |home| + |rel| + 1 ==> full[|home|] == '/'
    ensures |full| == |home| + |rel| <==> |home| > 0 && home[|home| - 1] == '/'
  {
    if |home| > 0 && home[|home| - 1] == '/' then home + rel else home + "/" + rel
  }

  /** The walk lists each file of `files` exactly once (os.walk's order). */
  predicate IsListing(walk: seq<Path>, files: Files)
  {
    && NoDups(walk)
    && (forall p :: p in walk ==> p in files)
    && (forall p :: p in files ==> p in walk)
  }

  /** A Python dict from relative path to fingerprint, with its key order. */
  datatype Snapshot = Snapshot(order: seq<Path>, digests: map<Path, Digest>)
  {
    /** The order lists every key once. */
    predicate Valid()
    {
      && NoDups(order)
      && (forall p :: p in order ==> p in digests)
      && (forall p :: p in digests ==> p in order)
    }
  }

  /** Whether `scan_directory` records `rel`: its full path is not excluded
      and reading it for the hash does not fail. */
  predicate Scanned(w: SecureWorkspace, rel: Path, unreadable: set<Path>)
  {
    !IsExcluded(w.exclude, FullPath(w.home, rel)) && rel !in unreadable
  }

  /** `scan_directory`: every file of the walk whose full path is not
      excluded and whose read succeeds is recorded under its relative path
      with the fingerprint of its content, in walk order. A file in
      `unreadable` raises in `hash_file` and is silently dropped. */
  function ScanDirectory(w: SecureWorkspace, files: Files, walk: seq<Path>, hash: Hasher,
                         unreadable: set<Path>): (s: Snapshot)
    requires NoDups(walk) && forall p :: p in walk ==> p in files
    ensures s.Valid()
    ensures forall p :: p in s.digests <==> p in walk && Scanned(w, p, unreadable)
    ensures forall p :: p in s.digests ==> p in files && s.digests[p] == hash(files[p])
    ensures IsSubsequence(s.order, walk)
    decreases |walk|
  {
    if |walk| == 0 then Snapshot([], map[])
    else
      var p := walk[0];
      assert forall q :: q in walk <==> q == p || q in walk[1..];
      var rest := ScanDirectory(w, files, walk[1..], hash, unreadable);
      if Scanned(w, p, unreadable) then
        Snapshot([p] + rest.order, rest.digests[p := hash(files[p])])
      else rest
  }

  /** Over a full listing of the disk, the scan records exactly the scanned
      files, whatever order the walk takes. */
  lemma ScanCoversDisk(w: SecureWorkspace, files: Files, walk: seq<Path>, hash: Hasher,
                       unreadable: set<Path>)
    requires IsListing(walk, files)
    ensures var s := ScanDirectory(w, files, walk, hash, unreadable);
            forall p :: p in s.digests <==> p in files && Scanned(w, p, unreadable)
  {
  }

  /** Two walks of the same disk give the same fingerprints. */
  lemma ScanIndependentOfWalk(w: SecureWorkspace, files: Files, walk1: seq<Path>, walk2: seq<Path>,
                              hash: Hasher, unreadable: set<Path>)
    requires IsListing(walk1, files) && IsListing(walk2, files)
    ensures ScanDirectory(w, files, walk1, hash, unreadable).digests
         == ScanDirectory(w, files, walk2, hash, unreadable).digests
  {
  }

  /** Exclusion looks at the full path, home directory included: a pattern
      occurring in the home path hides every file. */
  lemma ExcludedHomeHidesEverything(w: SecureWorkspace, files: Files, walk: seq<Path>, hash: Hasher,
                                    unreadable: set<Path>, i: nat)
    requires NoDups(walk) && forall p :: p in walk ==> p in files
    requires i < |w.exclude| && Contains(w.home, w.exclude[i])
    ensures ScanDirectory(w, files, walk, hash, unreadable).digests == map[]
  {
    forall p | p in walk
      ensures IsExcluded(w.exclude, FullPath(w.home, p))
    {
      var full := FullPath(w.home, p);
      assert full == w.home + full[|w.home|..];
      ContainsExtend(w.home, full[|w.home|..], w.exclude[i]);
    }
  }

  /** The default `*.swp` pattern is a literal string: an editor swap file
      is not excluded by it. */
  lemma GlobPatternIsLiteral()
    ensures !Contains("/home/u/notes.swp", "*.swp")
  {
    var s := "/home/u/notes.swp";
    assert forall k :: 0 <= k < |s| ==> s[k] != '*';
    assert forall k :: OccursAt(s, "*.swp", k) ==> s[k..k + 5][0] == '*';
    ContainsIffOccurs(s, "*.swp");
  }

  /** The three lists returned by `detect_changes`. */
  datatype ChangeSet = ChangeSet(added: seq<Path>, modified: seq<Path>, deleted: seq<Path>)
  {
    predicate IsEmpty()
    {
      added == [] && modified == [] && deleted == []
    }
  }

  /** `detect_changes`: a path of the fresh scan that the snapshot lacks is
      added, one in both with another fingerprint is modified, and a path
      of the snapshot missing from the scan is deleted. Added and modified
      follow the scan's order, deleted the snapshot's order. */
  function DetectChanges(snapshot: Snapshot, current: Snapshot): (c: ChangeSet)
    requires snapshot.Valid() && current.Valid()
    ensures forall p :: p in c.added <==> p in current.digests && p !in snapshot.digests
    ensures forall p :: p in c.modified <==>
              p in current.digests && p in snapshot.digests
              && current.digests[p] != snapshot.digests[p]
    ensures forall p :: p in c.deleted <==> p in snapshot.digests && p !in current.digests
    ensures NoDups(c.added) && NoDups(c.modified) && NoDups(c.deleted)
    ensures IsSubsequence(c.added, current.order) && IsSubsequence(c.modified, current.order)
    ensures IsSubsequence(c.deleted, snapshot.order)
  {
    var added := Filter(current.order, p => p !in snapshot.digests);
    var modified := Filter(current.order, p => p in snapshot.digests && p in current.digests
                                              && current.digests[p] != snapshot.digests[p]);
    var deleted := Filter(snapshot.order, p => p !in current.digests);
    ChangeSet(added, modified, deleted)
  }

  /** Every path of either side lands in exactly one of added, modified,
      deleted and unchanged. */
  lemma ChangesPartitionPaths(snapshot: Snapshot, current: Snapshot, p: Path)
    requires snapshot.Valid() && current.Valid()
    requires p in snapshot.digests || p in current.digests
    ensures var c := DetectChanges(snapshot, current);
            var same := p in snapshot.digests && p in current.digests
                             && snapshot.digests[p] == current.digests[p];
            (if p in c.added then 1 else 0) + (if p in c.modified then 1 else 0)
            + (if p in c.deleted then 1 else 0) + (if same then 1 else 0) == 1
  {
  }

  /** No change is reported exactly when the scan has the snapshot's
      fingerprints. */
  lemma NoChangesIffSameDigests(snapshot: Snapshot, current: Snapshot)
    requires snapshot.Valid() && current.Valid()
    ensures DetectChanges(snapshot, current).IsEmpty() <==> current.digests == snapshot.digests
  {
    var c := DetectChanges(snapshot, current);
    NoMembersIsEmpty(c.added);
    NoMembersIsEmpty(c.modified);
    NoMembersIsEmpty(c.deleted);
    if c.IsEmpty() {
      assert current.digests.Keys == snapshot.digests.Keys;
    }
  }

  /** Against an empty snapshot every scanned file is added, in scan order. */
  lemma EmptySnapshotAddsEverything(current: Snapshot)
    requires current.Valid()
    ensures DetectChanges(Snapshot([], map[]), current) == ChangeSet(current.order, [], [])
  {
    var empty := Snapshot([], map[]);
    var c := DetectChanges(empty, current);
    FilterAll(current.order, p => p !in empty.digests);
    NoMembersIsEmpty(c.modified);
  }

  /** Copies the files named in `paths` that exist on disk into the backup,
      one after the other. */
  function CopyInto(paths: seq<Path>, files: Files, backup: Files): (b: Files)
    ensures forall p :: p in paths && p in files ==> p in b && b[p] == files[p]
    ensures forall p :: !(p in paths && p in files) ==>
              (p in b <==> p in backup) && (p in b ==> b[p] == backup[p])
    decreases |paths|
  {
    if |paths| == 0 then backup
    else
      var p := paths[0];
      assert forall q :: q in paths <==> q == p || q in paths[1..];
      var next := if p in files then backup[p := files[p]] else backup;
      CopyInto(paths[1..], files, next)
  }

  /** `backup_files`: every snapshot path still on disk is copied to the
      backup directory; a path that vanished meanwhile is skipped, so its
      backup keeps whatever an earlier session left there, and backups of
      other paths are never removed. */
  function BackupFiles(snapshot: Snapshot, files: Files, backup: Files): (b: Files)
    ensures forall p :: p in snapshot.order && p in files ==> p in b && b[p] == files[p]
    ensures forall p :: !(p in snapshot.order && p in files) ==>
              (p in b <==> p in backup) && (p in b ==> b[p] == backup[p])
  {
    CopyInto(snapshot.order, files, backup)
  }

  /** `restore_file`: with a backup of `rel`, the workspace gets the backed
      up content back; without one nothing happens. No other path changes. */
  function RestoreFile(files: Files, backup: Files, rel: Path): (r: Files)
    ensures rel in backup ==> rel in r && r[rel] == backup[rel]
    ensures rel !in backup ==> r == files
    ensures forall q :: q != rel ==> (q in r <==> q in files) && (q in r ==> r[q] == files[q])
  {
    if rel in backup then files[rel := backup[rel]] else files
  }

  /** `remove_file`: afterwards `rel` is gone; an absent `rel` is not an
      error. No other path changes. */
  function RemoveFile(files: Files, rel: Path): (r: Files)
    ensures rel !in r
    ensures rel !in files ==> r == files
    ensures forall q :: q != rel ==> (q in r <==> q in files) && (q in r ==> r[q] == files[q])
  {
    files - {rel}
  }

  /** Removing twice is removing once. */
  lemma RemoveIdempotent(files: Files, rel: Path)
    ensures RemoveFile(RemoveFile(files, rel), rel) == RemoveFile(files, rel)
  {
  }

  /** Backing up a snapshot path, then deleting the file and restoring it,
      gives back the disk as it was. */
  lemma BackupRemoveRestore(snapshot: Snapshot, files: Files, previous: Files, rel: Path)
    requires rel in snapshot.order && rel in files
    ensures RestoreFile(RemoveFile(files, rel), BackupFiles(snapshot, files, previous), rel)
            == files
  {
    var r := RestoreFile(RemoveFile(files, rel), BackupFiles(snapshot, files, previous), rel);
    assert r.Keys == files.Keys;
  }
}
