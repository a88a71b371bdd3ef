/** The storage lifecycle manager (`StorageManager`): age-based purge,
    size-based purge oldest-modified first, the combined smart cleanup, and
    the storage statistics.

    The output folder is a sequence of entries: regular files, and
    subdirectories of which only the total size of the files beneath them
    matters. The folder size is the recursive total over all entries, while
    the cleanup candidates are the top-level regular files only. Sizes are
    in bytes and times in whole seconds; the clock reading `now` is a
    parameter. A deletion can fail: the names in `undeletable` cannot be
    removed, and a failed deletion is recorded and the pass goes on. */
module Storage {
  import opened Options
  import opened Sorting

  datatype FileRecord = FileRecord(name: string, sizeBytes: nat, mtime: int)

  datatype Entry = File(file: FileRecord) | Dir(dirName: string, treeBytes: nat) {
    function Name(): string {
      if File? then file.name else dirName
    }

    /** Bytes counted for this entry by the recursive size walk. */
    function Bytes(): nat {
      if File? then file.sizeBytes else treeBytes
    }
  }

  datatype Folder = Folder(entries: seq<Entry>)

  /** The manager's limits: the age limit in hours and the size cap in bytes. */
  datatype Settings = Settings(maxAgeHours: int, maxStorageBytes: int)

  /** No two entries of a directory share a name. */
  predicate DistinctNames(es: seq<Entry>) {
    forall i, j :: 0 <= i < j < |es| ==> es[i].Name() != es[j].Name()
  }

  predicate DistinctFileNames(files: seq<FileRecord>) {
    forall i, j :: 0 <= i < j < |files| ==> files[i].name != files[j].name
  }

  /** `get_folder_size_gb` (in bytes): every entry's bytes, subdirectories
      included. */
  function FolderSize(es: seq<Entry>): nat {
    if |es| == 0 then 0 else es[0].Bytes() + FolderSize(es[1..])
  }

  /** `get_file_info`: the top-level regular files, in listing order. */
  function Snapshot(es: seq<Entry>): (files: seq<FileRecord>)
  {
    if |es| == 0 then []
    else if es[0].File? then [es[0].file] + Snapshot(es[1..])
    else Snapshot(es[1..])
  }

  /** The listing holds exactly the folder's regular files. */
  lemma {:induction false} SnapshotMembers(es: seq<Entry>)
    ensures forall f :: f in Snapshot(es) <==> File(f) in es
  {
    if |es| > 0 {
      SnapshotMembers(es[1..]);
      assert es == [es[0]] + es[1..];
    }
  }

  function Mtime(f: FileRecord): int {
    f.mtime
  }

  function SumBytes(files: seq<FileRecord>): nat {
    if |files| == 0 then 0 else files[0].sizeBytes + SumBytes(files[1..])
  }

  function Names(files: seq<FileRecord>): seq<string> {
    if |files| == 0 then [] else [files[0].name] + Names(files[1..])
  }

  function NameSet(files: seq<FileRecord>): (s: set<string>)
    ensures forall n :: n in s <==> exists f :: f in files && f.name == n
  {
    set f | f in files :: f.name
  }

  /** The age test of `cleanup_old_files`: `(now - mtime) / 3600 > max_age_hours`
      on whole seconds, which is `now - mtime > max_age_hours * 3600`. */
  predicate IsOld(f: FileRecord, now: int, maxAgeHours: int) {
    now - f.mtime > maxAgeHours * 3600
  }

  function OldFiles(files: seq<FileRecord>, now: int, maxAgeHours: int): (r: seq<FileRecord>)
    ensures forall f :: f in r <==> f in files && IsOld(f, now, maxAgeHours)
    ensures |r| <= |files|
  {
    if |files| == 0 then []
    else if IsOld(files[0], now, maxAgeHours) then [files[0]] + OldFiles(files[1..], now, maxAgeHours)
    else OldFiles(files[1..], now, maxAgeHours)
  }

  /** The files of `files` whose deletion succeeds, in order. */
  function Deletable(files: seq<FileRecord>, undeletable: set<string>): (r: seq<FileRecord>)
    ensures forall f :: f in r <==> f in files && f.name !in undeletable
    ensures |r| <= |files|
  {
    if |files| == 0 then []
    else if files[0].name !in undeletable then [files[0]] + Deletable(files[1..], undeletable)
    else Deletable(files[1..], undeletable)
  }

  /** The files of `files` whose deletion fails, in order. */
  function Stuck(files: seq<FileRecord>, undeletable: set<string>): (r: seq<FileRecord>)
    ensures forall f :: f in r <==> f in files && f.name in undeletable
  {
    if |files| == 0 then []
    else if files[0].name in undeletable then [files[0]] + Stuck(files[1..], undeletable)
    else Stuck(files[1..], undeletable)
  }

  /** The folder without the regular files named in `names`. */
  function RemoveNames(es: seq<Entry>, names: set<string>): seq<Entry> {
    if |es| == 0 then []
    else if es[0].File? && es[0].file.name in names then RemoveNames(es[1..], names)
    else [es[0]] + RemoveNames(es[1..], names)
  }

  // ---------------------------------------------------------------------
  // The deletion loop shared by both purges

  /** What a deletion loop did: the folder afterwards, the files it removed,
      the files whose removal failed, and how many candidates it reached. */
  datatype Pass = Pass(after: seq<Entry>, deleted: seq<FileRecord>, failed: seq<FileRecord>, attempted: nat)

  /** Walks the candidates in order, trying to delete each. With a `limit`,
      the folder size is measured again before each candidate and the loop
      stops once it is at most the limit (`cleanup_by_size`); without one,
      every candidate is tried (`cleanup_old_files`). */
  function DeletePass(es: seq<Entry>, files: seq<FileRecord>, limit: Option<int>,
                      undeletable: set<string>): (p: Pass)
    ensures p.attempted <= |files|
    ensures limit.None? ==> p.attempted == |files|
    decreases |files|
  {
    if |files| == 0 || (limit.Some? && FolderSize(es) <= limit.value) then Pass(es, [], [], 0)
    else
      var f := files[0];
      if f.name in undeletable then
        var p := DeletePass(es, files[1..], limit, undeletable);
        Pass(p.after, p.deleted, [f] + p.failed, p.attempted + 1)
      else
        var p := DeletePass(RemoveNames(es, {f.name}), files[1..], limit, undeletable);
        Pass(p.after, [f] + p.deleted, p.failed, p.attempted + 1)
  }

  lemma {:induction false} RemoveNamesTwice(es: seq<Entry>, a: set<string>, b: set<string>)
    ensures RemoveNames(RemoveNames(es, a), b) == RemoveNames(es, a + b)
  {
    if |es| > 0 {
      RemoveNamesTwice(es[1..], a, b);
      if !(es[0].File? && es[0].file.name in a) {
        assert RemoveNames(es, a) == [es[0]] + RemoveNames(es[1..], a);
        assert ([es[0]] + RemoveNames(es[1..], a))[1..] == RemoveNames(es[1..], a);
      }
    }
  }

  lemma {:induction false} RemoveNamesNone(es: seq<Entry>)
    ensures RemoveNames(es, {}) == es
  {
    if |es| > 0 {
      RemoveNamesNone(es[1..]);
      assert es == [es[0]] + es[1..];
    }
  }

  /** The first `n + 1` candidates are the first one and the next `n`. */
  lemma PrefixStep(files: seq<FileRecord>, n: nat)
    requires n < |files|
    ensures var s := files[..n + 1]; |s| > 0 && s[0] == files[0] && s[1..] == files[1..][..n]
  {
  }

  /** The loop reaches a prefix of the candidates; it deletes exactly the
      deletable ones among them and records exactly the others as failures,
      in order; and the folder afterwards lacks exactly the deleted names. */
  lemma DeletePassEffect(es: seq<Entry>, files: seq<FileRecord>, limit: Option<int>,
                         undeletable: set<string>)
    ensures var p := DeletePass(es, files, limit, undeletable);
      && p.deleted == Deletable(files[..p.attempted], undeletable)
      && p.failed == Stuck(files[..p.attempted], undeletable)
      && p.after == RemoveNames(es, NameSet(p.deleted))
  {
    DeletePassLists(es, files, limit, undeletable);
    DeletePassAfter(es, files, limit, undeletable);
  }

  lemma {:induction false} DeletePassLists(es: seq<Entry>, files: seq<FileRecord>, limit: Option<int>,
                                           undeletable: set<string>)
    ensures var p := DeletePass(es, files, limit, undeletable);
      && p.deleted == Deletable(files[..p.attempted], undeletable)
      && p.failed == Stuck(files[..p.attempted], undeletable)
    decreases |files|
  {
    if |files| == 0 || (limit.Some? && FolderSize(es) <= limit.value) {
      assert files[..0] == [];
    } else {
      var f := files[0];
      var es' := if f.name in undeletable then es else RemoveNames(es, {f.name});
      var q := DeletePass(es', files[1..], limit, undeletable);
      DeletePassLists(es', files[1..], limit, undeletable);
      var s := files[..q.attempted + 1];
      PrefixStep(files, q.attempted);
      if f.name !in undeletable {
        assert Deletable(s, undeletable) == [f] + Deletable(s[1..], undeletable);
        assert Stuck(s, undeletable) == Stuck(s[1..], undeletable);
      } else {
        assert Deletable(s, undeletable) == Deletable(s[1..], undeletable);
        assert Stuck(s, undeletable) == [f] + Stuck(s[1..], undeletable);
      }
    }
  }

  lemma {:induction false} DeletePassAfter(es: seq<Entry>, files: seq<FileRecord>, limit: Option<int>,
                                           undeletable: set<string>)
    ensures var p := DeletePass(es, files, limit, undeletable);
      p.after == RemoveNames(es, NameSet(p.deleted))
    decreases |files|
  {
    if |files| == 0 || (limit.Some? && FolderSize(es) <= limit.value) {
      RemoveNamesNone(es);
      assert NameSet([]) == {};
    } else {
      var f := files[0];
      var es' := if f.name in undeletable then es else RemoveNames(es, {f.name});
      var q := DeletePass(es', files[1..], limit, undeletable);
      DeletePassAfter(es', files[1..], limit, undeletable);
      if f.name !in undeletable {
        RemoveNamesTwice(es, {f.name}, NameSet(q.deleted));
        assert NameSet([f] + q.deleted) == {f.name} + NameSet(q.deleted);
      }
    }
  }

  /** The folder after deleting the deletable files among the first `j`
      candidates is the folder after the first candidate's attempt, less
      the deletable files among the next `j - 1`. */
  lemma DeletedPrefixStep(es: seq<Entry>, files: seq<FileRecord>, undeletable: set<string>, j: nat)
    requires 0 < j <= |files|
    ensures var f := files[0];
      var es' := if f.name in undeletable then es else RemoveNames(es, {f.name});
      RemoveNames(es, NameSet(Deletable(files[..j], undeletable)))
        == RemoveNames(es', NameSet(Deletable(files[1..][..j - 1], undeletable)))
  {
    var f := files[0];
    var d := Deletable(files[1..][..j - 1], undeletable);
    PrefixStep(files, j - 1);
    if f.name !in undeletable {
      assert Deletable(files[..j], undeletable) == [f] + d;
      assert NameSet([f] + d) == {f.name} + NameSet(d);
      RemoveNamesTwice(es, {f.name}, NameSet(d));
    } else {
      assert Deletable(files[..j], undeletable) == d;
    }
  }

  /** With a limit, the loop stops only when the folder is within it or the
      candidates are used up, and it never stops early: before each
      candidate it reached, the folder was still over the limit. */
  lemma {:induction false} DeletePassStops(es: seq<Entry>, files: seq<FileRecord>, limit: int,
                                           undeletable: set<string>)
    ensures var p := DeletePass(es, files, Some(limit), undeletable);
      && (FolderSize(p.after) <= limit || p.attempted == |files|)
      && forall j :: 0 <= j < p.attempted ==>
        FolderSize(RemoveNames(es, NameSet(Deletable(files[..j], undeletable)))) > limit
    decreases |files|
  {
    var p := DeletePass(es, files, Some(limit), undeletable);
    if |files| > 0 && FolderSize(es) > limit {
      var f := files[0];
      var es' := if f.name in undeletable then es else RemoveNames(es, {f.name});
      var q := DeletePass(es', files[1..], Some(limit), undeletable);
      DeletePassStops(es', files[1..], limit, undeletable);
      assert p.attempted == q.attempted + 1;
      forall j | 0 <= j < p.attempted
        ensures FolderSize(RemoveNames(es, NameSet(Deletable(files[..j], undeletable)))) > limit
      {
        if j == 0 {
          assert files[..0] == [];
          assert NameSet([]) == {};
          RemoveNamesNone(es);
        } else {
          DeletedPrefixStep(es, files, undeletable, j);
        }
      }
    }
  }

  // ---------------------------------------------------------------------
  // Size and count bookkeeping under distinct names

  lemma {:induction false} RemoveAbsent(es: seq<Entry>, n: string)
    requires forall i :: 0 <= i < |es| ==> es[i].Name() != n
    ensures RemoveNames(es, {n}) == es
  {
    if |es| > 0 {
      RemoveAbsent(es[1..], n);
    }
  }

  /** Removing a present regular file takes away exactly its bytes and one
      file, and keeps names distinct. */
  lemma {:induction false} RemovePresent(es: seq<Entry>, f: FileRecord)
    requires DistinctNames(es)
    requires File(f) in es
    ensures FolderSize(RemoveNames(es, {f.name})) + f.sizeBytes == FolderSize(es)
    ensures |Snapshot(RemoveNames(es, {f.name}))| + 1 == |Snapshot(es)|
    ensures Snapshot(RemoveNames(es, {f.name})) == RemoveFile(Snapshot(es), f.name)
    ensures DistinctNames(RemoveNames(es, {f.name}))
  {
    var rest := es[1..];
    assert DistinctNames(rest) by {
      forall i, j | 0 <= i < j < |rest| ensures rest[i].Name() != rest[j].Name() {
        assert rest[i] == es[i + 1] && rest[j] == es[j + 1];
      }
    }
    if es[0] == File(f) {
      assert forall i :: 0 <= i < |rest| ==> rest[i].Name() != f.name by {
        forall i | 0 <= i < |rest| ensures rest[i].Name() != f.name {
          assert rest[i] == es[i + 1];
        }
      }
      RemoveAbsent(rest, f.name);
      SnapshotMembers(rest);
      RemoveFileAbsent(Snapshot(rest), f.name);
    } else {
      var k :| 0 <= k < |es| && es[k] == File(f);
      assert es[0].Name() != f.name by {
        assert k != 0;
      }
      assert File(f) in rest by {
        assert rest[k - 1] == File(f);
      }
      RemovePresent(rest, f);
      var r := RemoveNames(rest, {f.name});
      assert RemoveNames(es, {f.name}) == [es[0]] + r;
      assert DistinctNames([es[0]] + r) by {
        forall e | e in r ensures e.Name() != es[0].Name() {
          RemoveNamesSubset(rest, {f.name}, e);
          var m :| 0 <= m < |rest| && rest[m] == e;
          assert es[m + 1] == e;
        }
        forall i, j | 0 <= i < j < |[es[0]] + r|
          ensures ([es[0]] + r)[i].Name() != ([es[0]] + r)[j].Name()
        {
          if i == 0 {
            assert ([es[0]] + r)[j] == r[j - 1];
            assert r[j - 1] in r;
          } else {
            assert ([es[0]] + r)[i] == r[i - 1] && ([es[0]] + r)[j] == r[j - 1];
          }
        }
      }
    }
  }

  lemma {:induction false} RemoveNamesSubset(es: seq<Entry>, names: set<string>, e: Entry)
    requires e in RemoveNames(es, names)
    ensures e in es
  {
    if |es| > 0 && e != es[0] {
      RemoveNamesSubset(es[1..], names, e);
    }
  }

  /** The file list without the files named `n`. */
  function RemoveFile(files: seq<FileRecord>, n: string): seq<FileRecord> {
    if |files| == 0 then []
    else if files[0].name == n then RemoveFile(files[1..], n)
    else [files[0]] + RemoveFile(files[1..], n)
  }

  lemma {:induction false} RemoveFileAbsent(files: seq<FileRecord>, n: string)
    requires forall f :: f in files ==> f.name != n
    ensures RemoveFile(files, n) == files
  {
    if |files| > 0 {
      RemoveFileAbsent(files[1..], n);
    }
  }

  /** Bookkeeping of a deletion loop over candidates taken from the folder:
      the bytes freed are the bytes of the deleted files, one file leaves
      the listing per deletion, and names stay distinct. */
  lemma {:induction false} DeletePassAccounts(es: seq<Entry>, files: seq<FileRecord>, limit: Option<int>,
                                              undeletable: set<string>)
    requires DistinctNames(es)
    requires DistinctFileNames(files)
    requires forall f :: f in files ==> File(f) in es
    ensures var p := DeletePass(es, files, limit, undeletable);
      && FolderSize(p.after) + SumBytes(p.deleted) == FolderSize(es)
      && |Snapshot(p.after)| + |p.deleted| == |Snapshot(es)|
      && DistinctNames(p.after)
    decreases |files|
  {
    if |files| > 0 && !(limit.Some? && FolderSize(es) <= limit.value) {
      var f := files[0];
      var rest := files[1..];
      assert DistinctFileNames(rest) by {
        forall i, j | 0 <= i < j < |rest| ensures rest[i].name != rest[j].name {
          assert rest[i] == files[i + 1] && rest[j] == files[j + 1];
        }
      }
      if f.name in undeletable {
        DeletePassAccounts(es, rest, limit, undeletable);
      } else {
        var es' := RemoveNames(es, {f.name});
        RemovePresent(es, f);
        forall g | g in rest ensures File(g) in es' {
          var m :| 0 <= m < |rest| && rest[m] == g;
          assert files[m + 1] == g;
          assert g.name != f.name;
          SnapshotRemoveKeeps(es, f.name, g);
        }
        DeletePassAccounts(es', rest, limit, undeletable);
      }
    }
  }

  lemma {:induction false} SnapshotRemoveKeeps(es: seq<Entry>, n: string, g: FileRecord)
    requires File(g) in es && g.name != n
    ensures File(g) in RemoveNames(es, {n})
  {
    if es[0] != File(g) {
      SnapshotRemoveKeeps(es[1..], n, g);
    }
  }

  /** Distinct entry names give distinct file names in the listing. */
  lemma {:induction false} SnapshotDistinct(es: seq<Entry>)
    requires DistinctNames(es)
    ensures DistinctFileNames(Snapshot(es))
  {
    if |es| > 0 {
      var rest := es[1..];
      assert DistinctNames(rest) by {
        forall i, j | 0 <= i < j < |rest| ensures rest[i].Name() != rest[j].Name() {
          assert rest[i] == es[i + 1] && rest[j] == es[j + 1];
        }
      }
      SnapshotDistinct(rest);
      var s := Snapshot(es);
      SnapshotMembers(rest);
      if es[0].File? {
        forall j | 1 <= j < |s| ensures s[0].name != s[j].name {
          assert s[j] in Snapshot(rest);
          var m :| 0 <= m < |rest| && rest[m] == File(s[j]);
          assert es[m + 1] == File(s[j]);
        }
        forall i, j | 0 <= i < j < |s| ensures s[i].name != s[j].name {
          if i > 0 {
            assert s[i] == Snapshot(rest)[i - 1] && s[j] == Snapshot(rest)[j - 1];
          }
        }
      } else {
        assert s == Snapshot(rest);
      }
    }
  }

  /** The tail of a distinct-named listing is distinct-named, and the
      head's name does not occur in it. */
  lemma DistinctTail(files: seq<FileRecord>)
    requires DistinctFileNames(files) && |files| > 0
    ensures DistinctFileNames(files[1..])
    ensures forall g :: g in files[1..] ==> g.name != files[0].name
  {
    var rest := files[1..];
    forall i, j | 0 <= i < j < |rest| ensures rest[i].name != rest[j].name {
      assert rest[i] == files[i + 1] && rest[j] == files[j + 1];
    }
    forall g | g in rest ensures g.name != files[0].name {
      var m :| 0 <= m < |rest| && rest[m] == g;
      assert files[m + 1] == g;
    }
  }

  /** Putting a file in front of a distinct-named listing that lacks its
      name keeps the names distinct. */
  lemma DistinctCons(f: FileRecord, r: seq<FileRecord>)
    requires DistinctFileNames(r)
    requires forall g :: g in r ==> g.name != f.name
    ensures DistinctFileNames([f] + r)
  {
    var s := [f] + r;
    forall i, j | 0 <= i < j < |s| ensures s[i].name != s[j].name {
      assert s[j] == r[j - 1];
      if i > 0 {
        assert s[i] == r[i - 1];
      }
    }
  }

  lemma {:induction false} OldFilesDistinct(files: seq<FileRecord>, now: int, h: int)
    requires DistinctFileNames(files)
    ensures DistinctFileNames(OldFiles(files, now, h))
  {
    if |files| > 0 {
      DistinctTail(files);
      OldFilesDistinct(files[1..], now, h);
      if IsOld(files[0], now, h) {
        DistinctCons(files[0], OldFiles(files[1..], now, h));
      }
    }
  }

  // ---------------------------------------------------------------------
  // cleanup_old_files

  datatype AgeReport = AgeReport(deletedCount: nat, deletedBytes: nat, errors: seq<string>, remainingFiles: int)

  datatype AgeCleanup = AgeCleanup(after: seq<Entry>, report: AgeReport)

  /** `cleanup_old_files`: try to delete every listed file older than the
      age limit; count and size only the successful deletions. */
  function CleanupOldFiles(es: seq<Entry>, settings: Settings, now: int, undeletable: set<string>): AgeCleanup {
    var files := Snapshot(es);
    var aged := OldFiles(files, now, settings.maxAgeHours);
    var p := DeletePass(es, aged, None, undeletable);
    AgeCleanup(p.after, AgeReport(|p.deleted|, SumBytes(p.deleted), Names(p.failed), |files| - |p.deleted|))
  }

  lemma NamesLength(files: seq<FileRecord>)
    ensures |Names(files)| == |files|
  {
  }

  lemma {:induction false} DeletableStuckCount(files: seq<FileRecord>, u: set<string>)
    ensures |Deletable(files, u)| + |Stuck(files, u)| == |files|
  {
    if |files| > 0 {
      DeletableStuckCount(files[1..], u);
    }
  }

  /** The age purge attempts exactly the files older than the limit (a file
      exactly at the limit is kept): a listed file survives exactly when it
      is not old or its deletion fails. Every old file is either deleted or
      reported as an error; the freed bytes are those of the deleted files
      only, and the remaining count is the listing minus the deletions. */
  lemma CleanupOldFilesEffect(es: seq<Entry>, settings: Settings, now: int, undeletable: set<string>)
    requires DistinctNames(es)
    ensures var files := Snapshot(es);
      var c := CleanupOldFiles(es, settings, now, undeletable);
      && c.report.deletedCount + |c.report.errors| == |OldFiles(files, now, settings.maxAgeHours)|
      && c.report.remainingFiles == |files| - c.report.deletedCount
      && FolderSize(c.after) + c.report.deletedBytes == FolderSize(es)
      && |Snapshot(c.after)| == c.report.remainingFiles
      && forall f :: f in files ==>
        (File(f) in c.after <==> !IsOld(f, now, settings.maxAgeHours) || f.name in undeletable)
  {
    var files := Snapshot(es);
    var h := settings.maxAgeHours;
    var aged := OldFiles(files, now, h);
    var p := DeletePass(es, aged, None, undeletable);
    DeletePassEffect(es, aged, None, undeletable);
    assert p.attempted == |aged| by {
      DeletePassRunsAll(es, aged, undeletable);
    }
    assert aged[..|aged|] == aged;
    DeletableStuckCount(aged, undeletable);
    NamesLength(p.failed);
    SnapshotDistinct(es);
    OldFilesDistinct(files, now, h);
    SnapshotMembers(es);
    DeletePassAccounts(es, aged, None, undeletable);
    forall f | f in files
      ensures File(f) in p.after <==> !IsOld(f, now, h) || f.name in undeletable
    {
      RemoveNamesMember(es, NameSet(p.deleted), f);
      if f.name in NameSet(p.deleted) {
        var g :| g in p.deleted && g.name == f.name;
        SameNameSameFile(files, f, g);
      }
    }
  }

  /** Without a limit the loop reaches every candidate. */
  lemma {:induction false} DeletePassRunsAll(es: seq<Entry>, files: seq<FileRecord>, undeletable: set<string>)
    ensures DeletePass(es, files, None, undeletable).attempted == |files|
    decreases |files|
  {
    if |files| > 0 {
      var f := files[0];
      if f.name in undeletable {
        DeletePassRunsAll(es, files[1..], undeletable);
      } else {
        DeletePassRunsAll(RemoveNames(es, {f.name}), files[1..], undeletable);
      }
    }
  }

  lemma {:induction false} RemoveNamesMember(es: seq<Entry>, names: set<string>, f: FileRecord)
    ensures File(f) in RemoveNames(es, names) <==> File(f) in es && f.name !in names
  {
    if |es| > 0 {
      RemoveNamesMember(es[1..], names, f);
    }
  }

  lemma SameNameSameFile(files: seq<FileRecord>, f: FileRecord, g: FileRecord)
    requires DistinctFileNames(files)
    requires f in files && g in files
    ensures f.name == g.name ==> f == g
  {
    var i :| 0 <= i < |files| && files[i] == f;
    var j :| 0 <= j < |files| && files[j] == g;
    if f.name == g.name {
      assert i == j;
    }
  }

  // ---------------------------------------------------------------------
  // cleanup_by_size

  datatype SizeReport = SizeReport(
    deletedCount: nat,
    deletedBytes: nat,
    currentSize: int,
    target: int,
    cleanupNeeded: bool,
    errors: seq<string>)

  datatype SizeCleanup = SizeCleanup(after: seq<Entry>, report: SizeReport, attempted: seq<FileRecord>)

  /** The listing sorted by modification time, oldest first. */
  function OldestFirst(es: seq<Entry>): seq<FileRecord> {
    SortByKey(Snapshot(es), Mtime)
  }

  /** `cleanup_by_size(target)`: with no target the size cap is used. If the
      folder is within the target nothing happens; otherwise the listing is
      walked oldest first, re-measuring the folder before each deletion. */
  function CleanupBySize(es: seq<Entry>, settings: Settings, target: Option<int>,
                         undeletable: set<string>): (c: SizeCleanup)
    ensures c.report.target == target.GetOr(settings.maxStorageBytes)
    ensures c.report.cleanupNeeded <==> FolderSize(es) > c.report.target
    ensures !c.report.cleanupNeeded ==>
      c.after == es && c.report.deletedCount == 0 && c.report.deletedBytes == 0 && c.attempted == []
    ensures c.report.currentSize == FolderSize(c.after)
  {
    var t := target.GetOr(settings.maxStorageBytes);
    var current := FolderSize(es);
    if current <= t then
      SizeCleanup(es, SizeReport(0, 0, current, t, false, []), [])
    else
      var sorted := OldestFirst(es);
      var p := DeletePass(es, sorted, Some(t), undeletable);
      SizeCleanup(p.after,
                  SizeReport(|p.deleted|, SumBytes(p.deleted), FolderSize(p.after), t, true, Names(p.failed)),
                  sorted[..p.attempted])
  }

  lemma PrefixOfPrefix<T>(s: seq<T>, k: nat)
    requires k <= |s|
    ensures forall j :: 0 <= j <= k ==> s[..k][..j] == s[..j]
  {
  }

  /** The size purge works oldest first and stops as soon as it may: the
      files it reached are a prefix of the listing sorted by modification
      time; it ends within the target or with every file tried; and before
      each file it reached the folder was still over the target. */
  lemma CleanupBySizeOrder(es: seq<Entry>, settings: Settings, target: Option<int>, undeletable: set<string>)
    ensures var c := CleanupBySize(es, settings, target, undeletable);
      var sorted := OldestFirst(es);
      && |c.attempted| <= |sorted| && c.attempted == sorted[..|c.attempted|]
      && SortedBy(c.attempted, Mtime)
      && (c.report.currentSize <= c.report.target || |c.attempted| == |Snapshot(es)|)
      && (forall j :: 0 <= j < |c.attempted| ==>
           FolderSize(RemoveNames(es, NameSet(Deletable(c.attempted[..j], undeletable)))) > c.report.target)
  {
    var c := CleanupBySize(es, settings, target, undeletable);
    var t := target.GetOr(settings.maxStorageBytes);
    var sorted := OldestFirst(es);
    SortByKeySorted(Snapshot(es), Mtime);
    if FolderSize(es) > t {
      var p := DeletePass(es, sorted, Some(t), undeletable);
      DeletePassStops(es, sorted, t, undeletable);
      var k := p.attempted;
      assert c.attempted == sorted[..k];
      SortedPrefix(sorted, Mtime, k);
      PrefixOfPrefix(sorted, k);
    } else {
      assert c.attempted == sorted[..0];
    }
  }

  /** Each file the size purge reached was deleted or reported; the folder
      afterwards lacks exactly the deleted files; and the bytes freed and
      the listing's shrinkage are exactly those of the deleted files. */
  lemma CleanupBySizeAccounts(es: seq<Entry>, settings: Settings, target: Option<int>, undeletable: set<string>)
    requires DistinctNames(es)
    ensures var c := CleanupBySize(es, settings, target, undeletable);
      && c.report.deletedCount + |c.report.errors| == |c.attempted|
      && c.after == RemoveNames(es, NameSet(Deletable(c.attempted, undeletable)))
      && FolderSize(c.after) + c.report.deletedBytes == FolderSize(es)
      && |Snapshot(c.after)| + c.report.deletedCount == |Snapshot(es)|
  {
    var c := CleanupBySize(es, settings, target, undeletable);
    var t := target.GetOr(settings.maxStorageBytes);
    var sorted := OldestFirst(es);
    if FolderSize(es) > t {
      var p := DeletePass(es, sorted, Some(t), undeletable);
      DeletePassEffect(es, sorted, Some(t), undeletable);
      var k := p.attempted;
      assert c.attempted == sorted[..k];
      DeletableStuckCount(sorted[..k], undeletable);
      NamesLength(p.failed);
      SnapshotDistinct(es);
      SortedDistinct(Snapshot(es), sorted);
      SnapshotMembers(es);
      forall f | f in sorted ensures File(f) in es {
        assert f in multiset(sorted);
        assert f in multiset(Snapshot(es));
      }
      DeletePassAccounts(es, sorted, Some(t), undeletable);
    } else {
      assert c.attempted == [];
      assert NameSet([]) == {};
      RemoveNamesNone(es);
    }
  }

  /** A file of a distinct-named listing occurs in it once. */
  lemma OccursOnce(files: seq<FileRecord>, x: FileRecord)
    requires DistinctFileNames(files)
    requires x in files
    ensures multiset(files)[x] == 1
  {
    var a :| 0 <= a < |files| && files[a] == x;
    assert files == files[..a] + [x] + files[a + 1..];
    assert x !in files[..a] by {
      forall b | 0 <= b < a ensures files[b] != x {
      }
    }
    assert x !in files[a + 1..] by {
      forall b | a + 1 <= b < |files| ensures files[b] != x {
      }
    }
  }

  lemma RepeatCountsTwice(r: seq<FileRecord>, i: int, j: int)
    requires 0 <= i < j < |r|
    ensures r[i] == r[j] ==> multiset(r)[r[i]] >= 2
  {
    if r[i] == r[j] {
      assert r == r[..i] + [r[i]] + r[i + 1..j] + [r[j]] + r[j + 1..];
    }
  }

  /** A reordering of distinct-named files has distinct names. */
  lemma SortedDistinct(files: seq<FileRecord>, r: seq<FileRecord>)
    requires DistinctFileNames(files)
    requires multiset(r) == multiset(files)
    ensures DistinctFileNames(r)
  {
    forall i, j | 0 <= i < j < |r| ensures r[i].name != r[j].name {
      assert r[i] in multiset(files) && r[j] in multiset(files);
      OccursOnce(files, r[i]);
      RepeatCountsTwice(r, i, j);
      assert r[i] != r[j];
      SameNameSameFile(files, r[i], r[j]);
    }
  }

  /** In a sequence sorted by modification time, a file among the first `k`
      is no newer than a file whose name is not among them. */
  lemma PrefixNoNewer(s: seq<FileRecord>, k: nat, d: FileRecord, r: FileRecord)
    requires SortedBy(s, Mtime) && k <= |s|
    requires d in s[..k] && r in s && r.name !in NameSet(s[..k])
    ensures d.mtime <= r.mtime
  {
    var a :| 0 <= a < k && s[..k][a] == d;
    var m :| 0 <= m < |s| && s[m] == r;
    assert forall i :: 0 <= i < k ==> s[i] in s[..k] by {
      forall i | 0 <= i < k ensures s[i] in s[..k] {
        assert s[..k][i] == s[i];
      }
    }
    assert k <= m;
    assert Mtime(s[a]) <= Mtime(s[m]);
  }

  /** When no deletion fails, the files deleted for space are exactly a
      prefix of the listing sorted oldest first, and every file left in the
      listing is at least as new as every file deleted. */
  lemma CleanupBySizeDeletesOldest(es: seq<Entry>, settings: Settings, target: Option<int>,
                                   undeletable: set<string>)
    requires DistinctNames(es)
    requires forall f :: f in Snapshot(es) ==> f.name !in undeletable
    ensures var c := CleanupBySize(es, settings, target, undeletable);
      && Deletable(c.attempted, undeletable) == c.attempted
      && forall d, r :: d in c.attempted && r in Snapshot(c.after) ==> d.mtime <= r.mtime
  {
    var c := CleanupBySize(es, settings, target, undeletable);
    var sorted := OldestFirst(es);
    CleanupBySizeOrder(es, settings, target, undeletable);
    CleanupBySizeAccounts(es, settings, target, undeletable);
    SortByKeySorted(Snapshot(es), Mtime);
    var k := |c.attempted|;
    forall f | f in c.attempted ensures f.name !in undeletable {
      assert f in sorted;
      assert f in multiset(Snapshot(es));
    }
    DeletableAll(c.attempted, undeletable);
    SnapshotMembers(es);
    SnapshotMembers(c.after);
    forall d, r | d in c.attempted && r in Snapshot(c.after)
      ensures d.mtime <= r.mtime
    {
      RemoveNamesMember(es, NameSet(c.attempted), r);
      assert r in multiset(Snapshot(es));
      assert r in multiset(sorted);
      PrefixNoNewer(sorted, k, d, r);
    }
  }

  lemma {:induction false} DeletableAll(files: seq<FileRecord>, u: set<string>)
    requires forall f :: f in files ==> f.name !in u
    ensures Deletable(files, u) == files
  {
    if |files| > 0 {
      DeletableAll(files[1..], u);
    }
  }

  /** The folder size counts subdirectories, but only top-level files can be
      deleted: with a 10-byte subdirectory and one 5-byte file, a target of
      8 bytes deletes the file and still ends over the target. */
  lemma SizeCleanupCanEndOverTarget()
    ensures var es := [Dir("cache", 10), File(FileRecord("a.mp4", 5, 0))];
      var c := CleanupBySize(es, Settings(24, 8), None, {});
      c.report.deletedCount == 1 && c.report.currentSize == 10 > c.report.target
  {
    var es := [Dir("cache", 10), File(FileRecord("a.mp4", 5, 0))];
    assert Snapshot(es) == [FileRecord("a.mp4", 5, 0)];
    assert OldestFirst(es) == [FileRecord("a.mp4", 5, 0)];
    assert RemoveNames(es, {"a.mp4"}) == [Dir("cache", 10)];
  }

  // ---------------------------------------------------------------------
  // smart_cleanup

  datatype SmartReport = SmartReport(
    ageCleanup: AgeReport,
    sizeCleanup: SizeReport,
    totalDeleted: nat,
    totalFreedBytes: nat,
    finalSize: nat,
    timestamp: string)

  datatype SmartCleanup = SmartCleanup(after: seq<Entry>, report: SmartReport)

  /** `smart_cleanup`: the age purge, then the size purge down to the cap;
      the clock reading for the report's timestamp is a parameter. */
  function RunSmartCleanup(es: seq<Entry>, settings: Settings, now: int, undeletable: set<string>,
                           timestamp: string): SmartCleanup {
    var age := CleanupOldFiles(es, settings, now, undeletable);
    var size := CleanupBySize(age.after, settings, None, undeletable);
    SmartCleanup(size.after, SmartReport(
      age.report, size.report,
      age.report.deletedCount + size.report.deletedCount,
      age.report.deletedBytes + size.report.deletedBytes,
      FolderSize(size.after), timestamp))
  }

  /** The combined cleanup runs the age purge first, and the size purge on
      what it leaves; the totals are the sums of the two, every freed byte
      is accounted for, and the listing shrinks by exactly the number of
      deleted files. */
  lemma SmartCleanupAccounts(es: seq<Entry>, settings: Settings, now: int, undeletable: set<string>,
                             timestamp: string)
    requires DistinctNames(es)
    ensures var s := RunSmartCleanup(es, settings, now, undeletable, timestamp);
      var age := CleanupOldFiles(es, settings, now, undeletable);
      && s.report.ageCleanup == age.report
      && s.report.sizeCleanup == CleanupBySize(age.after, settings, None, undeletable).report
      && s.report.finalSize + s.report.totalFreedBytes == FolderSize(es)
      && |Snapshot(s.after)| + s.report.totalDeleted == |Snapshot(es)|
      && s.report.totalDeleted <= |Snapshot(es)|
  {
    var age := CleanupOldFiles(es, settings, now, undeletable);
    CleanupOldFilesEffect(es, settings, now, undeletable);
    var h := settings.maxAgeHours;
    var aged := OldFiles(Snapshot(es), now, h);
    SnapshotDistinct(es);
    OldFilesDistinct(Snapshot(es), now, h);
    SnapshotMembers(es);
    DeletePassAccounts(es, aged, None, undeletable);
    CleanupBySizeOrder(age.after, settings, None, undeletable);
    CleanupBySizeAccounts(age.after, settings, None, undeletable);
  }

  /** A file younger than the age limit is removed by the combined cleanup
      only under size pressure: it was among the files the size purge
      reached, all of them taken oldest first. */
  lemma SmartCleanupSparesYoungFiles(es: seq<Entry>, settings: Settings, now: int, undeletable: set<string>,
                                     timestamp: string, f: FileRecord)
    requires DistinctNames(es)
    requires f in Snapshot(es) && !IsOld(f, now, settings.maxAgeHours)
    ensures var s := RunSmartCleanup(es, settings, now, undeletable, timestamp);
      var age := CleanupOldFiles(es, settings, now, undeletable);
      File(f) !in s.after ==>
        f in CleanupBySize(age.after, settings, None, undeletable).attempted
        && s.report.sizeCleanup.cleanupNeeded
  {
    var age := CleanupOldFiles(es, settings, now, undeletable);
    var size := CleanupBySize(age.after, settings, None, undeletable);
    CleanupOldFilesEffect(es, settings, now, undeletable);
    var h := settings.maxAgeHours;
    var aged := OldFiles(Snapshot(es), now, h);
    SnapshotDistinct(es);
    OldFilesDistinct(Snapshot(es), now, h);
    SnapshotMembers(es);
    DeletePassAccounts(es, aged, None, undeletable);
    CleanupBySizeOrder(age.after, settings, None, undeletable);
    CleanupBySizeAccounts(age.after, settings, None, undeletable);
    assert File(f) in age.after;
    if File(f) !in size.after {
      RemoveNamesMember(age.after, NameSet(Deletable(size.attempted, undeletable)), f);
      var g :| g in Deletable(size.attempted, undeletable) && g.name == f.name;
      assert g in size.attempted;
      var sorted := OldestFirst(age.after);
      assert g in multiset(sorted);
      assert g in multiset(Snapshot(age.after));
      SnapshotDistinct(age.after);
      SnapshotMembers(age.after);
      SameNameSameFile(Snapshot(age.after), f, g);
    }
  }

  // ---------------------------------------------------------------------
  // get_storage_stats

  /** The storage statistics. The two keys `files_over_24h` and
      `storage_usage_percent` are absent (`None`) for an empty listing. */
  datatype Stats = Stats(
    totalFiles: nat,
    totalBytes: nat,
    oldestAge: int,
    newestAge: int,
    averageBytes: real,
    filesOver24h: Option<nat>,
    usagePercent: Option<real>)

  function AgeOf(f: FileRecord, now: int): int {
    now - f.mtime
  }

  function MaxAge(files: seq<FileRecord>, now: int): (a: int)
    requires |files| > 0
    ensures forall f :: f in files ==> AgeOf(f, now) <= a
    ensures exists f :: f in files && AgeOf(f, now) == a
  {
    if |files| == 1 then AgeOf(files[0], now)
    else
      var m := MaxAge(files[1..], now);
      assert files == [files[0]] + files[1..];
      if AgeOf(files[0], now) >= m then AgeOf(files[0], now) else m
  }

  function MinAge(files: seq<FileRecord>, now: int): (a: int)
    requires |files| > 0
    ensures forall f :: f in files ==> a <= AgeOf(f, now)
    ensures exists f :: f in files && AgeOf(f, now) == a
  {
    if |files| == 1 then AgeOf(files[0], now)
    else
      var m := MinAge(files[1..], now);
      assert files == [files[0]] + files[1..];
      if AgeOf(files[0], now) <= m then AgeOf(files[0], now) else m
  }

  /** Files older than 24 hours: `age_hours > 24`, the literal 24 and not the
      configured age limit. The count is that of the files the age purge
      would pick with a 24-hour limit; it is 0 exactly when no file is over
      24 hours old, and the whole listing exactly when every file is. */
  function CountOver24h(files: seq<FileRecord>, now: int): (n: nat)
    ensures n == |OldFiles(files, now, 24)|
    ensures n == 0 <==> forall f :: f in files ==> AgeOf(f, now) <= 24 * 3600
    ensures n == |files| <==> forall f :: f in files ==> AgeOf(f, now) > 24 * 3600
  {
    if |files| == 0 then 0
    else (if AgeOf(files[0], now) > 24 * 3600 then 1 else 0) + CountOver24h(files[1..], now)
  }

  /** The mean of `count` values summing to `total`. */
  function Average(total: nat, count: nat): (a: real)
    requires count > 0
    ensures a * (count as real) == total as real
  {
    RealDivMul(total as real, count as real);
    total as real / count as real
  }

  lemma RealDivMul(t: real, n: real)
    requires n > 0.0
    ensures (t / n) * n == t
  {
  }

  /** `get_storage_stats`. */
  function GetStorageStats(es: seq<Entry>, settings: Settings, now: int): Stats {
    var files := Snapshot(es);
    if |files| == 0 then Stats(0, 0, 0, 0, 0.0, None, None)
    else
      var total := SumBytes(files);
      Stats(|files|, total, MaxAge(files, now), MinAge(files, now),
            Average(total, |files|),
            Some(CountOver24h(files, now)),
            Some(if settings.maxStorageBytes > 0 then total as real / settings.maxStorageBytes as real * 100.0 else 0.0))
  }

  /** An empty listing gives all-zero statistics without the two optional
      keys (and no division by zero). */
  lemma StorageStatsEmpty(es: seq<Entry>, settings: Settings, now: int)
    requires Snapshot(es) == []
    ensures GetStorageStats(es, settings, now) == Stats(0, 0, 0, 0, 0.0, None, None)
  {
  }

  /** A non-empty listing has the newest age at most the oldest, both the
      ages of listed files and bounding every file's age; the over-24h count
      is the number of files more than 24 hours old, within the file count
      and independent of the age limit; and the
      usage is 0 when the cap is not positive. */
  lemma StorageStatsBounds(es: seq<Entry>, settings: Settings, now: int)
    requires Snapshot(es) != []
    ensures var s := GetStorageStats(es, settings, now);
      var files := Snapshot(es);
      && s.totalFiles == |files| && s.totalBytes == SumBytes(files)
      && s.newestAge <= s.oldestAge
      && (exists f :: f in files && AgeOf(f, now) == s.oldestAge)
      && (exists f :: f in files && AgeOf(f, now) == s.newestAge)
      && (forall f :: f in files ==> s.newestAge <= AgeOf(f, now) <= s.oldestAge)
      && s.averageBytes == Average(s.totalBytes, s.totalFiles)
      && s.filesOver24h == Some(|OldFiles(files, now, 24)|) && s.filesOver24h.value <= s.totalFiles
      && s.filesOver24h == GetStorageStats(es, Settings(0, settings.maxStorageBytes), now).filesOver24h
      && s.usagePercent.Some?
      && (settings.maxStorageBytes <= 0 ==> s.usagePercent.value == 0.0)
  {
    var files := Snapshot(es);
    var s := GetStorageStats(es, settings, now);
    assert files[0] in files;
    assert s.oldestAge == MaxAge(files, now) && s.newestAge == MinAge(files, now);
    assert s.averageBytes == Average(SumBytes(files), |files|);
    assert s.filesOver24h == Some(CountOver24h(files, now));
  }

  /** The recorded scenario: files 48, 36, 12, 2 and 0.5 hours old. */
  function ScenarioFolder(now: int): seq<Entry> {
    [File(FileRecord("old_video_1.mp4", 100, now - 48 * 3600)),
     File(FileRecord("old_video_2.mp4", 100, now - 36 * 3600)),
     File(FileRecord("recent_video_1.mp4", 100, now - 12 * 3600)),
     File(FileRecord("recent_video_2.mp4", 100, now - 2 * 3600)),
     File(FileRecord("new_video.mp4", 100, now - 1800))]
  }

  lemma ScenarioSnapshot(now: int)
    ensures var es := ScenarioFolder(now);
      Snapshot(es) == [es[0].file, es[1].file, es[2].file, es[3].file, es[4].file]
  {
    var es := ScenarioFolder(now);
    var fs := [es[0].file, es[1].file, es[2].file, es[3].file, es[4].file];
    assert Snapshot(es[4..]) == fs[4..];
    assert Snapshot(es[3..]) == fs[3..];
    assert Snapshot(es[2..]) == fs[2..];
    assert Snapshot(es[1..]) == fs[1..];
  }

  lemma ScenarioOldFiles(now: int)
    ensures var es := ScenarioFolder(now);
      OldFiles(Snapshot(es), now, 24) == [es[0].file, es[1].file]
  {
    var es := ScenarioFolder(now);
    ScenarioSnapshot(now);
    var fs := [es[0].file, es[1].file, es[2].file, es[3].file, es[4].file];
    assert OldFiles(fs[4..], now, 24) == [];
    assert OldFiles(fs[3..], now, 24) == [];
    assert OldFiles(fs[2..], now, 24) == [];
    assert OldFiles(fs[1..], now, 24) == [fs[1]];
  }

  lemma ScenarioRemovals(now: int)
    ensures var es := ScenarioFolder(now);
      RemoveNames(RemoveNames(es, {"old_video_1.mp4"}), {"old_video_2.mp4"}) == es[2..]
  {
    var es := ScenarioFolder(now);
    RemoveNamesTwice(es, {"old_video_1.mp4"}, {"old_video_2.mp4"});
    var names := {"old_video_1.mp4", "old_video_2.mp4"};
    assert {"old_video_1.mp4"} + {"old_video_2.mp4"} == names;
    assert "recent_video_1.mp4" !in names && "recent_video_2.mp4" !in names && "new_video.mp4" !in names by {
      assert "recent_video_1.mp4"[0] == 'r' && "recent_video_2.mp4"[0] == 'r' && "new_video.mp4"[0] == 'n';
      assert "old_video_1.mp4"[0] == 'o' && "old_video_2.mp4"[0] == 'o';
    }
    assert RemoveNames(es[2..], names) == es[2..] by {
      assert RemoveNames(es[4..], names) == es[4..];
      assert RemoveNames(es[3..], names) == es[3..];
    }
  }

  /** With a 24-hour limit, the age purge of the recorded scenario deletes
      exactly the 48- and 36-hour-old files and leaves three. */
  lemma AgeCleanupScenario(now: int)
    ensures var es := ScenarioFolder(now);
      var c := CleanupOldFiles(es, Settings(24, 5000), now, {});
      c.report.deletedCount == 2 && c.report.remainingFiles == 3
      && c.after == es[2..]
  {
    var es := ScenarioFolder(now);
    ScenarioOldFiles(now);
    ScenarioRemovals(now);
    var fs := [es[0].file, es[1].file];
    ScenarioSnapshot(now);
    var es1 := RemoveNames(es, {"old_video_1.mp4"});
    var es2 := RemoveNames(es1, {"old_video_2.mp4"});
    assert DeletePass(es2, [], None, {}) == Pass(es2, [], [], 0);
    assert fs[1..][1..] == [];
    assert DeletePass(es1, fs[1..], None, {}) == Pass(es2, [fs[1]], [], 1);
    assert DeletePass(es, fs, None, {}) == Pass(es2, fs, [], 2);
  }
}
