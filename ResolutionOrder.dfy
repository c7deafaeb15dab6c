/**
 * The order of the found references: supplied-path order first, and within one
 * folder the order of its directory listing. `filter` keeps the supplied order,
 * `map` keeps it, `reduce` concatenates the listings in that order, and
 * `distinct()` keeps each file where it first occurs.
 */
module ResolutionOrder {
  import opened Sequences
  import opened ReferenceResolution

  /** `x` occurs in `s` at some position before a position of `y`. */
  predicate OccursBefore(s: seq<string>, x: string, y: string)
  {
    exists a, b :: 0 <= a < b < |s| && s[a] == x && s[b] == y
  }

  /** Any two elements of `r` occur in `s` at two positions in the same order. */
  predicate InOrderWithin(s: seq<string>, r: seq<string>)
  {
    forall i, j :: 0 <= i < j < |r| ==> OccursBefore(s, r[i], r[j])
  }

  /** `filter` keeps the supplied order: two kept paths come from two supplied positions in the same order. */
  lemma {:induction false} ExistingFoldersKeepPathOrder(paths: seq<string>, fs: FileSystem)
    ensures InOrderWithin(paths, ExistingFolders(paths, fs))
  {
    if paths != [] {
      var init := paths[..|paths| - 1];
      var last := paths[|paths| - 1];
      var older := ExistingFolders(init, fs);
      var r := ExistingFolders(paths, fs);
      assert r == if IsDirectory(fs, last) then older + [last] else older;
      ExistingFoldersKeepPathOrder(init, fs);
      forall i, j | 0 <= i < j < |r| ensures OccursBefore(paths, r[i], r[j]) {
        if j < |older| {
          assert r[i] == older[i] && r[j] == older[j];
          assert OccursBefore(init, older[i], older[j]);
          var a, b :| 0 <= a < b < |init| && init[a] == older[i] && init[b] == older[j];
          assert paths[a] == r[i] && paths[b] == r[j];
        } else {
          assert r[i] in older;
          var a :| 0 <= a < |init| && init[a] == r[i];
          assert paths[a] == r[i] && paths[|paths| - 1] == r[j];
        }
      }
    }
  }

  /**
   * Two kept folders first occur among the kept paths in the same order as
   * they first occur among the supplied paths.
   */
  lemma {:induction false} ExistingFoldersKeepFirstOrder(paths: seq<string>, fs: FileSystem, x: string, y: string)
    requires x in ExistingFolders(paths, fs) && y in ExistingFolders(paths, fs)
    ensures x in paths && y in paths
    ensures IndexOf(ExistingFolders(paths, fs), x) <= IndexOf(ExistingFolders(paths, fs), y) <==>
            IndexOf(paths, x) <= IndexOf(paths, y)
  {
    var init := paths[..|paths| - 1];
    var last := paths[|paths| - 1];
    assert paths == init + [last];
    var older := ExistingFolders(init, fs);
    if !IsDirectory(fs, last) {
      ExistingFoldersKeepFirstOrder(init, fs, x, y);
      IndexOfAppend(init, [last], x);
      IndexOfAppend(init, [last], y);
    } else if last in init {
      assert last in older;
      ExistingFoldersKeepFirstOrder(init, fs, x, y);
      IndexOfAppend(init, [last], x);
      IndexOfAppend(init, [last], y);
      IndexOfAppend(older, [last], x);
      IndexOfAppend(older, [last], y);
    } else {
      assert last !in older;
      if x in older {
        IndexOfAppend(init, [last], x);
        IndexOfAppend(older, [last], x);
      } else {
        IndexOfPastPrefix(init, [last], x);
        IndexOfPastPrefix(older, [last], x);
      }
      if y in older {
        IndexOfAppend(init, [last], y);
        IndexOfAppend(older, [last], y);
      } else {
        IndexOfPastPrefix(init, [last], y);
        IndexOfPastPrefix(older, [last], y);
      }
      if x in older && y in older {
        ExistingFoldersKeepFirstOrder(init, fs, x, y);
      }
    }
  }

  /**
   * In the merged listings, a file that first occurs before another comes from a
   * folder kept no later; from the same folder, it comes earlier in the listing.
   */
  lemma {:induction false} MergeFollowsFolderOrder(folders: seq<string>, fs: FileSystem, excluded: seq<string>,
                                                   f: FilePath, g: FilePath)
    requires forall p :: p in folders ==> IsDirectory(fs, p)
    requires |folders| > 0
    requires f in Reduce(PerFolder(folders, fs, excluded)) && g in Reduce(PerFolder(folders, fs, excluded))
    requires IndexOf(Reduce(PerFolder(folders, fs, excluded)), f) < IndexOf(Reduce(PerFolder(folders, fs, excluded)), g)
    ensures f.folder in folders && g.folder in folders
    ensures IndexOf(folders, f.folder) <= IndexOf(folders, g.folder)
    ensures f.folder == g.folder && NoDup(fs[f.folder].children) ==>
      f.name in fs[f.folder].children && g.name in fs[f.folder].children &&
      IndexOf(fs[f.folder].children, f.name) < IndexOf(fs[f.folder].children, g.name)
  {
    var n := |folders|;
    var p := folders[n - 1];
    assert p in folders;
    if n == 1 {
      MergeOfOneFolder(folders, fs, excluded);
      ListedInChildOrder(p, fs[p].children, excluded, f, g);
    } else {
      var init := folders[..n - 1];
      SplitLast(folders);
      MergeSplitsAtLastFolder(init, p, fs, excluded);
      if g in Reduce(PerFolder(init, fs, excluded)) {
        MergeStepWithinPrefix(init, p, fs, excluded, f, g);
        MergeFollowsFolderOrder(init, fs, excluded, f, g);
        IndexOfAppend(init, [p], f.folder);
        IndexOfAppend(init, [p], g.folder);
      } else {
        MergeStepIntoLastFolder(init, p, fs, excluded, f, g);
      }
    }
  }

  lemma MergeOfOneFolder(folders: seq<string>, fs: FileSystem, excluded: seq<string>)
    requires |folders| == 1 && IsDirectory(fs, folders[0])
    ensures forall q :: q in folders ==> IsDirectory(fs, q)
    ensures Reduce(PerFolder(folders, fs, excluded)) == ListFiles(folders[0], fs[folders[0]].children, excluded)
  {
  }

  /** The merge over one more folder is the old merge followed by that folder's listing. */
  lemma MergeSplitsAtLastFolder(init: seq<string>, p: string, fs: FileSystem, excluded: seq<string>)
    requires forall q :: q in init ==> IsDirectory(fs, q)
    requires IsDirectory(fs, p) && |init| > 0
    ensures forall q :: q in init + [p] ==> IsDirectory(fs, q)
    ensures Reduce(PerFolder(init + [p], fs, excluded)) ==
      Reduce(PerFolder(init, fs, excluded)) + ListFiles(p, fs[p].children, excluded)
  {
    var lists := PerFolder(init + [p], fs, excluded);
    PerFolderAppend(init, p, fs, excluded);
    assert lists[..|lists| - 1] == PerFolder(init, fs, excluded);
  }

  /** When the later file already occurs before the last listing, so does the earlier one, at the same place. */
  lemma MergeStepWithinPrefix(init: seq<string>, p: string, fs: FileSystem, excluded: seq<string>,
                              f: FilePath, g: FilePath)
    requires forall q :: q in init ==> IsDirectory(fs, q)
    requires IsDirectory(fs, p) && |init| > 0
    requires f in Reduce(PerFolder(init, fs, excluded)) + ListFiles(p, fs[p].children, excluded)
    requires g in Reduce(PerFolder(init, fs, excluded))
    requires IndexOf(Reduce(PerFolder(init, fs, excluded)) + ListFiles(p, fs[p].children, excluded), f) <
             IndexOf(Reduce(PerFolder(init, fs, excluded)) + ListFiles(p, fs[p].children, excluded), g)
    ensures f in Reduce(PerFolder(init, fs, excluded))
    ensures IndexOf(Reduce(PerFolder(init, fs, excluded)), f) < IndexOf(Reduce(PerFolder(init, fs, excluded)), g)
  {
    var merged0 := Reduce(PerFolder(init, fs, excluded));
    var l := ListFiles(p, fs[p].children, excluded);
    IndexOfAppend(merged0, l, g);
    var k := IndexOf(merged0 + l, f);
    assert (merged0 + l)[k] == merged0[k];
    IndexOfAppend(merged0, l, f);
  }

  /** A later file first found in the last listing: its folder is new, and the earlier file is before it. */
  lemma MergeStepIntoLastFolder(init: seq<string>, p: string, fs: FileSystem, excluded: seq<string>,
                                f: FilePath, g: FilePath)
    requires forall q :: q in init ==> IsDirectory(fs, q)
    requires IsDirectory(fs, p) && |init| > 0
    requires f in Reduce(PerFolder(init, fs, excluded)) + ListFiles(p, fs[p].children, excluded)
    requires g in ListFiles(p, fs[p].children, excluded) && g !in Reduce(PerFolder(init, fs, excluded))
    requires IndexOf(Reduce(PerFolder(init, fs, excluded)) + ListFiles(p, fs[p].children, excluded), f) <
             IndexOf(Reduce(PerFolder(init, fs, excluded)) + ListFiles(p, fs[p].children, excluded), g)
    ensures f.folder in init + [p] && g.folder == p
    ensures IndexOf(init + [p], f.folder) <= IndexOf(init + [p], p)
    ensures f.folder == p && NoDup(fs[p].children) ==>
      f.name in fs[p].children && g.name in fs[p].children &&
      IndexOf(fs[p].children, f.name) < IndexOf(fs[p].children, g.name)
  {
    var lists0 := PerFolder(init, fs, excluded);
    var merged0 := Reduce(lists0);
    var l := ListFiles(p, fs[p].children, excluded);
    ListFilesHoldsAccepted(p, fs[p].children, excluded, g);
    forall m | 0 <= m < |init| ensures init[m] != p {
      assert g in lists0[m] ==> g in merged0;
    }
    IndexOfPastPrefix(init, [p], p);
    if f in merged0 {
      var k :| 0 <= k < |lists0| && f in lists0[k];
      assert f.folder == init[k];
      IndexOfAppend(init, [p], f.folder);
    } else {
      IndexOfPastPrefix(merged0, l, f);
      IndexOfPastPrefix(merged0, l, g);
      ListedInChildOrder(p, fs[p].children, excluded, f, g);
    }
  }

  /** Within one listing, a file listed before another is an earlier child. */
  lemma ListedInChildOrder(folder: string, children: seq<string>, excluded: seq<string>, f: FilePath, g: FilePath)
    requires f in ListFiles(folder, children, excluded) && g in ListFiles(folder, children, excluded)
    requires IndexOf(ListFiles(folder, children, excluded), f) < IndexOf(ListFiles(folder, children, excluded), g)
    ensures f.folder == folder && g.folder == folder
    ensures NoDup(children) ==>
      f.name in children && g.name in children && IndexOf(children, f.name) < IndexOf(children, g.name)
  {
    var l := ListFiles(folder, children, excluded);
    if NoDup(children) {
      ListFilesKeepsChildOrder(folder, children, excluded);
      assert l[IndexOf(l, f)] == f && l[IndexOf(l, g)] == g;
    }
  }

  /**
   * The found references come in supplied-path order, and files of one folder in
   * the order of that folder's directory listing.
   */
  lemma FoundInPathThenListingOrder(beatSaberPath: seq<string>, fs: FileSystem,
                                    existingReferences: seq<Reference>, i: nat, j: nat)
    requires Resolve(beatSaberPath, fs, existingReferences).Success?
    requires i < j < |Resolve(beatSaberPath, fs, existingReferences).value|
    ensures var found := Resolve(beatSaberPath, fs, existingReferences).value;
      found[i].folder in beatSaberPath && found[j].folder in beatSaberPath &&
      IsDirectory(fs, found[i].folder) &&
      IndexOf(beatSaberPath, found[i].folder) <= IndexOf(beatSaberPath, found[j].folder)
    ensures var found := Resolve(beatSaberPath, fs, existingReferences).value;
      var children := fs[found[i].folder].children;
      found[i].folder == found[j].folder && NoDup(children) ==>
        found[i].name in children && found[j].name in children &&
        IndexOf(children, found[i].name) < IndexOf(children, found[j].name)
  {
    var found := Resolve(beatSaberPath, fs, existingReferences).value;
    var p :| p in beatSaberPath && IsDirectory(fs, p);
    var folders := ExistingFolders(beatSaberPath, fs);
    assert p in folders;
    var lists := PerFolder(folders, fs, ExcludedNames(existingReferences));
    var merged := Merged(beatSaberPath, fs, existingReferences);
    assert merged == Reduce(lists);
    ResolveIsDistinctMerge(beatSaberPath, fs, existingReferences);
    assert found == Distinct(merged);
    DistinctKeepsFirstOccurrenceOrder(merged, i, j);
    assert found[i] in found && found[j] in found;
    MergeFollowsFolderOrder(folders, fs, ExcludedNames(existingReferences), found[i], found[j]);
    ExistingFoldersKeepFirstOrder(beatSaberPath, fs, found[i].folder, found[j].folder);
  }
}
