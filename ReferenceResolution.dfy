/**
 * Resolution of the candidate references, as the first `init` block of
 * `BeatSaberReferencesDialogue` computes them: keep the supplied paths that are
 * existing directories (failing when none is), list each one's children whose
 * extension is `dll` in any case and whose name is not the file name of an
 * existing reference, merge the lists in path order and drop repeated files.
 *
 * The file system is an input: a map from a path to what is there. A path that
 * is not in the map does not exist.
 */
module ReferenceResolution {
  import opened Wrappers
  import opened FileNames
  import opened Sequences

  /** What a path names: a plain file, or a directory with the names of its children in listing order. */
  datatype Node = RegularFile | Directory(children: seq<string>)

  type FileSystem = map<string, Node>

  /** A `java.io.File` for child `name` of directory `folder`; equality is path equality. */
  datatype FilePath = FilePath(folder: string, name: string)

  /** An existing project reference; only its hint path is used. */
  datatype Reference = Reference(stringHintPath: string)

  const NoFoldersMessage: string := "Beat saber folders are empty or not found!"

  /** `File(p).exists() && File(p).isDirectory`. */
  predicate IsDirectory(fs: FileSystem, p: string)
  {
    p in fs && fs[p].Directory?
  }

  /** The supplied paths that are existing directories, in the order given, repeats kept. */
  function ExistingFolders(paths: seq<string>, fs: FileSystem): (r: seq<string>)
    ensures forall p :: p in r <==> p in paths && IsDirectory(fs, p)
    ensures |r| <= |paths|
  {
    if paths == [] then []
    else
      var init := ExistingFolders(paths[..|paths| - 1], fs);
      var last := paths[|paths| - 1];
      assert paths == paths[..|paths| - 1] + [last];
      if IsDirectory(fs, last) then init + [last] else init
  }

  /** The file names of the existing references' hint paths. */
  function ExcludedNames(existingReferences: seq<Reference>): (r: seq<string>)
    ensures forall n :: n in r <==> exists ref :: ref in existingReferences && FileName(ref.stringHintPath) == n
  {
    var r := seq(|existingReferences|, i requires 0 <= i < |existingReferences| =>
      FileName(existingReferences[i].stringHintPath));
    assert forall ref :: ref in existingReferences ==> FileName(ref.stringHintPath) in r by {
      forall ref | ref in existingReferences ensures FileName(ref.stringHintPath) in r {
        var i :| 0 <= i < |existingReferences| && existingReferences[i] == ref;
        assert r[i] == FileName(ref.stringHintPath);
      }
    }
    r
  }

  /** The listing filter: extension `dll` after lower-casing, and no existing reference of that name. */
  predicate Accepts(name: string, excluded: seq<string>)
  {
    LowerAscii(Extension(name)) == "dll" && name !in excluded
  }

  /** The filter accepts exactly the names whose extension spells dll in some case and that are not excluded. */
  lemma AcceptsAnyCaseOfDll(name: string, excluded: seq<string>)
    ensures Accepts(name, excluded) <==>
      var ext := Extension(name);
      |ext| == 3 && ext[0] in {'d', 'D'} && ext[1] in {'l', 'L'} && ext[2] in {'l', 'L'} && name !in excluded
  {
    DllTestIgnoresCase(Extension(name));
  }

  /** `folder.listFiles { … }`: the accepted children of `folder`, in listing order. */
  function ListFiles(folder: string, children: seq<string>, excluded: seq<string>): (r: seq<FilePath>)
    ensures |r| <= |children|
    ensures forall f :: f in r ==> f.folder == folder
  {
    if children == [] then []
    else
      var init := ListFiles(folder, children[..|children| - 1], excluded);
      var last := children[|children| - 1];
      if Accepts(last, excluded) then init + [FilePath(folder, last)] else init
  }

  /** A folder's listing holds exactly its accepted children. */
  lemma {:induction false} ListFilesHoldsAccepted(folder: string, children: seq<string>, excluded: seq<string>, f: FilePath)
    ensures f in ListFiles(folder, children, excluded) <==>
      f.folder == folder && f.name in children && Accepts(f.name, excluded)
  {
    if children != [] {
      var init := children[..|children| - 1];
      var last := children[|children| - 1];
      assert children == init + [last];
      ListFilesHoldsAccepted(folder, init, excluded, f);
    }
  }

  /** `r` lists children of a directory, none twice, in the order of `children`. */
  predicate InChildOrder(children: seq<string>, r: seq<FilePath>)
  {
    NoDup(r) &&
    (forall f :: f in r ==> f.name in children) &&
    forall i, j :: 0 <= i < j < |r| ==> IndexOf(children, r[i].name) < IndexOf(children, r[j].name)
  }

  /** A listing keeps the order of the directory's children and, as they have no repeats, has none either. */
  lemma {:induction false} ListFilesKeepsChildOrder(folder: string, children: seq<string>, excluded: seq<string>)
    requires NoDup(children)
    ensures InChildOrder(children, ListFiles(folder, children, excluded))
  {
    if children != [] {
      var init := children[..|children| - 1];
      var last := children[|children| - 1];
      assert children == init + [last];
      ListFilesKeepsChildOrder(folder, init, excluded);
      var older := ListFiles(folder, init, excluded);
      InChildOrderExtend(init, last, older);
      if Accepts(last, excluded) {
        InChildOrderAppend(init, last, older, folder);
      }
    }
  }

  lemma InChildOrderExtend(init: seq<string>, last: string, r: seq<FilePath>)
    requires InChildOrder(init, r)
    ensures InChildOrder(init + [last], r)
  {
    forall f | f in r ensures f.name in init + [last] && IndexOf(init + [last], f.name) == IndexOf(init, f.name) {
      IndexOfAppend(init, [last], f.name);
    }
    forall i, j | 0 <= i < j < |r| ensures IndexOf(init + [last], r[i].name) < IndexOf(init + [last], r[j].name) {
      assert r[i] in r && r[j] in r;
    }
  }

  lemma InChildOrderAppend(init: seq<string>, last: string, r: seq<FilePath>, folder: string)
    requires NoDup(init + [last])
    requires InChildOrder(init + [last], r)
    requires forall f :: f in r ==> f.name in init
    ensures InChildOrder(init + [last], r + [FilePath(folder, last)])
  {
    var children := init + [last];
    forall k | 0 <= k < |init| ensures init[k] != last {
      assert children[k] == init[k] && children[|init|] == last;
    }
    assert IndexOf(children, last) == |init|;
    var r' := r + [FilePath(folder, last)];
    forall i, j | 0 <= i < j < |r'|
      ensures r'[i] != r'[j] && IndexOf(children, r'[i].name) < IndexOf(children, r'[j].name)
    {
      if j == |r| {
        assert r'[i] in r;
        IndexOfAppend(init, [last], r'[i].name);
      }
    }
  }

  /** One listing per existing folder, in folder order. */
  function PerFolder(folders: seq<string>, fs: FileSystem, excluded: seq<string>): (r: seq<seq<FilePath>>)
    requires forall p :: p in folders ==> IsDirectory(fs, p)
    ensures |r| == |folders|
    ensures forall k, f :: 0 <= k < |r| ==>
      (f in r[k] <==>
        (f.folder == folders[k] && IsDirectory(fs, f.folder) && f.name in fs[f.folder].children &&
         Accepts(f.name, excluded)))
  {
    var r := seq(|folders|, i requires 0 <= i < |folders| && IsDirectory(fs, folders[i]) =>
      ListFiles(folders[i], fs[folders[i]].children, excluded));
    assert forall k, f :: 0 <= k < |r| ==>
      (f in r[k] <==>
        (f.folder == folders[k] && IsDirectory(fs, f.folder) && f.name in fs[f.folder].children &&
         Accepts(f.name, excluded))) by {
      forall k, f | 0 <= k < |r|
        ensures f in r[k] <==>
          (f.folder == folders[k] && IsDirectory(fs, f.folder) && f.name in fs[f.folder].children &&
           Accepts(f.name, excluded))
      {
        assert folders[k] in folders;
        ListFilesHoldsAccepted(folders[k], fs[folders[k]].children, excluded, f);
      }
    }
    r
  }

  /** A child of a supplied directory that passes the listing filter. */
  predicate Qualifies(paths: seq<string>, fs: FileSystem, existingReferences: seq<Reference>, f: FilePath)
  {
    f.folder in paths && IsDirectory(fs, f.folder) && f.name in fs[f.folder].children &&
    Accepts(f.name, ExcludedNames(existingReferences))
  }

  /**
   * The merged listings before `distinct()`, defined when some supplied path is a
   * directory: exactly the qualifying children of the supplied directories.
   */
  function Merged(paths: seq<string>, fs: FileSystem, existingReferences: seq<Reference>): (r: seq<FilePath>)
    requires exists p :: p in paths && IsDirectory(fs, p)
    ensures forall f :: f in r <==> Qualifies(paths, fs, existingReferences, f)
  {
    var folders := ExistingFolders(paths, fs);
    var lists := PerFolder(folders, fs, ExcludedNames(existingReferences));
    assert forall f :: f in Reduce(lists) <==> Qualifies(paths, fs, existingReferences, f) by {
      forall f | Qualifies(paths, fs, existingReferences, f) ensures f in Reduce(lists) {
        var k :| 0 <= k < |folders| && folders[k] == f.folder;
        assert f in lists[k];
      }
    }
    Reduce(lists)
  }

  /** With a single supplied directory, the merge is that directory's listing. */
  lemma MergedOfOneFolder(dir: string, fs: FileSystem, existingReferences: seq<Reference>)
    requires IsDirectory(fs, dir)
    ensures exists p :: p in [dir] && IsDirectory(fs, p)
    ensures Merged([dir], fs, existingReferences) == ListFiles(dir, fs[dir].children, ExcludedNames(existingReferences))
  {
    assert [dir][..0] == [];
    assert ExistingFolders([dir], fs) == [dir];
  }

  /** No accepted name is the file name of an existing reference. */
  lemma AcceptedIsNotReferenced(name: string, existingReferences: seq<Reference>, ref: Reference)
    requires Accepts(name, ExcludedNames(existingReferences))
    requires ref in existingReferences
    ensures name != FileName(ref.stringHintPath)
  {
    var i :| 0 <= i < |existingReferences| && existingReferences[i] == ref;
    assert ExcludedNames(existingReferences)[i] == FileName(ref.stringHintPath);
  }

  /** The found references, or the IllegalArgumentException thrown when no supplied path is a directory. */
  function Resolve(beatSaberPath: seq<string>, fs: FileSystem, existingReferences: seq<Reference>)
    : (r: Result<seq<FilePath>, JavaException>)
    ensures r.Failure? <==> forall p :: p in beatSaberPath ==> !IsDirectory(fs, p)
    ensures r.Failure? ==> r.error == IllegalArgument(NoFoldersMessage)
    ensures r.Success? ==> forall f :: f in r.value <==> Qualifies(beatSaberPath, fs, existingReferences, f)
    ensures r.Success? ==> NoDup(r.value)
    ensures r.Success? ==> forall f :: f in r.value ==> LowerAscii(Extension(f.name)) == "dll"
    ensures r.Success? ==> forall f, ref :: f in r.value && ref in existingReferences ==>
      f.name != FileName(ref.stringHintPath)
  {
    var folders := ExistingFolders(beatSaberPath, fs);
    if |folders| == 0 then
      Failure(IllegalArgument(NoFoldersMessage))
    else
      assert folders[0] in folders;
      var found := Distinct(Merged(beatSaberPath, fs, existingReferences));
      assert forall f, ref :: f in found && ref in existingReferences ==> f.name != FileName(ref.stringHintPath) by {
        forall f, ref | f in found && ref in existingReferences ensures f.name != FileName(ref.stringHintPath) {
          AcceptedIsNotReferenced(f.name, existingReferences, ref);
        }
      }
      Success(found)
  }

  /** When some supplied path is a directory, the result is the merge with its repeats dropped. */
  lemma ResolveIsDistinctMerge(beatSaberPath: seq<string>, fs: FileSystem, existingReferences: seq<Reference>)
    requires exists p :: p in beatSaberPath && IsDirectory(fs, p)
    ensures Resolve(beatSaberPath, fs, existingReferences) == Success(Distinct(Merged(beatSaberPath, fs, existingReferences)))
  {
    var p :| p in beatSaberPath && IsDirectory(fs, p);
    assert p in ExistingFolders(beatSaberPath, fs);
  }

  /** The found list keeps the order of first occurrence in the folder-by-folder merge. */
  lemma FoundInMergeOrder(beatSaberPath: seq<string>, fs: FileSystem, existingReferences: seq<Reference>)
    requires exists p :: p in beatSaberPath && IsDirectory(fs, p)
    ensures Resolve(beatSaberPath, fs, existingReferences).Success?
    ensures var found := Resolve(beatSaberPath, fs, existingReferences).value;
      var merged := Merged(beatSaberPath, fs, existingReferences);
      forall i, j :: 0 <= i < j < |found| ==>
        found[i] in merged && found[j] in merged && IndexOf(merged, found[i]) < IndexOf(merged, found[j])
  {
    var merged := Merged(beatSaberPath, fs, existingReferences);
    ResolveIsDistinctMerge(beatSaberPath, fs, existingReferences);
    forall i, j | 0 <= i < j < |Distinct(merged)|
      ensures IndexOf(merged, Distinct(merged)[i]) < IndexOf(merged, Distinct(merged)[j])
    {
      DistinctKeepsFirstOccurrenceOrder(merged, i, j);
    }
  }

  lemma PerFolderAppend(folders: seq<string>, p: string, fs: FileSystem, excluded: seq<string>)
    requires forall q :: q in folders ==> IsDirectory(fs, q)
    requires IsDirectory(fs, p)
    ensures forall q :: q in folders + [p] ==> IsDirectory(fs, q)
    ensures PerFolder(folders + [p], fs, excluded) ==
      PerFolder(folders, fs, excluded) + [ListFiles(p, fs[p].children, excluded)]
  {
  }

  /** Merging the listing of an already supplied directory once more adds nothing after `distinct()`. */
  lemma RepeatedFolderMergesToSame(beatSaberPath: seq<string>, p: string, fs: FileSystem,
                                   existingReferences: seq<Reference>)
    requires p in beatSaberPath && IsDirectory(fs, p)
    ensures exists q :: q in beatSaberPath + [p] && IsDirectory(fs, q)
    ensures Distinct(Merged(beatSaberPath + [p], fs, existingReferences)) ==
            Distinct(Merged(beatSaberPath, fs, existingReferences))
  {
    var paths := beatSaberPath + [p];
    assert paths[..|paths| - 1] == beatSaberPath;
    var folders := ExistingFolders(beatSaberPath, fs);
    var excluded := ExcludedNames(existingReferences);
    var lists := PerFolder(folders, fs, excluded);
    var last := ListFiles(p, fs[p].children, excluded);
    assert ExistingFolders(paths, fs) == folders + [p];
    PerFolderAppend(folders, p, fs, excluded);
    var k :| 0 <= k < |folders| && folders[k] == p;
    assert lists[k] == last;
    ReduceRepeatedList(lists, k);
  }

  /** Supplying a path again, after it was already supplied, leaves the result unchanged. */
  lemma RepeatedPathAddsNothing(beatSaberPath: seq<string>, p: string, fs: FileSystem,
                                existingReferences: seq<Reference>)
    requires p in beatSaberPath
    ensures Resolve(beatSaberPath + [p], fs, existingReferences) == Resolve(beatSaberPath, fs, existingReferences)
  {
    var paths := beatSaberPath + [p];
    if IsDirectory(fs, p) {
      RepeatedFolderMergesToSame(beatSaberPath, p, fs, existingReferences);
      ResolveIsDistinctMerge(paths, fs, existingReferences);
      ResolveIsDistinctMerge(beatSaberPath, fs, existingReferences);
    } else {
      assert paths[..|paths| - 1] == beatSaberPath;
      assert ExistingFolders(paths, fs) == ExistingFolders(beatSaberPath, fs);
    }
  }

  /** A file that an existing reference points at, by a path ending in its name, is never offered. */
  lemma ReferencedFileIsNotOffered(beatSaberPath: seq<string>, fs: FileSystem,
                                   existingReferences: seq<Reference>,
                                   refFolder: string, sep: char, name: string)
    requires sep in Separators
    requires name != [] && forall i :: 0 <= i < |name| ==> name[i] !in Separators
    requires Reference(refFolder + [sep] + name) in existingReferences
    ensures Resolve(beatSaberPath, fs, existingReferences).Success? ==>
      forall f :: f in Resolve(beatSaberPath, fs, existingReferences).value ==> f.name != name
  {
    FileNameOfChild(refFolder, sep, name);
  }
}
