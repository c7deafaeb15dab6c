/** Worked examples of the resolution on small file systems. */
module ResolutionScenarios {
  import opened Wrappers
  import opened FileNames
  import opened Sequences
  import opened ReferenceResolution

  lemma ReferencedNameRejected()
    ensures !Accepts("A.dll", ["A.dll"])
  {
  }

  lemma UpperCaseDllAccepted()
    ensures Accepts("B.DLL", ["A.dll"])
  {
    assert "B.DLL" == "B" + "." + "DLL";
    ExtensionOfJoin("B", "DLL");
    DllTestIgnoresCase("DLL");
  }

  lemma TextFileRejected()
    ensures !Accepts("notes.txt", ["A.dll"])
  {
    assert "notes.txt" == "notes" + "." + "txt";
    ExtensionOfJoin("notes", "txt");
    assert LowerAscii("txt")[0] == 't';
  }

  lemma DllExtension()
    ensures Extension("X.dll") == "dll"
  {
    assert "X.dll" == "X" + "." + "dll";
    ExtensionOfJoin("X", "dll");
  }

  lemma DllAccepted()
    ensures Accepts("X.dll", [])
  {
    DllExtension();
    LowerAsciiKeepsLowerCase("dll");
  }

  lemma ManagedListing()
    ensures ListFiles("/game/Managed", ["A.dll", "B.DLL", "notes.txt"], ["A.dll"]) == [FilePath("/game/Managed", "B.DLL")]
  {
    ReferencedNameRejected();
    UpperCaseDllAccepted();
    TextFileRejected();
    var children := ["A.dll", "B.DLL", "notes.txt"];
    assert children[..2] == ["A.dll", "B.DLL"] && children[..2][..1] == ["A.dll"] && children[..2][..1][..0] == [];
  }

  lemma ReferenceToADll()
    ensures ExcludedNames([Reference("/proj/refs/A.dll")]) == ["A.dll"]
  {
    assert "/proj/refs/A.dll" == "/proj/refs" + ['/'] + "A.dll";
    FileNameOfChild("/proj/refs", '/', "A.dll");
  }

  /** A referenced dll is left out; a dll in another case survives; a text file is filtered out by extension. */
  lemma ReferencedAndForeignFilesAreDropped()
    ensures Resolve(["/game/Managed"],
                    map["/game/Managed" := Directory(["A.dll", "B.DLL", "notes.txt"])],
                    [Reference("/proj/refs/A.dll")])
         == Success([FilePath("/game/Managed", "B.DLL")])
  {
    var dir := "/game/Managed";
    var fs := map[dir := Directory(["A.dll", "B.DLL", "notes.txt"])];
    var refs := [Reference("/proj/refs/A.dll")];
    ReferenceToADll();
    ManagedListing();
    MergedOfOneFolder(dir, fs, refs);
    ResolveIsDistinctMerge([dir], fs, refs);
    DistinctOfNoDup([FilePath(dir, "B.DLL")]);
  }

  /** A path that does not exist, or is a plain file, leaves nothing to search. */
  lemma NoDirectoryFails()
    ensures Resolve(["/missing", "/game/readme.txt"], map["/game/readme.txt" := RegularFile], [])
         == Failure(IllegalArgument(NoFoldersMessage))
  {
  }

  lemma SingleDllListing(folder: string)
    ensures ListFiles(folder, ["X.dll"], []) == [FilePath(folder, "X.dll")]
  {
    DllAccepted();
    assert ["X.dll"][..0] == [];
  }

  function TwoFolders(): FileSystem
  {
    map["/a" := Directory(["X.dll"]), "/b" := Directory(["X.dll"])]
  }

  lemma TwoFoldersExist()
    ensures ExistingFolders(["/a", "/b"], TwoFolders()) == ["/a", "/b"]
  {
    var paths := ["/a", "/b"];
    assert IsDirectory(TwoFolders(), "/a") && IsDirectory(TwoFolders(), "/b");
    assert paths[..1] == ["/a"] && paths[..1][..0] == [];
  }

  lemma TwoFoldersListings()
    ensures ExistingFolders(["/a", "/b"], TwoFolders()) == ["/a", "/b"]
    ensures PerFolder(["/a", "/b"], TwoFolders(), []) == [[FilePath("/a", "X.dll")], [FilePath("/b", "X.dll")]]
  {
    TwoFoldersExist();
    var fs := TwoFolders();
    assert fs["/a"].children == ["X.dll"] && fs["/b"].children == ["X.dll"];
    SingleDllListing("/a");
    SingleDllListing("/b");
  }

  lemma TwoFoldersMerge()
    ensures exists p :: p in ["/a", "/b"] && IsDirectory(TwoFolders(), p)
    ensures Merged(["/a", "/b"], TwoFolders(), []) == [FilePath("/a", "X.dll"), FilePath("/b", "X.dll")]
  {
    assert IsDirectory(TwoFolders(), "/a");
    TwoFoldersListings();
    assert ExcludedNames([]) == [];
    var lists := [[FilePath("/a", "X.dll")], [FilePath("/b", "X.dll")]];
    assert lists[..1] == [[FilePath("/a", "X.dll")]];
    assert Reduce(lists[..1]) == [FilePath("/a", "X.dll")];
  }

  /** The same name in two different folders is two different files: both stay. */
  lemma SameNameInTwoFoldersStaysTwice()
    ensures Resolve(["/a", "/b"], TwoFolders(), [])
         == Success([FilePath("/a", "X.dll"), FilePath("/b", "X.dll")])
  {
    TwoFoldersMerge();
    ResolveIsDistinctMerge(["/a", "/b"], TwoFolders(), []);
    DistinctOfNoDup([FilePath("/a", "X.dll"), FilePath("/b", "X.dll")]);
  }

  lemma ReferenceToOldDll()
    ensures ExcludedNames([Reference("C:\\proj\\old.dll")]) == ["old.dll"]
  {
    assert "C:\\proj\\old.dll" == "C:\\proj" + ['\\'] + "old.dll";
    FileNameOfChild("C:\\proj", '\\', "old.dll");
  }

  lemma OldDllListing()
    ensures ListFiles("/game/Managed", ["old.dll"], ["old.dll"]) == []
  {
    assert ["old.dll"][..0] == [];
  }

  lemma OldDllMerge()
    ensures IsDirectory(map["/game/Managed" := Directory(["old.dll"])], "/game/Managed")
    ensures Merged(["/game/Managed"], map["/game/Managed" := Directory(["old.dll"])],
                   [Reference("C:\\proj\\old.dll")]) == []
  {
    var dir := "/game/Managed";
    var fs := map[dir := Directory(["old.dll"])];
    ReferenceToOldDll();
    OldDllListing();
    MergedOfOneFolder(dir, fs, [Reference("C:\\proj\\old.dll")]);
  }

  /** Every candidate already referenced: the result is empty, not a failure. */
  lemma AllReferencedGivesEmptyList()
    ensures Resolve(["/game/Managed"], map["/game/Managed" := Directory(["old.dll"])],
                    [Reference("C:\\proj\\old.dll")])
         == Success([])
  {
    var fs := map["/game/Managed" := Directory(["old.dll"])];
    OldDllMerge();
    ResolveIsDistinctMerge(["/game/Managed"], fs, [Reference("C:\\proj\\old.dll")]);
  }
}
