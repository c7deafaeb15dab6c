/**
 * The dialogue: resolves the candidate references when it is built, shows them
 * in a `BeatSaberReferenceTable`, and on OK appends the ticked files to
 * `references`.
 */
module ReferencesDialogue {
  import opened Wrappers
  import opened Sequences
  import opened ReferenceResolution
  import opened ReferenceTable

  class BeatSaberReferencesDialogue {
    const foundBeatSaberReferences: seq<FilePath>
    const table: BeatSaberReferenceTable
    var references: seq<FilePath>

    /** The table's files are the found references; only their ticks ever change. */
    ghost predicate Valid()
      reads this, table
    {
      Files(table.rows) == foundBeatSaberReferences && NoDup(foundBeatSaberReferences)
    }

    /** Construction when resolution succeeds: every found file unticked, nothing confirmed yet. */
    constructor (beatSaberPath: seq<string>, fs: FileSystem, existingReferences: seq<Reference>)
      requires Resolve(beatSaberPath, fs, existingReferences).Success?
      ensures foundBeatSaberReferences == Resolve(beatSaberPath, fs, existingReferences).value
      ensures fresh(table) && Valid()
      ensures forall i :: 0 <= i < |table.rows| ==> !table.rows[i].included
      ensures references == []
    {
      var found := Resolve(beatSaberPath, fs, existingReferences).value;
      foundBeatSaberReferences := found;
      table := new BeatSaberReferenceTable(found);
      references := [];
    }

    /** `doOKAction`: appends the files of the ticked rows, in row order; the table is left alone. */
    method DoOKAction()
      requires Valid()
      modifies this
      ensures references == old(references) + Selected(table.rows)
      ensures unchanged(table) && Valid()
      ensures forall f :: f in references[|old(references)|..] ==> f in foundBeatSaberReferences
      ensures NoDup(references[|old(references)|..])
    {
      var rowCount := table.GetRowCount();
      for i := 0 to rowCount
        invariant references == old(references) + Selected(table.rows[..i])
      {
        assert table.rows[..i + 1][..i] == table.rows[..i];
        var cell := table.GetValueAt(i, -1);
        match cell
        case Success(PairValue(pair)) =>
          if pair.included {
            references := references + [pair.file];
          }
        case _ =>
          assert false;
      }
      assert table.rows[..rowCount] == table.rows;
      assert references[|old(references)|..] == Selected(table.rows);
      SelectedHasNoRepeats(table.rows);
      forall f | f in Selected(table.rows) ensures f in foundBeatSaberReferences {
        var i :| 0 <= i < |table.rows| && table.rows[i].included && table.rows[i].file == f;
        assert Files(table.rows)[i] == f;
      }
    }
  }

  /**
   * Building the dialogue: the IllegalArgumentException of the resolution when no
   * supplied path is a directory, and otherwise a dialogue over the found files.
   */
  method Open(beatSaberPath: seq<string>, fs: FileSystem, existingReferences: seq<Reference>)
    returns (r: Result<BeatSaberReferencesDialogue, JavaException>)
    ensures r.Failure? <==> forall p :: p in beatSaberPath ==> !IsDirectory(fs, p)
    ensures r.Failure? ==> r.error == IllegalArgument(NoFoldersMessage)
    ensures r.Success? ==> fresh(r.value) && fresh(r.value.table) && r.value.Valid()
    ensures r.Success? ==> r.value.foundBeatSaberReferences == Resolve(beatSaberPath, fs, existingReferences).value
    ensures r.Success? ==> r.value.references == []
    ensures r.Success? ==> forall i :: 0 <= i < |r.value.table.rows| ==> !r.value.table.rows[i].included
  {
    var found := Resolve(beatSaberPath, fs, existingReferences);
    if found.Failure? {
      return Failure(found.error);
    }
    var dialogue := new BeatSaberReferencesDialogue(beatSaberPath, fs, existingReferences);
    return Success(dialogue);
  }

  /**
   * However the ticks were set, confirming a dialogue over the resolved files adds
   * only new dll files and none twice.
   */
  lemma ConfirmedFilesAreNewDlls(beatSaberPath: seq<string>, fs: FileSystem, existingReferences: seq<Reference>,
                                 rows: seq<BeatSaberReferencePair>)
    requires Resolve(beatSaberPath, fs, existingReferences).Success?
    requires Files(rows) == Resolve(beatSaberPath, fs, existingReferences).value
    ensures NoDup(Selected(rows))
    ensures forall f :: f in Selected(rows) ==> Qualifies(beatSaberPath, fs, existingReferences, f)
  {
    SelectedHasNoRepeats(rows);
    forall f | f in Selected(rows) ensures Qualifies(beatSaberPath, fs, existingReferences, f) {
      var i :| 0 <= i < |rows| && rows[i].included && rows[i].file == f;
      assert Files(rows)[i] == f;
    }
  }
}
