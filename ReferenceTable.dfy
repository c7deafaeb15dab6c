/**
 * The table model behind the dialogue: one row per found file, a check box
 * column that the user may edit and a read-only column with the file's display
 * name. A row is a value; the table replaces a row when its flag changes.
 */
module ReferenceTable {
  import opened Wrappers
  import opened FileNames
  import opened Sequences
  import opened ReferenceResolution

  /** The two columns and their editability (a column is read-only unless said otherwise). */
  datatype ColumnEnum = Include | ReferenceName
  {
    function StrName(): string
    {
      match this
      case Include => "Include"
      case ReferenceName => "Reference"
    }

    /** Only the check-box column, the one named "Include", may be edited. */
    predicate Editable()
      ensures Editable() <==> StrName() == "Include"
    {
      Include?
    }
  }

  /** A found file and whether the user has ticked it. */
  datatype BeatSaberReferencePair = BeatSaberReferencePair(included: bool, file: FilePath)

  /** The untyped cell values a Swing table model passes around (`Any?`). */
  datatype CellValue =
    | BoolValue(b: bool)
    | StringValue(s: string)
    | PairValue(pair: BeatSaberReferencePair)
    | Null

  function Files(rows: seq<BeatSaberReferencePair>): (r: seq<FilePath>)
    ensures |r| == |rows|
    ensures forall i :: 0 <= i < |rows| ==> r[i] == rows[i].file
  {
    seq(|rows|, i requires 0 <= i < |rows| => rows[i].file)
  }

  /** The files of the ticked rows, in row order. */
  function Selected(rows: seq<BeatSaberReferencePair>): (r: seq<FilePath>)
    ensures |r| <= |rows|
    ensures forall f :: f in r <==> exists i :: 0 <= i < |rows| && rows[i].included && rows[i].file == f
  {
    if rows == [] then []
    else
      var init := rows[..|rows| - 1];
      var last := rows[|rows| - 1];
      assert forall i :: 0 <= i < |init| ==> init[i] == rows[i];
      if last.included then Selected(init) + [last.file] else Selected(init)
  }

  /** With no row ticked, nothing is selected. */
  lemma {:induction false} NothingTickedSelectsNothing(rows: seq<BeatSaberReferencePair>)
    requires forall i :: 0 <= i < |rows| ==> !rows[i].included
    ensures Selected(rows) == []
  {
    if rows != [] {
      NothingTickedSelectsNothing(rows[..|rows| - 1]);
    }
  }

  /** Distinct files give a selection without repeats, in the order of the rows. */
  lemma {:induction false} SelectedKeepsRowOrder(rows: seq<BeatSaberReferencePair>, i: nat, j: nat)
    requires NoDup(Files(rows))
    requires i < j < |rows| && rows[i].included && rows[j].included
    ensures rows[i].file in Selected(rows) && rows[j].file in Selected(rows)
    ensures IndexOf(Selected(rows), rows[i].file) < IndexOf(Selected(rows), rows[j].file)
  {
    var init := rows[..|rows| - 1];
    var last := rows[|rows| - 1];
    assert Files(init) == Files(rows)[..|rows| - 1];
    var s := Selected(init);
    assert rows[i] == init[i];
    assert rows[i].file in s;
    if j < |rows| - 1 {
      assert rows[j] == init[j];
      SelectedKeepsRowOrder(init, i, j);
      IndexOfAppend(s, [last.file], rows[i].file);
      IndexOfAppend(s, [last.file], rows[j].file);
    } else {
      forall k | 0 <= k < |init| ensures init[k].file != last.file {
        assert Files(rows)[k] != Files(rows)[|rows| - 1];
      }
      assert last.file !in s;
      IndexOfAppend(s, [last.file], rows[i].file);
      assert IndexOf(s + [last.file], last.file) == |s|;
    }
  }

  /** Distinct files give a selection without repeats. */
  lemma {:induction false} SelectedHasNoRepeats(rows: seq<BeatSaberReferencePair>)
    requires NoDup(Files(rows))
    ensures NoDup(Selected(rows))
  {
    if rows != [] {
      var init := rows[..|rows| - 1];
      var last := rows[|rows| - 1];
      assert Files(init) == Files(rows)[..|rows| - 1];
      SelectedHasNoRepeats(init);
      forall k | 0 <= k < |init| ensures init[k].file != last.file {
        assert Files(rows)[k] == init[k].file && Files(rows)[|rows| - 1] == last.file;
      }
      assert last.file !in Selected(init);
    }
  }

  class BeatSaberReferenceTable {
    const columns: seq<ColumnEnum> := [Include, ReferenceName]
    var rows: seq<BeatSaberReferencePair>

    /** One unticked row per file, in the order given. */
    constructor (files: seq<FilePath>)
      ensures Files(rows) == files
      ensures forall i :: 0 <= i < |rows| ==> !rows[i].included
    {
      rows := [];
      new;
      for i := 0 to |files|
        invariant |rows| == i
        invariant forall k :: 0 <= k < i ==> rows[k] == BeatSaberReferencePair(false, files[k])
      {
        rows := rows + [BeatSaberReferencePair(false, files[i])];
      }
    }

    /** `getRowCount`: the number of rows; exactly the indices below it are rows. */
    function GetRowCount(): (r: int)
      reads this
      ensures r == |rows|
      ensures forall i :: GetValueAt(i, -1).Success? <==> 0 <= i < r
    {
      |rows|
    }

    /** `getColumnCount`: two, and exactly the columns below it can be asked about. */
    function GetColumnCount(): (r: int)
      ensures r == 2
      ensures forall c :: IsCellEditable(0, c).Success? <==> 0 <= c < r
    {
      |columns|
    }

    /** `isCellEditable`: only the check box column is editable; other indices throw. */
    function IsCellEditable(rowIndex: int, columnIndex: int): (r: Result<bool, JavaException>)
      ensures r.Failure? <==> !(0 <= columnIndex < 2)
      ensures r.Failure? ==> r.error == IndexOutOfBounds
      ensures r == Success(true) <==> columnIndex == 0
    {
      if 0 <= columnIndex < |columns| then Success(columns[columnIndex].Editable())
      else Failure(IndexOutOfBounds)
    }

    /**
     * `getValueAt`: column -1 yields the whole row, 0 its tick, 1 the file's name
     * without extension, any other column null; a row outside the table throws.
     */
    function GetValueAt(rowIndex: int, columnIndex: int): (r: Result<CellValue, JavaException>)
      reads this
      ensures r.Failure? <==> !(0 <= rowIndex < |rows|)
      ensures r.Failure? ==> r.error == IndexOutOfBounds
      ensures r.Success? && columnIndex == -1 ==> r.value == PairValue(rows[rowIndex])
      ensures r.Success? && columnIndex == 0 ==> r.value == BoolValue(rows[rowIndex].included)
      ensures r.Success? && columnIndex == 1 ==> r.value == StringValue(NameWithoutExtension(rows[rowIndex].file.name))
      ensures r.Success? && columnIndex !in {-1, 0, 1} ==> r.value == Null
    {
      if !(0 <= rowIndex < |rows|) then Failure(IndexOutOfBounds)
      else
        var pair := rows[rowIndex];
        match columnIndex
        case -1 => Success(PairValue(pair))
        case 0 => Success(BoolValue(pair.included))
        case 1 => Success(StringValue(NameWithoutExtension(pair.file.name)))
        case _ => Success(Null)
    }

    /**
     * `setValueAt`: on column 0 the row's tick becomes the given Boolean; any other
     * column is ignored; a row outside the table, or a non-Boolean for column 0, throws.
     */
    method SetValueAt(aValue: CellValue, rowIndex: int, columnIndex: int) returns (r: Outcome<JavaException>)
      modifies this
      ensures r == Fail(IndexOutOfBounds) <==> !(0 <= rowIndex < |old(rows)|)
      ensures r == Fail(ClassCast) <==> 0 <= rowIndex < |old(rows)| && columnIndex == 0 && !aValue.BoolValue?
      ensures r == Pass <==> 0 <= rowIndex < |old(rows)| && (columnIndex == 0 ==> aValue.BoolValue?)
      ensures r == Pass && columnIndex == 0 ==>
        aValue.BoolValue? && rows == old(rows)[rowIndex := old(rows)[rowIndex].(included := aValue.b)]
      ensures r.Fail? || columnIndex != 0 ==> rows == old(rows)
      ensures Files(rows) == Files(old(rows))
      ensures r == Pass && columnIndex == 0 ==> GetValueAt(rowIndex, 0) == Success(aValue)
      ensures forall i, c :: !(i == rowIndex && c in {-1, 0}) ==> GetValueAt(i, c) == old(GetValueAt(i, c))
    {
      if !(0 <= rowIndex < |rows|) {
        return Fail(IndexOutOfBounds);
      }
      var pair := rows[rowIndex];
      if columnIndex == 0 {
        if !aValue.BoolValue? {
          return Fail(ClassCast);
        }
        rows := rows[rowIndex := pair.(included := aValue.b)];
      }
      r := Pass;
    }
  }
}
