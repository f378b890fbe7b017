/**
 * `ColumnSelectionWindow`: one checkbox per column, select-all,
 * deselect-all and OK. The answer the user gives to the "No columns are
 * selected ... Continue?" message box is an input of `OkClick`.
 */
module ColumnSelection {
  import opened Basics

  /** A checkbox: the column name it shows and whether it is ticked. */
  datatype CheckBox = CheckBox(content: string, isChecked: bool)

  /** The names the boxes show, in order. */
  function Contents(boxes: seq<CheckBox>): (r: seq<string>)
    ensures |r| == |boxes|
  {
    seq(|boxes|, i requires 0 <= i < |boxes| => boxes[i].content)
  }

  /** Some ticked box shows the name `x`. */
  ghost predicate TickedName(boxes: seq<CheckBox>, x: string)
  {
    exists i :: 0 <= i < |boxes| && boxes[i].isChecked && boxes[i].content == x
  }

  /** The LINQ query of `btnOk_Click`: names of ticked boxes that are not
      empty, in box order. */
  function CheckedNames(boxes: seq<CheckBox>): (r: seq<string>)
    ensures IsSubsequence(r, Contents(boxes))
    ensures forall x :: x in r <==> x != "" && TickedName(boxes, x)
  {
    if boxes == [] then []
    else
      var rest := CheckedNames(boxes[1..]);
      assert Contents(boxes)[1..] == Contents(boxes[1..]);
      assert forall x :: TickedName(boxes, x) <==>
        ((boxes[0].isChecked && boxes[0].content == x) || TickedName(boxes[1..], x)) by {
        forall x ensures TickedName(boxes, x) <==>
          ((boxes[0].isChecked && boxes[0].content == x) || TickedName(boxes[1..], x)) {
          if i :| 0 <= i < |boxes| && boxes[i].isChecked && boxes[i].content == x {
            if i > 0 { assert boxes[1..][i - 1] == boxes[i]; }
          }
          if i :| 0 <= i < |boxes[1..]| && boxes[1..][i].isChecked && boxes[1..][i].content == x {
            assert boxes[i + 1] == boxes[1..][i];
          }
        }
      }
      if boxes[0].isChecked && boxes[0].content != "" then
        assert ([boxes[0].content] + rest)[1..] == rest;
        [boxes[0].content] + rest
      else rest
  }

  /** The confirmed names follow column order: they are a subsequence of
      the columns, and distinct when the columns are. */
  lemma CheckedNamesFollowColumns(boxes: seq<CheckBox>, columns: seq<string>)
    requires Contents(boxes) == columns
    ensures IsSubsequence(CheckedNames(boxes), columns)
    ensures Distinct(columns) ==> Distinct(CheckedNames(boxes))
  {
    if Distinct(columns) {
      SubsequenceDistinct(CheckedNames(boxes), columns);
    }
  }

  /** A dialog state: after select-all every named box is confirmed, and
      after deselect-all nothing is. */
  lemma CheckedNamesAllOrNone(boxes: seq<CheckBox>)
    ensures (forall i :: 0 <= i < |boxes| ==> !boxes[i].isChecked) ==> CheckedNames(boxes) == []
    ensures (forall i :: 0 <= i < |boxes| ==> boxes[i].isChecked && boxes[i].content != "") ==>
      CheckedNames(boxes) == Contents(boxes)
    decreases |boxes|
  {
    if boxes != [] {
      CheckedNamesAllOrNone(boxes[1..]);
      assert Contents(boxes) == [boxes[0].content] + Contents(boxes[1..]);
    } else {
      assert Contents(boxes) == [];
    }
  }

  // ---------------------------------------------------------------
  // The dialog as a state machine over values
  // ---------------------------------------------------------------

  /** The boxes the window opens with: one per column, ticked when nothing
      was selected before or the column was. */
  function InitialBoxes(allColumns: seq<string>, initiallySelected: Option<seq<string>>): (boxes: seq<CheckBox>)
    ensures Contents(boxes) == allColumns
  {
    seq(|allColumns|, i requires 0 <= i < |allColumns| =>
      CheckBox(allColumns[i], initiallySelected.None? || initiallySelected.value == [] ||
                              allColumns[i] in initiallySelected.value))
  }

  /** The columns that occur in `keep`, in column order. */
  function Chosen(columns: seq<string>, keep: seq<string>): (r: seq<string>)
    ensures IsSubsequence(r, columns)
  {
    if columns == [] then []
    else
      var rest := Chosen(columns[1..], keep);
      if columns[0] in keep then
        assert ([columns[0]] + rest)[1..] == rest;
        [columns[0]] + rest
      else rest
  }

  /** With a non-empty earlier selection and no empty names, confirming the
      opening boxes gives the columns that were selected before. */
  lemma {:induction false} CheckedInitialBoxes(columns: seq<string>, keep: seq<string>)
    requires keep != [] && forall j :: 0 <= j < |columns| ==> columns[j] != ""
    ensures CheckedNames(InitialBoxes(columns, Some(keep))) == Chosen(columns, keep)
  {
    if columns != [] {
      assert InitialBoxes(columns, Some(keep))[1..] == InitialBoxes(columns[1..], Some(keep));
      CheckedInitialBoxes(columns[1..], keep);
    }
  }

  /** Only membership on the columns themselves matters to `Chosen`. */
  lemma {:induction false} ChosenAgree(columns: seq<string>, k1: seq<string>, k2: seq<string>)
    requires forall j :: 0 <= j < |columns| ==> (columns[j] in k1 <==> columns[j] in k2)
    ensures Chosen(columns, k1) == Chosen(columns, k2)
  {
    if columns != [] {
      ChosenAgree(columns[1..], k1, k2);
    }
  }

  /** Choosing the columns of a subsequence of distinct columns gives back
      exactly that subsequence. */
  lemma {:induction false} ChosenOfSubsequence(columns: seq<string>, keep: seq<string>)
    requires Distinct(columns) && IsSubsequence(keep, columns)
    ensures Chosen(columns, keep) == keep
    decreases |columns|
  {
    if columns == [] {
    } else if keep == [] {
      ChosenNone(columns);
    } else {
      var c := columns[0];
      assert c !in columns[1..] by {
        forall j | 0 <= j < |columns[1..]| ensures columns[1..][j] != c {
          assert columns[1..][j] == columns[j + 1];
        }
      }
      assert Distinct(columns[1..]) by {
        forall i, j | 0 <= i < j < |columns[1..]| ensures columns[1..][i] != columns[1..][j] {
          assert columns[1..][i] == columns[i + 1] && columns[1..][j] == columns[j + 1];
        }
      }
      if keep[0] == c && IsSubsequence(keep[1..], columns[1..]) {
        ChosenOfSubsequence(columns[1..], keep[1..]);
        assert keep[0] in keep;
        forall j | 0 <= j < |columns[1..]| ensures columns[1..][j] in keep <==> columns[1..][j] in keep[1..] {
          assert keep == [keep[0]] + keep[1..];
        }
        ChosenAgree(columns[1..], keep, keep[1..]);
        assert keep == [keep[0]] + keep[1..];
      } else {
        ChosenOfSubsequence(columns[1..], keep);
        SubsequenceMembers(keep, columns[1..]);
      }
    }
  }

  lemma {:induction false} ChosenNone(columns: seq<string>)
    ensures Chosen(columns, []) == []
  {
    if columns != [] {
      ChosenNone(columns[1..]);
    }
  }

  /** A step of the user in the dialog. */
  datatype DialogAction =
    | SelectAll
    | DeselectAll
    | Toggle(index: nat)                // a click on box `index`
    | Confirm(continueIfEmpty: bool)    // OK, with the Yes/No answer

  /** The dialog's state: the boxes, `SelectedColumns`, and whether
      `DialogResult` has been set to true (which closes the window). */
  datatype DialogState = DialogState(boxes: seq<CheckBox>, selected: seq<string>, confirmed: bool)

  /** The window as `ColumnSelectionWindow(allColumns, initiallySelected)` opens it. */
  function OpenDialog(allColumns: seq<string>, initiallySelected: Option<seq<string>>): DialogState
  {
    DialogState(InitialBoxes(allColumns, initiallySelected), [], false)
  }

  /** The effect of one action (a click on a box that does not exist does nothing). */
  function Step(s: DialogState, a: DialogAction): DialogState
  {
    match a
    case SelectAll =>
      s.(boxes := seq(|s.boxes|, i requires 0 <= i < |s.boxes| => s.boxes[i].(isChecked := true)))
    case DeselectAll =>
      s.(boxes := seq(|s.boxes|, i requires 0 <= i < |s.boxes| => s.boxes[i].(isChecked := false)))
    case Toggle(i) =>
      if i < |s.boxes| then s.(boxes := s.boxes[i := s.boxes[i].(isChecked := !s.boxes[i].isChecked)])
      else s
    case Confirm(answer) =>
      if CheckedNames(s.boxes) == [] && !answer then s
      else s.(selected := CheckedNames(s.boxes), confirmed := true)
  }

  /** The actions played until the window closes (or they run out). */
  function RunDialog(s: DialogState, actions: seq<DialogAction>): DialogState
    decreases |actions|
  {
    if actions == [] || s.confirmed then s else RunDialog(Step(s, actions[0]), actions[1..])
  }

  /** The boxes keep their names, a confirmed selection is a subsequence of
      them, and the window closes only through an OK. */
  lemma {:induction false} RunDialogKeepsColumns(s: DialogState, actions: seq<DialogAction>)
    requires s.confirmed ==> IsSubsequence(s.selected, Contents(s.boxes))
    ensures Contents(RunDialog(s, actions).boxes) == Contents(s.boxes)
    ensures RunDialog(s, actions).confirmed ==> IsSubsequence(RunDialog(s, actions).selected, Contents(s.boxes))
    ensures RunDialog(s, actions).confirmed && !s.confirmed ==>
      exists k :: 0 <= k < |actions| && actions[k].Confirm?
    decreases |actions|
  {
    if actions != [] && !s.confirmed {
      var t := Step(s, actions[0]);
      assert Contents(t.boxes) == Contents(s.boxes);
      if t.confirmed {
        CheckedNamesFollowColumns(t.boxes, Contents(t.boxes));
      }
      RunDialogKeepsColumns(t, actions[1..]);
      if RunDialog(s, actions).confirmed && !t.confirmed {
        var k :| 0 <= k < |actions[1..]| && actions[1..][k].Confirm?;
        assert actions[k + 1].Confirm?;
      }
    }
  }

  /** "Select all" then OK selects every column, when no name is empty. */
  lemma SelectAllThenOk(s: DialogState, answer: bool, rest: seq<DialogAction>)
    requires !s.confirmed && s.boxes != [] && forall i :: 0 <= i < |s.boxes| ==> s.boxes[i].content != ""
    ensures var t := RunDialog(s, [SelectAll, Confirm(answer)] + rest);
      t.confirmed && t.selected == Contents(s.boxes)
  {
    var a := [SelectAll, Confirm(answer)] + rest;
    var t1 := Step(s, SelectAll);
    assert forall i :: 0 <= i < |t1.boxes| ==> t1.boxes[i].isChecked && t1.boxes[i].content == s.boxes[i].content;
    CheckedNamesAllOrNone(t1.boxes);
    assert Contents(t1.boxes) == Contents(s.boxes);
    var t2 := Step(t1, Confirm(answer));
    assert t2.confirmed && t2.selected == Contents(s.boxes);
    assert a[0] == SelectAll && a[1..][0] == Confirm(answer) && a[1..][1..] == rest;
    assert RunDialog(s, a) == RunDialog(t1, a[1..]);
    assert RunDialog(t1, a[1..]) == RunDialog(t2, rest);
  }

  /** "Deselect all" then OK: answering No keeps the window open with the
      old selection, answering Yes confirms the empty selection. */
  lemma DeselectAllThenOk(s: DialogState, answer: bool)
    requires !s.confirmed
    ensures var t := RunDialog(s, [DeselectAll, Confirm(answer)]);
      && t.confirmed == answer
      && t.selected == (if answer then [] else s.selected)
  {
    var a := [DeselectAll, Confirm(answer)];
    var t1 := Step(s, DeselectAll);
    CheckedNamesAllOrNone(t1.boxes);
    var t2 := Step(t1, Confirm(answer));
    assert a[1..] == [Confirm(answer)] && a[1..][1..] == [];
    assert RunDialog(s, a) == RunDialog(t1, a[1..]);
    assert RunDialog(t1, a[1..]) == RunDialog(t2, []);
  }

  /** Opening the dialog on a confirmed selection and pressing OK straight
      away gives that selection back; an empty earlier selection reopens
      with every box ticked, so OK then selects every column. */
  lemma ReopenThenOk(columns: seq<string>, previous: seq<string>, answer: bool)
    requires columns != [] && Distinct(columns) && forall j :: 0 <= j < |columns| ==> columns[j] != ""
    requires IsSubsequence(previous, columns)
    ensures var t := RunDialog(OpenDialog(columns, Some(previous)), [Confirm(answer)]);
      t.confirmed && t.selected == (if previous == [] then columns else previous)
  {
    var boxes := InitialBoxes(columns, Some(previous));
    if previous == [] {
      CheckedNamesAllOrNone(boxes);
    } else {
      CheckedInitialBoxes(columns, previous);
      ChosenOfSubsequence(columns, previous);
    }
    assert [Confirm(answer)][1..] == [];
  }

  class ColumnSelectionWindow {
    /** The `allColumns` the window was opened with. */
    ghost const columns: seq<string>
    var boxes: seq<CheckBox>
    var selectedColumns: seq<string>
    /** `DialogResult` (null until OK succeeds). */
    var dialogResult: Option<bool>

    ghost predicate Valid()
      reads this
    {
      && Contents(boxes) == columns
      && IsSubsequence(selectedColumns, columns)
      && (dialogResult == None || dialogResult == Some(true))
    }

    /** The window's state as a value. */
    ghost function State(): DialogState
      reads this
    {
      DialogState(boxes, selectedColumns, dialogResult == Some(true))
    }

    /** `ColumnSelectionWindow(allColumns, initiallySelected)`: a box per column;
        a box starts ticked when nothing was selected before or its name was. */
    constructor (allColumns: seq<string>, initiallySelected: Option<seq<string>>)
      ensures Valid() && columns == allColumns && boxes == InitialBoxes(allColumns, initiallySelected)
      ensures forall i :: 0 <= i < |boxes| ==>
        boxes[i].isChecked == (initiallySelected.None? || initiallySelected.value == [] ||
                               allColumns[i] in initiallySelected.value)
      ensures selectedColumns == [] && dialogResult == None
    {
      columns := allColumns;
      boxes := [];
      selectedColumns := [];
      dialogResult := None;
      new;
      var initial := if initiallySelected.None? then [] else initiallySelected.value;
      var selectedSet := set x | x in initial;
      assert |selectedSet| == 0 <==> initial == [] by {
        if initial != [] { assert initial[0] in selectedSet; }
      }
      for k := 0 to |allColumns|
        invariant Contents(boxes) == allColumns[..k]
        invariant forall i :: 0 <= i < k ==> boxes[i].isChecked == (initial == [] || allColumns[i] in initial)
        invariant selectedColumns == [] && dialogResult == None
      {
        var cb := CheckBox(allColumns[k], |selectedSet| == 0 || allColumns[k] in selectedSet);
        boxes := boxes + [cb];
        assert Contents(boxes) == allColumns[..k + 1];
      }
      assert allColumns[..|allColumns|] == allColumns;
      SubsequenceReflexive(allColumns);
      assert IsSubsequence([], allColumns);
    }

    /** `btnSelectAll_Click`: every box ticked, nothing else changed. */
    method SelectAllClick()
      requires Valid()
      modifies this
      ensures Valid()
      ensures |boxes| == |old(boxes)|
      ensures forall i :: 0 <= i < |boxes| ==> boxes[i] == old(boxes[i]).(isChecked := true)
      ensures selectedColumns == old(selectedColumns) && dialogResult == old(dialogResult)
    {
      for k := 0 to |boxes|
        invariant |boxes| == |old(boxes)|
        invariant forall i :: 0 <= i < k ==> boxes[i] == old(boxes[i]).(isChecked := true)
        invariant forall i :: k <= i < |boxes| ==> boxes[i] == old(boxes[i])
        invariant selectedColumns == old(selectedColumns) && dialogResult == old(dialogResult)
      {
        boxes := boxes[k := boxes[k].(isChecked := true)];
      }
      assert Contents(boxes) == Contents(old(boxes));
    }

    /** `btnDeselectAll_Click`: every box cleared, nothing else changed. */
    method DeselectAllClick()
      requires Valid()
      modifies this
      ensures Valid()
      ensures |boxes| == |old(boxes)|
      ensures forall i :: 0 <= i < |boxes| ==> boxes[i] == old(boxes[i]).(isChecked := false)
      ensures selectedColumns == old(selectedColumns) && dialogResult == old(dialogResult)
    {
      for k := 0 to |boxes|
        invariant |boxes| == |old(boxes)|
        invariant forall i :: 0 <= i < k ==> boxes[i] == old(boxes[i]).(isChecked := false)
        invariant forall i :: k <= i < |boxes| ==> boxes[i] == old(boxes[i])
        invariant selectedColumns == old(selectedColumns) && dialogResult == old(dialogResult)
      {
        boxes := boxes[k := boxes[k].(isChecked := false)];
      }
      assert Contents(boxes) == Contents(old(boxes));
    }

    /** The user clicking box `index`, which flips it (WPF `CheckBox` behaviour). */
    method ToggleBox(index: nat)
      requires Valid() && index < |boxes|
      modifies this
      ensures Valid()
      ensures boxes == old(boxes)[index := old(boxes[index]).(isChecked := !old(boxes[index].isChecked))]
      ensures selectedColumns == old(selectedColumns) && dialogResult == old(dialogResult)
    {
      boxes := boxes[index := boxes[index].(isChecked := !boxes[index].isChecked)];
      assert Contents(boxes) == Contents(old(boxes));
    }

    /** `btnOk_Click`; `continueIfEmpty` is the Yes/No answer, asked only
        when no box is ticked. */
    method OkClick(continueIfEmpty: bool)
      requires Valid()
      modifies this
      ensures Valid() && boxes == old(boxes)
      ensures CheckedNames(boxes) == [] && !continueIfEmpty ==>
        selectedColumns == old(selectedColumns) && dialogResult == old(dialogResult)
      ensures CheckedNames(boxes) != [] || continueIfEmpty ==>
        selectedColumns == CheckedNames(boxes) && dialogResult == Some(true)
    {
      var selected := CheckedNames(boxes);
      if |selected| == 0 {
        if !continueIfEmpty {
          return;
        }
      }
      CheckedNamesFollowColumns(boxes, columns);
      selectedColumns := selected;
      dialogResult := Some(true);
    }
  }
}
