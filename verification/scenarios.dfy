/** Concrete runs of the component with four one-character cells. */
module Scenarios {
  import opened Wrappers
  import opened Chunking
  import opened Masking
  import opened Focus
  import opened OtpInput

  function Plain(controlled: bool): Config {
    Config(4, 1, None, controlled)
  }

  /** A masked cell holding "1" shows "*"; typing "3" after it makes the field report
      "*3", which reconciles to "13". */
  lemma {:induction false} MaskedTypingReconciles()
    ensures Reconcile("1", "*3", Some('*')) == "13"
  {
  }

  /** Chunking "123" into one-character cells. */
  lemma {:induction false} ChunksOf123()
    ensures Chunk(4, 1, "123") == ["1", "2", "3"]
  {
    var cells := ["1", "2", "3"];
    assert Join(cells) == "123" by {
      assert Join(cells[2..]) == "3";
      assert Join(cells[1..]) == "23";
    }
    ChunkCharacterization(4, 1, "123", cells);
  }

  /** Value "123": focus sits on the empty fourth cell; backspace there empties the
      third cell and focus settles on it. */
  lemma {:induction false} BackspaceMergesIntoPreviousCell()
    ensures SyncValue(Plain(false), "123") == OtpState(["1", "2", "3"], 3)
    ensures KeyPress(Plain(false), OtpState(["1", "2", "3"], 3), Backspace, 3)
         == Step(OtpState(["1", "2", ""], 2), None)
  {
    ChunksOf123();
  }

  /** Backspace in an empty cell whose predecessor is empty only moves focus: to cell 0
      when the array is empty, but to the array's last element otherwise, even when
      every element is empty. */
  lemma {:induction false} BackspaceAfterEmptyCellOnlyMovesFocus()
    ensures KeyPress(Plain(false), OtpState([], 2), Backspace, 1) == Step(OtpState([], 0), None)
    ensures KeyPress(Plain(false), OtpState(["", "", "", ""], 2), Backspace, 1)
         == Step(OtpState(["", "", "", ""], 3), None)
  {
  }

  /** Deleting all of "12" with backspaces in an uncontrolled component leaves the
      emptied cells in the array, so focus stays on cell 1 and never returns to cell 0. */
  lemma {:induction false} BackspaceLeavesFocusOffFirstCell()
    ensures KeyPress(Plain(false), OtpState(["1", "2"], 2), Backspace, 2)
         == Step(OtpState(["1", ""], 1), None)
    ensures KeyPress(Plain(false), OtpState(["1", ""], 1), Backspace, 1)
         == Step(OtpState(["", ""], 1), None)
    ensures KeyPress(Plain(false), OtpState(["", ""], 1), Backspace, 1)
         == Step(OtpState(["", ""], 1), None)
    ensures Join(["", ""]) == ""
  {
  }

  /** Controlled, value "12": typing "3" into the third cell reports "123". */
  lemma {:induction false} ControlledTypingReports()
    ensures var st := SyncValue(Plain(true), "12");
      Edit(Plain(true), st, "3", 2).reported == Some("123")
  {
    var st := SyncValue(Plain(true), "12");
    TypingAppendsToValue(Plain(true), "12", '3');
    assert st.focused == 2;
    JoinLengthBound(st.cells);
    assert CellAt(st.cells, 2) == "";
    assert CellText("", None) + ['3'] == "3";
    assert "12" + ['3'] == "123";
  }

  /** Every cell of a shaped one-character array adds one character to the join. */
  lemma {:induction false} JoinLengthBound(cells: seq<string>)
    requires Shaped(1, cells)
    ensures |cells| <= |Join(cells)|
  {
    if |cells| > 0 {
      JoinLength(1, cells);
    }
  }

  /** Value "1234" with mask '*': every cell shows "*" while the value stays "1234". */
  lemma {:induction false} MaskedCellsShowOnlyTheMask()
    ensures var st := SyncValue(Config(4, 1, Some(MaskingChar('*')), false), "1234");
      && Join(st.cells) == "1234"
      && |st.cells| == 4
      && forall j :: 0 <= j < 4 ==> CellText(st.cells[j], Some('*')) == "*"
  {
  }

  /** A single emoji is one Dafny character but two UTF-16 code units, so it is not
      accepted as a masking character; a single letter is. */
  lemma AstralMaskingCharRejected()
    ensures MakeMaskingChar("\U{1F600}").Failure?
    ensures MakeMaskingChar("*") == Success(MaskingChar('*'))
  {
  }
}
