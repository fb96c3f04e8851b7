/** The OTP input component's state machine: the cell array and focused index it keeps,
    and its transitions on an external value change, a field edit, a key press and a
    field gaining focus. React, the native fields and the focus commands are outside
    the model; a transition returns the new state and the value reported to the
    owner's change handler, if any. */
module OtpInput {
  import opened Wrappers
  import opened Chunking
  import opened Masking
  import opened Focus

  /** The props the logic depends on. `controlled` records whether `handleTextChange`
      was supplied. */
  datatype Config = Config(count: nat, cellLength: nat, mask: Option<MaskingChar>, controlled: bool) {

    predicate Valid() {
      count >= 1 && cellLength >= 1
    }

    /** `maskingChar?.value`, as the single character it always holds. */
    function MaskValue(): Option<char> {
      match mask
      case None => None
      case Some(m) => Some(m.ch)
    }

    /** The most characters the cells can hold. */
    function Capacity(): nat {
      count * cellLength
    }
  }

  /** Builds the configuration from the props; `inputCellLength || 1` turns an absent
      or zero cell length into 1. */
  function MakeConfig(inputCount: nat, inputCellLength: Option<nat>, mask: Option<MaskingChar>,
                      hasChangeHandler: bool): (cfg: Config)
    ensures cfg.count == inputCount && cfg.mask == mask && cfg.controlled == hasChangeHandler
    ensures cfg.cellLength >= 1
    ensures inputCellLength.Some? && inputCellLength.value > 0 ==> cfg.cellLength == inputCellLength.value
    ensures inputCellLength.None? || inputCellLength.value == 0 ==> cfg.cellLength == 1
    ensures inputCount >= 1 ==> cfg.Valid()
  {
    var l := if inputCellLength.None? || inputCellLength.value == 0 then 1 else inputCellLength.value;
    Config(inputCount, l, mask, hasChangeHandler)
  }

  /** The component's state: the cell texts and the focused cell (-1 for none). */
  datatype OtpState = OtpState(cells: seq<string>, focused: int)

  /** The outcome of a handler: the next state and what was passed to `handleTextChange`. */
  datatype Step = Step(state: OtpState, reported: Option<string>)

  predicate WellFormed(cfg: Config, st: OtpState) {
    |st.cells| <= cfg.count && -1 <= st.focused < cfg.count
  }

  /** The state the value effect leaves behind: the cells are the chunk array of their
      own join, and focus is where the focus rule puts it. */
  predicate Settled(cfg: Config, st: OtpState)
    requires cfg.Valid()
  {
    && st.cells == Chunk(cfg.count, cfg.cellLength, Join(st.cells))
    && st.focused == FocusIndex(cfg.count, cfg.cellLength, st.cells)
  }

  /** The state at the first render: the chunks of `value || ''` and the initial focus. */
  function Initial(cfg: Config, value: string, autoFocus: Option<bool>): (st: OtpState)
    requires cfg.Valid()
    ensures WellFormed(cfg, st)
    ensures Shaped(cfg.cellLength, st.cells)
    ensures Join(st.cells) == value[..Min(|value|, cfg.Capacity())]
    ensures st.focused == -1 <==> autoFocus == Some(false)
    ensures autoFocus != Some(false) ==> st.focused == Min(|st.cells|, cfg.count - 1)
  {
    var c := Chunk(cfg.count, cfg.cellLength, value);
    OtpState(c, InitialFocus(cfg.count, c, autoFocus))
  }

  /** The value effect (run on mount and on every change of `value`): re-chunk the
      value and settle focus on the cell that takes its next character. */
  function SyncValue(cfg: Config, value: string): (st: OtpState)
    requires cfg.Valid()
    ensures WellFormed(cfg, st) && Settled(cfg, st)
    ensures Join(st.cells) == value[..Min(|value|, cfg.Capacity())]
    ensures st.focused == Min(|value| / cfg.cellLength, cfg.count - 1)
  {
    var c := Chunk(cfg.count, cfg.cellLength, value);
    FocusOfChunks(cfg.count, cfg.cellLength, value);
    ChunkIdempotent(cfg.count, cfg.cellLength, value);
    OtpState(c, FocusIndex(cfg.count, cfg.cellLength, c))
  }

  /** `otpTextArray[i] = s` on a JavaScript array: past the end the array grows to
      `i + 1` elements and the gap is holes, which every reader treats as "". */
  function SetCell(cells: seq<string>, i: nat, s: string): (r: seq<string>)
    ensures |r| == if i < |cells| then |cells| else i + 1
    ensures r[i] == s
    ensures forall j :: 0 <= j < |r| && j != i ==> r[j] == CellAt(cells, j)
  {
    if i < |cells| then cells[i := s] else cells + Holes(i - |cells|) + [s]
  }

  /** `n` array holes, read as empty cells. */
  function Holes(n: nat): (r: seq<string>)
    ensures |r| == n && forall j :: 0 <= j < n ==> r[j] == ""
  {
    if n == 0 then [] else [""] + Holes(n - 1)
  }

  lemma {:induction false} JoinHoles(n: nat)
    ensures Join(Holes(n)) == ""
  {
    if n > 0 {
      assert Holes(n)[1..] == Holes(n - 1);
      JoinHoles(n - 1);
    }
  }

  /** Writing cell `i` replaces that cell's slice of the joined value, or appends past
      the end of it. */
  lemma {:induction false} JoinSetCell(cells: seq<string>, i: nat, s: string)
    ensures i < |cells| ==> Join(SetCell(cells, i, s)) == Join(cells[..i]) + s + Join(cells[i + 1..])
    ensures i >= |cells| ==> Join(SetCell(cells, i, s)) == Join(cells) + s
  {
    if i < |cells| {
      JoinSetCellInside(cells, i, s);
    } else {
      JoinSetCellPastEnd(cells, i, s);
    }
  }

  lemma {:induction false} JoinSetCellInside(cells: seq<string>, i: nat, s: string)
    requires i < |cells|
    ensures Join(SetCell(cells, i, s)) == Join(cells[..i]) + s + Join(cells[i + 1..])
  {
    var r := cells[i := s];
    JoinAround(r, i);
    assert r[..i] == cells[..i];
    assert r[i + 1..] == cells[i + 1..];
  }

  lemma {:induction false} JoinSetCellPastEnd(cells: seq<string>, i: nat, s: string)
    requires i >= |cells|
    ensures Join(SetCell(cells, i, s)) == Join(cells) + s
  {
    JoinPadded(cells, i - |cells|, s);
  }

  /** Holes between the written cell and the old end add nothing to the join. */
  lemma {:induction false} JoinPadded(cells: seq<string>, n: nat, s: string)
    ensures Join(cells + Holes(n) + [s]) == Join(cells) + s
  {
    var gap := Holes(n);
    JoinAppend(cells + gap, [s]);
    JoinAppend(cells, gap);
    JoinSingle(s);
    JoinHoles(n);
  }

  lemma {:induction false} JoinSingle(s: string)
    ensures Join([s]) == s
  {
  }

  /** The joined value after cell `i` takes the reconciled field text. */
  function EditedValue(cfg: Config, st: OtpState, text: string, i: nat): string {
    Join(SetCell(st.cells, i, Reconcile(CellAt(st.cells, i), text, cfg.MaskValue())))
  }

  /** `onTextChange(text, i)`: cell `i` takes the field text reconciled against its
      stored text and the cells are joined. A controlled component reports that value
      cut to the capacity and keeps the written array (the source mutates its state
      array in place) with focus unchanged; an uncontrolled one re-chunks the value and
      settles focus. */
  function Edit(cfg: Config, st: OtpState, text: string, i: nat): (o: Step)
    requires cfg.Valid() && i < cfg.count
    ensures WellFormed(cfg, st) ==> WellFormed(cfg, o.state)
    ensures var v := EditedValue(cfg, st, text, i);
      cfg.controlled ==>
        && o.reported == Some(v[..Min(|v|, cfg.Capacity())])
        && |o.reported.value| <= cfg.Capacity()
        && o.state.focused == st.focused
        && o.state.cells == SetCell(st.cells, i, Reconcile(CellAt(st.cells, i), text, cfg.MaskValue()))
        && Join(o.state.cells) == v
    ensures var v := EditedValue(cfg, st, text, i);
      !cfg.controlled ==>
        && o.reported == None
        && Settled(cfg, o.state)
        && Join(o.state.cells) == v[..Min(|v|, cfg.Capacity())]
        && o.state.focused == Min(|v| / cfg.cellLength, cfg.count - 1)
  {
    var cells := SetCell(st.cells, i, Reconcile(CellAt(st.cells, i), text, cfg.MaskValue()));
    var otp := Join(cells);
    if cfg.controlled then
      Step(OtpState(cells, st.focused), Some(otp[..Min(|otp|, cfg.Capacity())]))
    else
      Step(SyncValue(cfg, otp), None)
  }

  const Backspace: string := "Backspace"

  /** `split('').splice(0, length - 1).join('')`: the text without its last character. */
  function DropLast(s: string): (r: string)
    requires |s| > 0
    ensures r + [s[|s| - 1]] == s
  {
    s[..|s| - 1]
  }

  /** Whether a key press in cell `i` is a backspace in an empty cell that is not the first. */
  predicate BackspaceInEmptyCell(st: OtpState, key: string, i: nat) {
    key == Backspace && i != 0 && CellAt(st.cells, i) == ""
  }

  /** `onKeyPress(e, i)`. Only a backspace in an empty cell other than the first does
      anything. If the previous cell has text, its last character is removed: a
      controlled component reports the (unclipped) join, an uncontrolled one keeps the
      array as is (no re-chunking) and settles focus on it. If the previous cell is
      empty, nothing changes but focus, which goes to the array's last element. */
  function KeyPress(cfg: Config, st: OtpState, key: string, i: nat): (o: Step)
    requires cfg.Valid() && i < cfg.count
    ensures WellFormed(cfg, st) ==> WellFormed(cfg, o.state)
    ensures !BackspaceInEmptyCell(st, key, i) ==> o == Step(st, None)
    ensures BackspaceInEmptyCell(st, key, i) && CellAt(st.cells, i - 1) != "" ==>
      && |o.state.cells| == |st.cells|
      && o.state.cells[i - 1] + [st.cells[i - 1][|st.cells[i - 1]| - 1]] == st.cells[i - 1]
      && (forall j :: 0 <= j < |st.cells| && j != i - 1 ==> o.state.cells[j] == st.cells[j])
      && (cfg.controlled ==> o.reported == Some(Join(o.state.cells)) && o.state.focused == st.focused)
      && (!cfg.controlled ==> o.reported == None &&
                              o.state.focused == FocusIndex(cfg.count, cfg.cellLength, o.state.cells))
    ensures BackspaceInEmptyCell(st, key, i) && CellAt(st.cells, i - 1) == "" ==>
      && o.state.cells == st.cells
      && o.reported == None
      && o.state.focused == (if |st.cells| > 0 then |st.cells| - 1 else 0)
  {
    if BackspaceInEmptyCell(st, key, i) then
      if CellAt(st.cells, i - 1) != "" then
        var cells := st.cells[i - 1 := DropLast(st.cells[i - 1])];
        if cfg.controlled then
          Step(OtpState(cells, st.focused), Some(Join(cells)))
        else
          Step(OtpState(cells, FocusIndex(cfg.count, cfg.cellLength, cells)), None)
      else
        Step(OtpState(st.cells, if |st.cells| > 0 then |st.cells| - 1 else 0), None)
    else
      Step(st, None)
  }

  /** `onInputFocus(i)`: a field gaining focus becomes the focused cell. */
  function FocusCell(cfg: Config, st: OtpState, i: nat): (st': OtpState)
    requires i < cfg.count
    ensures WellFormed(cfg, st) ==> WellFormed(cfg, st')
    ensures st'.cells == st.cells && st'.focused == i
  {
    if i != st.focused then OtpState(st.cells, i) else st
  }

  /** Dropping the last character of cell `k` drops the character of the joined value
      that ends cell `k`'s slice. */
  lemma {:induction false} JoinDropLastAt(cells: seq<string>, k: nat)
    requires k < |cells| && |cells[k]| > 0
    ensures var v := Join(cells);
      var p := |Join(cells[..k + 1])| - 1;
      && 0 <= p < |v|
      && Join(cells[k := DropLast(cells[k])]) == v[..p] + v[p + 1..]
  {
    var c := cells[k];
    var before := Join(cells[..k]);
    var after := Join(cells[k + 1..]);
    var cells' := cells[k := DropLast(c)];
    JoinAround(cells, k);
    JoinAround(cells', k);
    assert cells'[..k] == cells[..k];
    assert cells'[k + 1..] == cells[k + 1..];
    assert cells[..k + 1] == cells[..k] + [c];
    JoinAppend(cells[..k], [c]);
    JoinSingle(c);
    var v := Join(cells);
    assert v == (before + DropLast(c)) + ([c[|c| - 1]] + after);
  }

  /** A backspace that merges into the previous cell deletes exactly one character of
      the joined value: the one just before cell `i`'s slice. */
  lemma {:induction false} BackspaceRemovesOneCharacter(cfg: Config, st: OtpState, i: nat)
    requires cfg.Valid() && i < cfg.count
    requires BackspaceInEmptyCell(st, Backspace, i) && CellAt(st.cells, i - 1) != ""
    ensures var v := Join(st.cells);
      var p := |Join(st.cells[..i])| - 1;
      && 0 <= p < |v|
      && Join(KeyPress(cfg, st, Backspace, i).state.cells) == v[..p] + v[p + 1..]
  {
    JoinDropLastAt(st.cells, i - 1);
  }

  /** In a settled state whose value fits, writing the focused cell's text followed by
      `c` appends `c` to the value. */
  lemma {:induction false} AppendAtFocus(cfg: Config, v: string, c: char)
    requires cfg.Valid() && |v| < cfg.Capacity()
    ensures var st := SyncValue(cfg, v);
      var i := st.focused as nat;
      Join(SetCell(st.cells, i, CellAt(st.cells, i) + [c])) == v + [c]
  {
    var st := SyncValue(cfg, v);
    var cells := st.cells;
    var i := st.focused as nat;
    ChunkJoinWithinCapacity(cfg.count, cfg.cellLength, v);
    JoinSetCell(cells, i, CellAt(cells, i) + [c]);
    if i < |cells| {
      assert i == |cells| - 1;
      assert cells[..i + 1] == cells;
      JoinAround(cells, i);
      assert cells[i + 1..] == [];
    }
  }

  /** Typing one character into the focused cell of a settled state (the field reports
      its displayed text followed by the character) appends the character to the value:
      a controlled component reports the extended value, an uncontrolled one ends in
      the state the value effect derives from it. */
  lemma {:induction false} TypingAppendsToValue(cfg: Config, v: string, c: char)
    requires cfg.Valid() && |v| < cfg.Capacity()
    requires cfg.MaskValue() != Some(c)
    ensures var st := SyncValue(cfg, v);
      var i := st.focused as nat;
      var o := Edit(cfg, st, CellText(CellAt(st.cells, i), cfg.MaskValue()) + [c], i);
      && (cfg.controlled ==> o.reported == Some(v + [c]))
      && (!cfg.controlled ==> o.state == SyncValue(cfg, v + [c]))
  {
    var st := SyncValue(cfg, v);
    var i := st.focused as nat;
    var cell := CellAt(st.cells, i);
    var text := CellText(cell, cfg.MaskValue()) + [c];
    DisplayThenReconcile(cell, [c], cfg.MaskValue());
    AppendAtFocus(cfg, v, c);
    var w := EditedValue(cfg, st, text, i);
    assert w == v + [c];
    assert w[..Min(|w|, cfg.Capacity())] == w;
    var o := Edit(cfg, st, text, i);
    if cfg.controlled {
      assert o.reported == Some(w);
    } else {
      assert o.state == SyncValue(cfg, w);
    }
  }

  /** The focused cell of a state exists and is empty. */
  predicate FocusedCellEmpty(st: OtpState) {
    st.focused > 0 && CellAt(st.cells, st.focused) == ""
  }

  /** Backspace in the empty focused cell of a settled state deletes the value's last
      character; an uncontrolled component moves focus back one cell. */
  lemma {:induction false} BackspaceDeletesLastCharacter(cfg: Config, v: string)
    requires cfg.Valid() && FocusedCellEmpty(SyncValue(cfg, v))
    ensures var st := SyncValue(cfg, v);
      var o := KeyPress(cfg, st, Backspace, st.focused as nat);
      && 0 < |v| < cfg.Capacity()
      && Join(o.state.cells) == v[..|v| - 1]
      && (cfg.controlled ==> o.reported == Some(v[..|v| - 1]))
      && (!cfg.controlled ==> o.state.focused == st.focused - 1)
  {
    var st := SyncValue(cfg, v);
    var cells := st.cells;
    var n := |cells|;
    var i := st.focused as nat;
    var l := cfg.cellLength;
    assert n > 0;
    assert i == n && n < cfg.count && |cells[n - 1]| == l;
    JoinLength(l, cells);
    assert n * l < cfg.count * l by {
      MulStep(n, cfg.count, l);
    }
    assert |v| < cfg.Capacity();
    assert Join(cells) == v;
    assert cells[..i] == cells;
    BackspaceRemovesOneCharacter(cfg, st, i);
  }
}
