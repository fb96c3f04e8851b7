/** The masking character (`OTPMaskingChar`), the merge of a masked cell's field text
    with the cell's stored text (`repaceOtp`), and what a cell's field displays. */
module Masking {
  import opened Wrappers

  /** A validated masking character: always exactly one character. */
  datatype MaskingChar = MaskingChar(ch: char) {

    /** The `value` getter: the one-character string. */
    function Value(): string {
      [ch]
    }
  }

  const MaskingCharError: string := "maskingChar is allowed to have only 1 charecter"

  /** Whether a character lies outside the Basic Multilingual Plane, so that a
      JavaScript string stores it as two UTF-16 code units. */
  predicate IsAstral(c: char) {
    c as int >= 0x1_0000
  }

  /** JavaScript's `length` of a string: its number of UTF-16 code units. */
  function Utf16Length(s: string): (n: nat)
    ensures |s| <= n <= 2 * |s|
    ensures |s| == 1 ==> n == (if IsAstral(s[0]) then 2 else 1)
  {
    if |s| == 0 then 0
    else Utf16Length(s[..|s| - 1]) + (if IsAstral(s[|s| - 1]) then 2 else 1)
  }

  /** The code-unit count of a concatenation is the sum of the parts' counts; with the
      one-character case this fixes the count of every string. */
  lemma {:induction false} Utf16LengthAppend(a: string, b: string)
    ensures Utf16Length(a + b) == Utf16Length(a) + Utf16Length(b)
    decreases |b|
  {
    if |b| == 0 {
      assert a + b == a;
    } else {
      var ab := a + b;
      assert ab[..|ab| - 1] == a + b[..|b| - 1];
      assert ab[|ab| - 1] == b[|b| - 1];
      Utf16LengthAppend(a, b[..|b| - 1]);
    }
  }

  /** The `OTPMaskingChar` constructor: accepts a string of JavaScript length 1, that is
      one character of the Basic Multilingual Plane, and throws otherwise. */
  function MakeMaskingChar(val: string): (r: Result<MaskingChar, string>)
    ensures r.Success? <==> |val| == 1 && !IsAstral(val[0])
    ensures r.Success? ==> r.value.Value() == val
    ensures r.Failure? ==> r.error == MaskingCharError
  {
    if Utf16Length(val) != 1 then Failure(MaskingCharError)
    else
      assert |val| == 1 && Utf16Length(val) == Utf16Length([]) + (if IsAstral(val[0]) then 2 else 1);
      Success(MaskingChar(val[0]))
  }

  /** The loop of `repaceOtp` after its first `n` iterations, as intended: position `j`
      takes the stored character when the mask hides one, and the typed character
      otherwise. */
  function MergeLoop(prev: string, typed: string, m: char, n: nat): (r: string)
    requires n <= |typed|
    ensures |r| == n
    ensures forall j :: 0 <= j < n ==>
      r[j] == (if typed[j] == m && j < |prev| then prev[j] else typed[j])
  {
    if n == 0 then ""
    else
      var j := n - 1;
      MergeLoop(prev, typed, m, j) + [if typed[j] == m && j < |prev| then prev[j] else typed[j]]
  }

  /** The string the source's loop appends for position `j` of the field text: the
      typed character when it is not the mask, the stored character at `j` when the mask
      hides one, and "undefined" (`"" + undefined`) when the mask sits past the end of
      the stored text. */
  function PieceAsWritten(prev: string, typed: string, m: char, j: nat): string
    requires j < |typed|
  {
    if typed[j] != m then [typed[j]]
    else if j < |prev| then [prev[j]]
    else "undefined"
  }

  /** Whether some masked position of the first `n` of the field text has no stored
      character behind it. */
  predicate MaskedPastPrevious(prev: string, typed: string, m: char, n: nat)
    requires n <= |typed|
  {
    exists j :: 0 <= j < n && typed[j] == m && |prev| <= j
  }

  /** The loop of `repaceOtp` after its first `n` iterations, as written. It produces at
      least one character per position, and eight more once a masked position has no
      stored character behind it. */
  function MergeLoopAsWritten(prev: string, typed: string, m: char, n: nat): (r: string)
    requires n <= |typed|
    ensures |r| >= n
    ensures MaskedPastPrevious(prev, typed, m, n) ==> |r| >= n + 8
  {
    if n == 0 then ""
    else
      var rest := MergeLoopAsWritten(prev, typed, m, n - 1);
      var piece := PieceAsWritten(prev, typed, m, n - 1);
      assert MaskedPastPrevious(prev, typed, m, n) && !MaskedPastPrevious(prev, typed, m, n - 1)
        ==> piece == "undefined";
      rest + piece
  }

  /** Every masked position of the field text has a stored character behind it. */
  predicate MaskedWithinPrevious(prev: string, typed: string, m: char) {
    forall j :: 0 <= j < |typed| && typed[j] == m ==> j < |prev|
  }

  /** `repaceOtp` as written. Without a mask the field text is returned verbatim. With
      one, the result is never shorter than the field text, and it is at least eight
      characters longer as soon as a masked position has nothing stored behind it. */
  function ReconcileAsWritten(prev: string, typed: string, mask: Option<char>): (r: string)
    ensures mask.None? ==> r == typed
    ensures |r| >= |typed|
    ensures mask.Some? && !MaskedWithinPrevious(prev, typed, mask.value) ==> |r| >= |typed| + 8
  {
    match mask
    case None => typed
    case Some(m) =>
      assert !MaskedWithinPrevious(prev, typed, m) ==> MaskedPastPrevious(prev, typed, m, |typed|);
      MergeLoopAsWritten(prev, typed, m, |typed|)
  }

  /** `repaceOtp` with the evident intent: without a mask the field text is taken
      verbatim; with a mask every masked position is restored from the stored text,
      and a typed mask character with nothing behind it is kept as typed. */
  function Reconcile(prev: string, typed: string, mask: Option<char>): (r: string)
    ensures |r| == |typed|
    ensures mask.None? ==> r == typed
    ensures mask.Some? ==> forall j :: 0 <= j < |typed| ==>
      r[j] == (if typed[j] == mask.value && j < |prev| then prev[j] else typed[j])
  {
    match mask
    case None => typed
    case Some(m) => MergeLoop(prev, typed, m, |typed|)
  }

  /** Wherever the source's loop is well defined, it computes `Reconcile`. */
  lemma {:induction false} MergeLoopAgrees(prev: string, typed: string, m: char, n: nat)
    requires n <= |typed|
    requires MaskedWithinPrevious(prev, typed, m)
    ensures MergeLoopAsWritten(prev, typed, m, n) == MergeLoop(prev, typed, m, n)
  {
    if n > 0 {
      MergeLoopAgrees(prev, typed, m, n - 1);
    }
  }

  lemma {:induction false} ReconcileAgreesWithSource(prev: string, typed: string, mask: Option<char>)
    requires mask.Some? ==> MaskedWithinPrevious(prev, typed, mask.value)
    ensures ReconcileAsWritten(prev, typed, mask) == Reconcile(prev, typed, mask)
  {
    if mask.Some? {
      MergeLoopAgrees(prev, typed, mask.value, |typed|);
    }
  }

  /** Typing the masking character itself into an empty masked cell stores the
      nine characters "undefined" in the source, and the typed character here. */
  lemma {:induction false} TypedMaskCharStoresUndefined()
    ensures ReconcileAsWritten("", "*", Some('*')) == "undefined"
    ensures Reconcile("", "*", Some('*')) == "*"
  {
    assert MergeLoopAsWritten("", "*", '*', 1) == MergeLoopAsWritten("", "*", '*', 0) + "undefined";
  }

  /** The text the field of a cell displays: empty for an empty cell, the mask repeated
      to the cell's length when masked, and the cell's text otherwise. */
  function CellText(cell: string, mask: Option<char>): (r: string)
    ensures |r| == |cell|
    ensures mask.None? ==> r == cell
    ensures mask.Some? ==> forall j :: 0 <= j < |r| ==> r[j] == mask.value
  {
    if |cell| == 0 then ""
    else
      match mask
      case Some(m) => seq(|cell|, _ => m)
      case None => cell
  }

  /** Editing round trip: when the field reports what it displays for a cell followed by
      freshly typed characters that are not the mask, reconciliation yields the cell's
      real text followed by the typed characters. */
  lemma {:induction false} DisplayThenReconcile(cell: string, typed: string, mask: Option<char>)
    requires mask.Some? ==> forall j :: 0 <= j < |typed| ==> typed[j] != mask.value
    ensures Reconcile(cell, CellText(cell, mask) + typed, mask) == cell + typed
  {
  }
}
