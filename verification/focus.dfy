/** Which cell should hold input focus: the settled index computed after every value
    change (the value effect and `fixFocus`), and the initial index. */
module Focus {
  import opened Wrappers
  import opened Chunking

  /** The focus rule of the value effect and of `fixFocus`: the last cell when every
      cell is present, the first when none is, one past the last cell when that one is
      full, and the last cell otherwise. Any array of at most `count` cells (not only a
      chunk array) maps into the cell range. */
  function FocusIndex(count: nat, l: nat, cells: seq<string>): (r: int)
    requires count >= 1
    ensures |cells| <= count ==> 0 <= r < count
  {
    if |cells| == count then count - 1
    else if |cells| == 0 then 0
    else if |cells[|cells| - 1]| == l then |cells|
    else |cells| - 1
  }

  /** The text of cell `i`; a cell past the end of the array (or a hole in it) is empty. */
  function CellAt(cells: seq<string>, i: nat): string {
    if i < |cells| then cells[i] else ""
  }

  lemma {:induction false} MulStep(a: nat, b: nat, l: nat)
    requires a < b
    ensures a * l + l <= b * l
  {
    assert b * l == a * l + (b - a) * l;
    assert (b - a) * l == l + (b - a - 1) * l;
  }

  lemma {:induction false} DivisionBetween(x: nat, l: nat, q: nat)
    requires l >= 1 && q * l <= x < q * l + l
    ensures x / l == q
  {
    var d := x / l;
    assert d * l <= x < d * l + l;
    if d < q {
      MulStep(d, q, l);
      assert false;
    } else if d > q {
      MulStep(q, d, l);
      assert false;
    }
  }

  lemma {:induction false} DivisionAtLeast(x: nat, l: nat, q: nat)
    requires l >= 1 && q * l <= x
    ensures x / l >= q
  {
    var d := x / l;
    assert d * l <= x < d * l + l;
    if d < q {
      MulStep(d, q, l);
      assert false;
    }
  }

  /** The arithmetic behind the focus rule: `x` characters fill `n` cells of length `l`,
      the last of them holding `last`. */
  lemma {:induction false} FocusArithmetic(count: nat, l: nat, n: nat, last: nat, x: nat)
    requires l >= 1 && 1 <= n <= count && 1 <= last <= l
    requires x == (n - 1) * l + last
    ensures n == count ==> x / l >= count - 1
    ensures n < count && last == l ==> x / l == n && n <= count - 1
    ensures n < count && last < l ==> x / l == n - 1
  {
    if n == count {
      DivisionAtLeast(x, l, count - 1);
    } else if last == l {
      assert x == n * l;
      DivisionBetween(x, l, n);
    } else {
      DivisionBetween(x, l, n - 1);
    }
  }

  /** On a shaped array of at most `count` cells, focus goes to the cell that will
      receive the next character of the joined value, capped at the last cell. */
  lemma {:induction false} FocusOfShaped(count: nat, l: nat, cells: seq<string>)
    requires count >= 1 && l >= 1
    requires Shaped(l, cells) && |cells| <= count
    ensures FocusIndex(count, l, cells) == Min(|Join(cells)| / l, count - 1)
  {
    var n := |cells|;
    if n > 0 {
      JoinLength(l, cells);
      FocusArithmetic(count, l, n, |cells[n - 1]|, |Join(cells)|);
    }
  }

  /** For a settled array, focus goes to the cell that will receive the next character
      of the value, capped at the last cell. */
  lemma {:induction false} FocusOfChunks(count: nat, l: nat, text: string)
    requires count >= 1 && l >= 1
    ensures FocusIndex(count, l, Chunk(count, l, text)) == Min(|text| / l, count - 1)
  {
    var c := Chunk(count, l, text);
    FocusOfShaped(count, l, c);
    var k := |Join(c)|;
    assert k == Min(|text|, count * l);
    if k < |text| {
      DivisionBetween(k, l, count);
      DivisionAtLeast(|text|, l, count);
    }
  }

  /** The same rule stated as the invariant of a settled focus: on a shaped array of at
      most `count` cells, every cell before the focused one is full, and the focused
      cell is incomplete unless it is the last cell. */
  lemma {:induction false} FocusIsFirstIncompleteCell(count: nat, l: nat, cells: seq<string>)
    requires count >= 1 && l >= 1
    requires Shaped(l, cells) && |cells| <= count
    ensures var r := FocusIndex(count, l, cells);
      (forall j :: 0 <= j < r ==> |CellAt(cells, j)| == l) &&
      (r == count - 1 || |CellAt(cells, r)| < l)
  {
  }

  /** The initial focus: with `autoFocus` unset or true, the cell just past the initial
      chunks, capped at the last cell; with `autoFocus === false`, no cell (-1). */
  function InitialFocus(count: nat, chunks: seq<string>, autoFocus: Option<bool>): (r: int)
    requires count >= 1
    ensures r == -1 <==> autoFocus == Some(false)
    ensures autoFocus != Some(false) ==> r == Min(|chunks|, count - 1)
  {
    if autoFocus.None? || autoFocus.value then
      if |chunks| < count then |chunks| else count - 1
    else -1
  }

  /** With auto-focus on, the initial index agrees with the settled one exactly when
      the array is empty, complete, or ends in a full cell; otherwise it is one past it. */
  lemma {:induction false} InitialFocusVersusSettled(count: nat, l: nat, chunks: seq<string>, autoFocus: Option<bool>)
    requires count >= 1 && |chunks| <= count && autoFocus != Some(false)
    ensures InitialFocus(count, chunks, autoFocus) == FocusIndex(count, l, chunks) <==>
      (|chunks| == 0 || |chunks| == count || |chunks[|chunks| - 1]| == l)
    ensures InitialFocus(count, chunks, autoFocus) != FocusIndex(count, l, chunks) ==>
      InitialFocus(count, chunks, autoFocus) == FocusIndex(count, l, chunks) + 1
  {
  }
}
