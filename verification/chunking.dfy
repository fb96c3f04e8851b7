/** Splitting the logical OTP value into per-cell texts (`getOTPTextChucks`), and
    the facts that make the cell array a faithful, canonical view of the value. */
module Chunking {

  function Min(a: int, b: int): int {
    if a <= b then a else b
  }

  /** The cell texts concatenated left to right, as `Array.prototype.join('')`. */
  function Join(cells: seq<string>): string {
    if |cells| == 0 then "" else cells[0] + Join(cells[1..])
  }

  lemma {:induction false} JoinAppend(a: seq<string>, b: seq<string>)
    ensures Join(a + b) == Join(a) + Join(b)
  {
    if |a| == 0 {
      assert a + b == b;
    } else {
      assert (a + b)[1..] == a[1..] + b;
      JoinAppend(a[1..], b);
    }
  }

  /** Joining `cells` splits around cell `i`. */
  lemma {:induction false} JoinAround(cells: seq<string>, i: nat)
    requires i < |cells|
    ensures Join(cells) == Join(cells[..i]) + cells[i] + Join(cells[i + 1..])
  {
    var tail := [cells[i]] + cells[i + 1..];
    assert cells == cells[..i] + tail;
    JoinAppend(cells[..i], tail);
    assert tail[1..] == cells[i + 1..];
    assert Join(tail) == cells[i] + Join(cells[i + 1..]);
  }

  /** The shape of a chunk array for cell length `l`: every cell holds between 1 and
      `l` characters, and every cell but the last holds exactly `l`. */
  predicate Shaped(l: nat, cells: seq<string>) {
    forall j :: 0 <= j < |cells| ==> 1 <= |cells[j]| <= l && (j + 1 < |cells| ==> |cells[j]| == l)
  }

  /** The characters that the pattern's `.` does not match (no `s` flag). */
  predicate IsLineTerminator(c: char) {
    c == '\n' || c == '\r' || c == '\U{2028}' || c == '\U{2029}'
  }

  predicate NoLineTerminators(text: string) {
    forall k :: 0 <= k < |text| ==> !IsLineTerminator(text[k])
  }

  /** All matches of the global pattern `.{1,l}` over a text for which
      `NoLineTerminators` holds: greedy consecutive runs of `l` characters, the last
      run possibly shorter. A text with no match yields the empty array
      (`match(...) || []`). `SplitIsMatchAll` shows it is the pattern's result on such
      text; `MatchAll` is the pattern on any text. */
  function Split(l: nat, text: string): (r: seq<string>)
    requires l >= 1
    ensures Shaped(l, r)
    ensures Join(r) == text
    decreases |text|
  {
    if |text| == 0 then []
    else if |text| <= l then [text]
    else
      var rest := Split(l, text[l..]);
      assert ([text[..l]] + rest)[1..] == rest;
      assert text[..l] + text[l..] == text;
      [text[..l]] + rest
  }

  /** How many characters the greedy `.{1,l}` takes at the start of `text`: the
      longest run of at most `l` characters before a line terminator. */
  function Lead(l: nat, text: string): (r: nat)
    ensures r <= l && r <= |text|
    ensures forall k :: 0 <= k < r ==> !IsLineTerminator(text[k])
    ensures r < l && r < |text| ==> IsLineTerminator(text[r])
  {
    if l == 0 || |text| == 0 || IsLineTerminator(text[0]) then 0
    else
      var rest := Lead(l - 1, text[1..]);
      assert forall k :: 1 <= k < 1 + rest ==> text[k] == text[1..][k - 1];
      1 + rest
  }

  /** `text.match(/.{1,l}/g) || []` on any text: at each position the pattern either
      takes the greedy run there or, on a line terminator, fails and the search moves
      one character on. Every match is non-empty, at most `l` long and free of line
      terminators. */
  function MatchAll(l: nat, text: string): (r: seq<string>)
    requires l >= 1
    ensures forall j :: 0 <= j < |r| ==> 1 <= |r[j]| <= l && NoLineTerminators(r[j])
    decreases |text|
  {
    if |text| == 0 then []
    else if IsLineTerminator(text[0]) then MatchAll(l, text[1..])
    else
      var k := Lead(l, text);
      [text[..k]] + MatchAll(l, text[k..])
  }

  /** On text without line terminators the pattern's matches are exactly `Split`. */
  lemma {:induction false} SplitIsMatchAll(l: nat, text: string)
    requires l >= 1
    requires NoLineTerminators(text)
    ensures MatchAll(l, text) == Split(l, text)
    decreases |text|
  {
    if |text| > 0 {
      var k := Lead(l, text);
      assert k == Min(|text|, l);
      if |text| > l {
        assert NoLineTerminators(text[l..]) by {
          forall i | 0 <= i < |text[l..]| ensures !IsLineTerminator(text[l..][i]) {
            assert text[l..][i] == text[l + i];
          }
        }
        SplitIsMatchAll(l, text[l..]);
      } else {
        assert text[..k] == text;
      }
    }
  }

  /** The length of a shaped array's join: all cells but the last are full. */
  lemma {:induction false} JoinLength(l: nat, cells: seq<string>)
    requires Shaped(l, cells) && |cells| > 0
    ensures |Join(cells)| == (|cells| - 1) * l + |cells[|cells| - 1]|
    ensures (|cells| - 1) * l < |Join(cells)| <= |cells| * l
  {
    if |cells| > 1 {
      assert Shaped(l, cells[1..]) by {
        forall j | 0 <= j < |cells[1..]|
          ensures 1 <= |cells[1..][j]| <= l && (j + 1 < |cells[1..]| ==> |cells[1..][j]| == l)
        {
          assert cells[1..][j] == cells[j + 1];
        }
      }
      JoinLength(l, cells[1..]);
      assert |cells[0]| == l;
    }
  }

  /** A prefix of a shaped array is shaped, and its join is the join's prefix
      of `k * l` characters. */
  lemma {:induction false} JoinPrefix(l: nat, cells: seq<string>, k: nat)
    requires Shaped(l, cells) && k <= |cells|
    ensures Shaped(l, cells[..k])
    ensures Join(cells[..k]) == Join(cells)[..Min(|Join(cells)|, k * l)]
  {
    assert cells == cells[..k] + cells[k..];
    JoinAppend(cells[..k], cells[k..]);
    var p := cells[..k];
    assert Shaped(l, p);
    if k == |cells| {
      assert p == cells;
      if k > 0 {
        JoinLength(l, cells);
      }
    } else if k > 0 {
      JoinLength(l, p);
      JoinLength(l, cells);
      assert |p[k - 1]| == l;
      assert (k - 1) * l + l == k * l;
      assert |Join(cells)| >= k * l by {
        assert |Join(cells)| == |Join(p)| + |Join(cells[k..])|;
      }
    }
  }

  /** Keeping the first `count` matches keeps the first `count * l` characters. */
  lemma {:induction false} TruncatedSplit(count: nat, l: nat, text: string)
    requires l >= 1
    ensures var all := Split(l, text);
      Shaped(l, all[..Min(|all|, count)]) &&
      Join(all[..Min(|all|, count)]) == text[..Min(|text|, count * l)]
  {
    var all := Split(l, text);
    var k := Min(|all|, count);
    JoinPrefix(l, all, k);
    if k == |all| && k > 0 {
      JoinLength(l, all);
      assert |all| * l <= count * l;
    }
  }

  /** `getOTPTextChucks(count, l, text)`: the matches of `.{1,l}` truncated to at most
      `count` cells. The result is a shaped array of at most `count` cells whose join
      is `text` cut to the first `count * l` characters; empty text gives no cells. */
  function Chunk(count: nat, l: nat, text: string): (r: seq<string>)
    requires l >= 1
    ensures |r| <= count
    ensures Shaped(l, r)
    ensures Join(r) == text[..Min(|text|, count * l)]
    ensures |r| == 0 <==> count == 0 || text == ""
  {
    var all := Split(l, text);
    TruncatedSplit(count, l, text);
    all[..Min(|all|, count)]
  }

  /** A shaped array is exactly what the pattern split of its own join returns. */
  lemma {:induction false} SplitOfShaped(l: nat, cells: seq<string>)
    requires l >= 1 && Shaped(l, cells)
    ensures Split(l, Join(cells)) == cells
  {
    if |cells| > 0 {
      var rest := cells[1..];
      assert Shaped(l, rest) by {
        forall j | 0 <= j < |rest|
          ensures 1 <= |rest[j]| <= l && (j + 1 < |rest| ==> |rest[j]| == l)
        {
          assert rest[j] == cells[j + 1];
        }
      }
      if |rest| == 0 {
        assert Join(cells) == cells[0];
      } else {
        var t := Join(cells);
        assert t == cells[0] + Join(rest);
        assert |cells[0]| == l;
        assert |Join(rest)| >= 1 by {
          assert Join(rest) == rest[0] + Join(rest[1..]);
        }
        assert t[..l] == cells[0];
        assert t[l..] == Join(rest);
        SplitOfShaped(l, rest);
        assert cells == [cells[0]] + rest;
      }
    }
  }

  /** The chunk array of `text` is the ONLY array of at most `count` shaped cells
      whose join is `text` cut to `count * l` characters. */
  lemma {:induction false} ChunkCharacterization(count: nat, l: nat, text: string, cells: seq<string>)
    requires l >= 1
    ensures cells == Chunk(count, l, text) <==>
      (|cells| <= count && Shaped(l, cells) && Join(cells) == text[..Min(|text|, count * l)])
  {
    var c := Chunk(count, l, text);
    if |cells| <= count && Shaped(l, cells) && Join(cells) == text[..Min(|text|, count * l)] {
      SplitOfShaped(l, cells);
      SplitOfShaped(l, c);
    }
  }

  /** Re-chunking the join of a chunk array gives the same array back. */
  lemma {:induction false} ChunkIdempotent(count: nat, l: nat, text: string)
    requires l >= 1
    ensures Chunk(count, l, Join(Chunk(count, l, text))) == Chunk(count, l, text)
  {
    var c := Chunk(count, l, text);
    var t := Join(c);
    assert t[..Min(|t|, count * l)] == t;
    ChunkCharacterization(count, l, t, c);
  }

  /** A value that fits in the cells is kept whole: chunking loses nothing. */
  lemma {:induction false} ChunkJoinWithinCapacity(count: nat, l: nat, text: string)
    requires l >= 1 && |text| <= count * l
    ensures Join(Chunk(count, l, text)) == text
  {
    assert text[..Min(|text|, count * l)] == text;
  }
}
