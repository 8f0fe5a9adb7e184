/** The dumped representation of a board (`Board.toString`).

    The text of a single square comes from the repository's `Square.toString`,
    which is not part of this model, so it is a parameter `show`. */
module BoardText {
  import opened Sides
  import opened JavaInts
  import opened BoardGeometry

  /** The text the dump loop appends for squares `i`, `i+1`, ..., N*N - 1:
      four spaces before the first square of each row, a space after every
      square except the last of a row, which is followed by a newline. */
  function DumpFrom(N: nat, g: seq<Square>, show: Square -> string, i: nat): string
    requires |g| == N * N && i <= |g|
    decreases |g| - i
  {
    if i == |g| then ""
    else
      (if i % N == 0 then "    " else "")
      + show(g[i]) + (if (i + 1) % N == 0 then "\n" else " ")
      + DumpFrom(N, g, show, i + 1)
  }

  /** `toString`. */
  function Dump(N: nat, g: seq<Square>, show: Square -> string): string
    requires |g| == N * N
  {
    "===\n" + DumpFrom(N, g, show, 0) + "==="
  }

  /** The texts of `cells`, separated by single spaces. */
  function Joined(cells: seq<Square>, show: Square -> string): string
  {
    if |cells| == 0 then ""
    else if |cells| == 1 then show(cells[0])
    else show(cells[0]) + " " + Joined(cells[1..], show)
  }

  /** Rows `r`..N of the dump, one line each: four spaces, the row's squares
      separated by single spaces, a newline. */
  function Lines(N: nat, g: seq<Square>, show: Square -> string, r: nat): string
    requires |g| == N * N && r <= N
    decreases N - r
  {
    if r == N then ""
    else
      RowBounds(N, r);
      "    " + Joined(g[r * N..(r + 1) * N], show) + "\n" + Lines(N, g, show, r + 1)
  }

  lemma RowBounds(N: nat, r: nat)
    requires r < N
    ensures 0 <= r * N && r * N + N == (r + 1) * N <= N * N
  {
    var k := N - r - 1;
    assert (r + 1) * N + k * N == N * N;
    assert k * N >= 0;
  }

  lemma ModOfRowStart(N: nat, r: nat, j: nat)
    requires j < N
    ensures (r * N + j) % N == j
    ensures (r * N + j + 1) % N == 0 <==> j == N - 1
  {
    DivModUniqueNat(r * N + j, N, r, j);
    if j == N - 1 {
      DivModUniqueNat(r * N + j + 1, N, r + 1, 0);
    } else {
      DivModUniqueNat(r * N + j + 1, N, r, j + 1);
    }
  }

  /** Regrouping the pieces of a row's text. */
  lemma Regroup(p: string, x: string, c: string, n: string, t: string)
    ensures p + x + " " + ("" + c + n + t) == p + (x + " " + c) + n + t
  {
  }

  /** Where square `i` of row `r` lies, and how the dump loop treats it. */
  lemma SquareInRow(N: nat, r: nat, j: nat)
    requires r < N && j < N
    ensures 0 <= r * N + j < (r + 1) * N <= N * N
    ensures (r * N + j) % N == j
    ensures (r * N + j + 1) % N == 0 <==> j == N - 1
  {
    RowBounds(N, r);
    ModOfRowStart(N, r, j);
  }

  /** The dump of the last square of a row closes the row's line. */
  lemma RowChunkLast(N: nat, g: seq<Square>, show: Square -> string, r: nat)
    requires |g| == N * N && r < N
    ensures 0 <= r * N + N - 1 < (r + 1) * N <= |g|
    ensures DumpFrom(N, g, show, r * N + N - 1)
      == (if N - 1 == 0 then "    " else "") + Joined(g[r * N + N - 1..(r + 1) * N], show) + "\n"
         + DumpFrom(N, g, show, (r + 1) * N)
  {
    var i := r * N + N - 1;
    assert 0 <= i && i + 1 == (r + 1) * N <= |g| && i % N == N - 1 && (i + 1) % N == 0 by {
      SquareInRow(N, r, N - 1);
    }
    assert g[i..i + 1] == [g[i]];
  }

  /** From square `j` of row `r` onwards, the dump finishes that row's line
      and then continues with the next row. */
  lemma {:induction false} RowChunk(N: nat, g: seq<Square>, show: Square -> string, r: nat, j: nat)
    requires |g| == N * N && r < N && j < N
    ensures 0 <= r * N + j < (r + 1) * N <= |g|
    ensures DumpFrom(N, g, show, r * N + j)
      == (if j == 0 then "    " else "") + Joined(g[r * N + j..(r + 1) * N], show) + "\n"
         + DumpFrom(N, g, show, (r + 1) * N)
    decreases N - j
  {
    if j == N - 1 {
      RowChunkLast(N, g, show, r);
    } else {
      var i := r * N + j;
      var end := (r + 1) * N;
      assert 0 <= i && i + 1 < end <= |g| && i % N == j && (i + 1) % N != 0 by {
        SquareInRow(N, r, j);
      }
      var pre := if j == 0 then "    " else "";
      var tail := DumpFrom(N, g, show, end);
      var rest := Joined(g[i + 1..end], show);
      assert DumpFrom(N, g, show, i + 1) == "" + rest + "\n" + tail by {
        RowChunk(N, g, show, r, j + 1);
        assert r * N + (j + 1) == i + 1;
      }
      assert Joined(g[i..end], show) == show(g[i]) + " " + rest by {
        assert g[i..end][1..] == g[i + 1..end];
      }
      assert DumpFrom(N, g, show, i) == pre + show(g[i]) + " " + DumpFrom(N, g, show, i + 1);
      Regroup(pre, show(g[i]), rest, "\n", tail);
    }
  }

  /** The dump from the first square of row `r` onwards is exactly `Lines(r)`. */
  lemma {:induction false} LinesFrom(N: nat, g: seq<Square>, show: Square -> string, r: nat)
    requires |g| == N * N && r <= N
    ensures r * N <= |g|
    ensures DumpFrom(N, g, show, r * N) == Lines(N, g, show, r)
    decreases N - r
  {
    if r == N {
    } else {
      var start, end := r * N, (r + 1) * N;
      var line := Joined(g[start..end], show);
      assert 0 <= start <= end <= |g| && DumpFrom(N, g, show, start) == "    " + line + "\n" + DumpFrom(N, g, show, end) by {
        RowBounds(N, r);
        RowChunk(N, g, show, r, 0);
        assert r * N + 0 == start;
      }
      assert DumpFrom(N, g, show, end) == Lines(N, g, show, r + 1) by {
        LinesFrom(N, g, show, r + 1);
      }
    }
  }

  /** The dump is "===" and a newline, then one line per row (four spaces,
      the row's squares separated by single spaces, a newline), then "===". */
  lemma DumpLayout(N: nat, g: seq<Square>, show: Square -> string)
    requires |g| == N * N
    ensures Dump(N, g, show) == "===\n" + Lines(N, g, show, 0) + "==="
  {
    LinesFrom(N, g, show, 0);
  }
}
