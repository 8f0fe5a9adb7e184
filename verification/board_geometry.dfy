/** Square numbering and neighbourhoods of an N x N board (Board.java).

    Rows and columns run from 1 to N; square numbers run from 0 to N*N - 1,
    row by row. */
module BoardGeometry {
  import opened JavaInts

  /** `exists(s)`: `s` is a square number of an N x N board. */
  predicate ExistsSq(N: nat, s: int)
  {
    0 <= s < N * N
  }

  /** `exists(r, c)`: row `r` and column `c` both lie in 1..N. */
  predicate ExistsRC(N: nat, r: int, c: int)
  {
    1 <= r <= N && 1 <= c <= N
  }

  /** `row(n)`, with Java's truncating division. */
  function Row(N: nat, n: int): int
    requires N > 0
  {
    Div(n, N) + 1
  }

  /** `col(n)`, with Java's sign-of-dividend remainder. */
  function Col(N: nat, n: int): int
    requires N > 0
  {
    Rem(n, N) + 1
  }

  /** `sqNum(r, c)`. */
  function SqNum(N: nat, r: int, c: int): int
  {
    (c - 1) + (r - 1) * N
  }

  /** Every square number names an in-range row and column, and `sqNum` recovers it. */
  lemma SquareRoundTrip(N: nat, n: int)
    requires ExistsSq(N, n)
    ensures N > 0
    ensures ExistsRC(N, Row(N, n), Col(N, n))
    ensures SqNum(N, Row(N, n), Col(N, n)) == n
  {
    if N == 0 {
      assert false;
    }
    DivRemTruncate(n, N);
    var q, m := n / N, n % N;
    assert n == q * N + m;
    if q < 0 {
      MulMono(q, -1, N);
      assert false;
    }
    if q >= N {
      MulMono(N, q, N);
      assert false;
    }
  }

  /** Every in-range row and column names a square whose `row` and `col` give them back. */
  lemma RowColRoundTrip(N: nat, r: int, c: int)
    requires ExistsRC(N, r, c)
    ensures ExistsSq(N, SqNum(N, r, c))
    ensures Row(N, SqNum(N, r, c)) == r && Col(N, SqNum(N, r, c)) == c
  {
    var s := SqNum(N, r, c);
    assert s == (r - 1) * N + (c - 1);
    MulMono(r - 1, N - 1, N);
    assert (N - 1) * N == N * N - N;
    MulMono(0, r - 1, N);
    DivModUniqueNat(s, N, r - 1, c - 1);
    DivRemTruncate(s, N);
  }

  /** Distinct in-range coordinates name distinct squares. */
  lemma SqNumInjective(N: nat, r1: int, c1: int, r2: int, c2: int)
    requires ExistsRC(N, r1, c1) && ExistsRC(N, r2, c2)
    requires SqNum(N, r1, c1) == SqNum(N, r2, c2)
    ensures r1 == r2 && c1 == c2
  {
    RowColRoundTrip(N, r1, c1);
    RowColRoundTrip(N, r2, c2);
  }

  predicate IsCorner(N: nat, r: int, c: int)
  {
    (r == 1 || r == N) && (c == 1 || c == N)
  }

  predicate IsInterior(N: nat, r: int, c: int)
  {
    1 < r < N && 1 < c < N
  }

  /** `neighbors(r, c)`: how many of the four orthogonal directions stay on the board. */
  function NeighborsRC(N: nat, r: int, c: int): (k: nat)
    ensures k <= 4
    ensures N >= 2 && ExistsRC(N, r, c) ==>
      k == (if IsCorner(N, r, c) then 2 else if IsInterior(N, r, c) then 4 else 3)
    ensures N == 1 && ExistsRC(N, r, c) ==> k == 0
  {
    (if r > 1 then 1 else 0) + (if c > 1 then 1 else 0)
    + (if r < N then 1 else 0) + (if c < N then 1 else 0)
  }

  /** `neighbors(n)`. */
  function Neighbors(N: nat, n: int): nat
    requires N > 0
  {
    NeighborsRC(N, Row(N, n), Col(N, n))
  }

  /** Distance between two rows or two columns. */
  function Dist(a: int, b: int): nat
  {
    if a <= b then b - a else a - b
  }

  /** Squares `i` and `j` are both on the board and share an edge. */
  predicate Adjacent(N: nat, i: int, j: int)
  {
    && ExistsSq(N, i) && ExistsSq(N, j)
    && N > 0
    && Dist(Row(N, i), Row(N, j)) + Dist(Col(N, i), Col(N, j)) == 1
  }
}
