/** The 3x3 grid and the win evaluator `calculateWinner`.
    A square holds the source's `Player` value: 'X', 'O' or null (here Empty). */
module Board {

  datatype Cell = Empty | X | O

  /** A mark a player can place: a non-empty cell. */
  type Mark = c: Cell | c != Empty witness X

  /** A grid position, row * 3 + column. */
  type Index = i: int | 0 <= i < 9

  /** The nine squares in row-major order. */
  type Squares = s: seq<Cell> | |s| == 9
    witness [Empty, Empty, Empty, Empty, Empty, Empty, Empty, Empty, Empty]

  /** The board of a fresh game: `Array(9).fill(null)`. */
  const EmptySquares: Squares := [Empty, Empty, Empty, Empty, Empty, Empty, Empty, Empty, Empty]

  /** The eight winning triples in the order the evaluator tries them:
      three rows, three columns, two diagonals. */
  const Lines: seq<(Index, Index, Index)> :=
    [(0, 1, 2), (3, 4, 5), (6, 7, 8),
     (0, 3, 6), (1, 4, 7), (2, 5, 8),
     (0, 4, 8), (2, 4, 6)]

  /** Line k holds three equal marks. */
  predicate Holds(s: Squares, k: nat)
    requires k < |Lines|
  {
    var (a, b, c) := Lines[k];
    s[a] != Empty && s[a] == s[b] && s[a] == s[c]
  }

  /** The mark on line k (meaningful when the line holds). */
  function LineMark(s: Squares, k: nat): Cell
    requires k < |Lines|
  {
    s[Lines[k].0]
  }

  /** Line j is the earliest line, in table order, that holds. */
  predicate FirstHolding(s: Squares, j: nat)
  {
    j < |Lines| && Holds(s, j) && forall m :: 0 <= m < j ==> !Holds(s, m)
  }

  /** The search over the line table from entry k on: the first holding line's mark, else Empty. */
  function WinnerFrom(s: Squares, k: nat): Cell
    requires k <= |Lines|
    decreases |Lines| - k
  {
    if k == |Lines| then Empty
    else if Holds(s, k) then LineMark(s, k)
    else WinnerFrom(s, k + 1)
  }

  /** What `calculateWinner` returns for a board. */
  function Winner(s: Squares): Cell
  {
    WinnerFrom(s, 0)
  }

  lemma {:induction false} WinnerFromSpec(s: Squares, k: nat)
    requires k <= |Lines|
    ensures WinnerFrom(s, k) == Empty <==> forall m :: k <= m < |Lines| ==> !Holds(s, m)
    ensures forall j :: k <= j < |Lines| && Holds(s, j) && (forall m :: k <= m < j ==> !Holds(s, m))
              ==> WinnerFrom(s, k) == LineMark(s, j)
    decreases |Lines| - k
  {
    if k < |Lines| && !Holds(s, k) {
      WinnerFromSpec(s, k + 1);
    }
  }

  /** The evaluator finds no winner exactly when no line holds, and otherwise
      reports the mark of the first holding line in table order. */
  lemma WinnerSpec(s: Squares)
    ensures Winner(s) == Empty <==> forall j :: 0 <= j < |Lines| ==> !Holds(s, j)
    ensures Winner(s) != Empty <==> exists j :: 0 <= j < |Lines| && Holds(s, j)
    ensures forall j :: FirstHolding(s, j) ==> Winner(s) == LineMark(s, j)
  {
    WinnerFromSpec(s, 0);
  }

  /** If every holding line carries the same mark m, the evaluator reports m
      or nothing: the order of the line table then does not matter. */
  lemma {:induction false} WinnerOfUniformLines(s: Squares, m: Mark)
    requires forall j :: 0 <= j < |Lines| && Holds(s, j) ==> LineMark(s, j) == m
    ensures Winner(s) == m || Winner(s) == Empty
    ensures Winner(s) == m <==> exists j :: 0 <= j < |Lines| && Holds(s, j)
  {
    WinnerFromSpec(s, 0);
    if exists j :: 0 <= j < |Lines| && Holds(s, j) {
      var j := FirstLine(s);
      assert FirstHolding(s, j);
    }
  }

  /** The earliest holding line, when one holds. */
  ghost function FirstLine(s: Squares): (j: nat)
    requires exists j :: 0 <= j < |Lines| && Holds(s, j)
    ensures FirstHolding(s, j)
  {
    FirstLineFrom(s, 0)
  }

  ghost function FirstLineFrom(s: Squares, k: nat): (j: nat)
    requires k <= |Lines|
    requires forall m :: 0 <= m < k ==> !Holds(s, m)
    requires exists j :: k <= j < |Lines| && Holds(s, j)
    ensures FirstHolding(s, j) && k <= j
    decreases |Lines| - k
  {
    if Holds(s, k) then k else FirstLineFrom(s, k + 1)
  }

  /** `calculateWinner`: the early-return loop over the line table. */
  method CalculateWinner(squares: Squares) returns (w: Cell)
    ensures w == Winner(squares)
    ensures w == Empty <==> forall j :: 0 <= j < |Lines| ==> !Holds(squares, j)
    ensures forall j :: FirstHolding(squares, j) ==> w == LineMark(squares, j)
  {
    WinnerSpec(squares);
    var i := 0;
    while i < |Lines|
      invariant 0 <= i <= |Lines|
      invariant WinnerFrom(squares, i) == Winner(squares)
    {
      var (a, b, c) := Lines[i];
      if squares[a] != Empty && squares[a] == squares[b] && squares[a] == squares[c] {
        return squares[a];
      }
      i := i + 1;
    }
    return Empty;
  }

  /** Placing mark m on an empty square can only complete lines through that
      square, so every line that holds afterwards but not before carries m. */
  lemma NewLineCarriesMove(s: Squares, i: Index, m: Mark, j: nat)
    requires j < |Lines| && s[i] == Empty
    requires Holds(s[i := m], j) && !Holds(s, j)
    ensures LineMark(s[i := m], j) == m
  {
    var (a, b, c) := Lines[j];
    assert i == a || i == b || i == c;
  }

  /** Number of squares holding c. */
  function Count(s: seq<Cell>, c: Cell): (n: nat)
    ensures n <= |s|
  {
    if s == [] then 0 else (if s[0] == c then 1 else 0) + Count(s[1..], c)
  }

  /** Writing c into square i moves one square from the old value's count to c's. */
  lemma {:induction false} CountUpdate(s: seq<Cell>, i: nat, c: Cell, d: Cell)
    requires i < |s|
    ensures Count(s[i := c], d) ==
            Count(s, d) - (if s[i] == d then 1 else 0) + (if c == d then 1 else 0)
    decreases |s|
  {
    if i == 0 {
      assert s[i := c][1..] == s[1..];
    } else {
      assert s[i := c][1..] == s[1..][i - 1 := c];
      CountUpdate(s[1..], i - 1, c, d);
    }
  }

  /** A value that never occurs is counted zero times. */
  lemma {:induction false} CountAbsent(s: seq<Cell>, c: Cell)
    requires forall k :: 0 <= k < |s| ==> s[k] != c
    ensures Count(s, c) == 0
    decreases |s|
  {
    if s != [] {
      CountAbsent(s[1..], c);
    }
  }

  /** `squares.every(square => square !== null)`. */
  predicate Full(s: Squares)
  {
    forall j :: 0 <= j < 9 ==> s[j] != Empty
  }
}
