/**
 * The rules of the browser Reversi game as functions of the board: the
 * bracketed runs a move flips, the legal moves of a player, the stone
 * counts, the board after a move, and the pass / game-over rule.
 *
 * The board is an 8 x 8 grid of integers, EMPTY (0), BLACK (1) or WHITE (2),
 * indexed `board[row][col]`.
 */
module ReversiRules {

  import opened Names

  const SIZE := 8
  const EMPTY := 0
  const BLACK := 1
  const WHITE := 2

  type Board = seq<seq<int>>

  predicate IsBoard(b: Board)
  {
    |b| == SIZE && forall r :: 0 <= r < SIZE ==> |b[r]| == SIZE
  }

  datatype Pos = Pos(row: int, col: int)

  predicate OnBoard(r: int, c: int)
  {
    0 <= r < SIZE && 0 <= c < SIZE
  }

  /** The other colour; anything that is not BLACK counts as WHITE's side. */
  function Opponent(player: int): (o: int)
    ensures o != player && (o == BLACK || o == WHITE)
  {
    if player == BLACK then WHITE else BLACK
  }

  // ---------------------------------------------------------------------
  // Scanning one direction
  // ---------------------------------------------------------------------

  /** The eight scan directions, in the order `getFlipsForMove` tries them. */
  const Directions: seq<(int, int)> := [(-1, -1), (-1, 0), (-1, 1), (0, -1), (0, 1), (1, -1), (1, 0), (1, 1)]

  predicate IsDirection(dr: int, dc: int)
  {
    -1 <= dr <= 1 && -1 <= dc <= 1 && (dr, dc) != (0, 0)
  }

  /** Position of a direction in Directions, computed from its two components. */
  function DirIndex(dr: int, dc: int): int
  {
    var m := 3 * (dr + 1) + (dc + 1);
    if m > 4 then m - 1 else m
  }

  lemma DirectionAt(d: nat)
    requires d < |Directions|
    ensures IsDirection(Directions[d].0, Directions[d].1)
    ensures DirIndex(Directions[d].0, Directions[d].1) == d
  {
    assert Directions[d] == [(-1, -1), (-1, 0), (-1, 1), (0, -1), (0, 1), (1, -1), (1, 0), (1, 1)][d];
  }

  /** `x` moved `k` steps along the component `d` (-1, 0 or 1). */
  function Along(x: int, d: int, k: nat): int
  {
    if d > 0 then x + k else if d < 0 then x - k else x
  }

  /** The cell `k` steps from `(r, c)` in direction `(dr, dc)`. */
  function Ray(r: int, c: int, dr: int, dc: int, k: nat): Pos
  {
    Pos(Along(r, dr, k), Along(c, dc, k))
  }

  function Sign(x: int): int
  {
    if x > 0 then 1 else if x < 0 then -1 else 0
  }

  /** Steps left before the scan from `(r, c)` in direction `(dr, dc)` leaves the board. */
  function Reach(r: int, c: int, dr: int, dc: int): int
  {
    (if dr > 0 then SIZE - r else if dr < 0 then r + 1 else 0)
    + (if dc > 0 then SIZE - c else if dc < 0 then c + 1 else 0)
  }

  /** Every position in `s` is on the board and holds the opponent's stone. */
  ghost predicate OpponentStones(b: Board, s: seq<Pos>, player: int)
    requires IsBoard(b)
  {
    forall q :: q in s ==> OnBoard(q.row, q.col) && b[q.row][q.col] == Opponent(player)
  }

  /**
   * The scan of one direction, starting at the first cell `(r, c)` beyond the
   * placed stone: opponent stones are collected until the player's own stone
   * closes the run (Some run); an EMPTY cell or the edge ends it with nothing
   * (None).
   */
  function Run(b: Board, r: int, c: int, dr: int, dc: int, player: int): (res: Option<seq<Pos>>)
    requires IsBoard(b) && IsDirection(dr, dc)
    ensures res.Some? ==> OpponentStones(b, res.value, player)
    decreases Reach(r, c, dr, dc)
  {
    if !OnBoard(r, c) then None
    else if b[r][c] == Opponent(player) then
      match Run(b, r + dr, c + dc, dr, dc, player)
      case None => None
      case Some(rest) => Some([Pos(r, c)] + rest)
    else if b[r][c] == player then Some([])
    else None
  }

  /**
   * The `n` cells from `(r, c)` on hold the opponent's stones and the cell
   * after them holds the player's own.
   */
  ghost predicate Bracketed(b: Board, r: int, c: int, dr: int, dc: int, player: int, n: nat)
    requires IsBoard(b)
  {
    && (forall k :: 0 <= k < n ==>
          OnBoard(Ray(r, c, dr, dc, k).row, Ray(r, c, dr, dc, k).col)
          && b[Ray(r, c, dr, dc, k).row][Ray(r, c, dr, dc, k).col] == Opponent(player))
    && OnBoard(Ray(r, c, dr, dc, n).row, Ray(r, c, dr, dc, n).col)
    && b[Ray(r, c, dr, dc, n).row][Ray(r, c, dr, dc, n).col] == player
  }

  /** The first `n` cells of the ray from `(r, c)`. */
  function RayCells(r: int, c: int, dr: int, dc: int, n: nat): (s: seq<Pos>)
    ensures |s| == n && forall k :: 0 <= k < n ==> s[k] == Ray(r, c, dr, dc, k)
  {
    seq(n, k requires 0 <= k < n => Ray(r, c, dr, dc, k))
  }

  lemma RayShift(r: int, c: int, dr: int, dc: int, k: nat)
    requires IsDirection(dr, dc)
    ensures Ray(r + dr, c + dc, dr, dc, k) == Ray(r, c, dr, dc, k + 1)
  {
  }

  lemma RayCellsStep(r: int, c: int, dr: int, dc: int, n: nat)
    requires IsDirection(dr, dc)
    ensures RayCells(r, c, dr, dc, n + 1) == [Pos(r, c)] + RayCells(r + dr, c + dc, dr, dc, n)
  {
    var a, b := RayCells(r, c, dr, dc, n + 1), [Pos(r, c)] + RayCells(r + dr, c + dc, dr, dc, n);
    forall k | 0 <= k < n + 1 ensures a[k] == b[k] {
      if k > 0 {
        RayShift(r, c, dr, dc, k - 1);
      }
    }
  }

  /** Past an opponent stone at `(r, c)`, bracketing `n + 1` cells is bracketing `n` from the next one. */
  lemma BracketedStep(b: Board, r: int, c: int, dr: int, dc: int, player: int, n: nat)
    requires IsBoard(b) && IsDirection(dr, dc) && OnBoard(r, c) && b[r][c] == Opponent(player)
    ensures Bracketed(b, r, c, dr, dc, player, n + 1) <==> Bracketed(b, r + dr, c + dc, dr, dc, player, n)
  {
    RayShift(r, c, dr, dc, n);
    if Bracketed(b, r + dr, c + dc, dr, dc, player, n) {
      forall k | 0 <= k < n + 1
        ensures OnBoard(Ray(r, c, dr, dc, k).row, Ray(r, c, dr, dc, k).col)
        ensures b[Ray(r, c, dr, dc, k).row][Ray(r, c, dr, dc, k).col] == Opponent(player)
      {
        if k > 0 {
          RayShift(r, c, dr, dc, k - 1);
        }
      }
    }
    if Bracketed(b, r, c, dr, dc, player, n + 1) {
      var r', c' := r + dr, c + dc;
      forall k | 0 <= k < n
        ensures OnBoard(Ray(r', c', dr, dc, k).row, Ray(r', c', dr, dc, k).col)
        ensures b[Ray(r', c', dr, dc, k).row][Ray(r', c', dr, dc, k).col] == Opponent(player)
      {
        RayShift(r, c, dr, dc, k);
      }
    }
  }

  /**
   * A direction contributes exactly the run of opponent stones that the
   * player's own stone closes: Run yields `s` if and only if `s` is the
   * first `|s|` cells of the ray and those cells are bracketed. In
   * particular a run that reaches an EMPTY cell or the edge yields None.
   */
  lemma {:induction false} RunBracketed(b: Board, r: int, c: int, dr: int, dc: int, player: int, s: seq<Pos>)
    requires IsBoard(b) && IsDirection(dr, dc)
    ensures Run(b, r, c, dr, dc, player) == Some(s) <==>
              Bracketed(b, r, c, dr, dc, player, |s|) && s == RayCells(r, c, dr, dc, |s|)
    decreases Reach(r, c, dr, dc)
  {
    assert Ray(r, c, dr, dc, 0) == Pos(r, c);
    if OnBoard(r, c) && b[r][c] == Opponent(player) && |s| > 0 {
      var n := |s| - 1;
      RunBracketed(b, r + dr, c + dc, dr, dc, player, s[1..]);
      BracketedStep(b, r, c, dr, dc, player, n);
      RayCellsStep(r, c, dr, dc, n);
      assert s == [s[0]] + s[1..];
    }
  }

  /** `ps` in front of the run a scan yields, if it yields one. */
  function Prepend(ps: seq<Pos>, o: Option<seq<Pos>>): Option<seq<Pos>>
  {
    match o
    case None => None
    case Some(s) => Some(ps + s)
  }

  lemma PrependNil(o: Option<seq<Pos>>)
    ensures Prepend([], o) == o
  {
    match o
    case None =>
    case Some(s) => assert [] + s == s;
  }

  lemma PrependAssoc(ps: seq<Pos>, qs: seq<Pos>, o: Option<seq<Pos>>)
    ensures Prepend(ps, Prepend(qs, o)) == Prepend(ps + qs, o)
  {
    match o
    case None =>
    case Some(s) => assert ps + (qs + s) == (ps + qs) + s;
  }

  // ---------------------------------------------------------------------
  // getFlipsForMove
  // ---------------------------------------------------------------------

  /** Stones flipped in direction number `d` by `player` placing at `(row, col)`. */
  function DirFlips(b: Board, row: int, col: int, d: nat, player: int): seq<Pos>
    requires IsBoard(b) && d < |Directions|
  {
    DirectionAt(d);
    var (dr, dc) := Directions[d];
    match Run(b, row + dr, col + dc, dr, dc, player)
    case None => []
    case Some(s) => s
  }

  /** The flips of the first `n` directions, concatenated in scan order. */
  function FlipsUpTo(b: Board, row: int, col: int, n: nat, player: int): seq<Pos>
    requires IsBoard(b) && n <= |Directions|
  {
    if n == 0 then [] else FlipsUpTo(b, row, col, n - 1, player) + DirFlips(b, row, col, n - 1, player)
  }

  /** One more direction: its scan either closed a run, which is appended, or did not. */
  lemma FlipsUpToStep(b: Board, row: int, col: int, d: nat, player: int, found: bool, run: seq<Pos>)
    requires IsBoard(b) && d < |Directions| && IsDirection(Directions[d].0, Directions[d].1)
    requires Run(b, row + Directions[d].0, col + Directions[d].1, Directions[d].0, Directions[d].1, player)
             == if found then Some(run) else None
    ensures found ==> FlipsUpTo(b, row, col, d + 1, player) == FlipsUpTo(b, row, col, d, player) + run
    ensures !found ==> FlipsUpTo(b, row, col, d + 1, player) == FlipsUpTo(b, row, col, d, player)
  {
    assert FlipsUpTo(b, row, col, d, player) + [] == FlipsUpTo(b, row, col, d, player);
  }

  /** Every stone a scan collects is on the board and is the opponent's. */
  lemma {:induction false} FlipsUpToCells(b: Board, row: int, col: int, n: nat, player: int)
    requires IsBoard(b) && n <= |Directions|
    ensures OpponentStones(b, FlipsUpTo(b, row, col, n, player), player)
  {
    if n > 0 {
      FlipsUpToCells(b, row, col, n - 1, player);
      var front, s := FlipsUpTo(b, row, col, n - 1, player), DirFlips(b, row, col, n - 1, player);
      DirectionAt(n - 1);
      assert OpponentStones(b, s, player);
      assert FlipsUpTo(b, row, col, n, player) == front + s;
    }
  }

  /**
   * `getFlipsForMove(row, col, player)`: nothing for an occupied cell,
   * otherwise the bracketed runs of all eight directions. Every flipped
   * position is on the board and holds the opponent's stone.
   */
  function Flips(b: Board, row: int, col: int, player: int): (flips: seq<Pos>)
    requires IsBoard(b) && OnBoard(row, col)
    ensures b[row][col] != EMPTY ==> flips == []
    ensures OpponentStones(b, flips, player)
  {
    FlipsUpToCells(b, row, col, |Directions|, player);
    if b[row][col] != EMPTY then [] else FlipsUpTo(b, row, col, |Directions|, player)
  }

  predicate Distinct<T(==)>(s: seq<T>)
  {
    forall i, j :: 0 <= i < j < |s| ==> s[i] != s[j]
  }

  /** The flips of direction `d` lie on its ray, one to `|s|` steps from `(row, col)`. */
  lemma DirFlipsOnRay(b: Board, row: int, col: int, d: nat, player: int)
    requires IsBoard(b) && d < |Directions|
    ensures var s, (dr, dc) := DirFlips(b, row, col, d, player), Directions[d];
            forall k :: 0 <= k < |s| ==> s[k] == Ray(row, col, dr, dc, k + 1)
  {
    DirectionAt(d);
    var (dr, dc) := Directions[d];
    var s := DirFlips(b, row, col, d, player);
    if Run(b, row + dr, col + dc, dr, dc, player).Some? {
      RunBracketed(b, row + dr, col + dc, dr, dc, player, s);
      forall k | 0 <= k < |s| ensures s[k] == Ray(row, col, dr, dc, k + 1) {
        RayShift(row, col, dr, dc, k);
      }
    }
  }

  /** The direction in which `q` lies as seen from `(row, col)`. */
  function Heading(row: int, col: int, q: Pos): (int, int)
  {
    (Sign(q.row - row), Sign(q.col - col))
  }

  /** The flips of one direction are pairwise distinct and all lie in that direction. */
  lemma DirFlipsShape(b: Board, row: int, col: int, d: nat, player: int)
    requires IsBoard(b) && d < |Directions|
    ensures Distinct(DirFlips(b, row, col, d, player))
    ensures forall q :: q in DirFlips(b, row, col, d, player) ==> Heading(row, col, q) == Directions[d]
  {
    DirectionAt(d);
    DirFlipsOnRay(b, row, col, d, player);
    var s := DirFlips(b, row, col, d, player);
    var (dr, dc) := Directions[d];
    forall i, j | 0 <= i < j < |s| ensures s[i] != s[j] {
      assert s[i] == Ray(row, col, dr, dc, i + 1) && s[j] == Ray(row, col, dr, dc, j + 1);
    }
    forall q | q in s ensures Heading(row, col, q) == (dr, dc) {
      var k :| 0 <= k < |s| && s[k] == q;
      assert q == Ray(row, col, dr, dc, k + 1);
    }
  }

  lemma DistinctConcat<T>(a: seq<T>, b: seq<T>)
    requires Distinct(a) && Distinct(b) && forall x :: x in a ==> x !in b
    ensures Distinct(a + b)
  {
    var s := a + b;
    forall i, j | 0 <= i < j < |s| ensures s[i] != s[j] {
      if i < |a| && j >= |a| {
        assert s[i] in a && s[j] == b[j - |a|];
      } else if i >= |a| {
        assert s[i] == b[i - |a|] && s[j] == b[j - |a|];
      }
    }
  }

  /**
   * The flips of the first `n` directions are pairwise distinct, none is the
   * placed cell, and each lies in one of those directions as seen from it.
   */
  lemma {:induction false} FlipsUpToShape(b: Board, row: int, col: int, n: nat, player: int)
    requires IsBoard(b) && n <= |Directions|
    ensures Distinct(FlipsUpTo(b, row, col, n, player))
    ensures forall q :: q in FlipsUpTo(b, row, col, n, player) ==>
              IsDirection(Heading(row, col, q).0, Heading(row, col, q).1)
              && DirIndex(Heading(row, col, q).0, Heading(row, col, q).1) < n
  {
    if n > 0 {
      var front, s := FlipsUpTo(b, row, col, n - 1, player), DirFlips(b, row, col, n - 1, player);
      FlipsUpToShape(b, row, col, n - 1, player);
      DirFlipsShape(b, row, col, n - 1, player);
      DirectionAt(n - 1);
      DistinctConcat(front, s);
      assert FlipsUpTo(b, row, col, n, player) == front + s;
      forall q | q in front + s
        ensures IsDirection(Heading(row, col, q).0, Heading(row, col, q).1)
        ensures DirIndex(Heading(row, col, q).0, Heading(row, col, q).1) < n
      {
        if q in s {
          assert Heading(row, col, q) == Directions[n - 1];
        }
      }
    }
  }

  /** The flips of a move are pairwise distinct and never include the placed cell. */
  lemma FlipsShape(b: Board, row: int, col: int, player: int)
    requires IsBoard(b) && OnBoard(row, col)
    ensures Distinct(Flips(b, row, col, player))
    ensures Pos(row, col) !in Flips(b, row, col, player)
  {
    FlipsUpToShape(b, row, col, |Directions|, player);
    assert Heading(row, col, Pos(row, col)) == (0, 0);
  }

  // ---------------------------------------------------------------------
  // getValidMoves
  // ---------------------------------------------------------------------

  /** Cell number `n` in row-major order, counted off a row at a time. */
  function CellAt(n: nat): Pos
  {
    if n < SIZE then Pos(0, n) else var q := CellAt(n - SIZE); Pos(q.row + 1, q.col)
  }

  /** The row-major number of a cell. */
  function Index(q: Pos): int
  {
    SIZE * q.row + q.col
  }

  lemma {:induction false} CellAtIndex(q: Pos)
    requires OnBoard(q.row, q.col)
    ensures 0 <= Index(q) < SIZE * SIZE && CellAt(Index(q)) == q
    decreases q.row
  {
    if q.row > 0 {
      CellAtIndex(Pos(q.row - 1, q.col));
    }
  }

  lemma {:induction false} IndexCellAt(n: nat)
    requires n < SIZE * SIZE
    ensures OnBoard(CellAt(n).row, CellAt(n).col) && Index(CellAt(n)) == n
  {
    if n >= SIZE {
      IndexCellAt(n - SIZE);
    }
  }

  /** The cells among the first `n` in row-major order that satisfy `keep`. */
  function CellsWhere(keep: Pos -> bool, n: nat): seq<Pos>
    requires n <= SIZE * SIZE
  {
    if n == 0 then [] else CellsWhere(keep, n - 1) + (if keep(CellAt(n - 1)) then [CellAt(n - 1)] else [])
  }

  lemma {:induction false} CellsWhereMembers(keep: Pos -> bool, n: nat, q: Pos)
    requires n <= SIZE * SIZE
    ensures q in CellsWhere(keep, n) <==> OnBoard(q.row, q.col) && Index(q) < n && keep(q)
  {
    if n == 0 {
      assert OnBoard(q.row, q.col) ==> Index(q) >= 0;
    } else {
      CellsWhereMembers(keep, n - 1, q);
      IndexCellAt(n - 1);
      if OnBoard(q.row, q.col) {
        CellAtIndex(q);
      }
    }
  }

  /** The cells, in row-major order, whose entry in `table` is true. */
  function Pick(table: seq<bool>): seq<Pos>
  {
    if |table| == 0 then [] else Pick(table[..|table| - 1]) + if table[|table| - 1] then [CellAt(|table| - 1)] else []
  }

  lemma PickStep(table: seq<bool>, x: bool)
    ensures Pick(table + [x]) == if x then Pick(table) + [CellAt(|table|)] else Pick(table)
  {
    assert (table + [x])[..|table|] == table;
    assert Pick(table) + [] == Pick(table);
  }

  /** Entry `k` of `table` says whether `keep` selects cell number `k`. */
  ghost predicate Records(table: seq<bool>, keep: Pos -> bool)
  {
    forall k :: 0 <= k < |table| ==> table[k] == keep(CellAt(k))
  }

  lemma RecordsStep(table: seq<bool>, keep: Pos -> bool, x: bool)
    requires Records(table, keep) && x == keep(CellAt(|table|))
    ensures Records(table + [x], keep)
  {
  }

  /** A table that records `keep` cell by cell picks the cells `keep` selects. */
  lemma {:induction false} PickWhere(keep: Pos -> bool, table: seq<bool>)
    requires |table| <= SIZE * SIZE && Records(table, keep)
    ensures Pick(table) == CellsWhere(keep, |table|)
  {
    if |table| > 0 {
      PickWhere(keep, table[..|table| - 1]);
    }
  }

  lemma {:induction false} CellsWhereOrdered(keep: Pos -> bool, n: nat)
    requires n <= SIZE * SIZE
    ensures forall i, j :: 0 <= i < j < |CellsWhere(keep, n)| ==>
              Index(CellsWhere(keep, n)[i]) < Index(CellsWhere(keep, n)[j])
  {
    if n > 0 {
      CellsWhereOrdered(keep, n - 1);
      var front := CellsWhere(keep, n - 1);
      IndexCellAt(n - 1);
      forall i | 0 <= i < |front| ensures Index(front[i]) < n - 1 {
        CellsWhereMembers(keep, n - 1, front[i]);
      }
    }
  }

  /** Whether `player` placing at `q` would flip something. */
  function Legal(b: Board, player: int): Pos -> bool
    requires IsBoard(b)
  {
    (q: Pos) => OnBoard(q.row, q.col) && |Flips(b, q.row, q.col, player)| > 0
  }

  /** Cell `(row, col)`, number `n` in the scan, is legal exactly when its flips are non-empty. */
  lemma LegalCell(b: Board, player: int, row: int, col: int, n: nat, flips: seq<Pos>)
    requires IsBoard(b) && OnBoard(row, col) && n == SIZE * row + col && flips == Flips(b, row, col, player)
    ensures n < SIZE * SIZE && CellAt(n) == Pos(row, col)
    ensures Legal(b, player)(CellAt(n)) == (|flips| > 0)
  {
    CellAtIndex(Pos(row, col));
  }

  /** `getValidMoves(player)`: the cells whose move flips something, scanned row by row. */
  function ValidMoves(b: Board, player: int): seq<Pos>
    requires IsBoard(b)
  {
    CellsWhere(Legal(b, player), SIZE * SIZE)
  }

  /**
   * The legal moves are exactly the on-board cells whose move flips
   * something, listed in row-major order.
   */
  lemma ValidMovesSpec(b: Board, player: int, q: Pos)
    requires IsBoard(b)
    ensures q in ValidMoves(b, player) <==> OnBoard(q.row, q.col) && |Flips(b, q.row, q.col, player)| > 0
    ensures forall i, j :: 0 <= i < j < |ValidMoves(b, player)| ==>
              Index(ValidMoves(b, player)[i]) < Index(ValidMoves(b, player)[j])
  {
    CellsWhereMembers(Legal(b, player), SIZE * SIZE, q);
    CellsWhereOrdered(Legal(b, player), SIZE * SIZE);
    if OnBoard(q.row, q.col) {
      CellAtIndex(q);
    }
  }

  // ---------------------------------------------------------------------
  // countStones
  // ---------------------------------------------------------------------

  function Occurrences(s: seq<int>, x: int): (k: nat)
    ensures k <= |s|
  {
    if s == [] then 0 else Occurrences(s[..|s| - 1], x) + (if s[|s| - 1] == x then 1 else 0)
  }

  /** `countStones(player)`: the cells of the flattened board equal to `player`. */
  function Count(b: Board, x: int): (k: nat)
    ensures (forall r :: 0 <= r < |b| ==> |b[r]| == SIZE) ==> k <= SIZE * |b|
  {
    if b == [] then 0 else Count(b[..|b| - 1], x) + Occurrences(b[|b| - 1], x)
  }

  /** Every cell of the script's board holds one of its three values. */
  ghost predicate Cells(b: Board)
  {
    forall r, c :: 0 <= r < |b| && 0 <= c < |b[r]| ==> b[r][c] == EMPTY || b[r][c] == BLACK || b[r][c] == WHITE
  }

  lemma {:induction false} OccurrencesPartition(s: seq<int>)
    requires forall i :: 0 <= i < |s| ==> s[i] == EMPTY || s[i] == BLACK || s[i] == WHITE
    ensures Occurrences(s, EMPTY) + Occurrences(s, BLACK) + Occurrences(s, WHITE) == |s|
  {
    if s != [] {
      OccurrencesPartition(s[..|s| - 1]);
    }
  }

  /** The three counts of `countStones` cover the board: EMPTY, BLACK and WHITE add up to 64. */
  lemma {:induction false} CountPartition(b: Board)
    requires (forall r :: 0 <= r < |b| ==> |b[r]| == SIZE) && Cells(b)
    ensures Count(b, EMPTY) + Count(b, BLACK) + Count(b, WHITE) == SIZE * |b|
    ensures IsBoard(b) ==> Count(b, EMPTY) + Count(b, BLACK) + Count(b, WHITE) == SIZE * SIZE
  {
    if b != [] {
      var front := b[..|b| - 1];
      assert Cells(front) by {
        forall r, c | 0 <= r < |front| && 0 <= c < |front[r]| ensures front[r][c] == b[r][c] { }
      }
      CountPartition(front);
      OccurrencesPartition(b[|b| - 1]);
    }
  }

  lemma {:induction false} OccurrencesUpdate(s: seq<int>, i: nat, v: int, x: int)
    requires i < |s|
    ensures Occurrences(s[i := v], x) == Occurrences(s, x) - (if s[i] == x then 1 else 0) + (if v == x then 1 else 0)
  {
    var t := s[i := v];
    if i < |s| - 1 {
      assert t[..|t| - 1] == s[..|s| - 1][i := v];
      OccurrencesUpdate(s[..|s| - 1], i, v, x);
    } else {
      assert t[..|t| - 1] == s[..|s| - 1];
    }
  }

  lemma {:induction false} CountUpdate(b: Board, r: nat, row: seq<int>, x: int)
    requires r < |b|
    ensures Count(b[r := row], x) == Count(b, x) - Occurrences(b[r], x) + Occurrences(row, x)
  {
    var t := b[r := row];
    if r < |b| - 1 {
      assert t[..|t| - 1] == b[..|b| - 1][r := row];
      CountUpdate(b[..|b| - 1], r, row, x);
    } else {
      assert t[..|t| - 1] == b[..|b| - 1];
    }
  }

  // ---------------------------------------------------------------------
  // handleCellClick
  // ---------------------------------------------------------------------
  function SetCell(b: Board, q: Pos, v: int): (t: Board)
    requires IsBoard(b) && OnBoard(q.row, q.col)
    ensures IsBoard(t)
    ensures forall r, c :: OnBoard(r, c) ==> t[r][c] == if Pos(r, c) == q then v else b[r][c]
  {
    b[q.row := b[q.row][q.col := v]]
  }

  /** Changing one cell moves one unit of count from its old value to the new one. */
  lemma SetCellCount(b: Board, q: Pos, v: int, x: int)
    requires IsBoard(b) && OnBoard(q.row, q.col)
    ensures Count(SetCell(b, q, v), x) == Count(b, x) - (if b[q.row][q.col] == x then 1 else 0) + (if v == x then 1 else 0)
  {
    CountUpdate(b, q.row, b[q.row][q.col := v], x);
    OccurrencesUpdate(b[q.row], q.col, v, x);
  }

  predicate AllOnBoard(fs: seq<Pos>)
  {
    forall q :: q in fs ==> OnBoard(q.row, q.col)
  }

  /** The `forEach` of `handleCellClick`: every listed cell set to `v`, in order. */
  function ApplyFlips(b: Board, fs: seq<Pos>, v: int): (t: Board)
    requires IsBoard(b) && AllOnBoard(fs)
    ensures IsBoard(t)
  {
    if fs == [] then b else SetCell(ApplyFlips(b, fs[..|fs| - 1], v), fs[|fs| - 1], v)
  }

  lemma {:induction false} ApplyFlipsAt(b: Board, fs: seq<Pos>, v: int, r: int, c: int)
    requires IsBoard(b) && AllOnBoard(fs) && OnBoard(r, c)
    ensures ApplyFlips(b, fs, v)[r][c] == if Pos(r, c) in fs then v else b[r][c]
  {
    if fs != [] {
      ApplyFlipsAt(b, fs[..|fs| - 1], v, r, c);
      assert fs == fs[..|fs| - 1] + [fs[|fs| - 1]];
    }
  }

  /**
   * Setting `|fs|` distinct cells that hold `o` to `v` moves `|fs|` units of
   * count from `o` to `v` and leaves every other count alone.
   */
  lemma {:induction false} ApplyFlipsCount(b: Board, fs: seq<Pos>, v: int, o: int, x: int)
    requires IsBoard(b) && AllOnBoard(fs) && Distinct(fs) && o != v
    requires forall q :: q in fs ==> b[q.row][q.col] == o
    ensures Count(ApplyFlips(b, fs, v), x) == Count(b, x) + (if x == v then |fs| else if x == o then -|fs| else 0)
  {
    if fs != [] {
      var front, q := fs[..|fs| - 1], fs[|fs| - 1];
      ApplyFlipsCount(b, front, v, o, x);
      ApplyFlipsAt(b, front, v, q.row, q.col);
      assert q !in front by {
        forall k | 0 <= k < |front| ensures front[k] != q {
          assert fs[k] != fs[|fs| - 1];
        }
      }
      SetCellCount(ApplyFlips(b, front, v), q, v, x);
    }
  }

  /** The board after `player` places at `(row, col)` and flips. */
  function Move(b: Board, row: int, col: int, player: int): (t: Board)
    requires IsBoard(b) && OnBoard(row, col)
    ensures IsBoard(t)
  {
    var flips := Flips(b, row, col, player);
    assert AllOnBoard(flips);
    ApplyFlips(SetCell(b, Pos(row, col), player), flips, player)
  }

  /** A move is the placed stone followed by the listed flips. */
  lemma MoveApplies(b: Board, row: int, col: int, player: int, flips: seq<Pos>)
    requires IsBoard(b) && OnBoard(row, col) && flips == Flips(b, row, col, player)
    ensures AllOnBoard(flips)
    ensures Move(b, row, col, player) == ApplyFlips(SetCell(b, Pos(row, col), player), flips, player)
  {
  }

  /** After a move the placed cell and every flipped cell hold `player`; nothing else changes. */
  lemma MoveCells(b: Board, row: int, col: int, player: int, r: int, c: int)
    requires IsBoard(b) && OnBoard(row, col) && OnBoard(r, c)
    ensures Move(b, row, col, player)[r][c] ==
              if Pos(r, c) == Pos(row, col) || Pos(r, c) in Flips(b, row, col, player) then player else b[r][c]
  {
    ApplyFlipsAt(SetCell(b, Pos(row, col), player), Flips(b, row, col, player), player, r, c);
  }

  /**
   * A legal move adds the placed stone and the flipped ones to the mover's
   * count, takes the flipped ones from the opponent's, and fills one EMPTY cell.
   */
  lemma MoveCounts(b: Board, row: int, col: int, player: int)
    requires IsBoard(b) && OnBoard(row, col) && (player == BLACK || player == WHITE)
    requires |Flips(b, row, col, player)| > 0
    ensures var n, t := |Flips(b, row, col, player)|, Move(b, row, col, player);
            && Count(t, player) == Count(b, player) + n + 1
            && Count(t, Opponent(player)) == Count(b, Opponent(player)) - n
            && Count(t, EMPTY) == Count(b, EMPTY) - 1
  {
    var flips := Flips(b, row, col, player);
    var placed := SetCell(b, Pos(row, col), player);
    FlipsShape(b, row, col, player);
    forall q | q in flips ensures placed[q.row][q.col] == Opponent(player) {
    }
    SetCellCount(b, Pos(row, col), player, player);
    SetCellCount(b, Pos(row, col), player, Opponent(player));
    SetCellCount(b, Pos(row, col), player, EMPTY);
    ApplyFlipsCount(placed, flips, player, Opponent(player), player);
    ApplyFlipsCount(placed, flips, player, Opponent(player), Opponent(player));
    ApplyFlipsCount(placed, flips, player, Opponent(player), EMPTY);
  }

  // ---------------------------------------------------------------------
  // Pass and game over (updateStatus)
  // ---------------------------------------------------------------------

  datatype Status = Status(player: int, over: bool)

  /**
   * The turn rule of `updateStatus`: a player without a legal move passes to
   * an opponent who has one; when neither has one the game is over.
   */
  function Settle(b: Board, player: int, over: bool): Status
    requires IsBoard(b)
  {
    if !over && |ValidMoves(b, player)| == 0 then
      if |ValidMoves(b, Opponent(player))| > 0 then Status(Opponent(player), false) else Status(player, true)
    else Status(player, over)
  }

  /**
   * After the rule the game is over or the player to move has a legal move,
   * so applying it again (as the redraw that follows does) changes nothing.
   */
  lemma SettleSettled(b: Board, player: int, over: bool)
    requires IsBoard(b)
    ensures var s := Settle(b, player, over); s.over || |ValidMoves(b, s.player)| > 0
    ensures var s := Settle(b, player, over); Settle(b, s.player, s.over) == s
  {
  }

  /** The game ends only when neither side can move. */
  lemma SettleOver(b: Board, player: int, over: bool)
    requires IsBoard(b) && !over
    ensures Settle(b, player, over).over <==> |ValidMoves(b, player)| == 0 && |ValidMoves(b, Opponent(player))| == 0
  {
  }

  // ---------------------------------------------------------------------
  // initGame
  // ---------------------------------------------------------------------

  /** Two boards that agree on every cell are equal. */
  lemma BoardExt(a: Board, b: Board)
    requires IsBoard(a) && IsBoard(b)
    requires forall r, c :: OnBoard(r, c) ==> a[r][c] == b[r][c]
    ensures a == b
  {
    forall r | 0 <= r < SIZE ensures a[r] == b[r] {
      assert forall c :: 0 <= c < SIZE ==> a[r][c] == b[r][c];
    }
  }

  /** The starting position: WHITE on (3,3) and (4,4), BLACK on (3,4) and (4,3). */
  function Initial(): (b: Board)
    ensures IsBoard(b)
  {
    seq(SIZE, r requires 0 <= r < SIZE => seq(SIZE, c requires 0 <= c < SIZE =>
      if (r, c) == (3, 3) || (r, c) == (4, 4) then WHITE
      else if (r, c) == (3, 4) || (r, c) == (4, 3) then BLACK
      else EMPTY))
  }

  /** The board `initGame` builds: all EMPTY, then the four centre stones. */
  lemma InitialSetup(blank: Board)
    requires blank == seq(SIZE, r => seq(SIZE, c => EMPTY))
    ensures SetCell(SetCell(SetCell(SetCell(blank, Pos(3, 3), WHITE), Pos(3, 4), BLACK), Pos(4, 3), BLACK), Pos(4, 4), WHITE)
            == Initial()
  {
    var t := SetCell(SetCell(SetCell(SetCell(blank, Pos(3, 3), WHITE), Pos(3, 4), BLACK), Pos(4, 3), BLACK), Pos(4, 4), WHITE);
    BoardExt(t, Initial());
  }

  lemma {:induction false} OccurrencesConst(n: nat, v: int, x: int)
    ensures Occurrences(seq(n, _ => v), x) == if v == x then n else 0
  {
    if n > 0 {
      assert seq(n, _ => v)[..n - 1] == seq(n - 1, _ => v);
      OccurrencesConst(n - 1, v, x);
    }
  }

  /** An all-EMPTY board counts 64 EMPTY cells and no stones. */
  lemma {:induction false} CountBlank(n: nat, x: int)
    requires n <= SIZE
    ensures Count(seq(n, _ => seq(SIZE, _ => EMPTY)), x) == if x == EMPTY then SIZE * n else 0
  {
    OccurrencesConst(SIZE, EMPTY, x);
    if n > 0 {
      assert seq(n, _ => seq(SIZE, _ => EMPTY))[..n - 1] == seq(n - 1, _ => seq(SIZE, _ => EMPTY));
      CountBlank(n - 1, x);
    }
  }

  /** The game opens with two stones of each colour and sixty empty cells. */
  lemma InitialCounts(x: int)
    ensures Count(Initial(), x) == if x == BLACK || x == WHITE then 2 else if x == EMPTY then 60 else 0
  {
    var blank := seq(SIZE, _ => seq(SIZE, _ => EMPTY));
    CountBlank(SIZE, x);
    InitialSetup(blank);
    var b1 := SetCell(blank, Pos(3, 3), WHITE);
    var b2 := SetCell(b1, Pos(3, 4), BLACK);
    var b3 := SetCell(b2, Pos(4, 3), BLACK);
    SetCellCount(blank, Pos(3, 3), WHITE, x);
    SetCellCount(b1, Pos(3, 4), BLACK, x);
    SetCellCount(b2, Pos(4, 3), BLACK, x);
    SetCellCount(b3, Pos(4, 4), WHITE, x);
  }

  /**
   * BLACK, who moves first, has a legal move in the starting position (at
   * (2, 3), flipping (3, 3)), so the status check that follows `initGame`
   * changes nothing.
   */
  lemma InitialSettled()
    ensures Pos(2, 3) in ValidMoves(Initial(), BLACK)
    ensures Settle(Initial(), BLACK, false) == Status(BLACK, false)
  {
    var b := Initial();
    assert b[3][3] == WHITE && b[4][3] == BLACK;
    assert Run(b, 4, 3, 1, 0, BLACK) == Some([]);
    assert [Pos(3, 3)] + [] == [Pos(3, 3)];
    assert Run(b, 3, 3, 1, 0, BLACK) == Some([Pos(3, 3)]);
    assert DirFlips(b, 2, 3, 6, BLACK) == [Pos(3, 3)];
    assert Pos(3, 3) in Flips(b, 2, 3, BLACK);
    ValidMovesSpec(b, BLACK, Pos(2, 3));
  }
}
