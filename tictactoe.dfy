/**
 * The rules of tic-tac-toe and the minimax player: whose turn it is, the legal moves, the
 * board after a move, the winner, and the optimal move by exhaustive game-tree search.
 * A board is a list of three rows of three cells; Python's `None` is the `Empty` cell.
 */
module TicTacToe {
  import opened Wrappers

  datatype Cell = X | O | Empty

  type Board = seq<seq<Cell>>

  /** A move: a (row, column) pair. */
  type Action = (int, int)

  /** The two exceptions the source raises: `Exception("Invalid action")` and `ValueError`. */
  datatype Error = InvalidAction | InvalidBoard

  predicate IsBoard(b: Board) {
    |b| == 3 && forall r :: 0 <= r < 3 ==> |b[r]| == 3
  }

  predicate OnBoard(a: Action) {
    0 <= a.0 < 3 && 0 <= a.1 < 3
  }

  /** The cells of the board, row after row. */
  function Flatten(b: Board): seq<Cell> {
    if b == [] then [] else b[0] + Flatten(b[1..])
  }

  /** The nine cells of a board in the row-major order of the loops of `actions` and `result`. */
  function Cells(b: Board): (s: seq<Cell>)
    requires IsBoard(b)
    ensures |s| == 9
  {
    seq(9, i requires 0 <= i < 9 => b[Pos(i).0][Pos(i).1])
  }

  lemma FlattenBoard(b: Board)
    requires IsBoard(b)
    ensures Flatten(b) == Cells(b)
  {
    assert b[1..][1..][1..] == [];
    assert Flatten(b[1..][1..][1..]) == [];
    assert Flatten(b[1..][1..]) == b[2];
    assert Flatten(b[1..]) == b[1] + b[2];
    assert forall i :: 0 <= i < 9 ==> (b[0] + b[1] + b[2])[i] == Cells(b)[i];
  }

  /** Overwriting one entry of a sequence trades one occurrence of the old value for the new one. */
  lemma MultisetUpdate<T>(s: seq<T>, i: nat, v: T)
    requires i < |s|
    ensures multiset(s[i := v]) == multiset(s) - multiset{s[i]} + multiset{v}
  {
    assert s == s[..i] + [s[i]] + s[i + 1..];
    assert s[i := v] == s[..i] + [v] + s[i + 1..];
  }

  /** How many cells of the board hold `m`. */
  function CountOf(b: Board, m: Cell): nat {
    multiset(Flatten(b))[m]
  }

  function InitialState(): (b: Board)
    ensures IsBoard(b)
    ensures forall r, c :: 0 <= r < 3 && 0 <= c < 3 ==> b[r][c] == Empty
  {
    [[Empty, Empty, Empty], [Empty, Empty, Empty], [Empty, Empty, Empty]]
  }

  /** The counter of `player` over one row: +1 for each X, -1 for each O. */
  function RowBalance(row: seq<Cell>): (n: int)
    ensures n + multiset(row)[O] == multiset(row)[X]
  {
    if row == [] then 0
    else
      assert row == [row[0]] + row[1..];
      (if row[0] == X then 1 else if row[0] == O then -1 else 0) + RowBalance(row[1..])
  }

  /** The counter of `player` over the whole board. */
  function Balance(b: Board): (n: int)
    ensures n + CountOf(b, O) == CountOf(b, X)
  {
    if b == [] then 0 else RowBalance(b[0]) + Balance(b[1..])
  }

  /** `player`: X moves when both have placed equally many marks, O otherwise. */
  function Player(b: Board): (p: Cell)
    ensures p != Empty
    ensures p == X <==> CountOf(b, X) == CountOf(b, O)
  {
    var count := Balance(b);
    if count != 0 then O else X
  }

  /** The loop step at which a cell is visited. */
  function Index(a: Action): (i: int)
    ensures OnBoard(a) ==> 0 <= i < 9
  {
    3 * a.0 + a.1
  }

  /**
   * The cell `(i // 3, i % 3)` that `actions` and `result` visit at step `i` of their
   * row-major loops, written with comparisons so that it stays linear arithmetic.
   */
  function Pos(i: int): (a: Action)
    requires 0 <= i < 9
    ensures OnBoard(a) && Index(a) == i
  {
    if i < 3 then (0, i) else if i < 6 then (1, i - 3) else (2, i - 6)
  }

  lemma PosIndex(a: Action)
    requires OnBoard(a)
    ensures Pos(Index(a)) == a
  {
  }

  /** The loop of `actions` from step `i` on: the empty cells, in row-major order. */
  function ActionsFrom(b: Board, i: nat): (r: seq<Action>)
    requires IsBoard(b) && i <= 9
    ensures forall a :: a in r <==> OnBoard(a) && Index(a) >= i && b[a.0][a.1] == Empty
    ensures forall p, q :: 0 <= p < q < |r| ==> i <= Index(r[p]) < Index(r[q])
    decreases 9 - i
  {
    if i == 9 then []
    else
      var rest := ActionsFrom(b, i + 1);
      var a := Pos(i);
      assert forall a' :: OnBoard(a') && Index(a') == i ==> a' == a by {
        forall a' | OnBoard(a') && Index(a') == i ensures a' == a { PosIndex(a'); }
      }
      if b[a.0][a.1] == Empty then [a] + rest else rest
  }

  /** `actions` finds as many moves as the board has empty cells. */
  lemma {:induction false} ActionsFromCount(b: Board, i: nat)
    requires IsBoard(b) && i <= 9
    ensures |ActionsFrom(b, i)| == multiset(Cells(b)[i..])[Empty]
    decreases 9 - i
  {
    if i < 9 {
      ActionsFromCount(b, i + 1);
      assert Cells(b)[i..] == [Cells(b)[i]] + Cells(b)[i + 1..];
    }
  }

  /** `actions`: exactly the empty cells, in row-major order, each once. */
  function Actions(b: Board): (r: seq<Action>)
    requires IsBoard(b)
    ensures forall a :: a in r <==> OnBoard(a) && b[a.0][a.1] == Empty
    ensures forall p, q :: 0 <= p < q < |r| ==> Index(r[p]) < Index(r[q])
  {
    ActionsFrom(b, 0)
  }

  lemma ActionsCount(b: Board)
    requires IsBoard(b)
    ensures |Actions(b)| == CountOf(b, Empty)
  {
    ActionsFromCount(b, 0);
    assert Cells(b)[0..] == Cells(b);
    FlattenBoard(b);
  }

  /**
   * `result`: a new board with the player to move at `a`. An occupied target raises; a target
   * off the board matches no cell of the copying loop, so the board comes back unchanged.
   */
  function Result(b: Board, a: Action): (r: Result<Board, Error>)
    requires IsBoard(b)
    ensures r.Failure? <==> OnBoard(a) && b[a.0][a.1] != Empty
    ensures r.Success? ==> IsBoard(r.value)
    ensures r.Success? ==> forall i, j :: 0 <= i < 3 && 0 <= j < 3 ==>
      r.value[i][j] == if (i, j) == a then Player(b) else b[i][j]
  {
    if OnBoard(a) && b[a.0][a.1] != Empty then Failure(InvalidAction)
    else
      var mark := Player(b);
      Success(seq(3, i requires 0 <= i < 3 => seq(3, j requires 0 <= j < 3 => if (i, j) == a then mark else b[i][j])))
  }

  /** The early-exit loop of `line`: whether some entry from `k` on differs from `first`. */
  function DiffersFrom(x: seq<Cell>, first: Cell, k: nat): (d: bool)
    requires k <= |x|
    ensures d <==> exists j :: k <= j < |x| && x[j] != first
    decreases |x| - k
  {
    if k == |x| then false
    else if x[k] != first then true else DiffersFrom(x, first, k + 1)
  }

  /** `line`: the mark that fills all of `x`, or `Empty`. */
  function Line(x: seq<Cell>): (r: Cell)
    requires |x| > 0
    ensures r != Empty <==> x[0] != Empty && forall j :: 0 <= j < |x| ==> x[j] == x[0]
    ensures r != Empty ==> r == x[0]
  {
    if x[0].X? || x[0].O? then
      if DiffersFrom(x, x[0], 0) then Empty
      else x[0]
    else Empty
  }

  /** The cells of the eight lines `winner` inspects: three rows, three columns, then the two diagonals. */
  const LinePositions: seq<seq<Action>> := [
    [(0, 0), (0, 1), (0, 2)], [(1, 0), (1, 1), (1, 2)], [(2, 0), (2, 1), (2, 2)],
    [(0, 0), (1, 0), (2, 0)], [(0, 1), (1, 1), (2, 1)], [(0, 2), (1, 2), (2, 2)],
    [(0, 0), (1, 1), (2, 2)], [(0, 2), (1, 1), (2, 0)]]

  lemma LinePositionsOnBoard()
    ensures |LinePositions| == 8
    ensures forall k :: 0 <= k < 8 ==> |LinePositions[k]| == 3
    ensures forall k, t :: 0 <= k < 8 && 0 <= t < 3 ==> OnBoard(LinePositions[k][t])
  {
  }

  /** The contents of those eight lines. */
  function Lines(b: Board): (ls: seq<seq<Cell>>)
    requires IsBoard(b)
    ensures |ls| == 8 && forall k :: 0 <= k < 8 ==> |ls[k]| == 3
    ensures forall k, t :: 0 <= k < 8 && 0 <= t < 3 ==>
      ls[k][t] == b[LinePositions[k][t].0][LinePositions[k][t].1]
  {
    LinePositionsOnBoard();
    seq(8, k requires 0 <= k < 8 =>
      seq(3, t requires 0 <= t < 3 => b[LinePositions[k][t].0][LinePositions[k][t].1]))
  }

  /** `m` fills some row, column or diagonal. */
  predicate Owns(b: Board, m: Cell)
    requires IsBoard(b)
  {
    exists k :: 0 <= k < 8 && Line(Lines(b)[k]) == m
  }

  /** The flag-setting loop of `winner` over the lines from `k` on. */
  function WinFlags(ls: seq<seq<Cell>>, k: nat): (f: (bool, bool))
    requires k <= |ls| && forall i :: 0 <= i < |ls| ==> |ls[i]| > 0
    ensures f.0 <==> exists i :: k <= i < |ls| && Line(ls[i]) == X
    ensures f.1 <==> exists i :: k <= i < |ls| && Line(ls[i]) == O
    decreases |ls| - k
  {
    if k == |ls| then (false, false)
    else
      var (xWin, oWin) := WinFlags(ls, k + 1);
      var tmp := Line(ls[k]);
      (xWin || tmp == X, oWin || tmp == O)
  }

  /** `winner`: the mark that owns a line; `ValueError` when both marks own one. */
  function Winner(b: Board): (r: Result<Cell, Error>)
    requires IsBoard(b)
    ensures r.Failure? <==> Owns(b, X) && Owns(b, O)
    ensures r == Success(X) <==> Owns(b, X) && !Owns(b, O)
    ensures r == Success(O) <==> Owns(b, O) && !Owns(b, X)
    ensures r == Success(Empty) <==> !Owns(b, X) && !Owns(b, O)
  {
    var (xWin, oWin) := WinFlags(Lines(b), 0);
    if xWin && oWin then Failure(InvalidBoard)
    else if xWin then Success(X)
    else if oWin then Success(O)
    else Success(Empty)
  }

  /** `terminal`: someone has won or no cell is empty; raises as `winner` does. */
  function Terminal(b: Board): (r: Result<bool, Error>)
    requires IsBoard(b)
    ensures r.Failure? <==> Owns(b, X) && Owns(b, O)
    ensures r == Success(true) <==> !(Owns(b, X) && Owns(b, O)) && (Owns(b, X) || Owns(b, O) || Empty !in Cells(b))
  {
    ActionsCount(b);
    assert Empty in Cells(b) <==> CountOf(b, Empty) > 0 by {
      FlattenBoard(b);
    }
    match Winner(b)
    case Failure(e) => Failure(e)
    case Success(w) => Success(w != Empty || |Actions(b)| == 0)
  }

  function UtilityOf(w: Cell): int {
    if w == X then 1 else if w == O then -1 else 0
  }

  /** `utility`: 1 when X has won, -1 when O has, 0 otherwise; raises as `winner` does. */
  function Utility(b: Board): (r: Result<int, Error>)
    requires IsBoard(b)
    ensures r.Failure? <==> Owns(b, X) && Owns(b, O)
    ensures r == Success(1) <==> Owns(b, X) && !Owns(b, O)
    ensures r == Success(-1) <==> Owns(b, O) && !Owns(b, X)
    ensures r == Success(0) <==> !Owns(b, X) && !Owns(b, O)
  {
    match Winner(b)
    case Failure(e) => Failure(e)
    case Success(w) => Success(UtilityOf(w))
  }

  /** A move writes the mover's mark into the chosen cell and copies every other cell. */
  lemma MoveCell(b: Board, a: Action, i: int)
    requires IsBoard(b) && a in Actions(b) && 0 <= i < 9
    ensures Result(b, a).Success?
    ensures Cells(Result(b, a).value)[i] == if i == Index(a) then Player(b) else Cells(b)[i]
  {
    PosIndex(a);
  }

  /** The cell a legal move targets is empty in the row-major cell list. */
  lemma ActionCell(b: Board, a: Action)
    requires IsBoard(b) && a in Actions(b)
    ensures 0 <= Index(a) < 9 && Cells(b)[Index(a)] == Empty
  {
    PosIndex(a);
  }

  /** A sequence that agrees with `s` everywhere but at `k`, where it holds `v`, is `s[k := v]`. */
  lemma UpdateAt(s: seq<Cell>, t: seq<Cell>, k: int, v: Cell)
    requires |s| == |t| && 0 <= k < |s|
    requires forall i :: 0 <= i < |s| ==> t[i] == if i == k then v else s[i]
    ensures t == s[k := v]
  {
  }

  /** The same in terms of the row-major cell list. */
  lemma MoveCells(b: Board, a: Action)
    requires IsBoard(b) && a in Actions(b)
    ensures Result(b, a).Success?
    ensures 0 <= Index(a) < 9
    ensures Cells(Result(b, a).value) == Cells(b)[Index(a) := Player(b)]
  {
    forall i | 0 <= i < 9
      ensures Cells(Result(b, a).value)[i] == if i == Index(a) then Player(b) else Cells(b)[i]
    {
      MoveCell(b, a, i);
    }
    UpdateAt(Cells(b), Cells(Result(b, a).value), Index(a), Player(b));
  }

  /** On a board, counting over the rows is counting over the row-major cell list. */
  lemma CellCount(b: Board, m: Cell)
    requires IsBoard(b)
    ensures CountOf(b, m) == multiset(Cells(b))[m]
  {
    FlattenBoard(b);
  }

  /** Writing a mark over an empty entry moves one occurrence from `Empty` to that mark. */
  lemma WriteCounts(s: seq<Cell>, k: int, v: Cell)
    requires 0 <= k < |s| && s[k] == Empty && v != Empty
    ensures multiset(s[k := v])[Empty] == multiset(s)[Empty] - 1
    ensures forall m :: m != Empty ==> multiset(s[k := v])[m] == multiset(s)[m] + (if m == v then 1 else 0)
  {
    MultisetUpdate(s, k, v);
  }

  /** A move turns one empty cell into a cell holding the mover's mark. */
  lemma MoveCounts(b: Board, a: Action)
    requires IsBoard(b) && a in Actions(b)
    ensures Result(b, a).Success?
    ensures var c := Result(b, a).value;
      CountOf(c, Empty) == CountOf(b, Empty) - 1 &&
      CountOf(c, X) == CountOf(b, X) + (if Player(b) == X then 1 else 0) &&
      CountOf(c, O) == CountOf(b, O) + (if Player(b) == O then 1 else 0)
  {
    MoveCells(b, a);
    ActionCell(b, a);
    var c := Result(b, a).value;
    WriteCounts(Cells(b), Index(a), Player(b));
    CellCount(b, Empty);
    CellCount(c, Empty);
    CellCount(b, X);
    CellCount(c, X);
    CellCount(b, O);
    CellCount(c, O);
  }

  /**
   * On a board nobody has won, a move fills one empty cell with the mover's mark, so the
   * child has one empty move fewer and does not make `winner` raise.
   */
  lemma Move(b: Board, a: Action)
    requires IsBoard(b) && a in Actions(b)
    ensures Result(b, a).Success?
    ensures |Actions(Result(b, a).value)| == |Actions(b)| - 1
    ensures Winner(b) == Success(Empty) ==> Winner(Result(b, a).value).Success?
  {
    MoveCounts(b, a);
    ActionsCount(b);
    ActionsCount(Result(b, a).value);
    if Winner(b) == Success(Empty) {
      MoveOwners(b, a);
    }
  }

  /** A line the move does not complete for the mover is the same line as before the move. */
  lemma LineKept(b: Board, a: Action, k: int)
    requires IsBoard(b) && OnBoard(a) && b[a.0][a.1] == Empty && 0 <= k < 8
    requires Result(b, a).Success?
    requires var w := Line(Lines(Result(b, a).value)[k]); w != Empty && w != Player(b)
    ensures Line(Lines(b)[k]) == Line(Lines(Result(b, a).value)[k])
  {
    var c := Result(b, a).value;
    var w := Line(Lines(c)[k]);
    LinePositionsOnBoard();
    forall t | 0 <= t < 3
      ensures Lines(b)[k][t] == w
    {
      var p := LinePositions[k][t];
      assert Lines(c)[k][t] == c[p.0][p.1] == w;
    }
  }

  /** After a move on a board nobody has won, every line is unowned or the mover's. */
  lemma MoveLines(b: Board, a: Action)
    requires IsBoard(b) && OnBoard(a) && b[a.0][a.1] == Empty && !Owns(b, X) && !Owns(b, O)
    ensures Result(b, a).Success?
    ensures forall k :: 0 <= k < 8 ==>
      Line(Lines(Result(b, a).value)[k]) == Empty || Line(Lines(Result(b, a).value)[k]) == Player(b)
  {
    var c := Result(b, a).value;
    forall k | 0 <= k < 8
      ensures Line(Lines(c)[k]) == Empty || Line(Lines(c)[k]) == Player(b)
    {
      if Line(Lines(c)[k]) != Empty && Line(Lines(c)[k]) != Player(b) {
        LineKept(b, a, k);
      }
    }
  }

  /** Only the mover can own a line after a move on a board nobody has won. */
  lemma MoveOwners(b: Board, a: Action)
    requires IsBoard(b) && OnBoard(a) && b[a.0][a.1] == Empty && !Owns(b, X) && !Owns(b, O)
    ensures Result(b, a).Success?
    ensures Player(b) == X ==> !Owns(Result(b, a).value, O)
    ensures Player(b) == O ==> !Owns(Result(b, a).value, X)
  {
    MoveLines(b, a);
  }

  /**
   * The value `get_optimal_score` computes on a board where `winner` does not raise: the
   * utility of a finished game, otherwise the best child value for `side` (1 for X, -1 for O).
   */
  function Score(b: Board, side: int): int
    requires IsBoard(b) && Winner(b).Success?
    decreases |Actions(b)|, 2
  {
    var w := Winner(b).value;
    if w != Empty || |Actions(b)| == 0 then UtilityOf(w)
    else side * ScoreLoop(b, side, Actions(b), -2)
  }

  /** `side * get_optimal_score(result(b, a), -side)`: what move `a` is worth to `side`. */
  function ChildValue(b: Board, side: int, a: Action): int
    requires IsBoard(b) && Winner(b) == Success(Empty) && a in Actions(b)
    decreases |Actions(b)|, 0
  {
    Move(b, a);
    side * Score(Result(b, a).value, -side)
  }

  /** The loop of `get_optimal_score` over the moves left in `acts`, stopping early at 1. */
  function ScoreLoop(b: Board, side: int, acts: seq<Action>, ret: int): int
    requires IsBoard(b) && Winner(b) == Success(Empty)
    requires forall a :: a in acts ==> a in Actions(b)
    decreases |Actions(b)|, 1, |acts|
  {
    if acts == [] then ret
    else
      var gm := ChildValue(b, side, acts[0]);
      var ret' := if gm > ret then gm else ret;
      if ret' == 1 then 1 else ScoreLoop(b, side, acts[1..], ret')
  }

  /** `get_optimal_score`, raising `ValueError` exactly when `winner` raises on the board itself. */
  function GetOptimalScore(b: Board, side: int): (r: Result<int, Error>)
    requires IsBoard(b)
    ensures r.Failure? <==> Owns(b, X) && Owns(b, O)
  {
    if Winner(b).Failure? then Failure(InvalidBoard) else Success(Score(b, side))
  }

  predicate IsSide(side: int) { side == 1 || side == -1 }

  /** Every score lies in {-1, 0, 1}. */
  lemma {:induction false} ScoreRange(b: Board, side: int)
    requires IsBoard(b) && Winner(b).Success? && IsSide(side)
    ensures -1 <= Score(b, side) <= 1
    decreases |Actions(b)|, 2
  {
    if Winner(b).value == Empty && |Actions(b)| > 0 {
      ScoreLoopRange(b, side, Actions(b), -2);
    }
  }

  lemma {:induction false} ChildValueRange(b: Board, side: int, a: Action)
    requires IsBoard(b) && Winner(b) == Success(Empty) && IsSide(side) && a in Actions(b)
    ensures -1 <= ChildValue(b, side, a) <= 1
    decreases |Actions(b)|, 0
  {
    Move(b, a);
    ScoreRange(Result(b, a).value, -side);
  }

  lemma {:induction false} ScoreLoopRange(b: Board, side: int, acts: seq<Action>, ret: int)
    requires IsBoard(b) && Winner(b) == Success(Empty) && IsSide(side)
    requires forall a :: a in acts ==> a in Actions(b)
    requires -2 <= ret <= 1
    ensures ret <= ScoreLoop(b, side, acts, ret) <= 1
    ensures acts != [] ==> ScoreLoop(b, side, acts, ret) >= -1
    decreases |Actions(b)|, 1, |acts|
  {
    if acts != [] {
      ChildValueRange(b, side, acts[0]);
      var gm := ChildValue(b, side, acts[0]);
      var ret' := if gm > ret then gm else ret;
      if ret' != 1 {
        ScoreLoopRange(b, side, acts[1..], ret');
      }
    }
  }

  /** On a finished board the score is the utility, whichever side asks. */
  lemma ScoreTerminal(b: Board, side: int)
    requires IsBoard(b) && Terminal(b) == Success(true)
    ensures Utility(b) == Success(Score(b, side))
  {
  }

  /**
   * The early exit at 1 does not change the outcome: the loop yields the largest of `ret` and
   * the values of the moves it was given, and that largest value is one of them.
   */
  lemma {:induction false} ScoreLoopMax(b: Board, side: int, acts: seq<Action>, ret: int)
    requires IsBoard(b) && Winner(b) == Success(Empty) && IsSide(side)
    requires forall a :: a in acts ==> a in Actions(b)
    requires -2 <= ret <= 1
    ensures ScoreLoop(b, side, acts, ret) >= ret
    ensures forall a :: a in acts ==> ScoreLoop(b, side, acts, ret) >= ChildValue(b, side, a)
    ensures ScoreLoop(b, side, acts, ret) == ret ||
            exists a :: a in acts && ScoreLoop(b, side, acts, ret) == ChildValue(b, side, a)
    decreases |acts|
  {
    if acts != [] {
      var gm := ChildValue(b, side, acts[0]);
      ChildValueRange(b, side, acts[0]);
      var ret' := if gm > ret then gm else ret;
      if ret' == 1 {
        forall a | a in acts
          ensures ChildValue(b, side, a) <= 1
        {
          ChildValueRange(b, side, a);
        }
      } else {
        ScoreLoopMax(b, side, acts[1..], ret');
        assert forall a :: a in acts ==> a == acts[0] || a in acts[1..];
      }
    }
  }

  /**
   * `get_optimal_score` is the minimax value: on an unfinished board, X (side 1) gets the
   * largest child value and O (side -1) the smallest, and some move attains it.
   */
  lemma ScoreIsMinimax(b: Board, side: int)
    requires IsBoard(b) && Winner(b) == Success(Empty) && IsSide(side) && |Actions(b)| > 0
    ensures forall a :: a in Actions(b) ==> side * Score(b, side) >= ChildValue(b, side, a)
    ensures exists a :: a in Actions(b) && side * Score(b, side) == ChildValue(b, side, a)
  {
    ScoreLoopMax(b, side, Actions(b), -2);
    ChildValueRange(b, side, Actions(b)[0]);
    assert side * side == 1;
  }

  /** The loop of `minimax` over the moves left in `acts`: the first best move, stopping early at 1. */
  function MinimaxLoop(b: Board, side: int, acts: seq<Action>, maxMinScore: int, retAct: Option<Action>)
    : Result<Option<Action>, Error>
    requires IsBoard(b)
    requires forall a :: a in acts ==> a in Actions(b)
    decreases |acts|
  {
    if acts == [] then Success(retAct)
    else
      Move(b, acts[0]);
      match GetOptimalScore(Result(b, acts[0]).value, -side)
      case Failure(e) => Failure(e)
      case Success(s) =>
        var gm := side * s;
        var (best, act) := if gm > maxMinScore then (gm, Some(acts[0])) else (maxMinScore, retAct);
        if best == 1 then Success(act) else MinimaxLoop(b, side, acts[1..], best, act)
  }

  function SideOf(b: Board): int {
    if Player(b) == O then -1 else 1
  }

  /** `minimax`: the optimal move for the player to move, `None` when no cell is empty. */
  function Minimax(b: Board): (r: Result<Option<Action>, Error>)
    requires IsBoard(b)
    ensures Actions(b) == [] ==> r == Success(None)
    ensures r.Success? && r.value.Some? ==> r.value.value in Actions(b)
  {
    MinimaxLoopIn(b, SideOf(b), Actions(b), -2, None);
    MinimaxLoop(b, SideOf(b), Actions(b), -2, None)
  }

  lemma {:induction false} MinimaxLoopIn(b: Board, side: int, acts: seq<Action>, maxMinScore: int, retAct: Option<Action>)
    requires IsBoard(b)
    requires forall a :: a in acts ==> a in Actions(b)
    requires retAct.Some? ==> retAct.value in Actions(b)
    ensures var r := MinimaxLoop(b, side, acts, maxMinScore, retAct);
      r.Success? && r.value.Some? ==> r.value.value in Actions(b)
    decreases |acts|
  {
    if acts != [] {
      Move(b, acts[0]);
      match GetOptimalScore(Result(b, acts[0]).value, -side)
      case Failure(e) =>
      case Success(s) =>
        var gm := side * s;
        var (best, act) := if gm > maxMinScore then (gm, Some(acts[0])) else (maxMinScore, retAct);
        if best != 1 {
          MinimaxLoopIn(b, side, acts[1..], best, act);
        }
    }
  }

  /** On a board nobody has won, the score `minimax` reads for a move is that move's value. */
  lemma MinimaxStep(b: Board, side: int, a: Action)
    requires IsBoard(b) && Winner(b) == Success(Empty) && IsSide(side) && a in Actions(b)
    ensures Result(b, a).Success?
    ensures var s := GetOptimalScore(Result(b, a).value, -side);
      s.Success? && side * s.value == ChildValue(b, side, a)
  {
    Move(b, a);
  }

  /** The values of the moves in `acts`, in order. */
  function Values(b: Board, side: int, acts: seq<Action>): (vs: seq<int>)
    requires IsBoard(b) && Winner(b) == Success(Empty)
    requires forall a :: a in acts ==> a in Actions(b)
    ensures |vs| == |acts|
    ensures forall j :: 0 <= j < |acts| ==> vs[j] == ChildValue(b, side, acts[j])
  {
    seq(|acts|, j requires 0 <= j < |acts| => ChildValue(b, side, acts[j]))
  }

  /** `vs[i]` is above `floor`, no value in `vs` exceeds it and every value before it is smaller. */
  predicate FirstMax(vs: seq<int>, i: int, floor: int) {
    0 <= i < |vs| && vs[i] > floor &&
    (forall j :: 0 <= j < i ==> vs[j] < vs[i]) &&
    (forall j :: 0 <= j < |vs| ==> vs[j] <= vs[i])
  }

  /**
   * What the loop of `minimax` promises: it keeps `retAct` when no value beats `floor`, and
   * otherwise picks the first move with the largest value.
   */
  ghost predicate LoopOutcome(vs: seq<int>, acts: seq<Action>, floor: int, retAct: Option<Action>, r: Option<Action>)
    requires |vs| == |acts|
  {
    (r == retAct && forall j :: 0 <= j < |vs| ==> vs[j] <= floor) ||
    (exists i :: FirstMax(vs, i, floor) && r == Some(acts[i]))
  }

  /** A first maximum of the tail that beats the head and the floor is a first maximum of the whole. */
  lemma FirstMaxShift(vs: seq<int>, i: int, best: int, floor: int)
    requires vs != [] && best >= floor && best >= vs[0]
    requires FirstMax(vs[1..], i, best)
    ensures FirstMax(vs, i + 1, floor)
  {
    forall j | 0 < j < |vs|
      ensures vs[j] == vs[1..][j - 1]
    {
    }
  }

  /** How one step of the loop of `minimax` combines with the outcome of the remaining steps. */
  lemma LoopOutcomeStep(vs: seq<int>, acts: seq<Action>, floor: int, retAct: Option<Action>, r: Option<Action>)
    requires |vs| == |acts| > 0
    requires var (best, act) := if vs[0] > floor then (vs[0], Some(acts[0])) else (floor, retAct);
      LoopOutcome(vs[1..], acts[1..], best, act, r)
    ensures LoopOutcome(vs, acts, floor, retAct, r)
  {
    var (best, act) := if vs[0] > floor then (vs[0], Some(acts[0])) else (floor, retAct);
    if r == act && forall j :: 0 <= j < |vs[1..]| ==> vs[1..][j] <= best {
      forall j | 0 < j < |vs|
        ensures vs[j] <= best
      {
        assert vs[j] == vs[1..][j - 1];
      }
      if vs[0] > floor {
        assert FirstMax(vs, 0, floor);
      }
    } else {
      var i :| FirstMax(vs[1..], i, best) && r == Some(acts[1..][i]);
      FirstMaxShift(vs, i, best, floor);
    }
  }

  /** The step of the loop of `minimax` that reaches the value 1 and returns at once. */
  lemma LoopOutcomeStop(vs: seq<int>, acts: seq<Action>, floor: int, retAct: Option<Action>)
    requires |vs| == |acts| > 0 && floor <= 1
    requires forall j :: 0 <= j < |vs| ==> vs[j] <= 1
    requires vs[0] == 1 || floor == 1
    ensures LoopOutcome(vs, acts, floor, retAct, if vs[0] > floor then Some(acts[0]) else retAct)
  {
    if vs[0] > floor {
      assert FirstMax(vs, 0, floor);
    }
  }

  lemma ValuesTail(b: Board, side: int, acts: seq<Action>)
    requires IsBoard(b) && Winner(b) == Success(Empty)
    requires forall a :: a in acts ==> a in Actions(b)
    requires acts != []
    ensures Values(b, side, acts)[1..] == Values(b, side, acts[1..])
  {
  }

  lemma ValuesRange(b: Board, side: int, acts: seq<Action>)
    requires IsBoard(b) && Winner(b) == Success(Empty) && IsSide(side)
    requires forall a :: a in acts ==> a in Actions(b)
    ensures forall j :: 0 <= j < |acts| ==> -1 <= Values(b, side, acts)[j] <= 1
  {
    forall j | 0 <= j < |acts|
      ensures -1 <= ChildValue(b, side, acts[j]) <= 1
    {
      ChildValueRange(b, side, acts[j]);
    }
  }

  /** One step of the loop of `minimax` on a board nobody has won, in terms of the move's value. */
  lemma MinimaxLoopUnfold(b: Board, side: int, acts: seq<Action>, maxMinScore: int, retAct: Option<Action>)
    requires IsBoard(b) && Winner(b) == Success(Empty) && IsSide(side)
    requires forall a :: a in acts ==> a in Actions(b)
    requires acts != []
    ensures var v := ChildValue(b, side, acts[0]);
      var (best, act) := if v > maxMinScore then (v, Some(acts[0])) else (maxMinScore, retAct);
      MinimaxLoop(b, side, acts, maxMinScore, retAct) ==
        if best == 1 then Success(act) else MinimaxLoop(b, side, acts[1..], best, act)
  {
    MinimaxStep(b, side, acts[0]);
  }

  /**
   * On a board nobody has won, the loop of `minimax` returns the first move of `acts` whose
   * value beats `maxMinScore` and every value in `acts`, or `retAct` when none beats it.
   */
  lemma {:induction false} MinimaxLoopFirstBest(b: Board, side: int, acts: seq<Action>, maxMinScore: int, retAct: Option<Action>)
    requires IsBoard(b) && Winner(b) == Success(Empty) && IsSide(side)
    requires forall a :: a in acts ==> a in Actions(b)
    requires maxMinScore <= 1
    ensures MinimaxLoop(b, side, acts, maxMinScore, retAct).Success?
    ensures LoopOutcome(Values(b, side, acts), acts, maxMinScore, retAct, MinimaxLoop(b, side, acts, maxMinScore, retAct).value)
    decreases |acts|
  {
    if acts != [] {
      var vs := Values(b, side, acts);
      MinimaxLoopUnfold(b, side, acts, maxMinScore, retAct);
      ChildValueRange(b, side, acts[0]);
      var (best, act) := if vs[0] > maxMinScore then (vs[0], Some(acts[0])) else (maxMinScore, retAct);
      if best == 1 {
        ValuesRange(b, side, acts);
        LoopOutcomeStop(vs, acts, maxMinScore, retAct);
      } else {
        MinimaxLoopFirstBest(b, side, acts[1..], best, act);
        ValuesTail(b, side, acts);
        LoopOutcomeStep(vs, acts, maxMinScore, retAct, MinimaxLoop(b, side, acts[1..], best, act).value);
      }
    }
  }

  /**
   * `minimax` on a board nobody has won and with an empty cell returns the first move, in
   * row-major order, whose value is best for the player to move.
   */
  lemma MinimaxIsFirstBest(b: Board)
    requires IsBoard(b) && Winner(b) == Success(Empty) && |Actions(b)| > 0
    ensures exists i :: FirstMax(Values(b, SideOf(b), Actions(b)), i, -2) && Minimax(b) == Success(Some(Actions(b)[i]))
  {
    MinimaxLoopFirstBest(b, SideOf(b), Actions(b), -2, None);
    ValuesRange(b, SideOf(b), Actions(b));
  }

  /** On a board whose balance of marks is legal, the players alternate and the balance stays legal. */
  lemma PlayersAlternate(b: Board, a: Action)
    requires IsBoard(b) && a in Actions(b)
    requires CountOf(b, X) == CountOf(b, O) || CountOf(b, X) == CountOf(b, O) + 1
    ensures Result(b, a).Success?
    ensures var c := Result(b, a).value;
      Player(c) != Player(b) &&
      (CountOf(c, X) == CountOf(c, O) || CountOf(c, X) == CountOf(c, O) + 1)
  {
    MoveCells(b, a);
    ActionCell(b, a);
    MultisetUpdate(Cells(b), Index(a), Player(b));
    FlattenBoard(b);
    FlattenBoard(Result(b, a).value);
  }
}
