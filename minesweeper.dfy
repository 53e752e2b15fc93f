/**
 * Minesweeper: the game board, the AI's logical sentences ("these cells hold
 * exactly `count` mines") and the knowledge-based player that marks cells as
 * safe or as mines and infers new sentences from old ones.
 *
 * Soundness is stated against a ghost set `M` of cells that really are mines:
 * a sentence is truthful when exactly `count` of its cells lie in `M`, and
 * every operation of the player keeps its knowledge truthful.
 */
module Minesweeper {
  import opened Wrappers
  import opened Collections

  /** A cell is a (row, column) pair. */
  type Cell = (int, int)

  predicate OnBoard(height: int, width: int, c: Cell) {
    0 <= c.0 < height && 0 <= c.1 < width
  }

  /** Whether `c` is one of the eight cells around `centre` (the centre itself excluded). */
  predicate Adjacent(c: Cell, centre: Cell) {
    c != centre && centre.0 - 1 <= c.0 <= centre.0 + 1 && centre.1 - 1 <= c.1 <= centre.1 + 1
  }

  /** The cells of the 3x3 block around `centre` that lie on the board, the centre included. */
  function Block(height: int, width: int, centre: Cell): set<Cell> {
    set i, j | centre.0 - 1 <= i <= centre.0 + 1 && centre.1 - 1 <= j <= centre.1 + 1
                 && 0 <= i < height && 0 <= j < width :: (i, j)
  }

  /** The mines among `centre`'s neighbours. */
  function Neighbours(mines: set<Cell>, centre: Cell): set<Cell> {
    set c | c in mines && Adjacent(c, centre)
  }

  /** The neighbours of `centre` counted once the scan has reached (i, j) in row-major order. */
  ghost function Scanned(mines: set<Cell>, centre: Cell, i: int, j: int): set<Cell> {
    set c | c in mines && Adjacent(c, centre) && (c.0 < i || (c.0 == i && c.1 < j))
  }

  /** Python's indexing of a list of length `n`: a negative index counts from the end. */
  function PyIndex(n: int, k: int): (r: int)
    requires -n <= k < n
    ensures 0 <= r < n
    ensures k >= 0 ==> r == k
  {
    if k < 0 then k + n else k
  }

  /** A height x width board with no mine. */
  method EmptyBoard(height: int, width: int) returns (rows: seq<seq<bool>>)
    requires 0 <= height && 0 <= width
    ensures |rows| == height
    ensures forall r :: 0 <= r < height ==> |rows[r]| == width
    ensures forall r, k :: 0 <= r < height && 0 <= k < width ==> !rows[r][k]
  {
    rows := [];
    var i := 0;
    while i < height
      invariant 0 <= i <= height
      invariant |rows| == i
      invariant forall r :: 0 <= r < i ==> |rows[r]| == width
      invariant forall r, k :: 0 <= r < i && 0 <= k < width ==> !rows[r][k]
    {
      var row: seq<bool> := [];
      var j := 0;
      while j < width
        invariant 0 <= j <= width
        invariant |row| == j
        invariant forall k :: 0 <= k < j ==> !row[k]
      {
        row := row + [false];
        j := j + 1;
      }
      rows := rows + [row];
      i := i + 1;
    }
  }

  /**
   * The game: a board of booleans (true = mine), the set of mines and the mines
   * the player has flagged so far.
   */
  class Minesweeper {
    const height: int
    const width: int
    var board: seq<seq<bool>>
    var mines: set<Cell>
    var minesFound: set<Cell>

    /** The board is height x width and marks exactly the cells of `mines`. */
    ghost predicate Valid()
      reads this
    {
      0 <= height && 0 <= width &&
      |board| == height && (forall i :: 0 <= i < height ==> |board[i]| == width) &&
      (forall c :: c in mines <==> OnBoard(height, width, c) && board[c.0][c.1])
    }

    /**
     * Builds the empty board, then places the mines. The random choice of the
     * mine cells is not modelled: the cells are given as `placed`, and each is
     * set on the board in turn.
     */
    constructor (height: int, width: int, placed: set<Cell>)
      requires 0 <= height && 0 <= width
      requires forall c :: c in placed ==> OnBoard(height, width, c)
      ensures Valid()
      ensures this.height == height && this.width == width
      ensures mines == placed && minesFound == {}
    {
      this.height := height;
      this.width := width;
      var rows := EmptyBoard(height, width);
      var found: set<Cell> := {};
      var todo := placed;
      while todo != {}
        invariant todo <= placed && found == placed - todo
        invariant |rows| == height && forall r :: 0 <= r < height ==> |rows[r]| == width
        invariant forall c :: c in found <==> OnBoard(height, width, c) && rows[c.0][c.1]
        decreases |todo|
      {
        var c :| c in todo;
        rows := rows[c.0 := rows[c.0][c.1 := true]];
        found := found + {c};
        todo := todo - {c};
      }
      board := rows;
      mines := found;
      minesFound := {};
    }

    /** Whether `cell` holds a mine; negative coordinates count from the far edge, as in Python. */
    function IsMine(cell: Cell): (r: bool)
      reads this
      requires Valid()
      requires -height <= cell.0 < height && -width <= cell.1 < width
      ensures r <==> (PyIndex(height, cell.0), PyIndex(width, cell.1)) in mines
    {
      board[PyIndex(height, cell.0)][PyIndex(width, cell.1)]
    }

    /** Counts the mines among the (at most eight) neighbours of `cell`. */
    method NearbyMines(cell: Cell) returns (count: int)
      requires Valid()
      ensures count == |Neighbours(mines, cell)|
      ensures 0 <= count <= 8
    {
      count := 0;
      var i := cell.0 - 1;
      while i < cell.0 + 2
        invariant cell.0 - 1 <= i <= cell.0 + 2
        invariant count == |Scanned(mines, cell, i, cell.1 - 1)|
        invariant count + (if cell.0 < i then 1 else 0) <= 3 * (i - cell.0 + 1)
      {
        var j := cell.1 - 1;
        while j < cell.1 + 2
          invariant cell.1 - 1 <= j <= cell.1 + 2
          invariant count == |Scanned(mines, cell, i, j)|
          invariant count + (if cell.0 < i || (cell.0 == i && cell.1 < j) then 1 else 0)
                    <= 3 * (i - cell.0 + 1) + (j - cell.1 + 1)
        {
          ScannedStep(cell, i, j);
          if (i, j) != cell && 0 <= i < height && 0 <= j < width && board[i][j] {
            count := count + 1;
          }
          j := j + 1;
        }
        ScannedRow(cell, i);
        i := i + 1;
      }
      ScannedAll(cell);
    }

    /** Scanning one more position counts that cell exactly when it is a neighbouring mine. */
    lemma ScannedStep(centre: Cell, i: int, j: int)
      requires Valid()
      requires centre.0 - 1 <= i <= centre.0 + 1 && centre.1 - 1 <= j <= centre.1 + 1
      ensures |Scanned(mines, centre, i, j + 1)| == |Scanned(mines, centre, i, j)| +
                (if (i, j) != centre && 0 <= i < height && 0 <= j < width && board[i][j] then 1 else 0)
    {
      var before, after := Scanned(mines, centre, i, j), Scanned(mines, centre, i, j + 1);
      if (i, j) != centre && 0 <= i < height && 0 <= j < width && board[i][j] {
        assert (i, j) in mines && Adjacent((i, j), centre);
        assert after == before + {(i, j)};
      } else {
        assert after == before;
      }
    }

    /** Finishing a row of the block is the same as starting the next one. */
    lemma ScannedRow(centre: Cell, i: int)
      ensures Scanned(mines, centre, i, centre.1 + 2) == Scanned(mines, centre, i + 1, centre.1 - 1)
    {
    }

    /** After the last row the scan has seen every neighbouring mine. */
    lemma ScannedAll(centre: Cell)
      ensures Scanned(mines, centre, centre.0 + 2, centre.1 - 1) == Neighbours(mines, centre)
    {
    }

    /** The player has won once the flagged mines are exactly the mines. */
    function Won(): (r: bool)
      reads this
      ensures r <==> minesFound == mines
    {
      minesFound == mines
    }
  }

  /**
   * The count the game reports for a cell that is not a mine is the number of
   * mines in the cell's on-board 3x3 block: the same quantity the player's new
   * sentence is built from.
   */
  lemma NeighboursAreBlockMines(height: int, width: int, mines: set<Cell>, centre: Cell)
    requires forall c :: c in mines ==> OnBoard(height, width, c)
    requires centre !in mines
    ensures Neighbours(mines, centre) == Block(height, width, centre) * mines
  {
    forall c | c in Block(height, width, centre) * mines
      ensures c in Neighbours(mines, centre)
    {
      assert c != centre;
    }
  }

  // ---------------------------------------------------------------------------
  // Sentences
  // ---------------------------------------------------------------------------

  /** The fields of a sentence: the undecided cells, how many of them are mines, and the cells decided so far. */
  datatype SentenceState = SentenceState(cells: set<Cell>, count: int, safes: set<Cell>, mines: set<Cell>)

  /** `mark_mine` as a transition: whether it succeeds, and the sentence it leaves. */
  function MarkMineStep(s: SentenceState, c: Cell): (bool, SentenceState) {
    if c in s.cells then
      if s.count < 1 then (false, s)
      else (true, s.(cells := s.cells - {c}, mines := s.mines + {c}, count := s.count - 1))
    else (true, s)
  }

  /** `mark_safe` as a transition: whether it succeeds, and the sentence it leaves. */
  function MarkSafeStep(s: SentenceState, c: Cell): (bool, SentenceState) {
    if c in s.cells then
      if |s.cells| < s.count then (false, s)
      else (true, s.(cells := s.cells - {c}, safes := s.safes + {c}))
    else (true, s)
  }

  /** Undecided, safe and mine cells never overlap. */
  predicate Disjoint(s: SentenceState) {
    s.cells * s.safes == {} && s.cells * s.mines == {} && s.safes * s.mines == {}
  }

  /** All the cells the sentence has ever talked about. */
  function Mentioned(s: SentenceState): set<Cell> {
    s.cells + s.safes + s.mines
  }

  /** The sentence is true of the mine set `m`, and the cells it has decided were decided correctly. */
  ghost predicate Truthful(s: SentenceState, m: set<Cell>) {
    |s.cells * m| == s.count && s.mines <= m && s.safes * m == {}
  }

  /**
   * Marking a mine moves the cell from the undecided cells to the mines; a
   * failed mark changes nothing.
   */
  lemma MarkMineKeepsShape(s: SentenceState, c: Cell)
    requires Disjoint(s)
    ensures var (ok, t) := MarkMineStep(s, c);
      Disjoint(t) && Mentioned(t) == Mentioned(s) && t.safes == s.safes &&
      (ok <==> !(c in s.cells && s.count < 1)) && t.cells <= s.cells &&
      (ok ==> c !in t.cells) && (!ok ==> t == s)
  {
    if c in s.cells && s.count >= 1 {
      var t := MarkMineStep(s, c).1;
      assert t.cells * t.mines == {} by {
        assert forall x :: x in t.cells ==> x in s.cells && x != c;
      }
    }
  }

  /** Marking a mine lowers the count by one for each mine it adds, so count + |mines| is unchanged. */
  lemma MarkMineKeepsTotal(s: SentenceState, c: Cell)
    requires Disjoint(s)
    ensures MarkMineStep(s, c).1.count + |MarkMineStep(s, c).1.mines| == s.count + |s.mines|
  {
    if c in s.cells && s.count >= 1 {
      assert c !in s.mines by {
        assert c !in s.cells * s.mines;
      }
      assert |s.mines + {c}| == |s.mines| + 1;
    }
  }

  /**
   * Marking a safe cell moves it from the undecided cells to the safes; the
   * count and the mines are unchanged; a failed mark changes nothing.
   */
  lemma MarkSafeKeepsShape(s: SentenceState, c: Cell)
    requires Disjoint(s)
    ensures var (ok, t) := MarkSafeStep(s, c);
      Disjoint(t) && Mentioned(t) == Mentioned(s) && t.mines == s.mines && t.count == s.count &&
      (ok <==> !(c in s.cells && |s.cells| < s.count)) && t.cells <= s.cells &&
      (ok ==> c !in t.cells) && (!ok ==> t == s)
  {
  }

  /** Marking the same cell twice is the same as marking it once. */
  lemma MarkMineIdempotent(s: SentenceState, c: Cell)
    ensures MarkMineStep(MarkMineStep(s, c).1, c) == (MarkMineStep(s, c).0, MarkMineStep(s, c).1)
  {
  }

  /** Marking the same cell twice is the same as marking it once. */
  lemma MarkSafeIdempotent(s: SentenceState, c: Cell)
    ensures MarkSafeStep(MarkSafeStep(s, c).1, c) == (MarkSafeStep(s, c).0, MarkSafeStep(s, c).1)
  {
  }

  /** Marking a real mine in a truthful sentence never fails and keeps it truthful. */
  lemma MarkMineSound(s: SentenceState, c: Cell, m: set<Cell>)
    requires Truthful(s, m) && c in m
    ensures MarkMineStep(s, c).0 && Truthful(MarkMineStep(s, c).1, m)
  {
    if c in s.cells {
      assert c in s.cells * m;
      assert (s.cells - {c}) * m == s.cells * m - {c};
    }
  }

  /** Marking a really safe cell in a truthful sentence never fails and keeps it truthful. */
  lemma MarkSafeSound(s: SentenceState, c: Cell, m: set<Cell>)
    requires Truthful(s, m) && c !in m
    ensures MarkSafeStep(s, c).0 && Truthful(MarkSafeStep(s, c).1, m)
  {
    if c in s.cells {
      SubsetCard(s.cells * m, s.cells);
      assert (s.cells - {c}) * m == s.cells * m;
    }
  }

  /** A truthful sentence with count 0 has no mine among its cells. */
  lemma NoMinesLeft(s: SentenceState, m: set<Cell>)
    requires Truthful(s, m) && s.count == 0
    ensures s.cells * m == {}
  {
  }

  /** A truthful sentence with as many mines as cells consists of mines only. */
  lemma AllMinesLeft(s: SentenceState, m: set<Cell>)
    requires Truthful(s, m) && |s.cells| == s.count
    ensures s.cells <= m
  {
    SubsetCard(s.cells * m, s.cells);
  }

  /**
   * The subset rule: when the cells of a truthful `small` lie inside those of a
   * truthful `large`, the difference holds exactly `large.count - small.count` mines.
   */
  lemma SubsetRule(small: SentenceState, large: SentenceState, m: set<Cell>)
    requires Truthful(small, m) && Truthful(large, m) && small.cells <= large.cells
    ensures Truthful(SentenceState(large.cells - small.cells, large.count - small.count, {}, {}), m)
  {
    var d := large.cells - small.cells;
    assert large.cells * m == (d * m) + (small.cells * m);
    assert (d * m) * (small.cells * m) == {};
  }

  /** A logical sentence of the player: its fields change in place as cells are decided. */
  class Sentence {
    var cells: set<Cell>
    var count: int
    var safes: set<Cell>
    var mines: set<Cell>

    function State(): SentenceState
      reads this
    {
      SentenceState(cells, count, safes, mines)
    }

    /** A sentence over the given cells (the caller converts a list to its set of elements). */
    constructor (cells: set<Cell>, count: int)
      ensures State() == SentenceState(cells, count, {}, {})
    {
      this.cells := cells;
      this.count := count;
      this.safes := {};
      this.mines := {};
    }

    /** Python's `==` on sentences: same undecided cells and same count (the decided cells are ignored). */
    function Equals(other: Sentence): (r: bool)
      reads this, other
      ensures r <==> State().(safes := {}, mines := {}) == other.State().(safes := {}, mines := {})
    {
      cells == other.cells && count == other.count
    }

    function KnownMines(): set<Cell>
      reads this
    {
      mines
    }

    function KnownSafes(): set<Cell>
      reads this
    {
      safes
    }

    function Unknown(): set<Cell>
      reads this
    {
      cells
    }

    method MarkMine(c: Cell) returns (ok: bool)
      modifies this
      ensures (ok, State()) == MarkMineStep(old(State()), c)
    {
      if c in cells {
        if count < 1 {
          return false;
        } else {
          cells := cells - {c};
          mines := mines + {c};
          count := count - 1;
          return true;
        }
      } else {
        return true;
      }
    }

    method MarkSafe(c: Cell) returns (ok: bool)
      modifies this
      ensures (ok, State()) == MarkSafeStep(old(State()), c)
    {
      if c in cells {
        if |cells| < count {
          return false;
        } else {
          cells := cells - {c};
          safes := safes + {c};
          return true;
        }
      } else {
        return true;
      }
    }
  }

  // ---------------------------------------------------------------------------
  // Lists of sentences and of cells
  // ---------------------------------------------------------------------------

  /** Every sentence object of `objs` is truthful of `m`. */
  ghost predicate AllTruthful(objs: set<Sentence>, m: set<Cell>)
    reads objs
  {
    forall s :: s in objs ==> Truthful(s.State(), m)
  }

  /** The position of the first occurrence of `x`, or |s| when there is none (Python's `list.index`). */
  function IndexOf(s: seq<Cell>, x: Cell): (r: nat)
    ensures r <= |s|
    ensures r < |s| ==> s[r] == x
    ensures forall k :: 0 <= k < r ==> s[k] != x
  {
    if s == [] then 0 else if s[0] == x then 0 else 1 + IndexOf(s[1..], x)
  }

  /** The position of the first sentence equal to `x` under `Sentence.Equals`, or |list|. */
  function IndexOfEqual(list: seq<Sentence>, x: Sentence): (r: nat)
    reads list, x
    ensures r <= |list|
    ensures r < |list| ==> list[r].Equals(x)
    ensures forall k :: 0 <= k < r ==> !list[k].Equals(x)
  {
    if list == [] then 0 else if list[0].Equals(x) then 0 else 1 + IndexOfEqual(list[1..], x)
  }

  /** Removing one element from a list without repetitions leaves a list without repetitions. */
  lemma RemoveAtDistinct<T>(list: seq<T>, k: nat)
    requires Distinct(list) && k < |list|
    ensures Distinct(list[..k] + list[k + 1..])
    ensures Elements(list[..k] + list[k + 1..]) == Elements(list) - {list[k]}
  {
    var r := list[..k] + list[k + 1..];
    forall p, q | 0 <= p < q < |r| ensures r[p] != r[q] {
      var p', q' := if p < k then p else p + 1, if q < k then q else q + 1;
      assert r[p] == list[p'] && r[q] == list[q'];
    }
    forall s | s in Elements(list) - {list[k]} ensures s in Elements(r) {
      var p :| 0 <= p < |list| && list[p] == s;
      if p < k { assert r[p] == s; } else { assert r[p - 1] == s; }
    }
  }

  lemma AppendDistinct<T>(list: seq<T>, s: T)
    requires Distinct(list) && s !in list
    ensures Distinct(list + [s]) && Elements(list + [s]) == Elements(list) + {s}
  {
  }

  lemma ConcatFresh<T>(a: seq<T>, b: seq<T>)
    requires Distinct(a) && Distinct(b) && forall p, q :: 0 <= p < |a| && 0 <= q < |b| ==> a[p] != b[q]
    ensures Distinct(a + b)
  {
  }

  /** `mark_safe` on every sentence of the list, in order. */
  method MarkSafeAll(list: seq<Sentence>, c: Cell)
    requires Distinct(list)
    modifies list
    ensures forall k :: 0 <= k < |list| ==> list[k].State() == MarkSafeStep(old(list[k].State()), c).1
  {
    var i := 0;
    while i < |list|
      invariant 0 <= i <= |list|
      invariant forall k :: 0 <= k < i ==> list[k].State() == MarkSafeStep(old(list[k].State()), c).1
      invariant forall k :: i <= k < |list| ==> list[k].State() == old(list[k].State())
    {
      var _ := list[i].MarkSafe(c);
      i := i + 1;
    }
  }

  /** `mark_mine` on every sentence of the list, in order. */
  method MarkMineAll(list: seq<Sentence>, c: Cell)
    requires Distinct(list)
    modifies list
    ensures forall k :: 0 <= k < |list| ==> list[k].State() == MarkMineStep(old(list[k].State()), c).1
  {
    var i := 0;
    while i < |list|
      invariant 0 <= i <= |list|
      invariant forall k :: 0 <= k < i ==> list[k].State() == MarkMineStep(old(list[k].State()), c).1
      invariant forall k :: i <= k < |list| ==> list[k].State() == old(list[k].State())
    {
      var _ := list[i].MarkMine(c);
      i := i + 1;
    }
  }

  /** A sentence after every cell of `d` has been marked safe: those of its undecided cells move to the safes. */
  function SafeMarked(s: SentenceState, d: set<Cell>): SentenceState {
    s.(cells := s.cells - d, safes := s.safes + s.cells * d)
  }

  /** A sentence after every cell of `d` has been marked a mine: those of its undecided cells move to the mines. */
  function MineMarked(s: SentenceState, d: set<Cell>): SentenceState {
    s.(cells := s.cells - d, mines := s.mines + s.cells * d, count := s.count - |s.cells * d|)
  }

  /** One more element of a list adds it to the elements of the prefix. */
  lemma PrefixElements<T>(list: seq<T>, i: nat)
    requires i < |list|
    ensures Elements(list[..i + 1]) == Elements(list[..i]) + {list[i]}
  {
    assert list[..i + 1] == list[..i] + [list[i]];
  }

  /**
   * A set disjoint from `known` on `seen` stays so when it shrinks, and when it
   * then holds `c` only if `c` is not known, it is disjoint from `known` on `seen` and `c` too.
   */
  lemma ShrinkDisjoint(before: set<Cell>, after: set<Cell>, known: set<Cell>, seen: set<Cell>, c: Cell)
    requires before * known * seen == {} && after <= before && (c in known ==> c !in after)
    ensures after * known * (seen + {c}) == {}
  {
    assert after * known * seen <= before * known * seen;
  }

  /** Marking no cells changes nothing. */
  lemma MarkedNothing(s: SentenceState)
    ensures SafeMarked(s, {}) == s && MineMarked(s, {}) == s
  {
    assert s.cells * {} == {};
  }

  /** Whatever the outcome, a mark keeps the cells a sentence talks about. */
  lemma MarkKeepsMentioned(s: SentenceState, c: Cell)
    ensures Mentioned(MarkSafeStep(s, c).1) == Mentioned(s)
    ensures Mentioned(MarkMineStep(s, c).1) == Mentioned(s)
  {
  }

  /** A successful safe mark of one more cell extends `SafeMarked` by that cell. */
  lemma SafeMarkedStep(s: SentenceState, d: set<Cell>, c: Cell)
    requires MarkSafeStep(SafeMarked(s, d), c).0
    ensures MarkSafeStep(SafeMarked(s, d), c).1 == SafeMarked(s, d + {c})
  {
    if c in s.cells - d {
      assert s.cells * (d + {c}) == s.cells * d + {c};
    } else {
      assert s.cells * (d + {c}) == s.cells * d;
    }
  }

  /** A successful mine mark of one more cell extends `MineMarked` by that cell. */
  lemma MineMarkedStep(s: SentenceState, d: set<Cell>, c: Cell)
    requires MarkMineStep(MineMarked(s, d), c).0
    ensures MarkMineStep(MineMarked(s, d), c).1 == MineMarked(s, d + {c})
  {
    if c in s.cells - d {
      assert s.cells * (d + {c}) == s.cells * d + {c};
      assert c !in s.cells * d;
    } else {
      assert s.cells * (d + {c}) == s.cells * d;
    }
  }

  /** The fields of each sentence of the list, in order. */
  function States(list: seq<Sentence>): (r: seq<SentenceState>)
    reads list
    ensures |r| == |list| && forall k :: 0 <= k < |list| ==> r[k] == list[k].State()
  {
    if list == [] then [] else [list[0].State()] + States(list[1..])
  }

  /** Each sentence of `todo` is the corresponding state of `base` with the cells of `d` marked safe. */
  ghost predicate AllSafeMarked(todo: seq<Sentence>, base: seq<SentenceState>, d: set<Cell>)
    requires |base| == |todo|
    reads todo
  {
    forall k :: 0 <= k < |todo| ==> todo[k].State() == SafeMarked(base[k], d)
  }

  /** Each sentence of `todo` is the corresponding state of `base` with the cells of `d` marked as mines. */
  ghost predicate AllMineMarked(todo: seq<Sentence>, base: seq<SentenceState>, d: set<Cell>)
    requires |base| == |todo|
    reads todo
  {
    forall k :: 0 <= k < |todo| ==> todo[k].State() == MineMarked(base[k], d)
  }

  /** Each sentence of `todo` talks about the cells of the corresponding state of `base`, with its count when `sameCount`. */
  ghost predicate AllMentionedKept(todo: seq<Sentence>, base: seq<SentenceState>, sameCount: bool)
    requires |base| == |todo|
    reads todo
  {
    forall k :: 0 <= k < |todo| ==> Mentioned(todo[k].State()) == Mentioned(base[k]) && (sameCount ==> todo[k].count == base[k].count)
  }

  /**
   * `mark_safe` of `c` on every sentence of `todo`, with what it keeps: the
   * cells each sentence talks about and its count, and, when `c` is safe,
   * the truth of every truthful sentence and the progress of `SafeMarked`.
   */
  method MarkSafeEverywhere(c: Cell, todo: seq<Sentence>, ghost base: seq<SentenceState>, ghost d: set<Cell>,
                            ghost live: set<Sentence>, ghost m: set<Cell>)
    requires Distinct(todo) && |base| == |todo|
    modifies todo
    ensures old(AllMentionedKept(todo, base, true)) ==> AllMentionedKept(todo, base, true)
    ensures Elements(todo) <= live && c !in m && old(AllTruthful(live, m)) ==> AllTruthful(live, m)
    ensures Elements(todo) <= live && c !in m && old(AllTruthful(live, m)) && old(AllSafeMarked(todo, base, d)) ==>
              AllSafeMarked(todo, base, d + {c})
  {
    ghost var truth := Elements(todo) <= live && c !in m && AllTruthful(live, m);
    ghost var marked := AllSafeMarked(todo, base, d);
    ghost var kept := AllMentionedKept(todo, base, true);
    MarkSafeAll(todo, c);
    if kept {
      forall k | 0 <= k < |todo|
        ensures Mentioned(todo[k].State()) == Mentioned(base[k]) && todo[k].count == base[k].count
      {
        MarkKeepsMentioned(old(todo[k].State()), c);
      }
    }
    if truth {
      forall s | s in live ensures Truthful(s.State(), m) {
        if s in Elements(todo) {
          MarkSafeSound(old(s.State()), c, m);
        }
      }
      if marked {
        forall k | 0 <= k < |todo| ensures todo[k].State() == SafeMarked(base[k], d + {c}) {
          assert todo[k] in live;
          MarkSafeSound(old(todo[k].State()), c, m);
          SafeMarkedStep(base[k], d, c);
        }
      }
    }
  }

  /** As `MarkSafeEverywhere`, with `mark_mine`, when `c` is a mine. */
  method MarkMineEverywhere(c: Cell, todo: seq<Sentence>, ghost base: seq<SentenceState>, ghost d: set<Cell>,
                            ghost live: set<Sentence>, ghost m: set<Cell>)
    requires Distinct(todo) && |base| == |todo|
    modifies todo
    ensures old(AllMentionedKept(todo, base, false)) ==> AllMentionedKept(todo, base, false)
    ensures Elements(todo) <= live && c in m && old(AllTruthful(live, m)) ==> AllTruthful(live, m)
    ensures Elements(todo) <= live && c in m && old(AllTruthful(live, m)) && old(AllMineMarked(todo, base, d)) ==>
              AllMineMarked(todo, base, d + {c})
  {
    ghost var truth := Elements(todo) <= live && c in m && AllTruthful(live, m);
    ghost var marked := AllMineMarked(todo, base, d);
    ghost var kept := AllMentionedKept(todo, base, false);
    MarkMineAll(todo, c);
    if kept {
      forall k | 0 <= k < |todo| ensures Mentioned(todo[k].State()) == Mentioned(base[k]) {
        MarkKeepsMentioned(old(todo[k].State()), c);
      }
    }
    if truth {
      forall s | s in live ensures Truthful(s.State(), m) {
        if s in Elements(todo) {
          MarkMineSound(old(s.State()), c, m);
        }
      }
      if marked {
        forall k | 0 <= k < |todo| ensures todo[k].State() == MineMarked(base[k], d + {c}) {
          assert todo[k] in live;
          MarkMineSound(old(todo[k].State()), c, m);
          MineMarkedStep(base[k], d, c);
        }
      }
    }
  }

  /**
   * The loop of `MarkEachSafe`, stated against the states `base` the sentences
   * had before it.
   */
  method MarkCellsSafe(cells: set<Cell>, todo: seq<Sentence>, ghost base: seq<SentenceState>,
                       ghost live: set<Sentence>, ghost m: set<Cell>)
      returns (visited: seq<Cell>)
    requires Distinct(todo) && |base| == |todo|
    requires AllMentionedKept(todo, base, true) && AllSafeMarked(todo, base, {})
    modifies todo
    ensures forall c :: c in visited <==> c in cells
    ensures AllMentionedKept(todo, base, true)
    ensures Elements(todo) <= live && cells * m == {} && old(AllTruthful(live, m)) ==>
              AllTruthful(live, m) && AllSafeMarked(todo, base, cells)
  {
    ghost var truth := Elements(todo) <= live && cells * m == {} && AllTruthful(live, m);
    visited := ListOf(cells);
    ghost var done: set<Cell> := {};
    for i := 0 to |visited|
      invariant done == Elements(visited[..i])
      invariant AllMentionedKept(todo, base, true)
      invariant truth ==> AllTruthful(live, m) && AllSafeMarked(todo, base, done)
    {
      var c := visited[i];
      assert truth ==> c !in m by { if truth { assert c in Elements(visited) && c in cells; assert c !in cells * m; } }
      MarkSafeEverywhere(c, todo, base, done, live, m);
      PrefixElements(visited, i);
      done := done + {c};
    }
    assert visited[..|visited|] == visited;
  }

  /**
   * For each cell of `cells`, in an order the model leaves open (Python's set
   * order), marks it safe in every sentence of `todo`; returns the cells in the
   * order they were visited. Every sentence keeps the cells it talks about and
   * its count; when the cells really are safe, every truthful sentence of
   * `todo` ends with all of them marked safe.
   */
  method MarkEachSafe(cells: set<Cell>, todo: seq<Sentence>, ghost live: set<Sentence>, ghost m: set<Cell>)
      returns (visited: seq<Cell>)
    requires Distinct(todo)
    modifies todo
    ensures forall c :: c in visited <==> c in cells
    ensures forall k :: 0 <= k < |todo| ==>
              Mentioned(todo[k].State()) == old(Mentioned(todo[k].State())) && todo[k].count == old(todo[k].count)
    ensures Elements(todo) <= live && cells * m == {} && old(AllTruthful(live, m)) ==>
              AllTruthful(live, m) &&
              forall k :: 0 <= k < |todo| ==> todo[k].State() == SafeMarked(old(todo[k].State()), cells)
  {
    ghost var base := States(todo);
    forall k | 0 <= k < |todo| ensures todo[k].State() == SafeMarked(base[k], {}) {
      MarkedNothing(base[k]);
    }
    visited := MarkCellsSafe(cells, todo, base, live, m);
    assert forall k :: 0 <= k < |todo| ==> base[k] == old(todo[k].State());
  }

  /**
   * The loop of `MarkEachMine`, stated against the states `base` the sentences
   * had before it.
   */
  method MarkCellsMines(cells: set<Cell>, todo: seq<Sentence>, ghost base: seq<SentenceState>,
                        ghost live: set<Sentence>, ghost m: set<Cell>)
      returns (visited: seq<Cell>)
    requires Distinct(todo) && |base| == |todo|
    requires AllMentionedKept(todo, base, false) && AllMineMarked(todo, base, {})
    modifies todo
    ensures forall c :: c in visited <==> c in cells
    ensures AllMentionedKept(todo, base, false)
    ensures Elements(todo) <= live && cells <= m && old(AllTruthful(live, m)) ==>
              AllTruthful(live, m) && AllMineMarked(todo, base, cells)
  {
    ghost var truth := Elements(todo) <= live && cells <= m && AllTruthful(live, m);
    visited := ListOf(cells);
    ghost var done: set<Cell> := {};
    for i := 0 to |visited|
      invariant done == Elements(visited[..i])
      invariant AllMentionedKept(todo, base, false)
      invariant truth ==> AllTruthful(live, m) && AllMineMarked(todo, base, done)
    {
      var c := visited[i];
      assert truth ==> c in m by { assert c in Elements(visited); }
      MarkMineEverywhere(c, todo, base, done, live, m);
      PrefixElements(visited, i);
      done := done + {c};
    }
    assert visited[..|visited|] == visited;
  }

  /**
   * As `MarkEachSafe`, marking each cell as a mine: when the cells really are
   * mines, every truthful sentence of `todo` ends with all of them marked.
   */
  method MarkEachMine(cells: set<Cell>, todo: seq<Sentence>, ghost live: set<Sentence>, ghost m: set<Cell>)
      returns (visited: seq<Cell>)
    requires Distinct(todo)
    modifies todo
    ensures forall c :: c in visited <==> c in cells
    ensures forall k :: 0 <= k < |todo| ==> Mentioned(todo[k].State()) == old(Mentioned(todo[k].State()))
    ensures Elements(todo) <= live && cells <= m && old(AllTruthful(live, m)) ==>
              AllTruthful(live, m) &&
              forall k :: 0 <= k < |todo| ==> todo[k].State() == MineMarked(old(todo[k].State()), cells)
  {
    ghost var base := States(todo);
    forall k | 0 <= k < |todo| ensures todo[k].State() == MineMarked(base[k], {}) {
      MarkedNothing(base[k]);
    }
    visited := MarkCellsMines(cells, todo, base, live, m);
    assert forall k :: 0 <= k < |todo| ==> base[k] == old(todo[k].State());
  }

  /** The sentences of `list` whose cells include all of `ref`'s, in order: those the subset rule removes. */
  function Supersets(ref: Sentence, list: seq<Sentence>): seq<Sentence>
    reads ref, list
  {
    if list == [] then []
    else (if ref.cells <= list[0].cells then [list[0]] else []) + Supersets(ref, list[1..])
  }

  /** `Supersets` holds exactly the sentences of the list whose cells include `ref`'s. */
  lemma {:induction false} SupersetsMembers(ref: Sentence, list: seq<Sentence>)
    ensures forall k :: 0 <= k < |Supersets(ref, list)| ==>
              Supersets(ref, list)[k] in list && ref.cells <= Supersets(ref, list)[k].cells
    ensures forall k :: 0 <= k < |list| && ref.cells <= list[k].cells ==> list[k] in Supersets(ref, list)
    decreases |list|
  {
    if list != [] {
      SupersetsMembers(ref, list[1..]);
      assert forall k :: 1 <= k < |list| ==> list[k] == list[1..][k - 1];
    }
  }

  /** The sentences of `list` whose cells do not include all of `ref`'s, in order: those the subset rule keeps. */
  function Others(ref: Sentence, list: seq<Sentence>): seq<Sentence>
    reads ref, list
  {
    if list == [] then []
    else (if ref.cells <= list[0].cells then [] else [list[0]]) + Others(ref, list[1..])
  }

  /**
   * `Others` holds exactly the sentences of the list whose cells do not include
   * `ref`'s, and repeats none when the list repeats none.
   */
  lemma {:induction false} OthersMembers(ref: Sentence, list: seq<Sentence>)
    ensures forall k :: 0 <= k < |Others(ref, list)| ==>
              Others(ref, list)[k] in list && !(ref.cells <= Others(ref, list)[k].cells)
    ensures forall k :: 0 <= k < |list| && !(ref.cells <= list[k].cells) ==> list[k] in Others(ref, list)
    ensures Distinct(list) ==> Distinct(Others(ref, list))
    decreases |list|
  {
    if list != [] {
      OthersMembers(ref, list[1..]);
      assert forall k :: 1 <= k < |list| ==> list[k] == list[1..][k - 1];
    }
  }

  /**
   * The sentence the subset rule derives from the popped sentence `r` and
   * another sentence `s`: the difference of a superset (none when it equals
   * `r`), or the difference of `r` and a strict subset.
   */
  function Derivation(r: SentenceState, s: SentenceState): seq<SentenceState> {
    if r.cells <= s.cells then
      if r.cells == s.cells && r.count == s.count then []
      else [SentenceState(s.cells - r.cells, s.count - r.count, {}, {})]
    else if s.cells <= r.cells then [SentenceState(r.cells - s.cells, r.count - s.count, {}, {})]
    else []
  }

  /** The sentences derived from `r` and each sentence state of `list`, in order. */
  function Derivations(r: SentenceState, list: seq<SentenceState>): seq<SentenceState> {
    if list == [] then [] else Derivation(r, list[0]) + Derivations(r, list[1..])
  }

  /** No sentence of `list` lies strictly inside `r`: the popped sentence is kept. */
  predicate Orthogonal(r: SentenceState, list: seq<SentenceState>) {
    forall k :: 0 <= k < |list| ==> r.cells <= list[k].cells || !(list[k].cells <= r.cells)
  }

  /** `Supersets` distributes over concatenation. */
  lemma {:induction false} SupersetsAppend(ref: Sentence, a: seq<Sentence>, b: seq<Sentence>)
    ensures Supersets(ref, a + b) == Supersets(ref, a) + Supersets(ref, b)
    decreases |a|
  {
    if a != [] {
      assert (a + b)[0] == a[0] && (a + b)[1..] == a[1..] + b;
      SupersetsAppend(ref, a[1..], b);
    } else {
      assert a + b == b;
    }
  }

  /** `Derivations` distributes over concatenation. */
  lemma {:induction false} DerivationsAppend(r: SentenceState, a: seq<SentenceState>, b: seq<SentenceState>)
    ensures Derivations(r, a + b) == Derivations(r, a) + Derivations(r, b)
    decreases |a|
  {
    if a != [] {
      assert (a + b)[0] == a[0] && (a + b)[1..] == a[1..] + b;
      DerivationsAppend(r, a[1..], b);
    } else {
      assert a + b == b;
    }
  }

  /** One more sentence of `todo` extends the prefix's supersets by itself when it is one. */
  lemma SupersetsStep(ref: Sentence, todo: seq<Sentence>, i: int)
    requires 0 <= i < |todo|
    ensures Supersets(ref, todo[..i + 1]) ==
            Supersets(ref, todo[..i]) + (if ref.cells <= todo[i].cells then [todo[i]] else [])
  {
    assert todo[..i + 1] == todo[..i] + [todo[i]];
    SupersetsAppend(ref, todo[..i], [todo[i]]);
    assert [todo[i]][1..] == [];
  }

  /** One more sentence state keeps the prefix orthogonal exactly when it passes the test itself. */
  lemma OrthogonalStep(r: SentenceState, list: seq<SentenceState>, i: int)
    requires 0 <= i < |list|
    ensures Orthogonal(r, list[..i + 1]) <==>
            Orthogonal(r, list[..i]) && (r.cells <= list[i].cells || !(list[i].cells <= r.cells))
  {
    assert forall k :: 0 <= k < i ==> list[..i + 1][k] == list[..i][k];
    assert list[..i + 1][i] == list[i];
  }

  /** One more sentence state extends the prefix's derivations by its own. */
  lemma DerivationsStep(r: SentenceState, list: seq<SentenceState>, i: int)
    requires 0 <= i < |list|
    ensures Derivations(r, list[..i + 1]) == Derivations(r, list[..i]) + Derivation(r, list[i])
  {
    assert list[..i + 1] == list[..i] + [list[i]];
    DerivationsAppend(r, list[..i], [list[i]]);
    assert [list[i]][1..] == [];
  }

  /** Every sentence derived from truthful sentences is truthful. */
  lemma {:induction false} DerivationsTruthful(r: SentenceState, list: seq<SentenceState>, m: set<Cell>)
    requires Truthful(r, m) && forall k :: 0 <= k < |list| ==> Truthful(list[k], m)
    ensures forall k :: 0 <= k < |Derivations(r, list)| ==> Truthful(Derivations(r, list)[k], m)
    decreases |list|
  {
    if list != [] {
      var s := list[0];
      DerivationsTruthful(r, list[1..], m);
      if r.cells <= s.cells {
        SubsetRule(r, s, m);
      } else if s.cells <= r.cells {
        SubsetRule(s, r, m);
      }
    }
  }

  /** Every derived sentence is new: it has decided no cell yet. */
  lemma {:induction false} DerivationsUndecided(r: SentenceState, list: seq<SentenceState>)
    ensures forall k :: 0 <= k < |Derivations(r, list)| ==>
              Derivations(r, list)[k].safes == {} && Derivations(r, list)[k].mines == {}
    decreases |list|
  {
    if list != [] {
      DerivationsUndecided(r, list[1..]);
    }
  }

  /**
   * Python's `list.remove` for each sentence of `toRemove` in turn: each drops
   * the first sentence equal to it under `Sentence.Equals`; None when one finds
   * no equal sentence (Python raises `ValueError`).
   */
  function RemoveAll(list: seq<Sentence>, toRemove: seq<Sentence>): Option<seq<Sentence>>
    reads list, toRemove
    decreases |toRemove|
  {
    if toRemove == [] then Some(list)
    else
      var k := IndexOfEqual(list, toRemove[0]);
      if k == |list| then None
      else RemoveAll(list[..k] + list[k + 1..], toRemove[1..])
  }

  /** A successful `RemoveAll` drops one sentence per removal and keeps only sentences of the list. */
  lemma {:induction false} RemoveAllShrinks(list: seq<Sentence>, toRemove: seq<Sentence>)
    ensures RemoveAll(list, toRemove).Some? ==>
              |RemoveAll(list, toRemove).value| == |list| - |toRemove| &&
              forall k :: 0 <= k < |RemoveAll(list, toRemove).value| ==> RemoveAll(list, toRemove).value[k] in list
    decreases |toRemove|
  {
    if toRemove != [] {
      var k := IndexOfEqual(list, toRemove[0]);
      if k < |list| {
        var rest := list[..k] + list[k + 1..];
        RemoveAllShrinks(rest, toRemove[1..]);
        assert forall p :: 0 <= p < |rest| ==> rest[p] in list;
      }
    }
  }

  /**
   * A sentence that does not contain `ref` is equal to no superset of `ref`,
   * so removing supersets from a list that starts with it keeps it in front.
   */
  lemma {:induction false} RemoveAllSkips(ref: Sentence, x: Sentence, list: seq<Sentence>, toRemove: seq<Sentence>)
    requires !(ref.cells <= x.cells) && forall k :: 0 <= k < |toRemove| ==> ref.cells <= toRemove[k].cells
    ensures RemoveAll(list, toRemove).None? ==> RemoveAll([x] + list, toRemove).None?
    ensures RemoveAll(list, toRemove).Some? ==> RemoveAll([x] + list, toRemove) == Some([x] + RemoveAll(list, toRemove).value)
    decreases |toRemove|
  {
    if toRemove != [] {
      var t := toRemove[0];
      assert !x.Equals(t);
      assert ([x] + list)[1..] == list;
      var k := IndexOfEqual(list, t);
      assert IndexOfEqual([x] + list, t) == k + 1;
      if k < |list| {
        assert ([x] + list)[..k + 1] + ([x] + list)[k + 2..] == [x] + (list[..k] + list[k + 1..]);
        RemoveAllSkips(ref, x, list[..k] + list[k + 1..], toRemove[1..]);
      }
    }
  }

  /**
   * Removing the supersets of `ref` one by one, each by its first equal
   * sentence, never fails and leaves exactly the other sentences: an equal
   * sentence has the same cells, so it is a superset too, and it comes first.
   */
  lemma {:induction false} RemoveSupersets(ref: Sentence, list: seq<Sentence>)
    ensures RemoveAll(list, Supersets(ref, list)) == Some(Others(ref, list))
    decreases |list|
  {
    if list != [] {
      RemoveSupersets(ref, list[1..]);
      if ref.cells <= list[0].cells {
        RemoveSupersetHead(ref, list);
      } else {
        RemoveSupersetsSkipHead(ref, list);
      }
    }
  }

  /** The step of `RemoveSupersets` for a list whose first sentence is a superset of `ref`. */
  lemma RemoveSupersetHead(ref: Sentence, list: seq<Sentence>)
    requires list != [] && ref.cells <= list[0].cells
    requires RemoveAll(list[1..], Supersets(ref, list[1..])) == Some(Others(ref, list[1..]))
    ensures RemoveAll(list, Supersets(ref, list)) == Some(Others(ref, list))
  {
    var x, tail := list[0], list[1..];
    var sup := Supersets(ref, tail);
    assert Supersets(ref, list) == [x] + sup;
    assert Others(ref, list) == Others(ref, tail);
    assert IndexOfEqual(list, x) == 0;
    assert list[..0] + list[1..] == tail;
    assert ([x] + sup)[1..] == sup;
  }

  /** The step of `RemoveSupersets` for a list whose first sentence is not a superset of `ref`. */
  lemma RemoveSupersetsSkipHead(ref: Sentence, list: seq<Sentence>)
    requires list != [] && !(ref.cells <= list[0].cells)
    requires RemoveAll(list[1..], Supersets(ref, list[1..])) == Some(Others(ref, list[1..]))
    ensures RemoveAll(list, Supersets(ref, list)) == Some(Others(ref, list))
  {
    var x, tail := list[0], list[1..];
    assert Supersets(ref, list) == Supersets(ref, tail);
    assert Others(ref, list) == [x] + Others(ref, tail);
    SupersetsMembers(ref, tail);
    RemoveAllSkips(ref, x, tail, Supersets(ref, tail));
    assert [x] + tail == list;
  }

  /**
   * Compares the popped sentence `ref` with every sentence still to do: a
   * superset `stc` of `ref` is to be removed and replaced by the difference
   * (or just dropped when it equals `ref`), and a proper subset yields the
   * difference `ref - stc` and keeps `ref` out of the final knowledge. The
   * sentences to add are returned as their states.
   */
  method Compare(ref: Sentence, todo: seq<Sentence>)
      returns (orth: bool, derived: seq<SentenceState>, toRemove: seq<Sentence>)
    ensures orth <==> old(forall k :: 0 <= k < |todo| ==>
              ref.cells <= todo[k].cells || !(todo[k].cells <= ref.cells))
    ensures toRemove == old(Supersets(ref, todo))
    ensures derived == old(Derivations(ref.State(), States(todo)))
  {
    ghost var r, states := ref.State(), States(todo);
    derived, orth, toRemove := [], true, [];
    for i := 0 to |todo|
      invariant orth <==> Orthogonal(r, states[..i])
      invariant toRemove == Supersets(ref, todo[..i])
      invariant derived == Derivations(r, states[..i])
    {
      var stc := todo[i];
      SupersetsStep(ref, todo, i);
      OrthogonalStep(r, states, i);
      DerivationsStep(r, states, i);
      if ref.cells <= stc.cells {
        toRemove := toRemove + [stc];
      } else if stc.cells <= ref.cells {
        orth := false;
      }
      derived := derived + Derivation(ref.State(), stc.State());
    }
    assert todo[..|todo|] == todo && states[..|todo|] == states;
  }

  /** A new sentence for each state, in order: all distinct, all fresh. */
  method NewSentences(states: seq<SentenceState>) returns (list: seq<Sentence>)
    requires forall k :: 0 <= k < |states| ==> states[k].safes == {} && states[k].mines == {}
    ensures States(list) == states
    ensures Distinct(list) && forall k :: 0 <= k < |list| ==> fresh(list[k])
  {
    list := [];
    for i := 0 to |states|
      invariant |list| == i && forall k :: 0 <= k < i ==> list[k].State() == states[k]
      invariant Distinct(list) && forall k :: 0 <= k < i ==> fresh(list[k])
    {
      var s := new Sentence(states[i].cells, states[i].count);
      AppendDistinct(list, s);
      list := list + [s];
    }
  }

  /**
   * Python's `list.remove` for each sentence of `toRemove` in turn: drops the
   * first sentence equal to it; fails (Python raises `ValueError`) when there is none.
   */
  method RemoveEach(todo: seq<Sentence>, toRemove: seq<Sentence>) returns (ok: bool, rest: seq<Sentence>)
    ensures ok <==> RemoveAll(todo, toRemove).Some?
    ensures ok ==> rest == RemoveAll(todo, toRemove).value
    ensures Elements(rest) <= Elements(todo)
  {
    rest := todo;
    var i := 0;
    while i < |toRemove|
      invariant 0 <= i <= |toRemove|
      invariant Elements(rest) <= Elements(todo)
      invariant RemoveAll(rest, toRemove[i..]) == RemoveAll(todo, toRemove)
    {
      assert toRemove[i..][1..] == toRemove[i + 1..];
      var k := IndexOfEqual(rest, toRemove[i]);
      if k == |rest| {
        return false, rest;
      }
      rest := rest[..k] + rest[k + 1..];
      i := i + 1;
    }
    assert toRemove[i..] == [];
    ok := true;
  }

  /**
   * The subset rule applied between the popped sentence `ref` and the rest of
   * the work-list: returns whether `ref` has no proper subset there (`orth`)
   * and the new work-list: the sentences that do not contain `ref`, in order,
   * followed by the derived sentences. The removals never raise.
   */
  method Reduce(ref: Sentence, todo: seq<Sentence>, ghost m: set<Cell>) returns (orth: bool, next: seq<Sentence>)
    requires Distinct(todo)
    ensures orth <==> old(forall k :: 0 <= k < |todo| ==> ref.cells <= todo[k].cells || !(todo[k].cells <= ref.cells))
    ensures |old(Others(ref, todo))| <= |next| && next[..|old(Others(ref, todo))|] == old(Others(ref, todo))
    ensures States(next[|old(Others(ref, todo))|..]) == old(Derivations(ref.State(), States(todo)))
    ensures forall k :: |old(Others(ref, todo))| <= k < |next| ==> fresh(next[k])
    ensures Distinct(next)
    ensures forall k :: 0 <= k < |next| ==> next[k] in todo || fresh(next[k])
    ensures old(Truthful(ref.State(), m) && forall k :: 0 <= k < |todo| ==> Truthful(todo[k].State(), m)) ==>
              forall k :: 0 <= k < |next| ==> Truthful(next[k].State(), m)
  {
    ghost var r, states := ref.State(), States(todo);
    ghost var truth := Truthful(r, m) && forall k :: 0 <= k < |todo| ==> Truthful(states[k], m);
    DerivationsUndecided(r, states);
    if truth {
      DerivationsTruthful(r, states, m);
    }
    OthersMembers(ref, todo);
    var derived, rest;
    orth, derived, rest := CompareAndRemove(ref, todo);
    var toAdd := NewSentences(derived);
    ConcatFresh(rest, toAdd);
    next := rest + toAdd;
    assert next[..|rest|] == rest && next[|rest|..] == toAdd;
    if truth {
      forall k | 0 <= k < |next| ensures Truthful(next[k].State(), m) {
        if k < |rest| {
          assert next[k] == rest[k] && rest[k] in todo;
        } else {
          assert next[k] == toAdd[k - |rest|];
        }
      }
    }
  }

  /**
   * The comparison and then the removals of `Reduce`: the removals never
   * raise and leave exactly the sentences that do not contain `ref`.
   */
  method CompareAndRemove(ref: Sentence, todo: seq<Sentence>)
      returns (orth: bool, derived: seq<SentenceState>, rest: seq<Sentence>)
    ensures orth <==> old(forall k :: 0 <= k < |todo| ==> ref.cells <= todo[k].cells || !(todo[k].cells <= ref.cells))
    ensures derived == old(Derivations(ref.State(), States(todo)))
    ensures rest == old(Others(ref, todo))
    ensures forall k :: 0 <= k < |rest| ==> rest[k] in todo
  {
    ghost var sup, others := Supersets(ref, todo), Others(ref, todo);
    RemoveSupersets(ref, todo);
    assert RemoveAll(todo, sup) == Some(others);
    var toRemove;
    orth, derived, toRemove := Compare(ref, todo);
    assert toRemove == sup;
    var ok;
    ok, rest := RemoveEach(todo, toRemove);
    assert rest == others;
    assert forall k :: 0 <= k < |rest| ==> rest[k] in Elements(rest);
  }

  /** A sentence that decides nothing by itself: neither count 0, nor all mines, nor empty. */
  predicate Undecided(s: SentenceState) {
    s.count != 0 && |s.cells| != s.count && |s.cells| != 0
  }

  /**
   * The cases of `Process` where `ref` decides its cells by itself: with count 0
   * they are all safe, with as many mines as cells they are all mines, and an
   * empty sentence reports nothing.
   */
  method MarkDecided(ref: Sentence, todo: seq<Sentence>, ghost live: set<Sentence>, ghost m: set<Cell>)
      returns (newSafes: seq<Cell>, newMines: seq<Cell>)
    requires Distinct(todo)
    requires ref.count == 0 || |ref.cells| == ref.count || |ref.cells| == 0
    modifies todo
    ensures forall k :: 0 <= k < |todo| ==> Mentioned(todo[k].State()) == old(Mentioned(todo[k].State()))
    ensures old(ref.count) == 0 ==> Elements(newSafes) == old(ref.cells) && newMines == []
    ensures old(ref.count) != 0 && old(|ref.cells|) == old(ref.count) ==> Elements(newMines) == old(ref.cells) && newSafes == []
    ensures old(ref.count) != 0 && old(|ref.cells|) == 0 ==> newSafes == [] && newMines == []
    ensures Elements(todo) <= live && ref in live && old(AllTruthful(live, m)) ==>
              AllTruthful(live, m) && (forall c :: c in newSafes ==> c !in m) && (forall c :: c in newMines ==> c in m)
    ensures Elements(todo) <= live && ref in live && old(AllTruthful(live, m)) && old(ref.count) == 0 ==>
              forall k :: 0 <= k < |todo| ==> todo[k].State() == SafeMarked(old(todo[k].State()), old(ref.cells))
    ensures Elements(todo) <= live && ref in live && old(AllTruthful(live, m)) &&
            old(ref.count) != 0 && old(|ref.cells|) == old(ref.count) ==>
              forall k :: 0 <= k < |todo| ==> todo[k].State() == MineMarked(old(todo[k].State()), old(ref.cells))
  {
    ghost var truth := Elements(todo) <= live && ref in live && AllTruthful(live, m);
    newSafes, newMines := [], [];
    var cells := ref.cells;
    if ref.count == 0 {
      if truth {
        NoMinesLeft(ref.State(), m);
      }
      newSafes := MarkEachSafe(cells, todo, live, m);
      assert truth ==> forall c :: c in newSafes ==> c !in m by {
        if truth {
          forall c | c in newSafes ensures c !in m {
            assert c !in cells * m;
          }
        }
      }
    } else if |cells| == ref.count {
      if truth {
        AllMinesLeft(ref.State(), m);
      }
      newMines := MarkEachMine(cells, todo, live, m);
    }
  }

  /**
   * What the work-list does with the popped sentence `ref`: with count 0 all its
   * cells are safe, with as many mines as cells all are mines (either way they
   * are marked in the rest of the work-list), an empty one is dropped, and any
   * other goes through the subset rule. `keep` says whether `ref` joins the
   * final knowledge and `next` is the new work-list.
   */
  method Process(ref: Sentence, todo: seq<Sentence>, ghost live: set<Sentence>, ghost m: set<Cell>)
      returns (keep: bool, next: seq<Sentence>, newSafes: seq<Cell>, newMines: seq<Cell>)
    requires Distinct(todo)
    modifies todo
    ensures Distinct(next)
    ensures forall k :: 0 <= k < |next| ==> next[k] in todo || fresh(next[k])
    ensures forall k :: 0 <= k < |todo| ==> Mentioned(todo[k].State()) == old(Mentioned(todo[k].State()))
    ensures old(ref.count) == 0 ==>
              Elements(newSafes) == old(ref.cells) && newMines == [] && !keep && next == todo
    ensures old(ref.count) != 0 && old(|ref.cells|) == old(ref.count) ==>
              Elements(newMines) == old(ref.cells) && newSafes == [] && !keep && next == todo
    ensures old(ref.count) != 0 && old(|ref.cells|) == 0 ==> newSafes == [] && newMines == [] && !keep && next == todo
    ensures old(Undecided(ref.State())) ==>
              newSafes == [] && newMines == [] &&
              (forall k :: 0 <= k < |todo| ==> todo[k].State() == old(todo[k].State())) &&
              (keep <==> old(forall k :: 0 <= k < |todo| ==> ref.cells <= todo[k].cells || !(todo[k].cells <= ref.cells))) &&
              |old(Others(ref, todo))| <= |next| && next[..|old(Others(ref, todo))|] == old(Others(ref, todo)) &&
              States(next[|old(Others(ref, todo))|..]) == old(Derivations(ref.State(), States(todo)))
    ensures keep ==> Undecided(ref.State())
    ensures Elements(todo) <= live && ref in live && old(AllTruthful(live, m)) ==>
              AllTruthful(live, m) && (forall k :: 0 <= k < |next| ==> Truthful(next[k].State(), m)) &&
              (forall c :: c in newSafes ==> c !in m) && (forall c :: c in newMines ==> c in m)
    ensures Elements(todo) <= live && ref in live && old(AllTruthful(live, m)) && old(ref.count) == 0 ==>
              forall k :: 0 <= k < |todo| ==> todo[k].State() == SafeMarked(old(todo[k].State()), old(ref.cells))
    ensures Elements(todo) <= live && ref in live && old(AllTruthful(live, m)) &&
            old(ref.count) != 0 && old(|ref.cells|) == old(ref.count) ==>
              forall k :: 0 <= k < |todo| ==> todo[k].State() == MineMarked(old(todo[k].State()), old(ref.cells))
  {
    keep, next, newSafes, newMines := false, todo, [], [];
    var cells := ref.cells;
    if ref.count == 0 || |cells| == ref.count || |cells| == 0 {
      newSafes, newMines := MarkDecided(ref, todo, live, m);
    } else {
      keep, next := Reduce(ref, todo, m);
    }
  }

  /**
   * The work-list need not end. With an empty sentence of count 0 in front of
   * an undecided sentence `ref`, popping `ref` finds the empty one strictly
   * inside it, so `ref` is not kept. The empty sentence stays, and the only
   * derived sentence has `ref`'s cells and count: the work-list is back to the
   * same two sentences, and this repeats forever.
   */
  lemma EmptyBeforeUndecidedRepeats(ref: Sentence, e: Sentence)
    requires Undecided(ref.State()) && e.cells == {} && e.count == 0
    ensures e.cells <= ref.cells && !(ref.cells <= e.cells)
    ensures Others(ref, [e]) == [e]
    ensures Derivations(ref.State(), States([e])) == [SentenceState(ref.cells, ref.count, {}, {})]
    ensures Undecided(SentenceState(ref.cells, ref.count, {}, {}))
  {
    assert [e][1..] == [];
    assert States([e]) == [e.State()];
    assert ref.cells - e.cells == ref.cells;
    assert Derivation(ref.State(), e.State()) == [SentenceState(ref.cells, ref.count, {}, {})];
  }

  /** What the work-list loop relies on of `Process`: the cells it reports, and what it keeps true. */
  method ProcessStep(ref: Sentence, todo: seq<Sentence>, ghost live: set<Sentence>, ghost m: set<Cell>)
      returns (keep: bool, next: seq<Sentence>, newSafes: seq<Cell>, newMines: seq<Cell>)
    requires Distinct(todo)
    modifies todo
    ensures Distinct(next)
    ensures forall s :: s in next ==> s in todo || fresh(s)
    ensures forall s :: s in todo ==> Mentioned(s.State()) == old(Mentioned(s.State()))
    ensures keep ==> Undecided(ref.State())
    ensures old(ref.count) == 0 ==> Elements(newSafes) == old(ref.cells) && newMines == []
    ensures old(ref.count) != 0 && old(|ref.cells|) == old(ref.count) ==> Elements(newMines) == old(ref.cells) && newSafes == []
    ensures old(ref.count) != 0 && old(|ref.cells|) != old(ref.count) ==> newSafes == [] && newMines == []
    ensures Elements(todo) <= live && ref in live && old(AllTruthful(live, m)) ==>
              AllTruthful(live, m) && (forall k :: 0 <= k < |next| ==> Truthful(next[k].State(), m)) &&
              (forall c :: c in newSafes ==> c !in m) && (forall c :: c in newMines ==> c in m)
  {
    keep, next, newSafes, newMines := Process(ref, todo, live, m);
    forall s | s in todo ensures Mentioned(s.State()) == old(Mentioned(s.State())) {
      var k :| 0 <= k < |todo| && todo[k] == s;
    }
  }

  /** How `add_knowledge` ended: normally, by an exception, or by exhausting its step budget. */
  datatype Outcome = Completed | Raised | OutOfFuel

  /** The cells a run of the work-list reports safe: all cells of each popped sentence with count 0. */
  function SafeReports(popped: seq<SentenceState>): set<Cell> {
    if popped == [] then {}
    else
      var last := popped[|popped| - 1];
      SafeReports(popped[..|popped| - 1]) + (if last.count == 0 then last.cells else {})
  }

  /** The cells a run of the work-list reports as mines: all cells of each popped sentence with as many mines as cells. */
  function MineReports(popped: seq<SentenceState>): set<Cell> {
    if popped == [] then {}
    else
      var last := popped[|popped| - 1];
      MineReports(popped[..|popped| - 1]) + (if last.count != 0 && |last.cells| == last.count then last.cells else {})
  }

  /** Popping one more sentence adds what that sentence reports and nothing else. */
  lemma ReportsAppend(popped: seq<SentenceState>, s: SentenceState)
    ensures SafeReports(popped + [s]) == SafeReports(popped) + (if s.count == 0 then s.cells else {})
    ensures MineReports(popped + [s]) == MineReports(popped) + (if s.count != 0 && |s.cells| == s.count then s.cells else {})
  {
    assert (popped + [s])[..|popped|] == popped;
  }

  /** The reports grow by what the popped sentence reports. */
  lemma ReportsStep(popped: seq<SentenceState>, state: SentenceState, safeCells: seq<Cell>, mineCells: seq<Cell>,
                    newSafes: seq<Cell>, newMines: seq<Cell>)
    requires Elements(safeCells) == SafeReports(popped) && Elements(mineCells) == MineReports(popped)
    requires state.count == 0 ==> Elements(newSafes) == state.cells && newMines == []
    requires state.count != 0 && |state.cells| == state.count ==> Elements(newMines) == state.cells && newSafes == []
    requires state.count != 0 && |state.cells| != state.count ==> newSafes == [] && newMines == []
    ensures Elements(safeCells + newSafes) == SafeReports(popped + [state])
    ensures Elements(mineCells + newMines) == MineReports(popped + [state])
  {
    ReportsAppend(popped, state);
    assert Elements(safeCells + newSafes) == Elements(safeCells) + Elements(newSafes);
    assert Elements(mineCells + newMines) == Elements(mineCells) + Elements(newMines);
  }

  /**
   * The inference work-list: repeatedly pops the last sentence; a sentence with
   * count 0 makes all its cells safe, one with as many mines as cells makes them
   * all mines, an empty one is dropped, and any other is compared with the rest
   * by the subset rule. At most `fuel` sentences are popped; `popped` records
   * the popped sentences as they were when popped.
   */
  method Infer(todo0: seq<Sentence>, fuel: nat, ghost m: set<Cell>)
      returns (outcome: Outcome, updated: seq<Sentence>, safeCells: seq<Cell>, mineCells: seq<Cell>,
               ghost popped: seq<SentenceState>)
    requires Distinct(todo0)
    modifies todo0
    ensures outcome != Raised && |popped| <= fuel
    ensures Distinct(updated)
    ensures forall s :: s in updated ==> s in todo0 || fresh(s)
    ensures forall s :: s in updated ==> Undecided(s.State()) && s.State() in popped
    ensures Elements(safeCells) == SafeReports(popped) && Elements(mineCells) == MineReports(popped)
    ensures forall k :: 0 <= k < |todo0| ==> Mentioned(todo0[k].State()) == old(Mentioned(todo0[k].State()))
    ensures old(AllTruthful(Elements(todo0), m)) ==>
              AllTruthful(Elements(todo0), m) && AllTruthful(Elements(updated), m) &&
              (forall c :: c in safeCells ==> c !in m) && (forall c :: c in mineCells ==> c in m)
  {
    ghost var truth := AllTruthful(Elements(todo0), m);
    ghost var live := Elements(todo0);
    var todo := todo0;
    updated, safeCells, mineCells, popped := [], [], [], [];
    var steps := fuel;
    while |todo| > 0
      invariant Distinct(todo) && Distinct(updated)
      invariant Elements(todo) <= live && Elements(updated) <= live && Elements(todo0) <= live
      invariant forall s :: s in live ==> s in todo0 || fresh(s)
      invariant forall k :: 0 <= k < |todo| ==> todo[k] in todo0 || fresh(todo[k])
      invariant Elements(updated) !! Elements(todo)
      invariant forall s :: s in updated ==> Undecided(s.State()) && s.State() in popped
      invariant |popped| + steps == fuel
      invariant Elements(safeCells) == SafeReports(popped) && Elements(mineCells) == MineReports(popped)
      invariant forall s :: s in todo0 ==> Mentioned(s.State()) == old(Mentioned(s.State()))
      invariant truth ==> AllTruthful(live, m)
      invariant truth ==> (forall c :: c in safeCells ==> c !in m) && (forall c :: c in mineCells ==> c in m)
      decreases steps
    {
      if steps == 0 {
        return OutOfFuel, updated, safeCells, mineCells, popped;
      }
      steps := steps - 1;
      var ref := todo[|todo| - 1];
      assert ref in Elements(todo);
      RemoveAtDistinct(todo, |todo| - 1);
      todo := todo[..|todo| - 1];
      assert ref in live && ref !in updated && ref !in todo;
      ghost var state := ref.State();
      label process:
      var keep, next, newSafes, newMines := ProcessStep(ref, todo, live, m);
      forall s | s in updated ensures s.State() == old@process(s.State()) {
        assert s in Elements(updated);
      }
      assert ref.State() == state;
      forall s | s in todo0 ensures Mentioned(s.State()) == old@process(Mentioned(s.State())) {
        if s !in todo {
          assert s.State() == old@process(s.State());
        }
      }
      forall s | s in next ensures s in todo0 || fresh(s) {
        if s in todo {
          assert s in Elements(todo);
        }
      }
      ReportsStep(popped, state, safeCells, mineCells, newSafes, newMines);
      popped := popped + [state];
      safeCells, mineCells := safeCells + newSafes, mineCells + newMines;
      if keep {
        AppendDistinct(updated, ref);
        updated := updated + [ref];
      }
      assert forall s :: s in live ==> old@process(allocated(s));
      todo := next;
      live := live + Elements(next);
    }
    outcome := Completed;
  }

  // ---------------------------------------------------------------------------
  // The player
  // ---------------------------------------------------------------------------

  /** `a` comes before `b` in row-major order. */
  predicate Before(a: Cell, b: Cell) {
    a.0 < b.0 || (a.0 == b.0 && a.1 < b.1)
  }

  /** A cell known to be safe that has not been played yet. */
  predicate Playable(c: Cell, safes: set<Cell>, moves: set<Cell>) {
    c in safes && c !in moves
  }

  /**
   * `r` is what a row-major scan of rows [0, rows) and columns [0, cols) for a
   * playable cell finds: the first playable cell, or None when there is none.
   */
  predicate FirstPlayable(rows: int, cols: int, safes: set<Cell>, moves: set<Cell>, r: Option<Cell>) {
    match r
    case None =>
      forall i, j :: 0 <= i < rows && 0 <= j < cols ==> !Playable((i, j), safes, moves)
    case Some(c) =>
      0 <= c.0 < rows && 0 <= c.1 < cols && Playable(c, safes, moves) &&
      forall i, j :: 0 <= i < rows && 0 <= j < cols && Before((i, j), c) ==> !Playable((i, j), safes, moves)
  }

  /** The scan's result is determined by the playable cells: at most one `r` fits. */
  lemma FirstPlayableUnique(rows: int, cols: int, safes: set<Cell>, moves: set<Cell>, r1: Option<Cell>, r2: Option<Cell>)
    requires FirstPlayable(rows, cols, safes, moves, r1) && FirstPlayable(rows, cols, safes, moves, r2)
    ensures r1 == r2
  {
  }

  /**
   * On a board 2 rows high and 1 column wide whose only known safe cell is
   * (1, 0), the scan over rows [0, width) and columns [0, height) finds
   * nothing, while the scan over the board's own rows and columns finds (1, 0).
   */
  lemma SwappedScanMissesSafeCell()
    ensures OnBoard(2, 1, (1, 0)) && Playable((1, 0), {(1, 0)}, {})
    ensures FirstPlayable(1, 2, {(1, 0)}, {}, None)
    ensures FirstPlayable(2, 1, {(1, 0)}, {}, Some((1, 0)))
  {
  }

  /** The knowledge-based player. */
  class MinesweeperAI {
    const height: int
    const width: int
    var movesMade: set<Cell>
    /** Cells neither played nor flagged as mines, in row-major order at the start. */
    var availiable: seq<Cell>
    var mines: set<Cell>
    var safes: set<Cell>
    var knowledge: seq<Sentence>

    ghost predicate Valid()
      reads this
    {
      Distinct(knowledge) && Distinct(availiable)
    }

    /** No available cell has been played or flagged as a mine. */
    ghost predicate Clean()
      reads this
    {
      forall k :: 0 <= k < |availiable| ==> availiable[k] !in movesMade && availiable[k] !in mines
    }

    /** Everything the player believes is true when `m` is the set of mines. */
    ghost predicate Sound(m: set<Cell>)
      reads this, knowledge
    {
      safes * m == {} && mines <= m && forall k :: 0 <= k < |knowledge| ==> Truthful(knowledge[k].State(), m)
    }

    constructor (height: int, width: int)
      ensures this.height == height && this.width == width
      ensures movesMade == {} && mines == {} && safes == {} && knowledge == []
      ensures forall c :: c in availiable <==> OnBoard(height, width, c)
      ensures forall p, q :: 0 <= p < q < |availiable| ==> Before(availiable[p], availiable[q])
      ensures Valid() && Clean()
    {
      this.height := height;
      this.width := width;
      var cells: seq<Cell> := [];
      var i := 0;
      while i < height
        invariant 0 <= i && (i <= height || i == 0)
        invariant forall c :: c in cells <==> 0 <= c.0 < i && 0 <= c.1 < width
        invariant forall p, q :: 0 <= p < q < |cells| ==> Before(cells[p], cells[q])
        invariant forall p :: 0 <= p < |cells| ==> cells[p].0 < i
      {
        var j := 0;
        while j < width
          invariant 0 <= j && (j <= width || j == 0)
          invariant forall c :: c in cells <==> (0 <= c.0 < i && 0 <= c.1 < width) || (c.0 == i && 0 <= c.1 < j)
          invariant forall p, q :: 0 <= p < q < |cells| ==> Before(cells[p], cells[q])
          invariant forall p :: 0 <= p < |cells| ==> Before(cells[p], (i, j))
        {
          cells := cells + [(i, j)];
          j := j + 1;
        }
        i := i + 1;
      }
      movesMade := {};
      availiable := cells;
      mines := {};
      safes := {};
      knowledge := [];
    }

    /** Flags `c` as a mine and marks it as a mine in every sentence. */
    method MarkMine(c: Cell)
      requires Valid()
      modifies this, knowledge
      ensures Valid()
      ensures mines == old(mines) + {c} && safes == old(safes) && movesMade == old(movesMade)
      ensures availiable == old(availiable) && knowledge == old(knowledge)
      ensures forall k :: 0 <= k < |knowledge| ==> knowledge[k].State() == MarkMineStep(old(knowledge[k].State()), c).1
    {
      mines := mines + {c};
      MarkMineAll(knowledge, c);
    }

    /** Records `c` as safe and marks it safe in every sentence. */
    method MarkSafe(c: Cell)
      requires Valid()
      modifies this, knowledge
      ensures Valid()
      ensures safes == old(safes) + {c} && mines == old(mines) && movesMade == old(movesMade)
      ensures availiable == old(availiable) && knowledge == old(knowledge)
      ensures forall k :: 0 <= k < |knowledge| ==> knowledge[k].State() == MarkSafeStep(old(knowledge[k].State()), c).1
    {
      safes := safes + {c};
      MarkSafeAll(knowledge, c);
    }

    /** The cells of the on-board 3x3 block around `cell`, row by row. */
    method BlockCells(cell: Cell) returns (cells: seq<Cell>)
      ensures Elements(cells) == Block(height, width, cell)
    {
      cells := [];
      var i := Max(0, cell.0 - 1);
      while i < Min(cell.0 + 2, height)
        invariant Max(0, cell.0 - 1) <= i
        invariant forall c :: c in cells <==> c in Block(height, width, cell) && c.0 < i
      {
        var j := Max(0, cell.1 - 1);
        while j < Min(cell.1 + 2, width)
          invariant Max(0, cell.1 - 1) <= j
          invariant forall c :: c in cells <==> c in Block(height, width, cell) && (c.0 < i || (c.0 == i && c.1 < j))
        {
          cells := cells + [(i, j)];
          j := j + 1;
        }
        i := i + 1;
      }
      assert forall c :: c in Elements(cells) <==> c in Block(height, width, cell);
    }

    /**
     * The sentence built from the count reported for `cell`: its on-board block
     * with `count` mines, with the cells already known safe or mines marked.
     */
    method NewSentence(cell: Cell, count: int, ghost m: set<Cell>) returns (s: Sentence)
      ensures fresh(s)
      ensures Mentioned(s.State()) == Block(height, width, cell) && Disjoint(s.State())
      ensures count == |Block(height, width, cell) * m| && safes * m == {} && mines <= m ==>
                Truthful(s.State(), m) && s.cells * (safes + mines) == {}
    {
      var cells := BlockCells(cell);
      s := new Sentence(Elements(cells), count);
      MarkKnownCells(s, cells, m);
    }

    /** Marks, in the sentence `s`, each cell of `cells` already known to be safe or a mine. */
    method MarkKnownCells(s: Sentence, cells: seq<Cell>, ghost m: set<Cell>)
      requires Disjoint(s.State()) && Mentioned(s.State()) == Elements(cells)
      modifies s
      ensures Disjoint(s.State()) && Mentioned(s.State()) == Elements(cells)
      ensures old(Truthful(s.State(), m)) && safes * m == {} && mines <= m ==>
                Truthful(s.State(), m) && s.cells * (safes + mines) == {}
    {
      ghost var truth := Truthful(s.State(), m) && safes * m == {} && mines <= m;
      var k := 0;
      while k < |cells|
        invariant 0 <= k <= |cells|
        invariant Mentioned(s.State()) == Elements(cells) && Disjoint(s.State())
        invariant truth ==> Truthful(s.State(), m)
        invariant truth ==> s.cells * (safes + mines) * Elements(cells[..k]) == {}
      {
        PrefixElements(cells, k);
        ghost var before := s.cells;
        MarkKnownCell(s, cells[k], m);
        if truth {
          ShrinkDisjoint(before, s.cells, safes + mines, Elements(cells[..k]), cells[k]);
        }
        k := k + 1;
      }
      assert cells[..k] == cells;
      assert s.cells <= Elements(cells);
    }

    /** Marks `c` in `s` if it is already known to be safe, then if it is already known to be a mine. */
    method MarkKnownCell(s: Sentence, c: Cell, ghost m: set<Cell>)
      requires Disjoint(s.State())
      modifies s
      ensures Disjoint(s.State()) && Mentioned(s.State()) == old(Mentioned(s.State())) && s.cells <= old(s.cells)
      ensures old(Truthful(s.State(), m)) && safes * m == {} && mines <= m ==>
                Truthful(s.State(), m) && (c in safes + mines ==> c !in s.cells)
    {
      ghost var truth := Truthful(s.State(), m) && safes * m == {} && mines <= m;
      if c in safes {
        MarkSafeKeepsShape(s.State(), c);
        if truth {
          assert c !in m by { assert c !in safes * m; }
          MarkSafeSound(s.State(), c, m);
        }
        var _ := s.MarkSafe(c);
      }
      if c in mines {
        MarkMineKeepsShape(s.State(), c);
        if truth {
          MarkMineSound(s.State(), c, m);
        }
        var _ := s.MarkMine(c);
      }
    }

    /** Scans rows [0, rows) and columns [0, cols) in row-major order for a playable cell. */
    method ScanForPlayable(rows: int, cols: int) returns (r: Option<Cell>)
      ensures FirstPlayable(rows, cols, safes, movesMade, r)
    {
      var i := 0;
      while i < rows
        invariant 0 <= i && (i <= rows || i == 0)
        invariant forall p, q :: 0 <= p < i && 0 <= q < cols ==> !Playable((p, q), safes, movesMade)
      {
        var j := 0;
        while j < cols
          invariant 0 <= j && (j <= cols || j == 0)
          invariant forall q :: 0 <= q < j ==> !Playable((i, q), safes, movesMade)
        {
          if (i, j) !in movesMade && (i, j) in safes {
            return Some((i, j));
          }
          j := j + 1;
        }
        i := i + 1;
      }
      return None;
    }

    /**
     * `make_safe_move` as written: the outer loop runs over `width` and the
     * inner over `height`, so on a board that is not square it scans the
     * transposed rectangle.
     */
    method MakeSafeMoveAsWritten() returns (r: Option<Cell>)
      ensures FirstPlayable(width, height, safes, movesMade, r)
    {
      r := ScanForPlayable(width, height);
    }

    /** A safe cell not played yet, the first in row-major order, or None when there is none. */
    method MakeSafeMove() returns (r: Option<Cell>)
      ensures FirstPlayable(height, width, safes, movesMade, r)
      ensures r.Some? ==> OnBoard(height, width, r.value) && r.value in safes && r.value !in movesMade
      ensures r.None? <==> forall c :: OnBoard(height, width, c) ==> !Playable(c, safes, movesMade)
    {
      r := ScanForPlayable(height, width);
      if r.None? {
        forall c | OnBoard(height, width, c) ensures !Playable(c, safes, movesMade) {
          assert !Playable((c.0, c.1), safes, movesMade);
        }
      }
    }

    /**
     * Some available cell, or None when none is left. The random choice is not
     * modelled: any available cell may be returned.
     */
    method MakeRandomMove() returns (r: Option<Cell>)
      ensures r.Some? <==> |availiable| > 0
      ensures r.Some? ==> r.value in availiable
      ensures r.Some? && Clean() ==> r.value !in movesMade && r.value !in mines
    {
      if |availiable| > 0 {
        var k :| 0 <= k < |availiable|;
        r := Some(availiable[k]);
      } else {
        r := None;
      }
    }

    /**
     * The end of `add_knowledge`: marks every inferred safe cell, then removes
     * every inferred mine from the available cells (raising when it is not
     * there) and flags it.
     */
    method Conclude(safeCells: seq<Cell>, mineCells: seq<Cell>, ghost live: set<Sentence>, ghost m: set<Cell>)
        returns (raised: bool)
      requires Valid()
      modifies this, knowledge
      ensures Valid() && knowledge == old(knowledge) && movesMade == old(movesMade)
      ensures safes == old(safes) + Elements(safeCells)
      ensures old(mines) <= mines <= old(mines) + Elements(mineCells)
      ensures !raised ==> mines == old(mines) + Elements(mineCells)
      ensures forall k :: 0 <= k < |availiable| ==> availiable[k] in old(availiable)
      ensures old(Clean()) ==> Clean()
      ensures Elements(knowledge) <= live && old(AllTruthful(live, m)) && old(safes) * m == {} && old(mines) <= m &&
              (forall c :: c in safeCells ==> c !in m) && (forall c :: c in mineCells ==> c in m) ==>
                AllTruthful(live, m) && safes * m == {} && mines <= m
    {
      MarkSafes(safeCells, live, m);
      raised := RemoveMines(mineCells, live, m);
    }

    /** `MarkSafe`, together with the fact that it keeps every truthful sentence truthful when `c` is not a mine. */
    method MarkSafeKeepingTruth(c: Cell, ghost live: set<Sentence>, ghost m: set<Cell>)
      requires Valid()
      modifies this, knowledge
      ensures Valid() && knowledge == old(knowledge) && movesMade == old(movesMade)
      ensures availiable == old(availiable) && mines == old(mines) && safes == old(safes) + {c}
      ensures Elements(knowledge) <= live && c !in m && old(AllTruthful(live, m)) ==> AllTruthful(live, m)
    {
      ghost var truth := Elements(knowledge) <= live && c !in m && AllTruthful(live, m);
      label before:
      MarkSafe(c);
      if truth {
        forall s | s in live ensures Truthful(s.State(), m) {
          if s in Elements(knowledge) {
            var p :| 0 <= p < |knowledge| && knowledge[p] == s;
            MarkSafeSound(old@before(s.State()), c, m);
          }
        }
      }
    }

    /** `MarkMine`, together with the fact that it keeps every truthful sentence truthful when `c` is a mine. */
    method MarkMineKeepingTruth(c: Cell, ghost live: set<Sentence>, ghost m: set<Cell>)
      requires Valid()
      modifies this, knowledge
      ensures Valid() && knowledge == old(knowledge) && movesMade == old(movesMade)
      ensures availiable == old(availiable) && safes == old(safes) && mines == old(mines) + {c}
      ensures Elements(knowledge) <= live && c in m && old(AllTruthful(live, m)) ==> AllTruthful(live, m)
    {
      ghost var truth := Elements(knowledge) <= live && c in m && AllTruthful(live, m);
      label before:
      MarkMine(c);
      if truth {
        forall s | s in live ensures Truthful(s.State(), m) {
          if s in Elements(knowledge) {
            var p :| 0 <= p < |knowledge| && knowledge[p] == s;
            MarkMineSound(old@before(s.State()), c, m);
          }
        }
      }
    }

    /** Marks each cell of `safeCells` safe, in order. */
    method MarkSafes(safeCells: seq<Cell>, ghost live: set<Sentence>, ghost m: set<Cell>)
      requires Valid()
      modifies this, knowledge
      ensures Valid() && knowledge == old(knowledge) && movesMade == old(movesMade)
      ensures availiable == old(availiable) && mines == old(mines)
      ensures safes == old(safes) + Elements(safeCells)
      ensures Elements(knowledge) <= live && old(AllTruthful(live, m)) && old(safes) * m == {} &&
              (forall c :: c in safeCells ==> c !in m) ==>
                AllTruthful(live, m) && safes * m == {}
    {
      ghost var truth := Elements(knowledge) <= live && AllTruthful(live, m) && safes * m == {} &&
              (forall c :: c in safeCells ==> c !in m);
      var k := 0;
      while k < |safeCells|
        invariant 0 <= k <= |safeCells|
        invariant Valid() && knowledge == old(knowledge) && movesMade == old(movesMade)
        invariant availiable == old(availiable) && mines == old(mines)
        invariant safes == old(safes) + Elements(safeCells[..k])
        invariant truth ==> AllTruthful(live, m) && safes * m == {}
      {
        MarkSafeKeepingTruth(safeCells[k], live, m);
        assert safeCells[..k + 1] == safeCells[..k] + [safeCells[k]];
        k := k + 1;
      }
      assert safeCells[..k] == safeCells;
    }

    /**
     * For each cell of `mineCells` in order: removes it from the available
     * cells, raising when it is not there, and flags it as a mine.
     */
    method RemoveMines(mineCells: seq<Cell>, ghost live: set<Sentence>, ghost m: set<Cell>) returns (raised: bool)
      requires Valid()
      modifies this, knowledge
      ensures Valid() && knowledge == old(knowledge) && movesMade == old(movesMade) && safes == old(safes)
      ensures old(mines) <= mines <= old(mines) + Elements(mineCells)
      ensures !raised ==> mines == old(mines) + Elements(mineCells)
      ensures forall k :: 0 <= k < |availiable| ==> availiable[k] in old(availiable)
      ensures old(Clean()) ==> Clean()
      ensures Elements(knowledge) <= live && old(AllTruthful(live, m)) && old(mines) <= m &&
              (forall c :: c in mineCells ==> c in m) ==>
                AllTruthful(live, m) && mines <= m
    {
      ghost var truth := Elements(knowledge) <= live && AllTruthful(live, m) && mines <= m &&
              (forall c :: c in mineCells ==> c in m);
      ghost var clean := Clean();
      var k := 0;
      while k < |mineCells|
        invariant 0 <= k <= |mineCells|
        invariant Valid() && knowledge == old(knowledge) && movesMade == old(movesMade) && safes == old(safes)
        invariant mines == old(mines) + Elements(mineCells[..k])
        invariant forall p :: 0 <= p < |availiable| ==> availiable[p] in old(availiable)
        invariant clean ==> Clean()
        invariant truth ==> AllTruthful(live, m) && mines <= m
      {
        var c := mineCells[k];
        var idx := IndexOf(availiable, c);
        if idx == |availiable| {
          return true;
        }
        RemoveAtDistinct(availiable, idx);
        availiable := availiable[..idx] + availiable[idx + 1..];
        MarkMineKeepingTruth(c, live, m);
        assert mineCells[..k + 1] == mineCells[..k] + [c];
        k := k + 1;
      }
      assert mineCells[..k] == mineCells;
      raised := false;
    }

    /**
     * Takes in the count of mines the game reports around the played `cell`:
     * records the move, marks the cell safe, adds the sentence for its block,
     * runs the inference work-list (at most `fuel` steps) and applies what it
     * concluded; the inferred sentences become the new knowledge.
     */
    method AddKnowledge(cell: Cell, count: int, fuel: nat, ghost m: set<Cell>) returns (outcome: Outcome)
      requires Valid()
      modifies this, knowledge
      ensures Valid()
      ensures movesMade == old(movesMade) + {cell}
      ensures old(cell !in availiable) ==>
                outcome == Raised && safes == old(safes) && mines == old(mines) &&
                availiable == old(availiable) && knowledge == old(knowledge) &&
                forall k :: 0 <= k < |knowledge| ==> knowledge[k].State() == old(knowledge[k].State())
      ensures old(cell in availiable) ==> cell !in availiable && cell in safes
      ensures old(safes) <= safes && old(mines) <= mines
      ensures forall k :: 0 <= k < |availiable| ==> availiable[k] in old(availiable)
      ensures old(Clean()) ==> Clean()
      ensures old(cell !in m && count == |Block(height, width, cell) * m| && Sound(m)) ==> Sound(m)
    {
      var ok := Play(cell, m);
      if !ok {
        return Raised;
      }
      ghost var popped;
      outcome, popped := Learn(cell, count, fuel, m);
    }

    /** Records `cell` as played, removes it from the available cells and marks it safe everywhere. */
    method Play(cell: Cell, ghost m: set<Cell>) returns (ok: bool)
      requires Valid()
      modifies this, knowledge
      ensures Valid() && knowledge == old(knowledge) && mines == old(mines)
      ensures movesMade == old(movesMade) + {cell}
      ensures ok <==> old(cell in availiable)
      ensures !ok ==> (safes == old(safes) && availiable == old(availiable) &&
                forall k :: 0 <= k < |knowledge| ==> knowledge[k].State() == old(knowledge[k].State()))
      ensures ok ==> cell !in availiable && safes == old(safes) + {cell}
      ensures forall k :: 0 <= k < |availiable| ==> availiable[k] in old(availiable)
      ensures old(Clean()) ==> Clean()
      ensures old(cell !in m && Sound(m)) ==> Sound(m)
    {
      ghost var truth := cell !in m && Sound(m);
      movesMade := movesMade + {cell};
      var idx := IndexOf(availiable, cell);
      if idx == |availiable| {
        return false;
      }
      RemoveAtDistinct(availiable, idx);
      availiable := availiable[..idx] + availiable[idx + 1..];
      label marked:
      MarkSafe(cell);
      if truth {
        forall k | 0 <= k < |knowledge| ensures Truthful(knowledge[k].State(), m) {
          MarkSafeSound(old@marked(knowledge[k].State()), cell, m);
        }
      }
      ok := true;
    }

    /**
     * Everything `add_knowledge` does after the played cell has been marked
     * safe: the block sentence is appended, then the work-list runs over the
     * whole knowledge and its conclusions are applied.
     */
    method Learn(cell: Cell, count: int, fuel: nat, ghost m: set<Cell>) returns (outcome: Outcome, ghost popped: seq<SentenceState>)
      requires Valid()
      modifies this, knowledge
      ensures Valid() && movesMade == old(movesMade)
      ensures old(safes) <= safes && old(mines) <= mines
      ensures forall k :: 0 <= k < |availiable| ==> availiable[k] in old(availiable)
      ensures old(Clean()) ==> Clean()
      ensures outcome != Completed ==>
                |knowledge| == |old(knowledge)| + 1 && knowledge[..|old(knowledge)|] == old(knowledge) &&
                fresh(knowledge[|old(knowledge)|])
      ensures outcome == OutOfFuel ==>
                safes == old(safes) && mines == old(mines) && availiable == old(availiable) &&
                Mentioned(knowledge[|old(knowledge)|].State()) == Block(height, width, cell)
      ensures outcome != OutOfFuel ==>
                safes == old(safes) + SafeReports(popped) && mines <= old(mines) + MineReports(popped)
      ensures outcome == Completed ==>
                mines == old(mines) + MineReports(popped) &&
                forall s :: s in knowledge ==> s in old(knowledge) || fresh(s)
      ensures old(count == |Block(height, width, cell) * m| && Sound(m)) ==> Sound(m)
    {
      Extend(cell, count, m);
      outcome, popped := InferAndConclude(fuel, m);
    }

    /** Appends the sentence for the played cell's block to the knowledge. */
    method Extend(cell: Cell, count: int, ghost m: set<Cell>)
      requires Valid()
      modifies this
      ensures Valid() && |knowledge| == |old(knowledge)| + 1 && knowledge[..|old(knowledge)|] == old(knowledge)
      ensures fresh(knowledge[|knowledge| - 1])
      ensures Mentioned(knowledge[|knowledge| - 1].State()) == Block(height, width, cell)
      ensures movesMade == old(movesMade) && safes == old(safes) && mines == old(mines) && availiable == old(availiable)
      ensures old(count == |Block(height, width, cell) * m| && Sound(m)) ==> Sound(m)
    {
      var s := NewSentence(cell, count, m);
      AppendDistinct(knowledge, s);
      knowledge := knowledge + [s];
    }

    /**
     * Runs the inference work-list over the whole knowledge and applies its
     * conclusions: the reported safe cells join the safes, the reported mines
     * leave the available cells and are flagged. When this completes, the
     * sentences the work-list kept become the knowledge: old sentences, and
     * derived ones that decide nothing by themselves.
     */
    method InferAndConclude(fuel: nat, ghost m: set<Cell>) returns (outcome: Outcome, ghost popped: seq<SentenceState>)
      requires Valid()
      modifies this, knowledge
      ensures Valid() && movesMade == old(movesMade)
      ensures old(safes) <= safes && old(mines) <= mines
      ensures forall k :: 0 <= k < |availiable| ==> availiable[k] in old(availiable)
      ensures old(Clean()) ==> Clean()
      ensures outcome == OutOfFuel ==>
                safes == old(safes) && mines == old(mines) && availiable == old(availiable) &&
                knowledge == old(knowledge) &&
                forall k :: 0 <= k < |knowledge| ==> Mentioned(knowledge[k].State()) == old(Mentioned(knowledge[k].State()))
      ensures outcome != OutOfFuel ==>
                safes == old(safes) + SafeReports(popped) && mines <= old(mines) + MineReports(popped)
      ensures outcome == Raised ==> knowledge == old(knowledge)
      ensures outcome == Completed ==>
                mines == old(mines) + MineReports(popped) &&
                forall s :: s in knowledge ==> s in old(knowledge) || (fresh(s) && Undecided(s.State()) && s.State() in popped)
      ensures old(Sound(m)) ==> Sound(m)
    {
      ghost var truth := Sound(m);
      assert truth ==> AllTruthful(Elements(knowledge), m);
      var updated, safeCells, mineCells;
      outcome, updated, safeCells, mineCells, popped := Infer(knowledge, fuel, m);
      if outcome == Completed {
        ghost var live := Elements(knowledge) + Elements(updated);
        var raised := Conclude(safeCells, mineCells, live, m);
        if raised {
          outcome := Raised;
        } else {
          assert truth ==> forall k :: 0 <= k < |updated| ==> updated[k] in live;
          knowledge := updated;
        }
      }
    }
  }

  function Max(a: int, b: int): int { if a < b then b else a }

  function Min(a: int, b: int): int { if a < b then a else b }
}
