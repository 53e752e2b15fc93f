/**
 * The crossword generator: a constraint-satisfaction solver that fills the
 * slots of a crossword grid with words. Each slot (a `Variable`) has a domain
 * of candidate words. The domains are pruned by word length (node
 * consistency) and by one pass of arc pruning over the crossing slots. A
 * backtracking search then picks slots by fewest remaining values and tries
 * words by least-constraining value.
 *
 * The `Crossword` structure itself (the grid, the slots and their crossings)
 * is read from files by a module that is not part of this model. Here it is a
 * given value, and `WellFormed` states what that module guarantees about it.
 */
module Generate {
  import opened Wrappers
  import opened Collections

  datatype Direction = Across | Down

  /** A slot of the grid: the cell of its first letter, its direction and its length. */
  datatype Variable = Variable(i: int, j: int, direction: Direction, length: nat)

  type Word = string
  type Arc = (Variable, Variable)
  type Domains = map<Variable, set<Word>>
  type Assignment = map<Variable, Word>

  /** The (row, column) cell holding letter `k` of slot `v`. */
  function CellOf(v: Variable, k: int): (int, int) {
    (v.i + (if v.direction == Down then k else 0), v.j + (if v.direction == Across then k else 0))
  }

  /**
   * A puzzle: the grid size, its slots (in the order the solver visits them),
   * the vocabulary, and for each pair of crossing slots (u, v) the letter
   * positions (p, q) such that letter p of u and letter q of v share a cell.
   * Pairs that do not cross are absent from `overlaps`.
   */
  datatype Crossword = Crossword(
    height: nat,
    width: nat,
    variables: seq<Variable>,
    words: set<Word>,
    overlaps: map<Arc, (nat, nat)>)

  /** The crossing recorded for the ordered pair (u, v), as `None` when they do not cross. */
  function Overlap(cw: Crossword, u: Variable, v: Variable): Option<(nat, nat)> {
    if (u, v) in cw.overlaps then Some(cw.overlaps[(u, v)]) else None
  }

  /** The crossing of (u, v) joins two distinct slots at a shared cell, and (v, u) is its mirror. */
  predicate OverlapFits(cw: Crossword, u: Variable, v: Variable)
    requires (u, v) in cw.overlaps
  {
    var (p, q) := cw.overlaps[(u, v)];
    && u in cw.variables && v in cw.variables && u != v
    && p < u.length && q < v.length
    && CellOf(u, p) == CellOf(v, q)
    && (v, u) in cw.overlaps && cw.overlaps[(v, u)] == (q, p)
  }

  /** What the structure reader guarantees: distinct slots inside the grid, and mirrored crossings. */
  ghost predicate WellFormed(cw: Crossword) {
    && Distinct(cw.variables)
    && (forall v, k :: v in cw.variables && 0 <= k < v.length ==>
          0 <= CellOf(v, k).0 < cw.height && 0 <= CellOf(v, k).1 < cw.width)
    && (forall u, v :: (u, v) in cw.overlaps ==> OverlapFits(cw, u, v))
  }

  /** Every shared cell of two distinct slots is the recorded crossing of that pair. */
  predicate CrossingsRecorded(cw: Crossword) {
    forall u, v, p, q {:trigger CellOf(u, p), CellOf(v, q)} ::
      u in cw.variables && v in cw.variables && u != v && 0 <= p < u.length && 0 <= q < v.length &&
      CellOf(u, p) == CellOf(v, q) ==>
        (u, v) in cw.overlaps && cw.overlaps[(u, v)] == (p, q)
  }

  // ---------------------------------------------------------------------------
  // Domains and their pruning
  // ---------------------------------------------------------------------------

  /** Letter p of a equals letter q of b (both positions inside their words). */
  predicate Agree(a: Word, p: int, b: Word, q: int) {
    0 <= p < |a| && 0 <= q < |b| && a[p] == b[q]
  }

  /** Every word left in a slot's domain has the slot's length. */
  predicate NodeConsistent(d: Domains) {
    forall v, w :: v in d && w in d[v] ==> |w| == v.length
  }

  /** The words of `words` whose length differs from the slot's. */
  function WrongLength(words: set<Word>, v: Variable): set<Word> {
    set w | w in words && |w| != v.length
  }

  /** Some word of `ys` has at its position q the letter `w` has at p. */
  predicate Supported(w: Word, p: int, ys: set<Word>, q: int) {
    exists y :: y in ys && Agree(w, p, y, q)
  }

  /** The words of `xs` supported by some word of `ys` at the crossing `o`. */
  function Revised(xs: set<Word>, ys: set<Word>, o: (nat, nat)): set<Word> {
    set w | w in xs && Supported(w, o.0, ys, o.1)
  }

  /** The domains after making slot `arc.0` arc consistent with slot `arc.1`. */
  function ReviseDomains(cw: Crossword, d: Domains, arc: Arc): (r: Domains)
    ensures r.Keys == d.Keys
  {
    var (x, y) := arc;
    if x in d && y in d && Overlap(cw, x, y).Some? then
      d[x := Revised(d[x], d[y], Overlap(cw, x, y).value)]
    else
      d
  }

  /** The domains after revising each arc of `arcs` once, in order. */
  function Sweep(cw: Crossword, d: Domains, arcs: seq<Arc>): (r: Domains)
    ensures r.Keys == d.Keys
    decreases |arcs|
  {
    if arcs == [] then d
    else ReviseDomains(cw, Sweep(cw, d, arcs[..|arcs| - 1]), arcs[|arcs| - 1])
  }

  /** Some revision along `arcs` removed words from its slot and left that slot's domain empty. */
  function Emptied(cw: Crossword, d: Domains, arcs: seq<Arc>): bool
    decreases |arcs|
  {
    if arcs == [] then false
    else
      var before := Sweep(cw, d, arcs[..|arcs| - 1]);
      var after := ReviseDomains(cw, before, arcs[|arcs| - 1]);
      var x := arcs[|arcs| - 1].0;
      Emptied(cw, d, arcs[..|arcs| - 1]) || (x in before && after[x] != before[x] && after[x] == {})
  }

  /** Sweeping one more arc revises the result of the shorter sweep along it. */
  lemma SweepStep(cw: Crossword, d: Domains, arcs: seq<Arc>, k: nat)
    requires k < |arcs|
    ensures Sweep(cw, d, arcs[..k + 1]) == ReviseDomains(cw, Sweep(cw, d, arcs[..k]), arcs[k])
    ensures Emptied(cw, d, arcs[..k + 1]) <==>
      || Emptied(cw, d, arcs[..k])
      || (arcs[k].0 in Sweep(cw, d, arcs[..k]) &&
          Sweep(cw, d, arcs[..k + 1])[arcs[k].0] != Sweep(cw, d, arcs[..k])[arcs[k].0] &&
          Sweep(cw, d, arcs[..k + 1])[arcs[k].0] == {})
  {
    assert arcs[..k + 1][..k] == arcs[..k];
  }

  /** The pairs (vs[i], vs[k]) for i < k < j, in order of k. */
  function PairsWith(vs: seq<Variable>, i: nat, j: nat): seq<Arc>
    requires i < j <= |vs|
    decreases j
  {
    if j == i + 1 then [] else PairsWith(vs, i, j - 1) + [(vs[i], vs[j - 1])]
  }

  /** The pairs (vs[i], vs[k]) for i < n and i < k, ordered by i and then by k. */
  function ArcsBefore(vs: seq<Variable>, n: nat): seq<Arc>
    requires n <= |vs|
  {
    if n == 0 then [] else ArcsBefore(vs, n - 1) + PairsWith(vs, n - 1, |vs|)
  }

  /** Every pair of slots (vs[i], vs[j]) with i < j, in the order a nested loop over i and j lists them. */
  function AllArcs(vs: seq<Variable>): seq<Arc> {
    ArcsBefore(vs, |vs|)
  }

  /** The arcs a call of ac3 revises: the given ones, or all forward pairs. */
  function ArcsOrAll(cw: Crossword, arcs: Option<seq<Arc>>): seq<Arc> {
    if arcs.Some? then arcs.value else AllArcs(cw.variables)
  }

  /** Each arc joins two distinct slots of the puzzle. */
  predicate ProperArcs(cw: Crossword, arcs: seq<Arc>) {
    forall k :: 0 <= k < |arcs| ==>
      arcs[k].0 in cw.variables && arcs[k].1 in cw.variables && arcs[k].0 != arcs[k].1
  }

  // ---------------------------------------------------------------------------
  // Assignments
  // ---------------------------------------------------------------------------

  /** Each assigned word has its slot's length. */
  predicate LengthsMatch(a: Assignment) {
    forall v :: v in a ==> |a[v]| == v.length
  }

  /** Lengths match, and every two assigned crossing slots agree on their shared letter. */
  predicate IsConsistent(cw: Crossword, a: Assignment) {
    && LengthsMatch(a)
    && forall u, v :: u in a && v in a && (u, v) in cw.overlaps ==>
         Agree(a[u], cw.overlaps[(u, v)].0, a[v], cw.overlaps[(u, v)].1)
  }

  /** Every slot of the puzzle is assigned. */
  predicate IsComplete(cw: Crossword, a: Assignment) {
    forall v :: v in cw.variables ==> v in a
  }

  /** `big` keeps every entry of `small`. */
  predicate Extends(big: Assignment, small: Assignment) {
    forall v :: v in small ==> v in big && big[v] == small[v]
  }

  /** `e` is a solution that extends `a` and takes each newly filled slot's word from its domain. */
  predicate IsExtension(cw: Crossword, d: Domains, a: Assignment, e: Assignment) {
    && e.Keys <= Elements(cw.variables)
    && IsComplete(cw, e) && IsConsistent(cw, e) && Extends(e, a)
    && forall v :: v in e && v !in a ==> v in d && e[v] in d[v]
  }

  /** Some solution extends `a` using words of the domains. */
  ghost predicate Solvable(cw: Crossword, d: Domains, a: Assignment) {
    exists e :: IsExtension(cw, d, a, e)
  }

  /** A complete consistent assignment of words of the vocabulary to exactly the puzzle's slots. */
  predicate IsSolution(cw: Crossword, e: Assignment) {
    e.Keys == Elements(cw.variables) && IsConsistent(cw, e) && forall v :: v in e ==> e[v] in cw.words
  }

  /** Some word of `ys` differs at its position q from the letter `w` has at p. */
  predicate Clashes(w: Word, p: int, ys: set<Word>, q: int) {
    exists y :: y in ys && !Agree(w, p, y, q)
  }

  /** Some word of `xs` clashes with some word of `ys` at the crossing (p, q). */
  predicate AnyClash(xs: set<Word>, p: int, ys: set<Word>, q: int) {
    exists x :: x in xs && Clashes(x, p, ys, q)
  }

  /** Placing `w` in `x` rules out a value of the unassigned slot `v` that crosses `x`. */
  predicate RulesOut(cw: Crossword, d: Domains, x: Variable, a: Assignment, w: Word, v: Variable) {
    && v in d && v !in a && v != x
    && Overlap(cw, x, v).Some?
    && Clashes(w, Overlap(cw, x, v).value.0, d[v], Overlap(cw, x, v).value.1)
  }

  /** How many slots of `vs` placing `w` in `x` rules values out of. */
  function CountRulingOut(cw: Crossword, d: Domains, x: Variable, a: Assignment, w: Word, vs: seq<Variable>): (r: nat)
    ensures r <= |vs|
    decreases |vs|
  {
    if vs == [] then 0
    else CountRulingOut(cw, d, x, a, w, vs[..|vs| - 1]) + (if RulesOut(cw, d, x, a, w, vs[|vs| - 1]) then 1 else 0)
  }

  /** The least-constraining-value score of `w` for slot `x`: lower constrains the neighbours less. */
  function Score(cw: Crossword, d: Domains, x: Variable, a: Assignment, w: Word): nat {
    CountRulingOut(cw, d, x, a, w, cw.variables)
  }

  /** `w` agrees with every assigned slot crossing `v`. */
  predicate FitsAssigned(cw: Crossword, v: Variable, w: Word, a: Assignment) {
    forall u :: u in a && (v, u) in cw.overlaps ==>
      Agree(w, cw.overlaps[(v, u)].0, a[u], cw.overlaps[(v, u)].1)
  }

  /** The words of v's domain that agree with the current assignment. */
  function Filtered(cw: Crossword, d: Domains, v: Variable, a: Assignment): set<Word>
    requires v in d
  {
    set w | w in d[v] && FitsAssigned(cw, v, w, a)
  }

  /** `v` is unassigned and still has a value that agrees with the assignment. */
  predicate Live(cw: Crossword, d: Domains, a: Assignment, v: Variable) {
    v in d && v !in a && Filtered(cw, d, v, a) != {}
  }

  /** Some slot of `done` that `a` assigns has a letter in `cell`. */
  ghost predicate Covered(a: Assignment, done: set<Variable>, cell: (int, int)) {
    exists v, k :: v in done && v in a && 0 <= k < |a[v]| && CellOf(v, k) == cell
  }

  /** The live slots other than `c` that cross it with some clashing pair of remaining values. */
  function Conflicting(cw: Crossword, left: map<Variable, set<Word>>, c: Variable): set<Variable>
    requires c in left
  {
    set n | n in left && n != c && Overlap(cw, c, n).Some? &&
      AnyClash(left[c], Overlap(cw, c, n).value.0, left[n], Overlap(cw, c, n).value.1)
  }

  /** No live slot after `v` in key order has as few remaining values as `v`. */
  predicate LastOfTies(cw: Crossword, d: Domains, a: Assignment, v: Variable)
    requires v in d
  {
    forall i, j :: 0 <= i < j < |cw.variables| && cw.variables[i] == v && Live(cw, d, a, cw.variables[j]) ==>
      |Filtered(cw, d, cw.variables[j], a)| != |Filtered(cw, d, v, a)|
  }

  // ---------------------------------------------------------------------------
  // Lemmas about the specification
  // ---------------------------------------------------------------------------

  /** Revising never adds words: every domain after a sweep is a subset of the one before. */
  lemma {:induction false} SweepShrinks(cw: Crossword, d: Domains, arcs: seq<Arc>)
    ensures forall v :: v in d ==> Sweep(cw, d, arcs)[v] <= d[v]
    decreases |arcs|
  {
    if arcs != [] {
      SweepShrinks(cw, d, arcs[..|arcs| - 1]);
    }
  }

  /** A word of a solution survives every revision: the solution's crossing word supports it. */
  lemma {:induction false} SweepKeepsSolution(cw: Crossword, d: Domains, arcs: seq<Arc>, e: Assignment)
    requires IsConsistent(cw, e)
    requires forall v :: v in d ==> v in e && e[v] in d[v]
    ensures forall v :: v in d ==> e[v] in Sweep(cw, d, arcs)[v]
    decreases |arcs|
  {
    if arcs != [] {
      var init := arcs[..|arcs| - 1];
      SweepKeepsSolution(cw, d, init, e);
      var before := Sweep(cw, d, init);
      var (x, y) := arcs[|arcs| - 1];
      if x in before && y in before && Overlap(cw, x, y).Some? {
        var o := Overlap(cw, x, y).value;
        assert Agree(e[x], o.0, e[y], o.1);
        assert e[x] in Revised(before[x], before[y], o);
      }
    }
  }

  /**
   * With every domain initially nonempty, some revision along `arcs` empties
   * a domain exactly when some domain is empty after the sweep.
   */
  lemma {:induction false} EmptiedIffSomeDomainEmpty(cw: Crossword, d: Domains, arcs: seq<Arc>)
    requires forall v :: v in d ==> d[v] != {}
    ensures Emptied(cw, d, arcs) <==> exists v :: v in d && Sweep(cw, d, arcs)[v] == {}
    decreases |arcs|
  {
    if arcs != [] {
      var init := arcs[..|arcs| - 1];
      EmptiedIffSomeDomainEmpty(cw, d, init);
      var before := Sweep(cw, d, init);
      var after := Sweep(cw, d, arcs);
      assert after == ReviseDomains(cw, before, arcs[|arcs| - 1]);
      var x := arcs[|arcs| - 1].0;
      if Emptied(cw, d, init) {
        var v :| v in d && before[v] == {};
        SweepShrinks(cw, before, [arcs[|arcs| - 1]]);
        assert Sweep(cw, before, [arcs[|arcs| - 1]]) == after by {
          assert [arcs[|arcs| - 1]][..0] == [];
        }
        assert after[v] == {};
      } else if Emptied(cw, d, arcs) {
        assert after[x] == {};
      } else {
        forall v | v in d
          ensures after[v] != {}
        {
          if v != x {
            assert after[v] == before[v];
          }
        }
      }
    }
  }

  /** The members of `PairsWith(vs, i, j)`. */
  lemma {:induction false} PairsWithMembers(vs: seq<Variable>, i: nat, j: nat)
    requires i < j <= |vs|
    ensures |PairsWith(vs, i, j)| == j - i - 1
    ensures forall k :: 0 <= k < |PairsWith(vs, i, j)| ==> PairsWith(vs, i, j)[k] == (vs[i], vs[i + 1 + k])
    decreases j
  {
    if j != i + 1 {
      PairsWithMembers(vs, i, j - 1);
    }
  }

  /** Each arc of `ArcsBefore(vs, n)` is a forward pair whose first slot is among the first n. */
  lemma {:induction false} ArcsBeforeSound(vs: seq<Variable>, n: nat)
    requires n <= |vs|
    ensures forall t :: 0 <= t < |ArcsBefore(vs, n)| ==>
      exists i, k :: 0 <= i < n && i < k < |vs| && ArcsBefore(vs, n)[t] == (vs[i], vs[k])
    decreases n
  {
    if n != 0 {
      ArcsBeforeSound(vs, n - 1);
      PairsWithMembers(vs, n - 1, |vs|);
      var prefix := ArcsBefore(vs, n - 1);
      var pairs := PairsWith(vs, n - 1, |vs|);
      assert ArcsBefore(vs, n) == prefix + pairs;
      forall t | 0 <= t < |ArcsBefore(vs, n)|
        ensures exists i, k :: 0 <= i < n && i < k < |vs| && ArcsBefore(vs, n)[t] == (vs[i], vs[k])
      {
        if t < |prefix| {
          var i, k :| 0 <= i < n - 1 && i < k < |vs| && prefix[t] == (vs[i], vs[k]);
          assert 0 <= i < n && i < k < |vs| && ArcsBefore(vs, n)[t] == (vs[i], vs[k]);
        } else {
          var s := t - |prefix|;
          assert ArcsBefore(vs, n)[t] == pairs[s] == (vs[n - 1], vs[n + s]);
        }
      }
    } else {
      assert ArcsBefore(vs, n) == [];
    }
  }

  /** Each forward pair whose first slot is among the first n is an arc of `ArcsBefore(vs, n)`. */
  lemma {:induction false} ArcsBeforeComplete(vs: seq<Variable>, n: nat)
    requires n <= |vs|
    ensures forall i, k :: 0 <= i < n && i < k < |vs| ==> (vs[i], vs[k]) in ArcsBefore(vs, n)
    decreases n
  {
    if n != 0 {
      ArcsBeforeComplete(vs, n - 1);
      PairsWithMembers(vs, n - 1, |vs|);
      var prefix := ArcsBefore(vs, n - 1);
      var pairs := PairsWith(vs, n - 1, |vs|);
      assert ArcsBefore(vs, n) == prefix + pairs;
      forall i, k | 0 <= i < n && i < k < |vs|
        ensures (vs[i], vs[k]) in ArcsBefore(vs, n)
      {
        if i == n - 1 {
          assert ArcsBefore(vs, n)[|prefix| + k - n] == pairs[k - n] == (vs[i], vs[k]);
        } else {
          var t :| 0 <= t < |prefix| && prefix[t] == (vs[i], vs[k]);
          assert ArcsBefore(vs, n)[t] == (vs[i], vs[k]);
        }
      }
    }
  }

  /** The initial arcs of ac3 are exactly the pairs (vs[i], vs[j]) with i < j. */
  lemma AllArcsMembers(vs: seq<Variable>)
    ensures forall t :: 0 <= t < |AllArcs(vs)| ==>
      exists i, j :: 0 <= i < j < |vs| && AllArcs(vs)[t] == (vs[i], vs[j])
    ensures forall i, j :: 0 <= i < j < |vs| ==> (vs[i], vs[j]) in AllArcs(vs)
  {
    assert AllArcs(vs) == ArcsBefore(vs, |vs|);
    ArcsBeforeSound(vs, |vs|);
    ArcsBeforeComplete(vs, |vs|);
  }

  /** Over distinct slots, no pair occurs twice among the initial arcs of ac3. */
  lemma {:induction false} ArcsBeforeDistinct(vs: seq<Variable>, n: nat)
    requires Distinct(vs) && n <= |vs|
    ensures Distinct(ArcsBefore(vs, n))
    decreases n
  {
    if n != 0 {
      ArcsBeforeDistinct(vs, n - 1);
      ArcsBeforeSound(vs, n - 1);
      PairsWithMembers(vs, n - 1, |vs|);
      var prefix := ArcsBefore(vs, n - 1);
      var pairs := PairsWith(vs, n - 1, |vs|);
      forall p, q | 0 <= p < q < |prefix + pairs|
        ensures (prefix + pairs)[p] != (prefix + pairs)[q]
      {
        if p < |prefix| <= q {
          var i, k :| 0 <= i < n - 1 && i < k < |vs| && prefix[p] == (vs[i], vs[k]);
          assert (prefix + pairs)[q].0 == vs[n - 1];
        } else if |prefix| <= p {
          assert (prefix + pairs)[p] == pairs[p - |prefix|];
          assert (prefix + pairs)[q] == pairs[q - |prefix|];
        }
      }
    }
  }

  /** The initial arcs of ac3 join distinct slots of the puzzle, each pair once. */
  lemma AllArcsProper(cw: Crossword)
    requires Distinct(cw.variables)
    ensures ProperArcs(cw, AllArcs(cw.variables)) && Distinct(AllArcs(cw.variables))
  {
    var vs := cw.variables;
    AllArcsMembers(vs);
    ArcsBeforeDistinct(vs, |vs|);
    forall k | 0 <= k < |AllArcs(vs)|
      ensures AllArcs(vs)[k].0 in vs && AllArcs(vs)[k].1 in vs && AllArcs(vs)[k].0 != AllArcs(vs)[k].1
    {
      var i, j :| 0 <= i < j < |vs| && AllArcs(vs)[k] == (vs[i], vs[j]);
    }
  }

  /** Dropping entries from a consistent assignment keeps it consistent (there is no duplicate-word rule). */
  lemma SubAssignmentConsistent(cw: Crossword, small: Assignment, big: Assignment)
    requires Extends(big, small) && IsConsistent(cw, big)
    ensures IsConsistent(cw, small)
  {
  }

  /** An extending solution's word for an unassigned slot agrees with the assignment. */
  lemma ExtensionWordFits(cw: Crossword, d: Domains, a: Assignment, e: Assignment, v: Variable)
    requires IsExtension(cw, d, a, e) && v in d && v in e && v !in a
    ensures e[v] in Filtered(cw, d, v, a)
  {
    forall u | u in a && (v, u) in cw.overlaps
      ensures Agree(e[v], cw.overlaps[(v, u)].0, a[u], cw.overlaps[(v, u)].1)
    {
      assert e[u] == a[u];
    }
  }

  /**
   * A puzzle with two crossing slots whose words disagree at the crossing:
   * the single forward arc empties the first slot's domain, although every
   * domain starts nonempty and node consistent.
   */
  lemma Ac3MissesEmptiedDomain()
    ensures var x := Variable(0, 0, Across, 2);
            var y := Variable(0, 1, Down, 2);
            var cw := Crossword(2, 2, [x, y], {"ab", "cd"}, map[(x, y) := (1, 0), (y, x) := (0, 1)]);
            var d := map[x := {"ab"}, y := {"cd"}];
            && WellFormed(cw) && NodeConsistent(d)
            && (forall v :: v in d ==> d[v] != {})
            && Sweep(cw, d, AllArcs(cw.variables))[x] == {}
  {
    var x := Variable(0, 0, Across, 2);
    var y := Variable(0, 1, Down, 2);
    var cw := Crossword(2, 2, [x, y], {"ab", "cd"}, map[(x, y) := (1, 0), (y, x) := (0, 1)]);
    var d := map[x := {"ab"}, y := {"cd"}];
    assert AllArcs(cw.variables) == [(x, y)] by {
      assert PairsWith([x, y], 0, 2) == [(x, y)];
      assert ArcsBefore([x, y], 1) == [(x, y)];
      assert PairsWith([x, y], 1, 2) == [];
    }
    assert !Supported("ab", 1, {"cd"}, 0) by {
      forall w | w in {"cd"} ensures !Agree("ab", 1, w, 0) {
        assert w == "cd";
      }
    }
    assert Revised({"ab"}, {"cd"}, (1, 0)) == {};
    assert [(x, y)][..0] == [];
  }

  /** A puzzle without slots is solved by the empty assignment. */
  lemma EmptyPuzzleIsSolved(cw: Crossword)
    requires cw.variables == []
    ensures IsComplete(cw, map[]) && IsSolution(cw, map[])
  {
  }

  /** Letter p of a pair of crossing slots agrees, whenever the two cross. */
  predicate PairAgrees(cw: Crossword, a: Assignment, u: Variable, v: Variable)
    requires u in a && v in a
  {
    (u, v) in cw.overlaps ==> Agree(a[u], cw.overlaps[(u, v)].0, a[v], cw.overlaps[(u, v)].1)
  }

  /** Checking each unordered pair of a key list once suffices, because crossings are mirrored. */
  lemma PairsSuffice(cw: Crossword, a: Assignment, keys: seq<Variable>)
    requires WellFormed(cw) && LengthsMatch(a) && Elements(keys) == a.Keys
    requires forall p, q :: 0 <= p < q < |keys| ==> PairAgrees(cw, a, keys[p], keys[q])
    ensures IsConsistent(cw, a)
  {
    forall u, v | u in a && v in a && (u, v) in cw.overlaps
      ensures Agree(a[u], cw.overlaps[(u, v)].0, a[v], cw.overlaps[(u, v)].1)
    {
      assert u in Elements(keys) && v in Elements(keys);
      var p :| 0 <= p < |keys| && keys[p] == u;
      var q :| 0 <= q < |keys| && keys[q] == v;
      assert OverlapFits(cw, u, v);
      if q < p {
        assert PairAgrees(cw, a, v, u);
      }
    }
  }

  /** In a consistent assignment, two slots through the same cell put the same letter there. */
  lemma SharedCellLetter(cw: Crossword, a: Assignment, u: Variable, p: int, v: Variable, q: int)
    requires IsConsistent(cw, a) && CrossingsRecorded(cw)
    requires u in a && v in a && u in cw.variables && v in cw.variables && u != v
    requires 0 <= p < |a[u]| && 0 <= q < |a[v]| && CellOf(u, p) == CellOf(v, q)
    ensures a[u][p] == a[v][q]
  {
    assert (u, v) in cw.overlaps && cw.overlaps[(u, v)] == (p, q);
  }

  /** A solution extending a complete assignment is that assignment, so the assignment is consistent. */
  lemma CompleteSolvableIsConsistent(cw: Crossword, d: Domains, a: Assignment)
    requires IsComplete(cw, a) && a.Keys <= Elements(cw.variables)
    ensures Solvable(cw, d, a) ==> IsConsistent(cw, a)
    ensures IsConsistent(cw, a) ==> IsExtension(cw, d, a, a)
  {
    if Solvable(cw, d, a) {
      var e :| IsExtension(cw, d, a, e);
      assert e == a;
    }
  }

  /** An extension of an extension of `a` that fills one more slot from its domain extends `a`. */
  lemma ExtensionStep(cw: Crossword, d: Domains, a: Assignment, v: Variable, w: Word, e: Assignment)
    requires v !in a && v in d && w in d[v]
    requires IsExtension(cw, d, a[v := w], e)
    ensures IsExtension(cw, d, a, e)
  {
  }

  /** A solution extending `a` that puts `w` in `v` also extends `a` with `w` in `v`. */
  lemma ExtensionRefines(cw: Crossword, d: Domains, a: Assignment, v: Variable, w: Word, e: Assignment)
    requires IsExtension(cw, d, a, e)
    ensures v in e && e[v] == w ==> IsExtension(cw, d, a[v := w], e)
  {
  }

  /** Only a consistent assignment has a solution extending it. */
  lemma SolvableIsConsistent(cw: Crossword, d: Domains, a: Assignment)
    ensures Solvable(cw, d, a) ==> IsConsistent(cw, a)
  {
    if Solvable(cw, d, a) {
      var e :| IsExtension(cw, d, a, e);
      SubAssignmentConsistent(cw, a, e);
    }
  }

  /** A solution extending `a` puts in slot `v` a word that keeps `a` consistent. */
  lemma ExtensionWordListed(cw: Crossword, d: Domains, a: Assignment, v: Variable, e: Assignment)
    requires IsExtension(cw, d, a, e) && v in e && v !in a
    ensures e[v] in d[v] && IsConsistent(cw, a[v := e[v]])
  {
    SubAssignmentConsistent(cw, a[v := e[v]], e);
  }

  /** Assigning one more slot of the puzzle leaves fewer slots unassigned. */
  lemma FewerUnassigned(cw: Crossword, a: Assignment, v: Variable, w: Word)
    requires v in Elements(cw.variables) && v !in a
    ensures |Elements(cw.variables) - a[v := w].Keys| < |Elements(cw.variables) - a.Keys|
  {
    var after := Elements(cw.variables) - a[v := w].Keys;
    assert Elements(cw.variables) - a.Keys == after + {v};
  }

  /** When some solution extends an incomplete assignment, some slot is live. */
  lemma LiveWhenSolvable(cw: Crossword, d: Domains, a: Assignment)
    requires d.Keys == Elements(cw.variables)
    ensures !IsComplete(cw, a) && Solvable(cw, d, a) ==> exists v :: v in d && Live(cw, d, a, v)
  {
    if !IsComplete(cw, a) && Solvable(cw, d, a) {
      var e :| IsExtension(cw, d, a, e);
      var u :| u in cw.variables && u !in a;
      ExtensionWordFits(cw, d, a, e, u);
      assert Live(cw, d, a, u);
    }
  }

  /** Filling the one unassigned slot left, consistently and from its domain, extends `a`. */
  lemma CompletedByOne(cw: Crossword, d: Domains, a: Assignment, v: Variable, w: Word)
    requires d.Keys == Elements(cw.variables) && a.Keys <= Elements(cw.variables)
    requires v in d && v !in a && w in d[v]
    requires IsComplete(cw, a[v := w]) && IsConsistent(cw, a[v := w])
    ensures IsExtension(cw, d, a, a[v := w])
  {
  }

  /** A solution of the puzzle whose every word lies in its slot's domain extends the empty assignment. */
  lemma SolutionExtendsEmpty(cw: Crossword, d: Domains, e: Assignment)
    requires IsSolution(cw, e) && d.Keys == Elements(cw.variables)
    requires forall v :: v in d ==> e[v] in d[v]
    ensures IsExtension(cw, d, map[], e)
  {
  }

  /** With domains drawn from the vocabulary, an extension of the empty assignment solves the puzzle. */
  lemma ExtensionOfEmptySolves(cw: Crossword, d: Domains, e: Assignment)
    requires d.Keys == Elements(cw.variables) && forall v :: v in d ==> d[v] <= cw.words
    requires IsExtension(cw, d, map[], e)
    ensures IsSolution(cw, e)
  {
  }

  /** Every word of a solution survives node consistency from the full vocabulary. */
  lemma SolutionFitsPruned(cw: Crossword, d: Domains, e: Assignment)
    requires IsSolution(cw, e) && d.Keys == Elements(cw.variables)
    requires forall v :: v in d ==> d[v] == cw.words - WrongLength(cw.words, v)
    ensures forall v :: v in d ==> v in e && e[v] in d[v]
  {
  }

  /** Inserting (word, score) at index p of a list. */
  function InsertAt(scored: seq<(Word, nat)>, p: nat, word: Word, score: nat): (r: seq<(Word, nat)>)
    requires p <= |scored|
    ensures |r| == |scored| + 1
    ensures forall t :: 0 <= t < |r| ==> r[t] == if t < p then scored[t] else if t == p then (word, score) else scored[t - 1]
  {
    scored[..p] + [(word, score)] + scored[p..]
  }

  /** Scores never decrease along the list. */
  predicate ScoresSorted(scored: seq<(Word, nat)>) {
    forall i, j :: 0 <= i < j < |scored| ==> scored[i].1 <= scored[j].1
  }

  /** Inserting after the entries that score no more keeps the scores sorted. */
  lemma InsertKeepsSorted(scored: seq<(Word, nat)>, p: nat, word: Word, score: nat)
    requires ScoresSorted(scored) && p <= |scored|
    requires forall t :: 0 <= t < p ==> scored[t].1 <= score
    requires forall t :: p <= t < |scored| ==> score < scored[t].1
    ensures ScoresSorted(InsertAt(scored, p, word, score))
  {
  }

  /** Inserting an entry adds exactly that entry. */
  lemma InsertAdds(scored: seq<(Word, nat)>, p: nat, word: Word, score: nat)
    requires p <= |scored|
    ensures forall ws :: ws in InsertAt(scored, p, word, score) <==> ws in scored || ws == (word, score)
  {
    var next := InsertAt(scored, p, word, score);
    forall ws
      ensures ws in next <==> ws in scored || ws == (word, score)
    {
      if ws in scored {
        var t :| 0 <= t < |scored| && scored[t] == ws;
        if t < p {
          assert next[t] == ws;
        } else {
          assert next[t + 1] == ws;
        }
      }
      if ws == (word, score) {
        assert next[p] == ws;
      }
    }
  }

  /** Inserting an entry adds exactly its word to the words of the list. */
  lemma InsertAddsWord(scored: seq<(Word, nat)>, p: nat, word: Word, score: nat)
    requires p <= |scored|
    ensures forall w :: w in Firsts(InsertAt(scored, p, word, score)) <==> w in Firsts(scored) || w == word
  {
    var next := InsertAt(scored, p, word, score);
    forall w
      ensures w in Firsts(next) <==> w in Firsts(scored) || w == word
    {
      if w in Firsts(next) {
        var t :| 0 <= t < |next| && Firsts(next)[t] == w;
        if t < p {
          assert Firsts(scored)[t] == w;
        } else if t > p {
          assert Firsts(scored)[t - 1] == w;
        }
      }
      if w in Firsts(scored) {
        var t :| 0 <= t < |scored| && Firsts(scored)[t] == w;
        if t < p {
          assert Firsts(next)[t] == w;
        } else {
          assert Firsts(next)[t + 1] == w;
        }
      }
      if w == word {
        assert Firsts(next)[p] == w;
      }
    }
  }

  /** Inserting a word not yet listed keeps the words distinct. */
  lemma InsertKeepsDistinct(scored: seq<(Word, nat)>, p: nat, word: Word, score: nat)
    requires Distinct(Firsts(scored)) && word !in Firsts(scored) && p <= |scored|
    ensures Distinct(Firsts(InsertAt(scored, p, word, score)))
  {
    var next := InsertAt(scored, p, word, score);
    forall i, j | 0 <= i < j < |next|
      ensures Firsts(next)[i] != Firsts(next)[j]
    {
      if i == p {
        assert Firsts(next)[j] == Firsts(scored)[j - 1];
      } else if j == p {
        assert Firsts(next)[i] == Firsts(scored)[i];
      }
    }
  }

  /** Whether placing `w` in `x` rules out a value of `v`; one step of the scoring loop. */
  method CheckRulesOut(cw: Crossword, d: Domains, x: Variable, a: Assignment, w: Word, v: Variable) returns (b: bool)
    requires WellFormed(cw) && NodeConsistent(d) && |w| == x.length && v in d
    ensures b == RulesOut(cw, d, x, a, w, v)
  {
    b := false;
    if v !in a && v != x {
      var crosspoint := Overlap(cw, x, v);
      if crosspoint.Some? {
        assert OverlapFits(cw, x, v);
        var (idxX, idxY) := crosspoint.value;
        b := FindClash(w, idxX, d[v], idxY);
      }
    }
  }

  /** Whether some word of `ys` has at q the letter `w` has at p; the inner loop of revise. */
  method FindSupport(w: Word, p: nat, ys: set<Word>, q: nat) returns (find: bool)
    requires p < |w| && forall y :: y in ys ==> q < |y|
    ensures find <==> Supported(w, p, ys, q)
  {
    find := false;
    var rest := ys;
    while rest != {}
      invariant rest <= ys
      invariant forall y :: y in ys - rest ==> !Agree(w, p, y, q)
      decreases rest
    {
      var y :| y in rest;
      if w[p] == y[q] {
        find := true;
        break;
      }
      rest := rest - {y};
    }
  }

  /** Whether some word of `ys` has at q a letter other than the one `w` has at p. */
  method FindClash(w: Word, p: nat, ys: set<Word>, q: nat) returns (clash: bool)
    requires p < |w| && forall y :: y in ys ==> q < |y|
    ensures clash <==> Clashes(w, p, ys, q)
  {
    clash := false;
    var rest := ys;
    while rest != {}
      invariant rest <= ys
      invariant forall y :: y in ys - rest ==> Agree(w, p, y, q)
      decreases rest
    {
      var y :| y in rest;
      if w[p] != y[q] {
        clash := true;
        break;
      }
      rest := rest - {y};
    }
  }

  /** Whether some pair of words of `xs` and `ys` differs at the crossing (p, q). */
  method FindAnyClash(xs: set<Word>, p: nat, ys: set<Word>, q: nat) returns (clash: bool)
    requires forall x :: x in xs ==> p < |x|
    requires forall y :: y in ys ==> q < |y|
    ensures clash <==> AnyClash(xs, p, ys, q)
  {
    clash := false;
    var rest := xs;
    while rest != {}
      invariant rest <= xs
      invariant forall x :: x in xs - rest ==> !Clashes(x, p, ys, q)
      decreases rest
    {
      var x :| x in rest;
      clash := FindClash(x, p, ys, q);
      if clash {
        break;
      }
      rest := rest - {x};
    }
  }

  /**
   * The outer loop of revise: the unsupported words of `xs`, and whether some
   * word of `xs` found support.
   */
  method SplitBySupport(xs: set<Word>, p: nat, ys: set<Word>, q: nat) returns (ret: bool, toRemove: set<Word>)
    requires forall x :: x in xs ==> p < |x|
    requires forall y :: y in ys ==> q < |y|
    ensures toRemove == xs - Revised(xs, ys, (p, q))
    ensures ret <==> Revised(xs, ys, (p, q)) != {}
  {
    ret := false;
    toRemove := {};
    var rest := xs;
    while rest != {}
      invariant rest <= xs
      invariant toRemove == (xs - rest) - Revised(xs, ys, (p, q))
      invariant ret <==> exists w :: w in xs - rest && Supported(w, p, ys, q)
      decreases rest
    {
      var xword :| xword in rest;
      var find := FindSupport(xword, p, ys, q);
      if find {
        ret := true;
      } else {
        toRemove := toRemove + {xword};
      }
      rest := rest - {xword};
    }
  }

  /** The position at which a score goes into a list sorted by score: after every score not above it. */
  method FindSlot(scored: seq<(Word, nat)>, score: nat) returns (p: nat)
    requires forall i, j :: 0 <= i < j < |scored| ==> scored[i].1 <= scored[j].1
    ensures p <= |scored|
    ensures forall t :: 0 <= t < p ==> scored[t].1 <= score
    ensures forall t :: p <= t < |scored| ==> score < scored[t].1
  {
    p := 0;
    while p < |scored| && scored[p].1 <= score
      invariant p <= |scored|
      invariant forall t :: 0 <= t < p ==> scored[t].1 <= score
    {
      p := p + 1;
    }
  }

  /** The words of a list of (word, score) pairs, in order. */
  function Firsts(scored: seq<(Word, nat)>): (r: seq<Word>)
    ensures |r| == |scored| && forall t :: 0 <= t < |r| ==> r[t] == scored[t].0
  {
    seq(|scored|, t requires 0 <= t < |scored| => scored[t].0)
  }

  /** The least-constraining-value score of `word` for `variable`: one pass over the slots. */
  method ScoreOf(cw: Crossword, d: Domains, variable: Variable, assignment: Assignment, word: Word) returns (score: nat)
    requires WellFormed(cw) && NodeConsistent(d) && Elements(cw.variables) <= d.Keys
    requires |word| == variable.length
    ensures score == Score(cw, d, variable, assignment, word)
  {
    score := 0;
    var vars := cw.variables;
    for k := 0 to |vars|
      invariant score == CountRulingOut(cw, d, variable, assignment, word, vars[..k])
    {
      assert vars[..k + 1][..k] == vars[..k];
      assert vars[k] in Elements(vars);
      var rulesOut := CheckRulesOut(cw, d, variable, assignment, word, vars[k]);
      if rulesOut {
        score := score + 1;
      }
    }
    assert vars[..|vars|] == vars;
  }

  /** Whether the live slot `neighbor` crosses `candidate` where some pair of remaining values clash. */
  method CheckConflict(cw: Crossword, left: Domains, candidate: Variable, neighbor: Variable) returns (b: bool)
    requires WellFormed(cw) && NodeConsistent(left) && candidate in left
    ensures b <==> neighbor in Conflicting(cw, left, candidate)
  {
    b := false;
    if neighbor in left && candidate != neighbor {
      var crosspoint := Overlap(cw, candidate, neighbor);
      if crosspoint.Some? {
        assert OverlapFits(cw, candidate, neighbor);
        var (idxX, idxY) := crosspoint.value;
        b := FindAnyClash(left[candidate], idxX, left[neighbor], idxY);
      }
    }
  }

  /**
   * The tie-break count for one candidate: the number of live slots, less
   * one for each other live slot crossing it where some pair of remaining
   * values clash. The candidate itself is never subtracted, so the count
   * stays positive.
   */
  method NeighbourCount(cw: Crossword, candidate: Variable, left: Domains) returns (tmpNeighbors: int)
    requires WellFormed(cw) && NodeConsistent(left) && candidate in left
    ensures tmpNeighbors == |left| - |Conflicting(cw, left, candidate)|
    ensures tmpNeighbors > 0
  {
    tmpNeighbors := |left|;
    var vars := cw.variables;
    ghost var conflicting := Conflicting(cw, left, candidate);
    ghost var counted: set<Variable> := {};
    for k := 0 to |vars|
      invariant tmpNeighbors == |left| - |counted|
      invariant forall n :: n in counted <==> n in conflicting && n in vars[..k]
    {
      var neighbor := vars[k];
      assert neighbor !in counted;
      var clash := CheckConflict(cw, left, candidate, neighbor);
      if clash {
        tmpNeighbors := tmpNeighbors - 1;
        counted := counted + {neighbor};
      }
      assert vars[..k + 1] == vars[..k] + [neighbor];
    }
    assert counted == conflicting by {
      assert vars[..|vars|] == vars;
    }
    SubsetCard(conflicting, left.Keys - {candidate});
  }

  /**
   * The degree tie-break over the tied candidates. The best count is never
   * raised from zero and every count is positive, so each candidate in
   * turn replaces the previous one and the last is chosen.
   */
  method TieBreak(cw: Crossword, candidates: seq<Variable>, left: Domains) returns (best: Variable)
    requires WellFormed(cw) && NodeConsistent(left)
    requires |candidates| > 0 && forall t :: 0 <= t < |candidates| ==> candidates[t] in left
    ensures best == candidates[|candidates| - 1]
  {
    best := candidates[0];
    var maxNeighbors := 0;
    for k := 0 to |candidates|
      invariant best == candidates[if k == 0 then 0 else k - 1]
    {
      var tmpNeighbors := NeighbourCount(cw, candidates[k], left);
      if tmpNeighbors > maxNeighbors {
        best := candidates[k];
      }
    }
  }

  /** Cell `cell` holds one of the first n letters of slot `v`. */
  predicate OnSlot(v: Variable, n: int, cell: (int, int)) {
    if v.direction == Across then cell.0 == v.i && v.j <= cell.1 < v.j + n
    else cell.1 == v.j && v.i <= cell.0 < v.i + n
  }

  /** The cells on a slot are exactly the cells of its letters. */
  lemma OnSlotIffCell(v: Variable, n: int, cell: (int, int))
    ensures OnSlot(v, n, cell) <==> exists k :: 0 <= k < n && CellOf(v, k) == cell
  {
    if OnSlot(v, n, cell) {
      var k := if v.direction == Across then cell.1 - v.j else cell.0 - v.i;
      assert CellOf(v, k) == cell;
    }
  }

  /** Writes `word` into the cells of slot `v`, leaving every other cell as it was. */
  method WriteWord(letters: array2<Option<char>>, v: Variable, word: Word)
    requires forall k :: 0 <= k < |word| ==>
      0 <= CellOf(v, k).0 < letters.Length0 && 0 <= CellOf(v, k).1 < letters.Length1
    modifies letters
    ensures forall k :: 0 <= k < |word| ==> letters[CellOf(v, k).0, CellOf(v, k).1] == Some(word[k])
    ensures forall r, c :: 0 <= r < letters.Length0 && 0 <= c < letters.Length1 && !OnSlot(v, |word|, (r, c)) ==>
      letters[r, c] == old(letters[r, c])
  {
    for k := 0 to |word|
      invariant forall t :: 0 <= t < k ==> letters[CellOf(v, t).0, CellOf(v, t).1] == Some(word[t])
      invariant forall r, c :: 0 <= r < letters.Length0 && 0 <= c < letters.Length1 && !OnSlot(v, k, (r, c)) ==>
        letters[r, c] == old(letters[r, c])
    {
      var i := v.i + (if v.direction == Down then k else 0);
      var j := v.j + (if v.direction == Across then k else 0);
      assert (i, j) == CellOf(v, k);
      letters[i, j] := Some(word[k]);
    }
  }

  /** The slots of the puzzle, with the candidate words left for each. */
  class CrosswordCreator {
    const crossword: Crossword
    var domains: Domains

    /** Well-formed puzzle, one domain per slot, every domain drawn from the vocabulary. */
    ghost predicate Valid()
      reads this
    {
      && WellFormed(crossword)
      && domains.Keys == Elements(crossword.variables)
      && (forall v :: v in domains ==> domains[v] <= crossword.words)
    }

    /** Every slot's domain is the whole vocabulary. */
    ghost predicate Initial()
      reads this
    {
      domains == map v | v in Elements(crossword.variables) :: crossword.words
    }

    constructor(crossword: Crossword)
      requires WellFormed(crossword)
      ensures this.crossword == crossword
      ensures Initial() && Valid()
    {
      this.crossword := crossword;
      domains := map v | v in Elements(crossword.variables) :: crossword.words;
    }

    /**
     * The grid of letters an assignment spells: a cell holds a letter exactly
     * when some assigned slot covers it, and for a consistent assignment each
     * covered cell holds the letter of every slot through it.
     */
    method LetterGrid(assignment: Assignment) returns (letters: array2<Option<char>>)
      requires Valid()
      requires assignment.Keys <= Elements(crossword.variables) && LengthsMatch(assignment)
      ensures fresh(letters)
      ensures letters.Length0 == crossword.height && letters.Length1 == crossword.width
      ensures forall r, c :: 0 <= r < letters.Length0 && 0 <= c < letters.Length1 ==>
        (letters[r, c].Some? <==> Covered(assignment, assignment.Keys, (r, c)))
      ensures IsConsistent(crossword, assignment) && CrossingsRecorded(crossword) ==>
        forall v, k :: v in assignment && 0 <= k < |assignment[v]| ==>
          letters[CellOf(v, k).0, CellOf(v, k).1] == Some(assignment[v][k])
    {
      letters := new Option<char>[crossword.height, crossword.width]((_, _) => None);
      var rest := assignment.Keys;
      while rest != {}
        invariant rest <= assignment.Keys
        invariant forall r, c :: 0 <= r < letters.Length0 && 0 <= c < letters.Length1 ==>
          (letters[r, c].Some? <==> Covered(assignment, assignment.Keys - rest, (r, c)))
        invariant IsConsistent(crossword, assignment) && CrossingsRecorded(crossword) ==>
          forall v, k :: v in assignment.Keys - rest && 0 <= k < |assignment[v]| ==>
            letters[CellOf(v, k).0, CellOf(v, k).1] == Some(assignment[v][k])
        decreases rest
      {
        var variable :| variable in rest;
        GridStep(letters, assignment, assignment.Keys - rest, variable);
        rest := rest - {variable};
      }
    }

    /** One slot of `LetterGrid`: writing `variable`'s word keeps both loop facts. */
    method GridStep(letters: array2<Option<char>>, assignment: Assignment, done: set<Variable>, variable: Variable)
      requires Valid()
      requires assignment.Keys <= Elements(crossword.variables) && LengthsMatch(assignment)
      requires done <= assignment.Keys && variable in assignment && variable !in done
      requires letters.Length0 == crossword.height && letters.Length1 == crossword.width
      requires forall r, c :: 0 <= r < letters.Length0 && 0 <= c < letters.Length1 ==>
        (letters[r, c].Some? <==> Covered(assignment, done, (r, c)))
      requires IsConsistent(crossword, assignment) && CrossingsRecorded(crossword) ==>
        forall v, k :: v in done && 0 <= k < |assignment[v]| ==>
          letters[CellOf(v, k).0, CellOf(v, k).1] == Some(assignment[v][k])
      modifies letters
      ensures forall r, c :: 0 <= r < letters.Length0 && 0 <= c < letters.Length1 ==>
        (letters[r, c].Some? <==> Covered(assignment, done + {variable}, (r, c)))
      ensures IsConsistent(crossword, assignment) && CrossingsRecorded(crossword) ==>
        forall v, k :: v in done + {variable} && 0 <= k < |assignment[v]| ==>
          letters[CellOf(v, k).0, CellOf(v, k).1] == Some(assignment[v][k])
    {
      var word := assignment[variable];
      assert variable in crossword.variables;
      WriteWord(letters, variable, word);
      forall r, c | 0 <= r < letters.Length0 && 0 <= c < letters.Length1
        ensures letters[r, c].Some? <==> Covered(assignment, done + {variable}, (r, c))
      {
        OnSlotIffCell(variable, |word|, (r, c));
        if OnSlot(variable, |word|, (r, c)) {
          var k :| 0 <= k < |word| && CellOf(variable, k) == (r, c);
          assert Covered(assignment, done + {variable}, (r, c));
        } else {
          assert letters[r, c] == old(letters[r, c]);
          if Covered(assignment, done + {variable}, (r, c)) {
            var v, k :| v in done + {variable} && v in assignment && 0 <= k < |assignment[v]| && CellOf(v, k) == (r, c);
            assert Covered(assignment, done, (r, c));
          }
        }
      }
      if IsConsistent(crossword, assignment) && CrossingsRecorded(crossword) {
        forall v, k | v in done && 0 <= k < |assignment[v]|
          ensures letters[CellOf(v, k).0, CellOf(v, k).1] == Some(assignment[v][k])
        {
          var (r, c) := CellOf(v, k);
          assert v in crossword.variables;
          OnSlotIffCell(variable, |word|, (r, c));
          if t :| 0 <= t < |word| && CellOf(variable, t) == (r, c) {
            SharedCellLetter(crossword, assignment, v, k, variable, t);
          } else {
            assert letters[r, c] == old(letters[r, c]);
          }
        }
      }
    }

    /** Enforces node consistency: removes from each domain the vocabulary words of the wrong length. */
    method EnforceNodeConsistency()
      requires Valid()
      requires forall v, w :: v in domains && w in crossword.words && |w| != v.length ==> w in domains[v]
      modifies this
      ensures Valid() && NodeConsistent(domains)
      ensures forall v :: v in domains ==> domains[v] == old(domains)[v] - WrongLength(crossword.words, v)
    {
      var vars := crossword.variables;
      for k := 0 to |vars|
        invariant Valid()
        invariant forall t :: 0 <= t < k ==> domains[vars[t]] == old(domains)[vars[t]] - WrongLength(crossword.words, vars[t])
        invariant forall t :: k <= t < |vars| ==> domains[vars[t]] == old(domains)[vars[t]]
      {
        PruneByLength(vars[k]);
      }
    }

    /** The inner loop of node consistency for one slot. */
    method PruneByLength(v: Variable)
      requires Valid() && v in domains
      requires forall w :: w in crossword.words && |w| != v.length ==> w in domains[v]
      modifies this
      ensures Valid()
      ensures domains == old(domains)[v := old(domains)[v] - WrongLength(crossword.words, v)]
    {
      var rest := crossword.words;
      while rest != {}
        invariant rest <= crossword.words
        invariant Valid()
        invariant domains.Keys == old(domains).Keys
        invariant forall u :: u in domains && u != v ==> domains[u] == old(domains)[u]
        invariant domains[v] == old(domains)[v] - WrongLength(crossword.words - rest, v)
        decreases rest
      {
        var w :| w in rest;
        assert WrongLength(crossword.words - (rest - {w}), v) ==
          WrongLength(crossword.words - rest, v) + (if |w| != v.length then {w} else {});
        if |w| != v.length {
          assert w in domains[v];
          domains := domains[v := domains[v] - {w}];
        }
        rest := rest - {w};
      }
      assert crossword.words - rest == crossword.words;
    }

    /**
     * Revises the domain of x against y. The result is true exactly when some
     * word of x's domain found support, which is not the same as "a word was
     * removed".
     */
    method Revise(x: Variable, y: Variable) returns (ret: bool)
      requires Valid() && NodeConsistent(domains)
      requires x in domains && y in domains && x != y
      modifies this
      ensures Valid() && NodeConsistent(domains)
      ensures domains == ReviseDomains(crossword, old(domains), (x, y))
      ensures Overlap(crossword, x, y).None? ==> !ret
      ensures Overlap(crossword, x, y).Some? ==> (ret <==> domains[x] != {})
    {
      ret := false;
      var ovlp := Overlap(crossword, x, y);
      if ovlp.None? {
        return false;
      }
      var (idxX, idxY) := ovlp.value;
      assert OverlapFits(crossword, x, y);
      var tobeRemove;
      ret, tobeRemove := SplitBySupport(domains[x], idxX, domains[y], idxY);
      var pending := tobeRemove;
      ghost var xs := domains[x];
      while pending != {}
        invariant pending <= tobeRemove
        invariant domains.Keys == old(domains).Keys
        invariant forall u :: u in domains && u != x ==> domains[u] == old(domains)[u]
        invariant domains[x] == xs - (tobeRemove - pending)
        decreases pending
      {
        var rmword :| rmword in pending;
        domains := domains[x := domains[x] - {rmword}];
        pending := pending - {rmword};
      }
      assert domains[x] == Revised(xs, old(domains)[y], (idxX, idxY));
    }

    /** Revise, reporting whether a word was removed from x's domain. */
    method ReviseAsDocumented(x: Variable, y: Variable) returns (revised: bool)
      requires Valid() && NodeConsistent(domains)
      requires x in domains && y in domains && x != y
      modifies this
      ensures Valid() && NodeConsistent(domains)
      ensures domains == ReviseDomains(crossword, old(domains), (x, y))
      ensures revised <==> domains[x] != old(domains)[x]
    {
      var before := domains[x];
      var survived := Revise(x, y);
      revised := domains[x] != before;
    }

    /** The arcs ac3 starts from when none are given: every (slot i, slot j) with i < j. */
    method InitialArcs() returns (arcs: seq<Arc>)
      ensures arcs == AllArcs(crossword.variables)
    {
      var varlist := crossword.variables;
      var n := |varlist|;
      arcs := [];
      for i := 0 to n
        invariant arcs == ArcsBefore(varlist, i)
      {
        for j := i + 1 to n
          invariant arcs == ArcsBefore(varlist, i) + PairsWith(varlist, i, j)
        {
          arcs := arcs + [(varlist[i], varlist[j])];
        }
      }
    }

    /**
     * One pass of arc pruning over the given arcs, or over every forward pair
     * of slots: each arc is revised once, in order, and none is queued again.
     * As written the result is always true.
     */
    method Ac3(arcs: Option<seq<Arc>>) returns (r: bool)
      requires Valid() && NodeConsistent(domains)
      requires arcs.Some? ==> ProperArcs(crossword, arcs.value)
      modifies this
      ensures Valid() && NodeConsistent(domains)
      ensures domains == Sweep(crossword, old(domains), ArcsOrAll(crossword, arcs))
      ensures r
    {
      var notEmpty := true;
      var queue: seq<Arc>;
      if arcs.None? {
        queue := InitialArcs();
        AllArcsProper(crossword);
      } else {
        queue := arcs.value;
      }
      for k := 0 to |queue|
        invariant Valid() && NodeConsistent(domains)
        invariant domains == Sweep(crossword, old(domains), queue[..k])
        invariant notEmpty
      {
        SweepStep(crossword, old(domains), queue, k);
        var revised := Revise(queue[k].0, queue[k].1);
        if revised {
          if |domains[queue[k].0]| == 0 {
            notEmpty := false;
          }
        }
      }
      assert queue[..|queue|] == queue;
      return notEmpty;
    }

    /** Ac3 with revisions that report removals: false exactly when some revision emptied a domain. */
    method Ac3AsDocumented(arcs: Option<seq<Arc>>) returns (r: bool)
      requires Valid() && NodeConsistent(domains)
      requires arcs.Some? ==> ProperArcs(crossword, arcs.value)
      modifies this
      ensures Valid() && NodeConsistent(domains)
      ensures domains == Sweep(crossword, old(domains), ArcsOrAll(crossword, arcs))
      ensures r <==> !Emptied(crossword, old(domains), ArcsOrAll(crossword, arcs))
    {
      var notEmpty := true;
      var queue: seq<Arc>;
      if arcs.None? {
        queue := InitialArcs();
        AllArcsProper(crossword);
      } else {
        queue := arcs.value;
      }
      for k := 0 to |queue|
        invariant Valid() && NodeConsistent(domains)
        invariant domains == Sweep(crossword, old(domains), queue[..k])
        invariant notEmpty <==> !Emptied(crossword, old(domains), queue[..k])
      {
        SweepStep(crossword, old(domains), queue, k);
        var revised := ReviseAsDocumented(queue[k].0, queue[k].1);
        if revised {
          if |domains[queue[k].0]| == 0 {
            notEmpty := false;
          }
        }
      }
      assert queue[..|queue|] == queue;
      return notEmpty;
    }

    /** Whether every slot is assigned. */
    method AssignmentComplete(assignment: Assignment) returns (r: bool)
      requires Valid()
      ensures r <==> IsComplete(crossword, assignment)
    {
      var vars := crossword.variables;
      for k := 0 to |vars|
        invariant forall t :: 0 <= t < k ==> vars[t] in assignment
      {
        if vars[k] !in assignment {
          return false;
        }
      }
      return true;
    }

    /** Whether the words fit their slots and agree at every crossing. */
    method Consistent(assignment: Assignment) returns (r: bool)
      requires Valid()
      requires assignment.Keys <= Elements(crossword.variables)
      ensures r <==> IsConsistent(crossword, assignment)
    {
      var keys := ListOf(assignment.Keys);
      for k := 0 to |keys|
        invariant forall t :: 0 <= t < k ==> |assignment[keys[t]]| == keys[t].length
      {
        assert keys[k] in Elements(keys);
        if |assignment[keys[k]]| != keys[k].length {
          return false;
        }
      }
      assert LengthsMatch(assignment) by {
        forall v | v in assignment
          ensures |assignment[v]| == v.length
        {
          assert v in Elements(keys);
        }
      }
      r := PairsAgree(assignment, keys);
    }

    /** The crossing check of `Consistent`, over each pair of keys once. */
    method PairsAgree(assignment: Assignment, keys: seq<Variable>) returns (r: bool)
      requires Valid() && LengthsMatch(assignment)
      requires Distinct(keys) && Elements(keys) == assignment.Keys
      ensures r <==> IsConsistent(crossword, assignment)
    {
      var n := |keys|;
      for i := 0 to n
        invariant forall p, q :: 0 <= p < i && p < q < n ==> PairAgrees(crossword, assignment, keys[p], keys[q])
      {
        assert keys[i] in Elements(keys);
        for j := i + 1 to n
          invariant forall p, q :: 0 <= p < i && p < q < n ==> PairAgrees(crossword, assignment, keys[p], keys[q])
          invariant forall q :: i < q < j ==> PairAgrees(crossword, assignment, keys[i], keys[q])
        {
          assert keys[j] in Elements(keys);
          var crosspoint := Overlap(crossword, keys[i], keys[j]);
          if crosspoint.Some? {
            assert OverlapFits(crossword, keys[i], keys[j]);
            var (idxX, idxY) := crosspoint.value;
            if assignment[keys[i]][idxX] != assignment[keys[j]][idxY] {
              return false;
            }
          }
        }
      }
      PairsSuffice(crossword, assignment, keys);
      return true;
    }
    /** Whether `word` agrees with every assigned slot crossing `variable`. */
    method FitsAssignment(variable: Variable, word: Word, assignment: Assignment) returns (fits: bool)
      requires Valid() && variable in domains && variable !in assignment && |word| == variable.length
      requires assignment.Keys <= Elements(crossword.variables) && LengthsMatch(assignment)
      ensures fits <==> FitsAssigned(crossword, variable, word, assignment)
    {
      fits := true;
      var rest := assignment.Keys;
      while rest != {}
        invariant rest <= assignment.Keys
        invariant forall u :: u in assignment.Keys - rest && (variable, u) in crossword.overlaps ==>
          Agree(word, crossword.overlaps[(variable, u)].0, assignment[u], crossword.overlaps[(variable, u)].1)
        decreases rest
      {
        var assignVar :| assignVar in rest;
        var crosspoint := Overlap(crossword, variable, assignVar);
        if crosspoint.Some? {
          assert OverlapFits(crossword, variable, assignVar);
          var (idxX, idxY) := crosspoint.value;
          if word[idxX] != assignment[assignVar][idxY] {
            fits := false;
            break;
          }
        }
        rest := rest - {assignVar};
      }
    }

    /** The words of an unassigned slot's domain that agree with the assignment. */
    method FilterDomain(variable: Variable, assignment: Assignment) returns (remaining: set<Word>)
      requires Valid() && NodeConsistent(domains) && variable in domains && variable !in assignment
      requires assignment.Keys <= Elements(crossword.variables) && LengthsMatch(assignment)
      ensures remaining == Filtered(crossword, domains, variable, assignment)
    {
      remaining := domains[variable];
      var rest := domains[variable];
      while rest != {}
        invariant rest <= domains[variable] && remaining <= domains[variable]
        invariant forall w :: w in remaining <==>
          w in domains[variable] && (w in rest || FitsAssigned(crossword, variable, w, assignment))
        decreases rest
      {
        var word :| word in rest;
        var fits := FitsAssignment(variable, word, assignment);
        if !fits {
          remaining := remaining - {word};
        }
        rest := rest - {word};
      }
    }

    /** The remaining values of every live slot, keyed by slot. */
    method RemainingValues(assignment: Assignment) returns (left: map<Variable, set<Word>>)
      requires Valid() && NodeConsistent(domains)
      requires assignment.Keys <= Elements(crossword.variables) && LengthsMatch(assignment)
      ensures forall v :: v in left <==> Live(crossword, domains, assignment, v)
      ensures forall v :: v in left ==> v in domains && left[v] == Filtered(crossword, domains, v, assignment)
    {
      left := map[];
      var vars := crossword.variables;
      for k := 0 to |vars|
        invariant forall v :: v in left <==> v in vars[..k] && Live(crossword, domains, assignment, v)
        invariant forall v :: v in left ==> v in domains && left[v] == Filtered(crossword, domains, v, assignment)
      {
        var v := vars[k];
        assert v in domains;
        if v !in assignment {
          var remaining := FilterDomain(v, assignment);
          if remaining != {} {
            left := left[v := remaining];
          }
        }
      }
      assert vars[..|vars|] == vars;
    }

    /** The size of the smallest remaining-value set. */
    method FewestRemaining(left: map<Variable, set<Word>>) returns (fewest: nat)
      requires left != map[]
      ensures exists v :: v in left && |left[v]| == fewest
      ensures forall v :: v in left ==> fewest <= |left[v]|
    {
      var first :| first in left;
      fewest := |left[first]|;
      var rest := left.Keys - {first};
      while rest != {}
        invariant rest <= left.Keys
        invariant exists v :: v in left && |left[v]| == fewest
        invariant forall v :: v in left && v !in rest ==> fewest <= |left[v]|
        decreases rest
      {
        var v :| v in rest;
        if |left[v]| < fewest {
          fewest := |left[v]|;
        }
        rest := rest - {v};
      }
    }

    /** The slots with `fewest` remaining values, in key order. */
    method Candidates(left: map<Variable, set<Word>>, fewest: nat) returns (candidates: seq<Variable>)
      requires Valid()
      requires left.Keys <= Elements(crossword.variables)
      requires exists v :: v in left && |left[v]| == fewest
      ensures |candidates| > 0
      ensures forall t :: 0 <= t < |candidates| ==> candidates[t] in left && |left[candidates[t]]| == fewest
      ensures forall i, j ::
        (0 <= i < j < |crossword.variables| && crossword.variables[i] == candidates[|candidates| - 1] &&
         crossword.variables[j] in left) ==> |left[crossword.variables[j]]| != fewest
    {
      candidates := [];
      var vars := crossword.variables;
      ghost var lastIdx := -1;
      for k := 0 to |vars|
        invariant -1 <= lastIdx < k || (k == 0 && lastIdx == -1)
        invariant candidates == [] <==> lastIdx == -1
        invariant forall t :: 0 <= t < |candidates| ==> candidates[t] in left && |left[candidates[t]]| == fewest
        invariant candidates != [] ==> vars[lastIdx] == candidates[|candidates| - 1]
        invariant forall j :: lastIdx < j < k ==> !(vars[j] in left && |left[vars[j]]| == fewest)
      {
        if vars[k] in left && |left[vars[k]]| == fewest {
          candidates := candidates + [vars[k]];
          lastIdx := k;
        }
      }
      var v :| v in left && |left[v]| == fewest;
      assert v in Elements(vars);
    }

    /**
     * Minimum remaining values: a live slot with the fewest remaining values;
     * among those tied, the last in key order (the degree tie-break never
     * takes effect). None when no slot is live.
     */
    method SelectUnassignedVariable(assignment: Assignment) returns (r: Option<Variable>)
      requires Valid() && NodeConsistent(domains)
      requires assignment.Keys <= Elements(crossword.variables) && LengthsMatch(assignment)
      ensures r.None? <==> forall v :: v in domains ==> !Live(crossword, domains, assignment, v)
      ensures r.Some? ==> Live(crossword, domains, assignment, r.value)
      ensures r.Some? ==> forall u :: Live(crossword, domains, assignment, u) ==>
        |Filtered(crossword, domains, r.value, assignment)| <= |Filtered(crossword, domains, u, assignment)|
      ensures r.Some? ==> LastOfTies(crossword, domains, assignment, r.value)
    {
      var left := RemainingValues(assignment);
      if |left| == 0 {
        return None;
      }
      var fewest := FewestRemaining(left);
      var candidates := Candidates(left, fewest);
      var best;
      if |candidates| == 1 {
        best := candidates[0];
      } else {
        best := TieBreak(crossword, candidates, left);
      }
      assert best == candidates[|candidates| - 1];
      return Some(best);
    }

    /** The words are ranked: sorted by score, each with its true score, no word twice. */
    ghost predicate Ranked(scored: seq<(Word, nat)>, variable: Variable, assignment: Assignment)
      reads this
    {
      && ScoresSorted(scored)
      && (forall ws :: ws in scored ==> ws.1 == Score(crossword, domains, variable, assignment, ws.0))
      && Distinct(Firsts(scored))
    }

    /**
     * Least constraining value: the words of the slot's domain that keep the
     * assignment consistent, each once, in nondecreasing order of score.
     */
    method OrderDomainValues(variable: Variable, assignment: Assignment) returns (ret: seq<Word>)
      requires Valid() && NodeConsistent(domains)
      requires variable in domains && assignment.Keys <= Elements(crossword.variables)
      ensures Distinct(ret)
      ensures forall w :: w in ret <==> w in domains[variable] && IsConsistent(crossword, assignment[variable := w])
      ensures forall p, q :: 0 <= p < q < |ret| ==>
        Score(crossword, domains, variable, assignment, ret[p]) <= Score(crossword, domains, variable, assignment, ret[q])
    {
      var scored: seq<(Word, nat)> := [];
      var rest := domains[variable];
      while rest != {}
        invariant rest <= domains[variable]
        invariant Ranked(scored, variable, assignment)
        invariant forall w :: w in Firsts(scored) <==>
          w in domains[variable] - rest && IsConsistent(crossword, assignment[variable := w])
        decreases rest
      {
        var word :| word in rest;
        var newAssignment := assignment[variable := word];
        var fits := Consistent(newAssignment);
        if fits {
          assert |newAssignment[variable]| == variable.length;
          var score := ScoreOf(crossword, domains, variable, assignment, word);
          var p := FindSlot(scored, score);
          InsertKeepsSorted(scored, p, word, score);
          InsertKeepsDistinct(scored, p, word, score);
          InsertAdds(scored, p, word, score);
          InsertAddsWord(scored, p, word, score);
          scored := InsertAt(scored, p, word, score);
        }
        rest := rest - {word};
      }
      ret := Firsts(scored);
    }

    /**
     * Depth-first backtracking search. A result extends the assignment into
     * a complete consistent one with words from the domains. An already
     * complete assignment yields None. Otherwise, when a solution extending
     * the assignment exists, one is found.
     */
    method Backtrack(assignment: Assignment) returns (r: Option<Assignment>)
      requires Valid() && NodeConsistent(domains)
      requires assignment.Keys <= Elements(crossword.variables) && LengthsMatch(assignment)
      ensures r.Some? ==> IsExtension(crossword, domains, assignment, r.value)
      ensures IsComplete(crossword, assignment) ==> r.None?
      ensures !IsComplete(crossword, assignment) && Solvable(crossword, domains, assignment) ==> r.Some?
      decreases |Elements(crossword.variables) - assignment.Keys|, 2
    {
      LiveWhenSolvable(crossword, domains, assignment);
      var tryVar := SelectUnassignedVariable(assignment);
      if tryVar.None? {
        return None;
      }
      var v := tryVar.value;
      var tryWords := OrderDomainValues(v, assignment);
      if Solvable(crossword, domains, assignment) {
        var e :| IsExtension(crossword, domains, assignment, e);
        ExtensionWordListed(crossword, domains, assignment, v, e);
      }
      r := TryEach(assignment, v, tryWords);
    }

    /** The loop of backtrack: try the words in order and return the first search that succeeds. */
    method TryEach(assignment: Assignment, v: Variable, tryWords: seq<Word>) returns (r: Option<Assignment>)
      requires Valid() && NodeConsistent(domains)
      requires assignment.Keys <= Elements(crossword.variables) && LengthsMatch(assignment)
      requires v in domains && v !in assignment && forall w :: w in tryWords ==> w in domains[v]
      ensures r.Some? ==> IsExtension(crossword, domains, assignment, r.value)
      ensures (exists e :: IsExtension(crossword, domains, assignment, e) && e[v] in tryWords) ==> r.Some?
      decreases |Elements(crossword.variables) - assignment.Keys|, 1
    {
      ghost var goal: Option<Assignment> := None;
      if exists e :: IsExtension(crossword, domains, assignment, e) && e[v] in tryWords {
        var e :| IsExtension(crossword, domains, assignment, e) && e[v] in tryWords;
        goal := Some(e);
      }
      for k := 0 to |tryWords|
        invariant goal.Some? ==> IsExtension(crossword, domains, assignment, goal.value) && goal.value[v] in tryWords[k..]
      {
        var tryResult := TryWord(assignment, v, tryWords[k]);
        if tryResult.Some? {
          return tryResult;
        }
        if goal.Some? {
          ExtensionRefines(crossword, domains, assignment, v, tryWords[k], goal.value);
          assert goal.value[v] in tryWords[k + 1..];
        }
      }
      return None;
    }

    /**
     * One iteration of backtrack's loop: put `word` in slot `v`; keep it when
     * the result is consistent, and return it when complete or search on.
     */
    method TryWord(assignment: Assignment, v: Variable, word: Word) returns (r: Option<Assignment>)
      requires Valid() && NodeConsistent(domains)
      requires assignment.Keys <= Elements(crossword.variables) && LengthsMatch(assignment)
      requires v in domains && v !in assignment && word in domains[v]
      ensures r.Some? ==> IsExtension(crossword, domains, assignment, r.value)
      ensures Solvable(crossword, domains, assignment[v := word]) ==> r.Some?
      decreases |Elements(crossword.variables) - assignment.Keys|, 0
    {
      var newAssignment := assignment[v := word];
      SolvableIsConsistent(crossword, domains, newAssignment);
      var ok := Consistent(newAssignment);
      if !ok {
        return None;
      }
      var complete := AssignmentComplete(newAssignment);
      if complete {
        CompletedByOne(crossword, domains, assignment, v, word);
        return Some(newAssignment);
      }
      FewerUnassigned(crossword, assignment, v, word);
      r := Backtrack(newAssignment);
      if r.Some? {
        ExtensionStep(crossword, domains, assignment, v, word, r.value);
      }
    }

    /** Backtrack that returns a complete consistent input assignment instead of None. */
    method BacktrackAsDocumented(assignment: Assignment) returns (r: Option<Assignment>)
      requires Valid() && NodeConsistent(domains)
      requires assignment.Keys <= Elements(crossword.variables) && LengthsMatch(assignment)
      ensures r.Some? ==> IsExtension(crossword, domains, assignment, r.value)
      ensures Solvable(crossword, domains, assignment) ==> r.Some?
    {
      var complete := AssignmentComplete(assignment);
      if complete {
        var ok := Consistent(assignment);
        CompleteSolvableIsConsistent(crossword, domains, assignment);
        if ok {
          return Some(assignment);
        }
        return None;
      }
      r := Backtrack(assignment);
    }

    /**
     * `solve` as written: node consistency, one pass of arc pruning, then
     * `Backtrack` from the empty assignment. A result is a solution. One is
     * found whenever the puzzle has slots and a solution; a puzzle without
     * slots yields None (the third row of the findings).
     */
    method Solve() returns (r: Option<Assignment>)
      requires Valid() && Initial()
      modifies this
      ensures Valid() && NodeConsistent(domains)
      ensures r.Some? ==> IsSolution(crossword, r.value)
      ensures crossword.variables == [] ==> r.None?
      ensures crossword.variables != [] && (exists e :: IsSolution(crossword, e)) ==> r.Some?
    {
      ghost var solution: Option<Assignment> := None;
      if exists e :: IsSolution(crossword, e) {
        var e :| IsSolution(crossword, e);
        solution := Some(e);
      }
      EnforceNodeConsistency();
      ghost var pruned := domains;
      if solution.Some? {
        SolutionFitsPruned(crossword, pruned, solution.value);
      }
      var arcConsistent := Ac3(None);
      if solution.Some? {
        SweepKeepsSolution(crossword, pruned, AllArcs(crossword.variables), solution.value);
        SolutionExtendsEmpty(crossword, domains, solution.value);
      }
      if crossword.variables != [] {
        assert !IsComplete(crossword, map[]) by { assert crossword.variables[0] in crossword.variables; }
      }
      r := Backtrack(map[]);
      if r.Some? {
        ExtensionOfEmptySolves(crossword, domains, r.value);
      }
    }

    /**
     * `solve` with the corrected arc pruning and search: a result is a
     * solution, and one is found whenever the puzzle has a solution.
     */
    method SolveAsDocumented() returns (r: Option<Assignment>)
      requires Valid() && Initial()
      modifies this
      ensures Valid() && NodeConsistent(domains)
      ensures r.Some? ==> IsSolution(crossword, r.value)
      ensures (exists e :: IsSolution(crossword, e)) ==> r.Some?
    {
      ghost var solution: Option<Assignment> := None;
      if exists e :: IsSolution(crossword, e) {
        var e :| IsSolution(crossword, e);
        solution := Some(e);
      }
      EnforceNodeConsistency();
      ghost var pruned := domains;
      if solution.Some? {
        SolutionFitsPruned(crossword, pruned, solution.value);
      }
      var arcConsistent := Ac3AsDocumented(None);
      if solution.Some? {
        SweepKeepsSolution(crossword, pruned, AllArcs(crossword.variables), solution.value);
        SolutionExtendsEmpty(crossword, domains, solution.value);
      }
      r := BacktrackAsDocumented(map[]);
      if r.Some? {
        ExtensionOfEmptySolves(crossword, domains, r.value);
      }
    }
  }
}
