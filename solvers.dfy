/**
  Solution assembly and bookkeeping in the enumerative solver: turning a
  learned decision tree into a guarded-term list or a nested `ite`, the
  evaluation memo, the duplicate-free point store, the term solver's
  signature-covering loop and the unifier's predicate filter.

  Terms and predicates are opaque atoms `T`; evaluating one at a point is an
  oracle passed in as a function, as is the verifier of a candidate solution.
*/
module Solvers {
  import opened SynthExprs
  import BitSetEngine

  // ---------------------------------------------------------------------
  // Decision trees
  // ---------------------------------------------------------------------

  /** A learned decision tree: a leaf names a term by its index in the term
      list, a split names a predicate by its index in the predicate list. */
  datatype DecisionTree = Leaf(labelId: nat) | Split(attr: nat, positive: DecisionTree, negative: DecisionTree)

  /** Every split's attribute indexes the predicate list. */
  predicate SplitsIn(dt: DecisionTree, numPreds: nat) {
    match dt
    case Leaf(_) => true
    case Split(a, p, n) => a < numPreds && SplitsIn(p, numPreds) && SplitsIn(n, numPreds)
  }

  /** Every attribute indexes the predicate list and every label the term list. */
  predicate Indexed(dt: DecisionTree, numPreds: nat, numTerms: nat) {
    SplitsIn(dt, numPreds) && LabelsBelow(dt, numTerms)
  }

  predicate LabelsBelow(dt: DecisionTree, numTerms: nat) {
    match dt
    case Leaf(l) => l < numTerms
    case Split(_, p, n) => LabelsBelow(p, numTerms) && LabelsBelow(n, numTerms)
  }

  lemma {:induction false} LeafLabelsBelow(dt: DecisionTree, numTerms: nat)
    requires LabelsBelow(dt, numTerms)
    ensures forall k :: 0 <= k < |LeafLabels(dt)| ==> LeafLabels(dt)[k] < numTerms
  {
    match dt
    case Leaf(_) =>
    case Split(_, p, n) =>
      LeafLabelsBelow(p, numTerms);
      LeafLabelsBelow(n, numTerms);
  }

  /** The labels of the leaves, positive subtree before negative subtree. */
  function LeafLabels(dt: DecisionTree): seq<nat> {
    match dt
    case Leaf(l) => [l]
    case Split(_, p, n) => LeafLabels(p) + LeafLabels(n)
  }

  /** The label a point reaches when every split asks whether its predicate holds. */
  function Classify<T>(dt: DecisionTree, preds: seq<T>, holds: T -> bool): nat
    requires SplitsIn(dt, |preds|)
  {
    match dt
    case Leaf(l) => l
    case Split(a, p, n) =>
      if holds(preds[a]) then Classify(p, preds, holds) else Classify(n, preds, holds)
  }

  /** The position, among `LeafLabels(dt)`, of the leaf that classification reaches. */
  function ReachedIndex<T>(dt: DecisionTree, preds: seq<T>, holds: T -> bool): (k: nat)
    requires SplitsIn(dt, |preds|)
    ensures k < |LeafLabels(dt)| && LeafLabels(dt)[k] == Classify(dt, preds, holds)
  {
    match dt
    case Leaf(_) => 0
    case Split(a, p, n) =>
      if holds(preds[a]) then ReachedIndex(p, preds, holds)
      else |LeafLabels(p)| + ReachedIndex(n, preds, holds)
  }

  /** `decision_tree_to_expr`: a leaf becomes its term, a split an `ite` on its predicate. */
  function DecisionTreeToExpr<T>(dt: DecisionTree, preds: seq<T>, terms: seq<T>): Expr<T>
    requires Indexed(dt, |preds|, |terms|)
  {
    match dt
    case Leaf(l) => Atom(terms[l])
    case Split(a, p, n) =>
      Ite(Atom(preds[a]), DecisionTreeToExpr(p, preds, terms), DecisionTreeToExpr(n, preds, terms))
  }

  /** Whatever the valuation, the expression built from a tree evaluates to the term
      of the leaf that classification reaches. */
  lemma {:induction false} DecisionTreeToExprSelects<T>(dt: DecisionTree, preds: seq<T>, terms: seq<T>, holds: T -> bool)
    requires Indexed(dt, |preds|, |terms|)
    ensures Classify(dt, preds, holds) < |terms|
            && Select(DecisionTreeToExpr(dt, preds, terms), holds) == Some(terms[Classify(dt, preds, holds)])
  {
    match dt
    case Leaf(_) =>
    case Split(_, p, n) =>
      DecisionTreeToExprSelects(p, preds, terms, holds);
      DecisionTreeToExprSelects(n, preds, terms, holds);
  }

  /** The guarded-term list of `dt` below a stack of guards `path`: one pair per leaf,
      positive subtree first, the guard being the conjunction of the path's literals. */
  function GuardTerms<T>(dt: DecisionTree, path: seq<Expr<T>>, preds: seq<T>, terms: seq<T>): seq<(Expr<T>, T)>
    requires Indexed(dt, |preds|, |terms|)
  {
    match dt
    case Leaf(l) => [(And(path), terms[l])]
    case Split(a, p, n) =>
      GuardTerms(p, path + [Atom(preds[a])], preds, terms)
      + GuardTerms(n, path + [Not(Atom(preds[a]))], preds, terms)
  }

  /** One pair per leaf, in leaf order, carrying that leaf's term; every guard is a
      conjunction that starts with the guards on the stack. */
  lemma {:induction false} GuardTermsShape<T>(dt: DecisionTree, path: seq<Expr<T>>, preds: seq<T>, terms: seq<T>)
    requires Indexed(dt, |preds|, |terms|)
    ensures |GuardTerms(dt, path, preds, terms)| == |LeafLabels(dt)|
    ensures forall k :: 0 <= k < |LeafLabels(dt)| ==>
              LeafLabels(dt)[k] < |terms|
              && GuardTerms(dt, path, preds, terms)[k].1 == terms[LeafLabels(dt)[k]]
              && GuardTerms(dt, path, preds, terms)[k].0.And?
              && path <= GuardTerms(dt, path, preds, terms)[k].0.args
  {
    LeafLabelsBelow(dt, |terms|);
    match dt
    case Leaf(_) =>
    case Split(a, p, n) =>
      var pp, np := path + [Atom(preds[a])], path + [Not(Atom(preds[a]))];
      GuardTermsShape(p, pp, preds, terms);
      GuardTermsShape(n, np, preds, terms);
      var gp, gn := GuardTerms(p, pp, preds, terms), GuardTerms(n, np, preds, terms);
      assert GuardTerms(dt, path, preds, terms) == gp + gn;
      forall k | 0 <= k < |LeafLabels(dt)|
        ensures LeafLabels(dt)[k] < |terms|
        ensures GuardTerms(dt, path, preds, terms)[k].1 == terms[LeafLabels(dt)[k]]
        ensures GuardTerms(dt, path, preds, terms)[k].0.And?
        ensures path <= GuardTerms(dt, path, preds, terms)[k].0.args
      {
        if k < |gp| {
          assert path <= pp;
        } else {
          assert path <= np;
          assert LeafLabels(dt)[k] == LeafLabels(n)[k - |gp|];
        }
      }
  }

  /** Under any valuation, the guard of the k-th pair holds exactly when the stack's
      guards hold and k is the leaf that classification reaches. */
  lemma {:induction false} GuardTermsPartition<T>(dt: DecisionTree, path: seq<Expr<T>>, preds: seq<T>, terms: seq<T>,
                                                  holds: T -> bool, k: nat)
    requires Indexed(dt, |preds|, |terms|)
    requires k < |LeafLabels(dt)|
    ensures k < |GuardTerms(dt, path, preds, terms)|
            && (Truth(GuardTerms(dt, path, preds, terms)[k].0, holds)
                <==> Truth(And(path), holds) && k == ReachedIndex(dt, preds, holds))
  {
    GuardTermsShape(dt, path, preds, terms);
    match dt
    case Leaf(_) =>
    case Split(a, p, n) =>
      var lit := Atom(preds[a]);
      var pp, np := path + [lit], path + [Not(lit)];
      GuardTermsShape(p, pp, preds, terms);
      AndSnoc(path, lit, holds);
      AndSnoc(path, Not(lit), holds);
      if k < |LeafLabels(p)| {
        GuardTermsPartition(p, pp, preds, terms, holds, k);
      } else {
        GuardTermsPartition(n, np, preds, terms, holds, k - |LeafLabels(p)|);
      }
  }

  /** `_decision_tree_to_guard_term_list_internal`'s two accumulators: the list of
      pairs built so far and the stack of guards above the current node. */
  class GuardTermBuilder<T> {
    var retval: seq<(Expr<T>, T)>
    var guardStack: seq<Expr<T>>

    constructor ()
      ensures retval == [] && guardStack == []
    {
      retval, guardStack := [], [];
    }

    /** Appends one pair per leaf of `dt`; the guard stack is restored on return. */
    method Walk(dt: DecisionTree, preds: seq<T>, terms: seq<T>)
      requires Indexed(dt, |preds|, |terms|)
      modifies this
      decreases dt
      ensures retval == old(retval) + GuardTerms(dt, old(guardStack), preds, terms)
      ensures guardStack == old(guardStack)
    {
      match dt
      case Leaf(l) =>
        retval := retval + [(And(guardStack), terms[l])];
      case Split(a, p, n) =>
        guardStack := guardStack + [Atom(preds[a])];
        Walk(p, preds, terms);
        guardStack := guardStack[..|guardStack| - 1];
        guardStack := guardStack + [Not(Atom(preds[a]))];
        Walk(n, preds, terms);
        guardStack := guardStack[..|guardStack| - 1];
    }
  }

  /** `decision_tree_to_guard_term_list`: the walk from the root with an empty stack. */
  method DecisionTreeToGuardTermList<T>(dt: DecisionTree, preds: seq<T>, terms: seq<T>)
      returns (r: seq<(Expr<T>, T)>)
    requires Indexed(dt, |preds|, |terms|)
    ensures r == GuardTerms(dt, [], preds, terms)
  {
    var builder := new GuardTermBuilder();
    builder.Walk(dt, preds, terms);
    r := builder.retval;
  }

  /** The nested `ite` over a non-empty guarded-term list: guards 0..n-2 in order,
      the last pair's term as the final else. */
  function Nest<T>(gts: seq<(Expr<T>, T)>): Expr<T>
    requires |gts| > 0
    decreases |gts|
  {
    if |gts| == 1 then Atom(gts[0].1)
    else Ite(gts[0].0, Atom(gts[0].1), Nest(gts[1..]))
  }

  /** The pair a nested `ite` picks: the first of pairs 0..n-2 whose guard holds,
      else the last. */
  function FirstHolding<T>(gts: seq<(Expr<T>, T)>, holds: T -> bool): (k: nat)
    requires |gts| > 0
    decreases |gts|
    ensures k < |gts|
    ensures forall j :: 0 <= j < k ==> !Truth(gts[j].0, holds)
    ensures k < |gts| - 1 ==> Truth(gts[k].0, holds)
  {
    if |gts| == 1 || Truth(gts[0].0, holds) then 0
    else 1 + FirstHolding(gts[1..], holds)
  }

  /** The nested `ite` evaluates to the term of the first pair (among all but the
      last) whose guard holds, and to the last term when none does. */
  lemma {:induction false} NestSelects<T>(gts: seq<(Expr<T>, T)>, holds: T -> bool)
    requires |gts| > 0
    decreases |gts|
    ensures Select(Nest(gts), holds) == Some(gts[FirstHolding(gts, holds)].1)
  {
    if |gts| > 1 && !Truth(gts[0].0, holds) {
      NestSelects(gts[1..], holds);
    }
  }

  /** The last pair's guard is never consulted. */
  lemma {:induction false} LastGuardUnused<T>(gts: seq<(Expr<T>, T)>, g: Expr<T>)
    requires |gts| > 0
    decreases |gts|
    ensures Nest(gts[|gts| - 1 := (g, gts[|gts| - 1].1)]) == Nest(gts)
  {
    var gts' := gts[|gts| - 1 := (g, gts[|gts| - 1].1)];
    if |gts| > 1 {
      LastGuardUnused(gts[1..], g);
      assert gts'[1..] == gts[1..][|gts| - 2 := (g, gts[|gts| - 1].1)];
    }
  }

  /** `guard_term_list_to_expr`: builds the nested `ite` from the back; an empty list
      indexes element -1 and raises `IndexError`, modelled as `None`. */
  method GuardTermListToExpr<T>(gts: seq<(Expr<T>, T)>) returns (r: Option<Expr<T>>)
    ensures r.None? <==> |gts| == 0
    ensures r.Some? ==> r.value == Nest(gts)
  {
    if |gts| == 0 {
      return None;
    }
    var n := |gts|;
    var acc := Atom(gts[n - 1].1);
    var i := n - 1;
    while i > 0
      invariant 0 <= i <= n - 1
      invariant acc == Nest(gts[i..])
    {
      i := i - 1;
      assert gts[i..][1..] == gts[i + 1..];
      acc := Ite(gts[i].0, Atom(gts[i].1), acc);
    }
    r := Some(acc);
  }

  /** The commented-out alternative (guarded-term list, then nested `ite`) selects the
      same term as `decision_tree_to_expr` under every valuation. */
  lemma GuardTermRouteAgrees<T>(dt: DecisionTree, preds: seq<T>, terms: seq<T>, holds: T -> bool)
    requires Indexed(dt, |preds|, |terms|)
    ensures |GuardTerms(dt, [], preds, terms)| > 0
            && Select(Nest(GuardTerms(dt, [], preds, terms)), holds)
               == Select(DecisionTreeToExpr(dt, preds, terms), holds)
  {
    GuardTermsShape(dt, [], preds, terms);
    var gts := GuardTerms(dt, [], preds, terms);
    var reached := ReachedIndex(dt, preds, holds);
    assert Truth(And([]), holds);
    forall k | 0 <= k < |gts|
      ensures Truth(gts[k].0, holds) <==> k == reached
    {
      GuardTermsPartition(dt, [], preds, terms, holds, k);
    }
    var f := FirstHolding(gts, holds);
    if f < |gts| - 1 {
      assert Truth(gts[f].0, holds);
    }
    assert f == reached;
    NestSelects(gts, holds);
    DecisionTreeToExprSelects(dt, preds, terms, holds);
  }

  // ---------------------------------------------------------------------
  // The evaluation memo
  // ---------------------------------------------------------------------

  /** `_cached_evaluate` over one of the module's evaluation dictionaries. */
  class Memo<K(==), V> {
    var table: map<K, V>
    /** How many times a factory has been invoked through this memo. */
    ghost var factoryCalls: nat

    constructor ()
      ensures table == map[] && factoryCalls == 0
    {
      table, factoryCalls := map[], 0;
    }

    /** Returns the stored value for `key`; only a missing key invokes the factory,
        whose result is stored. */
    method CachedEvaluate(key: K, notFoundFactory: () -> V) returns (r: V)
      modifies this
      ensures key in table && r == table[key]
      ensures key in old(table) ==> r == old(table)[key] && table == old(table) && factoryCalls == old(factoryCalls)
      ensures key !in old(table) ==>
                r == notFoundFactory() && table == old(table)[key := r] && factoryCalls == old(factoryCalls) + 1
    {
      if key in table {
        r := table[key];
      } else {
        r := notFoundFactory();
        table := table[key := r];
        factoryCalls := factoryCalls + 1;
      }
    }
  }

  /** A second lookup of a key answers from the table, whatever factory it is given. */
  method CachedTwice<K(==), V>(memo: Memo<K, V>, key: K, first: () -> V, second: () -> V) returns (a: V, b: V)
    modifies memo
    ensures a == b
    ensures memo.factoryCalls <= old(memo.factoryCalls) + 1
  {
    a := memo.CachedEvaluate(key, first);
    b := memo.CachedEvaluate(key, second);
  }

  // ---------------------------------------------------------------------
  // The point store of the top-level solver
  // ---------------------------------------------------------------------

  datatype AddPointOutcome = Added | DuplicatePoint

  /** `Solver`'s point bookkeeping: the points in arrival order and the same points as a set. */
  class Solver<P(==)> {
    var points: seq<P>
    var pointSet: set<P>

    ghost predicate Valid()
      reads this
    {
      && (forall i, j :: 0 <= i < j < |points| ==> points[i] != points[j])
      && pointSet == set p | p in points
    }

    constructor ()
      ensures Valid() && points == [] && pointSet == {}
    {
      points, pointSet := [], {};
    }

    /** `reset`: forgets every point. */
    method Reset()
      modifies this
      ensures Valid() && points == [] && pointSet == {}
    {
      points, pointSet := [], {};
    }

    /** `add_point`: a point already present raises `DuplicatePointException` and changes nothing. */
    method AddPoint(p: P) returns (r: AddPointOutcome)
      requires Valid()
      modifies this
      ensures Valid()
      ensures r == DuplicatePoint <==> p in old(points)
      ensures r == DuplicatePoint ==> points == old(points) && pointSet == old(pointSet)
      ensures r == Added ==> points == old(points) + [p] && pointSet == old(pointSet) + {p}
    {
      if p in pointSet {
        return DuplicatePoint;
      }
      pointSet := pointSet + {p};
      points := points + [p];
      r := Added;
    }
  }

  // ---------------------------------------------------------------------
  // Signatures
  // ---------------------------------------------------------------------

  /** The indices, among the first `j` points, at which `holdsAt(t, _)` is true. */
  function SignatureUpTo<T, P>(holdsAt: (T, P) -> bool, points: seq<P>, t: T, j: nat): set<nat>
    requires j <= |points|
  {
    if j == 0 then {}
    else SignatureUpTo(holdsAt, points, t, j - 1) + (if holdsAt(t, points[j - 1]) then {j - 1} else {})
  }

  /** The signature of `t`: the indices of the points at which it satisfies `holdsAt`. */
  function Signature<T, P>(holdsAt: (T, P) -> bool, points: seq<P>, t: T): set<nat> {
    SignatureUpTo(holdsAt, points, t, |points|)
  }

  /** The signature holds exactly the indices of the points at which `t` satisfies `holdsAt`. */
  lemma {:induction false} SignatureMembers<T, P>(holdsAt: (T, P) -> bool, points: seq<P>, t: T, j: nat)
    requires j <= |points|
    ensures forall i: nat :: i in SignatureUpTo(holdsAt, points, t, j) <==> i < j && holdsAt(t, points[i])
  {
    if j > 0 {
      SignatureMembers(holdsAt, points, t, j - 1);
    }
  }

  /** The full signature over n points. */
  function Full(n: nat): set<nat> {
    BitSetEngine.Below(n)
  }

  /** `_compute_term_signature` / `_compute_pred_signature` without the cache:
      evaluates at every point in turn. */
  method ComputeSignature<T, P>(holdsAt: (T, P) -> bool, points: seq<P>, t: T) returns (sig: set<nat>)
    ensures sig == Signature(holdsAt, points, t)
  {
    sig := {};
    for i := 0 to |points|
      invariant sig == SignatureUpTo(holdsAt, points, t, i)
    {
      if holdsAt(t, points[i]) {
        sig := sig + {i};
      }
    }
  }

  function Keys<T>(recorded: seq<(set<nat>, T)>): set<set<nat>> {
    set k | 0 <= k < |recorded| :: recorded[k].0
  }

  /** Signatures a dictionary refuses: the empty one, and for the unifier the full one too. */
  predicate Skipped(s: set<nat>, n: nat, skipFull: bool) {
    s == {} || (skipFull && s == Full(n))
  }

  /** What a signature-keyed dictionary holds after offering it every atom of `ts`
      in order: an atom is recorded under its signature unless the signature is
      `Skipped` or already a key. */
  function Collect<T, P>(acc: seq<(set<nat>, T)>, ts: seq<T>, holdsAt: (T, P) -> bool, points: seq<P>, skipFull: bool)
    : seq<(set<nat>, T)>
  {
    if |ts| == 0 then acc
    else
      var before := Collect(acc, ts[..|ts| - 1], holdsAt, points, skipFull);
      var t := ts[|ts| - 1];
      var s := Signature(holdsAt, points, t);
      if Skipped(s, |points|, skipFull) || s in Keys(before) then before else before + [(s, t)]
  }

  /** Offering one more atom: it is recorded exactly when its signature is new and not skipped. */
  lemma CollectSnoc<T, P>(acc: seq<(set<nat>, T)>, ts: seq<T>, t: T, holdsAt: (T, P) -> bool, points: seq<P>, skipFull: bool)
    ensures var before := Collect(acc, ts, holdsAt, points, skipFull);
            var s := Signature(holdsAt, points, t);
            Collect(acc, ts + [t], holdsAt, points, skipFull)
            == if Skipped(s, |points|, skipFull) || s in Keys(before) then before else before + [(s, t)]
  {
    assert (ts + [t])[..|ts|] == ts;
  }

  /** Keys are never skipped, never repeated, each is its atom's signature, every
      offered atom with an acceptable signature has that signature as a key, and the
      dictionary only grows. */
  lemma {:induction false} CollectFacts<T, P>(acc: seq<(set<nat>, T)>, ts: seq<T>, holdsAt: (T, P) -> bool,
                                             points: seq<P>, skipFull: bool)
    requires forall k :: 0 <= k < |acc| ==>
               !Skipped(acc[k].0, |points|, skipFull) && acc[k].0 == Signature(holdsAt, points, acc[k].1)
    requires forall i, j :: 0 <= i < j < |acc| ==> acc[i].0 != acc[j].0
    ensures var r := Collect(acc, ts, holdsAt, points, skipFull);
            && acc <= r
            && (forall k :: 0 <= k < |r| ==>
                  !Skipped(r[k].0, |points|, skipFull) && r[k].0 == Signature(holdsAt, points, r[k].1))
            && (forall k :: |acc| <= k < |r| ==> r[k].1 in ts)
            && (forall i, j :: 0 <= i < j < |r| ==> r[i].0 != r[j].0)
            && (forall t :: t in ts && !Skipped(Signature(holdsAt, points, t), |points|, skipFull)
                            ==> Signature(holdsAt, points, t) in Keys(r))
  {
    if |ts| > 0 {
      var init := ts[..|ts| - 1];
      CollectFacts(acc, init, holdsAt, points, skipFull);
      var before := Collect(acc, init, holdsAt, points, skipFull);
      var t := ts[|ts| - 1];
      var s := Signature(holdsAt, points, t);
      assert ts == init + [t];
      var after := Collect(acc, ts, holdsAt, points, skipFull);
      if !(Skipped(s, |points|, skipFull) || s in Keys(before)) {
        assert after == before + [(s, t)];
        forall i, j | 0 <= i < j < |after|
          ensures after[i].0 != after[j].0
        {
          if j == |before| {
            assert after[i] == before[i];
          }
        }
        forall x | x in Keys(before)
          ensures x in Keys(after)
        {
          var k :| 0 <= k < |before| && before[k].0 == x;
          assert after[k] == before[k];
        }
        assert after[|before|].0 == s;
      }
    }
  }

  /** The union of the recorded signatures. */
  function UnionOfKeys<T>(recorded: seq<(set<nat>, T)>): set<nat> {
    if |recorded| == 0 then {} else UnionOfKeys(recorded[..|recorded| - 1]) + recorded[|recorded| - 1].0
  }

  /** The union of the signatures of the atoms of `ts`. */
  function Covered<T, P>(ts: seq<T>, holdsAt: (T, P) -> bool, points: seq<P>): set<nat> {
    if |ts| == 0 then {} else Covered(ts[..|ts| - 1], holdsAt, points) + Signature(holdsAt, points, ts[|ts| - 1])
  }

  lemma CoveredSnoc<T, P>(ts: seq<T>, t: T, holdsAt: (T, P) -> bool, points: seq<P>)
    ensures Covered(ts + [t], holdsAt, points) == Covered(ts, holdsAt, points) + Signature(holdsAt, points, t)
  {
    assert (ts + [t])[..|ts|] == ts;
  }

  /** Skipping only empty signatures or already-recorded ones loses nothing:
      the recorded signatures cover exactly what the offered atoms cover. */
  lemma {:induction false} CollectCovers<T, P>(ts: seq<T>, holdsAt: (T, P) -> bool, points: seq<P>)
    ensures UnionOfKeys(Collect([], ts, holdsAt, points, false)) == Covered(ts, holdsAt, points)
  {
    if |ts| > 0 {
      var init := ts[..|ts| - 1];
      CollectCovers(init, holdsAt, points);
      var before := Collect([], init, holdsAt, points, false);
      var s := Signature(holdsAt, points, ts[|ts| - 1]);
      if s in Keys(before) {
        KeyInUnion(before, s);
      }
    }
  }

  lemma {:induction false} KeyInUnion<T>(recorded: seq<(set<nat>, T)>, s: set<nat>)
    requires s in Keys(recorded)
    ensures s <= UnionOfKeys(recorded)
  {
    var last := recorded[|recorded| - 1];
    if last.0 != s {
      var init := recorded[..|recorded| - 1];
      assert recorded == init + [last];
      assert s in Keys(init) by {
        var k :| 0 <= k < |recorded| && recorded[k].0 == s;
        assert k < |init| && init[k] == recorded[k];
      }
      KeyInUnion(init, s);
    }
  }

  lemma {:induction false} CoveredPrefix<T, P>(ts: seq<T>, m: nat, holdsAt: (T, P) -> bool, points: seq<P>)
    requires m <= |ts|
    ensures Covered(ts[..m], holdsAt, points) <= Covered(ts, holdsAt, points)
    decreases |ts|
  {
    if m < |ts| {
      assert ts[..m] == ts[..|ts| - 1][..m];
      CoveredPrefix(ts[..|ts| - 1], m, holdsAt, points);
    } else {
      assert ts[..m] == ts;
    }
  }

  lemma {:induction false} CoveredWithinFull<T, P>(ts: seq<T>, holdsAt: (T, P) -> bool, points: seq<P>)
    ensures Covered(ts, holdsAt, points) <= Full(|points|)
  {
    if |ts| > 0 {
      CoveredWithinFull(ts[..|ts| - 1], holdsAt, points);
      SignatureMembers(holdsAt, points, ts[|ts| - 1], |points|);
    }
  }

  // ---------------------------------------------------------------------
  // The term solver
  // ---------------------------------------------------------------------

  /** Every term the generator yields for sizes 1..k, size by size. */
  function Enumerated<T>(generator: nat -> seq<T>, k: nat): seq<T> {
    if k == 0 then [] else Enumerated(generator, k - 1) + generator(k)
  }

  lemma {:induction false} EnumeratedPrefix<T>(generator: nat -> seq<T>, a: nat, b: nat)
    requires a <= b
    ensures Enumerated(generator, a) <= Enumerated(generator, b)
    decreases b - a
  {
    if a < b {
      EnumeratedPrefix(generator, a, b - 1);
    }
  }

  /** The first m terms are the shortest prefix whose signatures cover every point. */
  predicate FirstCover<T, P>(ts: seq<T>, holdsAt: (T, P) -> bool, points: seq<P>, m: nat) {
    && 0 < m <= |ts|
    && Covered(ts[..m], holdsAt, points) == Full(|points|)
    && Covered(ts[..m - 1], holdsAt, points) != Full(|points|)
  }

  /** The dictionary returned by the term solver: keyed by signature, or by `None`
      when there are no points. */
  type SigToTerm<T> = seq<(Option<set<nat>>, T)>

  function Keyed<T>(recorded: seq<(set<nat>, T)>): SigToTerm<T> {
    seq(|recorded|, k requires 0 <= k < |recorded| => (Some(recorded[k].0), recorded[k].1))
  }

  /** `_trivial_solve`'s answer: the first term of any size up to the maximum. */
  function TrivialSolution<T>(generator: nat -> seq<T>, maxTermSize: nat): Option<SigToTerm<T>> {
    var all := Enumerated(generator, maxTermSize);
    if |all| == 0 then None else Some([(None, all[0])])
  }

  /** `TermSolver`: the points so far, and the specification and term generator it
      was built with.  `spec(t, p)` is the specification evaluated at point p with
      `t` as the function to synthesize; `generator(k)` is what the term generator
      yields once its size is set to k. */
  class TermSolver<T, P> {
    var points: seq<P>
    const maxTermSize: nat
    const spec: (T, P) -> bool
    const generator: nat -> seq<T>

    constructor (spec: (T, P) -> bool, generator: nat -> seq<T>, maxTermSize: nat)
      ensures this.spec == spec && this.generator == generator && this.maxTermSize == maxTermSize
      ensures points == []
    {
      this.spec, this.generator, this.maxTermSize := spec, generator, maxTermSize;
      points := [];
    }

    /** `add_point`: appends without any duplicate check. */
    method AddPoint(p: P)
      modifies this
      ensures points == old(points) + [p]
    {
      points := points + [p];
    }

    /** `_trivial_solve`: the first term generated at the smallest size that yields one. */
    method TrivialSolve() returns (r: Option<SigToTerm<T>>)
      ensures r == TrivialSolution(generator, maxTermSize)
    {
      var size := 1;
      while size <= maxTermSize
        invariant 1 <= size <= maxTermSize + 1
        invariant Enumerated(generator, size - 1) == []
      {
        var batch := generator(size);
        if |batch| > 0 {
          EnumeratedPrefix(generator, size, maxTermSize);
          assert Enumerated(generator, size) == batch;
          assert Enumerated(generator, maxTermSize)[0] == batch[0];
          return Some([(None, batch[0])]);
        }
        size := size + 1;
      }
      r := None;
    }

    /** `solve`: with no points, the trivial answer.  Otherwise every term, size by
        size, is offered to a signature-keyed dictionary that skips empty and
        already-seen signatures; the dictionary is returned as soon as its
        signatures cover every point, and `None` once the sizes are exhausted. */
    method Solve() returns (r: Option<SigToTerm<T>>)
      ensures |points| == 0 ==> r == TrivialSolution(generator, maxTermSize)
      ensures |points| > 0 ==>
                (r.None? <==> Covered(Enumerated(generator, maxTermSize), spec, points) != Full(|points|))
      ensures |points| > 0 && r.Some? ==>
                exists m: nat :: FirstCover(Enumerated(generator, maxTermSize), spec, points, m)
                                 && r.value == Keyed(Collect([], Enumerated(generator, maxTermSize)[..m], spec, points, false))
    {
      if |points| == 0 {
        r := TrivialSolve();
        return;
      }
      var recorded: seq<(set<nat>, T)> := [];
      var covered: set<nat> := {};
      var size := 1;
      while size <= maxTermSize
        invariant 1 <= size <= maxTermSize + 1
        invariant recorded == Collect([], Enumerated(generator, size - 1), spec, points, false)
        invariant covered == Covered(Enumerated(generator, size - 1), spec, points)
        invariant covered != Full(|points|)
      {
        var batch := generator(size);
        var done, j;
        recorded, covered, done, j := OfferTerms(spec, points, batch, recorded, covered, Enumerated(generator, size - 1));
        if done {
          SolveReturnStep(generator, maxTermSize, size, j, spec, points, recorded);
          return Some(Keyed(recorded));
        }
        assert Enumerated(generator, size) == Enumerated(generator, size - 1) + batch;
        size := size + 1;
      }
      r := None;
    }
  }

  /** One step of the term loop: the dictionary and the covered points after one more term. */
  lemma OfferStep<T, P>(cur: seq<T>, t: T, spec: (T, P) -> bool, points: seq<P>,
                        recorded: seq<(set<nat>, T)>, covered: set<nat>)
    requires recorded == Collect([], cur, spec, points, false)
    requires covered == Covered(cur, spec, points)
    ensures var s := Signature(spec, points, t);
            && Covered(cur + [t], spec, points) == covered + s
            && (s == {} || s in Keys(recorded) ==>
                  Collect([], cur + [t], spec, points, false) == recorded && s <= covered)
            && (!(s == {} || s in Keys(recorded)) ==>
                  Collect([], cur + [t], spec, points, false) == recorded + [(s, t)])
  {
    var s := Signature(spec, points, t);
    CollectSnoc([], cur, t, spec, points, false);
    CoveredSnoc(cur, t, spec, points);
    if s in Keys(recorded) {
      CollectCovers(cur, spec, points);
      KeyInUnion(recorded, s);
    }
  }

  /** The inner loop of `solve` over the terms of one size: each term's signature is
      recorded unless empty or already present, and the loop stops as soon as the
      recorded signatures cover every point (`done`, after the j-th term). */
  method OfferTerms<T, P>(spec: (T, P) -> bool, points: seq<P>, batch: seq<T>,
                          recorded0: seq<(set<nat>, T)>, covered0: set<nat>, ghost seen: seq<T>)
      returns (recorded: seq<(set<nat>, T)>, covered: set<nat>, done: bool, j: nat)
    requires recorded0 == Collect([], seen, spec, points, false)
    requires covered0 == Covered(seen, spec, points)
    requires covered0 != Full(|points|)
    ensures !done ==> && recorded == Collect([], seen + batch, spec, points, false)
                      && covered == Covered(seen + batch, spec, points)
                      && covered != Full(|points|)
    ensures done ==> && j < |batch|
                     && Covered(seen + batch[..j], spec, points) != Full(|points|)
                     && Covered(seen + batch[..j + 1], spec, points) == Full(|points|)
                     && recorded == Collect([], seen + batch[..j + 1], spec, points, false)
  {
    recorded, covered, done := recorded0, covered0, false;
    j := 0;
    ghost var cur := seen;
    assert seen + batch[..0] == seen;
    while j < |batch|
      invariant 0 <= j <= |batch|
      invariant cur == seen + batch[..j]
      invariant recorded == Collect([], cur, spec, points, false)
      invariant covered == Covered(cur, spec, points)
      invariant covered != Full(|points|)
    {
      var t := batch[j];
      TakeSnoc(seen, batch, j);
      var s := ComputeSignature(spec, points, t);
      OfferStep(cur, t, spec, points, recorded, covered);
      if !(s in Keys(recorded) || s == {}) {
        recorded := recorded + [(s, t)];
        covered := covered + s;
        if covered == Full(|points|) {
          done := true;
          return;
        }
      }
      cur := cur + [t];
      j := j + 1;
    }
    assert batch[..j] == batch;
  }

  lemma TakeSnoc<T>(seen: seq<T>, batch: seq<T>, j: nat)
    requires j < |batch|
    ensures seen + batch[..j + 1] == (seen + batch[..j]) + [batch[j]]
  {
    assert batch[..j + 1] == batch[..j] + [batch[j]];
  }

  /** When offering the j-th term of size `size` first makes the signatures cover every
      point, the terms offered so far are the shortest covering prefix of all terms. */
  lemma SolveReturnStep<T, P>(generator: nat -> seq<T>, maxTermSize: nat, size: nat, j: nat,
                              spec: (T, P) -> bool, points: seq<P>, recorded: seq<(set<nat>, T)>)
    requires 1 <= size <= maxTermSize && j < |generator(size)|
    requires Covered(Enumerated(generator, size - 1) + generator(size)[..j], spec, points) != Full(|points|)
    requires Covered(Enumerated(generator, size - 1) + generator(size)[..j + 1], spec, points) == Full(|points|)
    requires recorded == Collect([], Enumerated(generator, size - 1) + generator(size)[..j + 1], spec, points, false)
    ensures Covered(Enumerated(generator, maxTermSize), spec, points) == Full(|points|)
    ensures exists m: nat :: FirstCover(Enumerated(generator, maxTermSize), spec, points, m)
                             && Keyed(recorded) == Keyed(Collect([], Enumerated(generator, maxTermSize)[..m], spec, points, false))
  {
    var all := Enumerated(generator, maxTermSize);
    var m := |Enumerated(generator, size - 1)| + j + 1;
    EnumeratedTake(generator, maxTermSize, size, j);
    var upto := Enumerated(generator, size - 1) + generator(size)[..j + 1];
    var before := Enumerated(generator, size - 1) + generator(size)[..j];
    assert all[..m] == upto && all[..m - 1] == before;
    CoverWitness(all, m, spec, points, recorded);
  }

  lemma CoverWitness<T, P>(all: seq<T>, m: nat, spec: (T, P) -> bool, points: seq<P>, recorded: seq<(set<nat>, T)>)
    requires 0 < m <= |all|
    requires Covered(all[..m - 1], spec, points) != Full(|points|)
    requires Covered(all[..m], spec, points) == Full(|points|)
    requires recorded == Collect([], all[..m], spec, points, false)
    ensures Covered(all, spec, points) == Full(|points|)
    ensures exists m': nat :: FirstCover(all, spec, points, m')
                              && Keyed(recorded) == Keyed(Collect([], all[..m'], spec, points, false))
  {
    CoveredPrefix(all, m, spec, points);
    CoveredWithinFull(all, spec, points);
    assert FirstCover(all, spec, points, m);
  }

  /** The terms offered up to the j-th term of size `size` are a prefix of all terms. */
  lemma EnumeratedTake<T>(generator: nat -> seq<T>, maxTermSize: nat, size: nat, j: nat)
    requires 1 <= size <= maxTermSize && j < |generator(size)|
    ensures var m := |Enumerated(generator, size - 1)| + j + 1;
            && m <= |Enumerated(generator, maxTermSize)|
            && Enumerated(generator, maxTermSize)[..m] == Enumerated(generator, size - 1) + generator(size)[..j + 1]
            && Enumerated(generator, maxTermSize)[..m - 1] == Enumerated(generator, size - 1) + generator(size)[..j]
  {
    var all := Enumerated(generator, maxTermSize);
    var batch := generator(size);
    var prev := Enumerated(generator, size - 1);
    var upto := Enumerated(generator, size);
    var m := |prev| + j + 1;
    EnumeratedPrefix(generator, size, maxTermSize);
    assert upto == prev + batch;
    PrefixTake(upto, all, m);
    PrefixTake(upto, all, m - 1);
    assert upto[..m] == prev + batch[..j + 1];
    assert upto[..m - 1] == prev + batch[..j];
  }

  lemma PrefixTake<T>(a: seq<T>, b: seq<T>, m: nat)
    requires a <= b && m <= |a|
    ensures b[..m] == a[..m]
  {
  }

  // ---------------------------------------------------------------------
  // The unifier
  // ---------------------------------------------------------------------

  /** What verifying a candidate returns: a counterexample point, or the candidate itself. */
  datatype Verdict<T, P> = Counterexample(point: P) | Verified(solution: Expr<T>)

  /** An entry of the term solver's dictionary that solves every point. */
  predicate Trivial<T>(entry: (Option<set<nat>>, T), n: nat) {
    entry.0.None? || entry.0.value == Full(n)
  }

  /** `_try_trivial_unification`: the first trivial entry's term is handed to the
      verifier; with no trivial entry there is nothing to verify. */
  method TryTrivialUnification<T, P>(sigToTerm: SigToTerm<T>, numPoints: nat, verify: Expr<T> -> Verdict<T, P>)
      returns (r: Option<Verdict<T, P>>)
    ensures r.None? <==> forall k :: 0 <= k < |sigToTerm| ==> !Trivial(sigToTerm[k], numPoints)
    ensures r.Some? ==> exists k :: 0 <= k < |sigToTerm| && Trivial(sigToTerm[k], numPoints)
                          && (forall j :: 0 <= j < k ==> !Trivial(sigToTerm[j], numPoints))
                          && r.value == verify(Atom(sigToTerm[k].1))
  {
    var i := 0;
    while i < |sigToTerm|
      invariant 0 <= i <= |sigToTerm|
      invariant forall j :: 0 <= j < i ==> !Trivial(sigToTerm[j], numPoints)
    {
      var (sig, term) := sigToTerm[i];
      if sig.None? || sig.value == Full(numPoints) {
        return Some(verify(Atom(term)));
      }
      i := i + 1;
    }
    r := None;
  }

  /** One size of `unify`'s predicate loop: a predicate is recorded only when its
      signature is neither empty nor full nor already present.  Also reports
      whether anything new was recorded. */
  method AdmitPredicates<T, P>(signatureToPred: seq<(set<nat>, T)>, batch: seq<T>,
                               predHolds: (T, P) -> bool, points: seq<P>)
      returns (r: seq<(set<nat>, T)>, newPredsGenerated: bool)
    ensures r == Collect(signatureToPred, batch, predHolds, points, true)
    ensures newPredsGenerated <==> |r| > |signatureToPred|
  {
    r := signatureToPred;
    newPredsGenerated := false;
    for i := 0 to |batch|
      invariant r == Collect(signatureToPred, batch[..i], predHolds, points, true)
      invariant signatureToPred <= r
      invariant newPredsGenerated <==> |r| > |signatureToPred|
    {
      assert batch[..i + 1] == batch[..i] + [batch[i]];
      CollectSnoc(signatureToPred, batch[..i], batch[i], predHolds, points, true);
      var s := ComputeSignature(predHolds, points, batch[i]);
      if !(s == {}) && !(s == Full(|points|)) && !(s in Keys(r)) {
        r := r + [(s, batch[i])];
        newPredsGenerated := true;
      }
    }
    assert batch[..|batch|] == batch;
  }

  /** Every recorded predicate splits the points (neither empty nor full), no two share a
      signature, and every generated predicate that splits the points is represented. */
  lemma AdmittedPredicatesSplit<T, P>(signatureToPred: seq<(set<nat>, T)>, batch: seq<T>,
                                      predHolds: (T, P) -> bool, points: seq<P>)
    requires forall k :: 0 <= k < |signatureToPred| ==>
               signatureToPred[k].0 != {} && signatureToPred[k].0 != Full(|points|)
               && signatureToPred[k].0 == Signature(predHolds, points, signatureToPred[k].1)
    requires forall i, j :: 0 <= i < j < |signatureToPred| ==> signatureToPred[i].0 != signatureToPred[j].0
    ensures var r := Collect(signatureToPred, batch, predHolds, points, true);
            && (forall k :: 0 <= k < |r| ==> r[k].0 != {} && r[k].0 != Full(|points|)
                                             && r[k].0 == Signature(predHolds, points, r[k].1))
            && (forall i, j :: 0 <= i < j < |r| ==> r[i].0 != r[j].0)
            && (forall p :: p in batch && Signature(predHolds, points, p) != {}
                            && Signature(predHolds, points, p) != Full(|points|)
                            ==> Signature(predHolds, points, p) in Keys(r))
  {
    CollectFacts(signatureToPred, batch, predHolds, points, true);
  }
}
