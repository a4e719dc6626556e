/**
  The helpers that decide whether a set of sample points suffices for the
  term and predicate enumerators: guards built from predicate valuations, the
  `if0` cascade rebuilt from a predicate-list-to-term mapping, the consistency
  of a partial valuation, the enumeration of fixed-predicate valuations, and
  the list bookkeeping of the sampling loops.

  Predicates and terms are opaque expressions `E`.  Whether a predicate
  evaluates to 1 at a point is an oracle (`holds`, or `holdsAt` over a
  valuation); the solver and the equivalence checker that propose new points
  are oracles too.
*/
module SampleSufficiency {
  import opened SynthExprs

  // ---------------------------------------------------------------------
  // Guards from predicate valuations
  // ---------------------------------------------------------------------

  /** A point satisfies a predicate valuation when every predicate's being 1
      agrees with the truth value paired with it. */
  predicate Matches<E>(pl: seq<(E, bool)>, holds: E -> bool) {
    forall i :: 0 <= i < |pl| ==> holds(pl[i].0) == pl[i].1
  }

  /** `is1(p)` for a pair requiring `p` to be 1, `not(is1(p))` otherwise. */
  function Literal<E>(p: E, tv: bool): Expr<E> {
    if tv then Is1(Atom(p)) else Not(Is1(Atom(p)))
  }

  function Literals<E>(pl: seq<(E, bool)>): seq<Expr<E>> {
    seq(|pl|, i requires 0 <= i < |pl| => Literal(pl[i].0, pl[i].1))
  }

  /** The guard of a valuation: `true` for none, the literal itself for one,
      and one `and` over the literals in order for more. */
  function Guard<E>(pl: seq<(E, bool)>): Expr<E> {
    if |pl| == 0 then TrueConst
    else if |pl| == 1 then Literal(pl[0].0, pl[0].1)
    else And(Literals(pl))
  }

  /** `_pred_valuation_list_to_pred`. */
  method PredValuationListToPred<E>(pl: seq<(E, bool)>) returns (r: Expr<E>)
    ensures r == Guard(pl)
  {
    if |pl| == 0 {
      return TrueConst;
    }
    var fullPreds: seq<Expr<E>> := [];
    for i := 0 to |pl|
      invariant fullPreds == Literals(pl[..i])
    {
      var (pred, tv) := pl[i];
      var basePred := Is1(Atom(pred));
      var fullPred := if tv then basePred else Not(basePred);
      fullPreds := fullPreds + [fullPred];
    }
    assert pl[..|pl|] == pl;
    if |fullPreds| == 1 {
      r := fullPreds[0];
    } else {
      r := And(fullPreds);
    }
  }

  lemma LiteralTruth<E>(p: E, tv: bool, holds: E -> bool)
    ensures Truth(Literal(p, tv), holds) <==> holds(p) == tv
  {
    assert Truth(Is1(Atom(p)), holds) == holds(p);
  }

  /** A guard holds exactly at the points that satisfy its valuation. */
  lemma GuardTruth<E>(pl: seq<(E, bool)>, holds: E -> bool)
    ensures Truth(Guard(pl), holds) <==> Matches(pl, holds)
  {
    if |pl| == 1 {
      LiteralTruth(pl[0].0, pl[0].1, holds);
    } else if |pl| > 1 {
      var lits := Literals(pl);
      forall i | 0 <= i < |pl| ensures Truth(lits[i], holds) <==> holds(pl[i].0) == pl[i].1 {
        LiteralTruth(pl[i].0, pl[i].1, holds);
      }
    }
  }

  /** `_eval_pred_list`: true iff every predicate's being 1 agrees with its
      paired truth value; the scan stops at the first disagreement. */
  method EvalPredList<E>(pl: seq<(E, bool)>, holds: E -> bool) returns (b: bool)
    ensures b <==> Matches(pl, holds)
    ensures b <==> Truth(Guard(pl), holds)
  {
    GuardTruth(pl, holds);
    for i := 0 to |pl|
      invariant Matches(pl[..i], holds)
    {
      var (pred, tv) := pl[i];
      if holds(pred) != tv {
        return false;
      }
    }
    assert pl[..|pl|] == pl;
    return true;
  }

  // ---------------------------------------------------------------------
  // The if0 cascade of a predicate-list-to-term mapping
  // ---------------------------------------------------------------------

  /** Each entry pairs a predicate valuation (a path) with the term used there. */
  type Mapping<E> = seq<(seq<(E, bool)>, E)>

  /** The exceptions the helpers of this module raise. */
  datatype Failure = IndexError | AssertionError | KeyError

  datatype Outcome<T> = Ok(value: T) | Fail(error: Failure)

  /** `_filter_but`: the pairs whose predicate is not `c`. */
  function FilterBut<E(==)>(pl: seq<(E, bool)>, c: E): seq<(E, bool)> {
    if |pl| == 0 then []
    else (if pl[0].0 != c then [pl[0]] else []) + FilterBut(pl[1..], c)
  }

  /** The entries whose path contains `(c, tv)`, with `c` filtered out of the path. */
  function Split<E(==)>(m: Mapping<E>, c: E, tv: bool): Mapping<E> {
    if |m| == 0 then []
    else (if (c, tv) in m[0].0 then [(FilterBut(m[0].0, c), m[0].1)] else []) + Split(m[1..], c, tv)
  }

  function SumLen<E>(m: Mapping<E>): nat {
    if |m| == 0 then 0 else |m[0].0| + SumLen(m[1..])
  }

  lemma {:induction false} FilterButShrinks<E>(pl: seq<(E, bool)>, c: E)
    ensures |FilterBut(pl, c)| <= |pl|
    ensures (exists tv :: (c, tv) in pl) ==> |FilterBut(pl, c)| < |pl|
  {
    if |pl| > 0 {
      FilterButShrinks(pl[1..], c);
      if exists tv :: (c, tv) in pl {
        var tv :| (c, tv) in pl;
        if pl[0] != (c, tv) {
          assert (c, tv) in pl[1..];
        }
      }
    }
  }

  /** Every entry kept by a split loses at least the pair it was selected by. */
  lemma {:induction false} SplitShrinks<E>(m: Mapping<E>, c: E, tv: bool)
    ensures SumLen(Split(m, c, tv)) + |Split(m, c, tv)| <= SumLen(m)
  {
    if |m| > 0 {
      SplitShrinks(m[1..], c, tv);
      FilterButShrinks(m[0].0, c);
      var head: Mapping<E> := if (c, tv) in m[0].0 then [(FilterBut(m[0].0, c), m[0].1)] else [];
      SumLenAppend(head, Split(m[1..], c, tv));
    }
  }

  lemma {:induction false} SumLenAppend<E>(a: Mapping<E>, b: Mapping<E>)
    ensures SumLen(a + b) == SumLen(a) + SumLen(b)
  {
    if |a| > 0 {
      SumLenAppend(a[1..], b);
      assert (a + b)[0] == a[0];
      assert (a + b)[1..] == a[1..] + b;
      assert SumLen(a + b) == |a[0].0| + SumLen(a[1..] + b);
    } else {
      assert a + b == b;
    }
  }

  /** `_pred_term_mapping_to_expr`: a single entry must have an empty path and
      gives its term; otherwise the first predicate of the first path becomes
      the condition of an `if0` whose branches convert the entries taking it to
      be 1 and 0, with that predicate removed from their paths. */
  function PredTermMappingToExpr<E(==)>(m: Mapping<E>): Outcome<Expr<E>>
    decreases SumLen(m)
  {
    if |m| == 0 then Fail(IndexError)
    else if |m| == 1 then (if |m[0].0| == 0 then Ok(Atom(m[0].1)) else Fail(AssertionError))
    else if |m[0].0| == 0 then Fail(IndexError)
    else
      var cond := m[0].0[0].0;
      SplitShrinks(m, cond, true);
      SplitShrinks(m, cond, false);
      SumLenPositive(m);
      var tt := PredTermMappingToExpr(Split(m, cond, true));
      if tt.Fail? then tt
      else
        var tf := PredTermMappingToExpr(Split(m, cond, false));
        if tf.Fail? then tf
        else Ok(If0(Atom(cond), tt.value, tf.value))
  }

  lemma SumLenPositive<E>(m: Mapping<E>)
    requires |m| > 0 && |m[0].0| > 0
    ensures SumLen(m) > 0
  {
  }

  /** A decision over predicates: each branch asks whether a predicate is 1. */
  datatype PredTree<E> = Decide(term: E) | Branch(pred: E, ifOne: PredTree<E>, otherwise: PredTree<E>)

  /** Every leaf with the path that leads to it, the 1-branch before the 0-branch. */
  function PathsOf<E>(t: PredTree<E>): Mapping<E> {
    match t
    case Decide(x) => [([], x)]
    case Branch(p, a, b) => Prefix((p, true), PathsOf(a)) + Prefix((p, false), PathsOf(b))
  }

  function Prefix<E>(lit: (E, bool), m: Mapping<E>): Mapping<E> {
    seq(|m|, i requires 0 <= i < |m| => ([lit] + m[i].0, m[i].1))
  }

  ghost function PredsOf<E>(t: PredTree<E>): set<E> {
    match t
    case Decide(_) => {}
    case Branch(p, a, b) => {p} + PredsOf(a) + PredsOf(b)
  }

  /** No predicate is asked twice along a path. */
  ghost predicate Reduced<E>(t: PredTree<E>) {
    match t
    case Decide(_) => true
    case Branch(p, a, b) => p !in PredsOf(a) && p !in PredsOf(b) && Reduced(a) && Reduced(b)
  }

  /** The `if0` cascade a decision denotes. */
  function ToIf0<E>(t: PredTree<E>): Expr<E> {
    match t
    case Decide(x) => Atom(x)
    case Branch(p, a, b) => If0(Atom(p), ToIf0(a), ToIf0(b))
  }

  /** The term a point reaches. */
  function Reached<E>(t: PredTree<E>, holds: E -> bool): E {
    match t
    case Decide(x) => x
    case Branch(p, a, b) => if holds(p) then Reached(a, holds) else Reached(b, holds)
  }

  lemma {:induction false} PathsNonEmpty<E>(t: PredTree<E>)
    ensures |PathsOf(t)| >= 1
  {
    match t
    case Decide(_) =>
    case Branch(_, a, b) =>
      PathsNonEmpty(a);
  }

  lemma {:induction false} PathPredsIn<E>(t: PredTree<E>, k: nat, j: nat)
    requires k < |PathsOf(t)| && j < |PathsOf(t)[k].0|
    ensures PathsOf(t)[k].0[j].0 in PredsOf(t)
  {
    match t
    case Decide(_) =>
    case Branch(p, a, b) =>
      var pa := Prefix((p, true), PathsOf(a));
      if k < |pa| {
        if j > 0 {
          PathPredsIn(a, k, j - 1);
        }
      } else {
        if j > 0 {
          PathPredsIn(b, k - |pa|, j - 1);
        }
      }
  }

  lemma {:induction false} FilterButAbsent<E>(pl: seq<(E, bool)>, c: E)
    requires forall j :: 0 <= j < |pl| ==> pl[j].0 != c
    ensures FilterBut(pl, c) == pl
  {
    if |pl| > 0 {
      FilterButAbsent(pl[1..], c);
      assert [pl[0]] + pl[1..] == pl;
    }
  }

  lemma {:induction false} SplitAppend<E>(a: Mapping<E>, b: Mapping<E>, c: E, tv: bool)
    ensures Split(a + b, c, tv) == Split(a, c, tv) + Split(b, c, tv)
  {
    if |a| > 0 {
      SplitAppend(a[1..], b, c, tv);
      assert (a + b)[0] == a[0];
      assert (a + b)[1..] == a[1..] + b;
      var head: Mapping<E> := if (c, tv) in a[0].0 then [(FilterBut(a[0].0, c), a[0].1)] else [];
      assert Split(a + b, c, tv) == head + Split(a[1..] + b, c, tv);
      assert Split(a, c, tv) == head + Split(a[1..], c, tv);
    } else {
      assert a + b == b;
    }
  }

  /** Splitting the paths under a literal on `c` that no path mentions: the
      matching literal keeps every path unchanged, the other drops them all. */
  lemma {:induction false} SplitPrefix<E>(m: Mapping<E>, c: E, lit: bool, tv: bool)
    requires forall k, j :: 0 <= k < |m| && 0 <= j < |m[k].0| ==> m[k].0[j].0 != c
    ensures Split(Prefix((c, lit), m), c, tv) == if lit == tv then m else []
  {
    if |m| > 0 {
      var pm := Prefix((c, lit), m);
      var tail := m[1..];
      assert pm[1..] == Prefix((c, lit), tail);
      forall k, j | 0 <= k < |tail| && 0 <= j < |tail[k].0| ensures tail[k].0[j].0 != c {
        assert tail[k] == m[k + 1];
      }
      SplitPrefix(tail, c, lit, tv);
      var path := [(c, lit)] + m[0].0;
      assert pm[0].0 == path;
      if lit == tv {
        FilterButAbsent(m[0].0, c);
        assert FilterBut(path, c) == m[0].0;
        assert [m[0]] + m[1..] == m;
      } else {
        forall j | 0 <= j < |path| ensures path[j] != (c, tv) {
          if j > 0 {
            assert path[j] == m[0].0[j - 1];
          }
        }
      }
    }
  }

  lemma {:induction false} PathsAvoid<E>(t: PredTree<E>, c: E)
    requires c !in PredsOf(t)
    ensures forall k, j :: 0 <= k < |PathsOf(t)| && 0 <= j < |PathsOf(t)[k].0| ==> PathsOf(t)[k].0[j].0 != c
  {
    forall k, j | 0 <= k < |PathsOf(t)| && 0 <= j < |PathsOf(t)[k].0| {
      PathPredsIn(t, k, j);
    }
  }

  /** The conversion rebuilds a reduced decision from the list of its paths. */
  lemma {:induction false} RebuildsTree<E>(t: PredTree<E>)
    requires Reduced(t)
    ensures PredTermMappingToExpr(PathsOf(t)) == Ok(ToIf0(t))
  {
    match t
    case Decide(_) =>
    case Branch(p, a, b) =>
      RebuildsTree(a);
      RebuildsTree(b);
      PathsNonEmpty(a);
      PathsNonEmpty(b);
      PathsAvoid(a, p);
      PathsAvoid(b, p);
      var m := PathsOf(t);
      var pa := Prefix((p, true), PathsOf(a));
      var pb := Prefix((p, false), PathsOf(b));
      assert m[0].0 == [(p, true)] + PathsOf(a)[0].0;
      SplitAppend(pa, pb, p, true);
      SplitAppend(pa, pb, p, false);
      SplitPrefix(PathsOf(a), p, true, true);
      SplitPrefix(PathsOf(b), p, false, true);
      SplitPrefix(PathsOf(a), p, true, false);
      SplitPrefix(PathsOf(b), p, false, false);
      assert Split(m, p, true) == PathsOf(a);
      assert Split(m, p, false) == PathsOf(b);
  }

  /** The cascade selects the term the point reaches. */
  lemma {:induction false} ToIf0Selects<E>(t: PredTree<E>, holds: E -> bool)
    ensures Select(ToIf0(t), holds) == Some(Reached(t, holds))
  {
    match t
    case Decide(_) =>
    case Branch(p, a, b) =>
      ToIf0Selects(a, holds);
      ToIf0Selects(b, holds);
  }

  /** Exactly one path of a decision is satisfied at a point: the one leading to the term it reaches. */
  lemma {:induction false} PathsPartition<E>(t: PredTree<E>, holds: E -> bool, k: nat)
    requires k < |PathsOf(t)|
    ensures Matches(PathsOf(t)[k].0, holds) <==> ReachedPath(t, holds) == k
  {
    match t
    case Decide(_) =>
    case Branch(p, a, b) =>
      var pa := Prefix((p, true), PathsOf(a));
      var m := PathsOf(t);
      ReachedPathLeads(a, holds);
      if k < |pa| {
        PathsPartition(a, holds, k);
        MatchesCons((p, true), PathsOf(a)[k].0, holds);
        assert m[k] == pa[k];
      } else {
        PathsPartition(b, holds, k - |pa|);
        MatchesCons((p, false), PathsOf(b)[k - |pa|].0, holds);
        assert m[k] == Prefix((p, false), PathsOf(b))[k - |pa|];
      }
  }

  lemma {:induction false} ReachedPathLeads<E>(t: PredTree<E>, holds: E -> bool)
    ensures ReachedPath(t, holds) < |PathsOf(t)| && PathsOf(t)[ReachedPath(t, holds)].1 == Reached(t, holds)
  {
    match t
    case Decide(_) =>
    case Branch(p, a, b) =>
      ReachedPathLeads(a, holds);
      ReachedPathLeads(b, holds);
      var pa := Prefix((p, true), PathsOf(a));
      var pb := Prefix((p, false), PathsOf(b));
      if holds(p) {
        assert PathsOf(t)[ReachedPath(a, holds)] == pa[ReachedPath(a, holds)];
      } else {
        assert PathsOf(t)[|pa| + ReachedPath(b, holds)] == pb[ReachedPath(b, holds)];
      }
  }

  /** The position of the satisfied path among `PathsOf(t)`. */
  function ReachedPath<E>(t: PredTree<E>, holds: E -> bool): nat {
    match t
    case Decide(_) => 0
    case Branch(p, a, b) => if holds(p) then ReachedPath(a, holds) else |PathsOf(a)| + ReachedPath(b, holds)
  }

  lemma MatchesCons<E>(lit: (E, bool), pl: seq<(E, bool)>, holds: E -> bool)
    ensures Matches([lit] + pl, holds) <==> holds(lit.0) == lit.1 && Matches(pl, holds)
  {
    var l := [lit] + pl;
    if holds(lit.0) == lit.1 && Matches(pl, holds) {
      forall i | 0 <= i < |l| ensures holds(l[i].0) == l[i].1 {
        if i > 0 {
          assert l[i] == pl[i - 1];
        }
      }
    }
    if Matches(l, holds) {
      assert l[0] == lit;
      forall i | 0 <= i < |pl| ensures holds(pl[i].0) == pl[i].1 {
        assert l[i + 1] == pl[i];
      }
    }
  }

  /** For the paths of a reduced decision, the conversion succeeds and its
      `if0` cascade selects the term of the one entry whose guard holds. */
  lemma MappingSelectsMatchingEntry<E>(t: PredTree<E>, holds: E -> bool, k: nat)
    requires Reduced(t) && k < |PathsOf(t)|
    requires Truth(Guard(PathsOf(t)[k].0), holds)
    ensures PredTermMappingToExpr(PathsOf(t)).Ok?
    ensures Select(PredTermMappingToExpr(PathsOf(t)).value, holds) == Some(PathsOf(t)[k].1)
  {
    RebuildsTree(t);
    ToIf0Selects(t, holds);
    GuardTruth(PathsOf(t)[k].0, holds);
    PathsPartition(t, holds, k);
    ReachedPathLeads(t, holds);
  }

  // ---------------------------------------------------------------------
  // Consistency of a partial predicate valuation
  // ---------------------------------------------------------------------

  /** The first `n` pairs of `partial` are keys of `full` mapped to the same value. */
  ghost predicate AgreesUpTo<E>(full: map<E, bool>, partial: seq<(E, bool)>, n: nat)
    requires n <= |partial|
  {
    forall j :: 0 <= j < n ==> partial[j].0 in full && full[partial[j].0] == partial[j].1
  }

  /** `_consistent(full, partial)`, with `partial` given as its items in
      iteration order: true when every pair agrees with `full`, false at the
      first disagreement, and a `KeyError` when a key is missing before any
      disagreement shows. */
  method Consistent<E>(full: map<E, bool>, partial: seq<(E, bool)>) returns (r: Outcome<bool>)
    ensures r == Ok(true) <==> AgreesUpTo(full, partial, |partial|)
    ensures r.Fail? <==> exists i :: 0 <= i < |partial| && AgreesUpTo(full, partial, i) && partial[i].0 !in full
    ensures r.Fail? ==> r.error == KeyError
  {
    for i := 0 to |partial|
      invariant AgreesUpTo(full, partial, i)
    {
      var (p, tv) := partial[i];
      if p !in full {
        return Fail(KeyError);
      }
      if full[p] != tv {
        DisagreementIsFinal(full, partial, i);
        return Ok(false);
      }
    }
    return Ok(true);
  }

  /** Once the `i`-th pair disagrees, no longer prefix agrees and no later key
      can be the first missing one. */
  lemma DisagreementIsFinal<E>(full: map<E, bool>, partial: seq<(E, bool)>, i: nat)
    requires i < |partial| && AgreesUpTo(full, partial, i)
    requires partial[i].0 in full && full[partial[i].0] != partial[i].1
    ensures !AgreesUpTo(full, partial, |partial|)
    ensures forall k :: 0 <= k < |partial| && AgreesUpTo(full, partial, k) ==> partial[k].0 in full
  {
    forall k | 0 <= k < |partial| && AgreesUpTo(full, partial, k)
      ensures partial[k].0 in full
    {
      if k > i {
        assert false;
      }
    }
  }

  // ---------------------------------------------------------------------
  // Enumerating the fixed predicate valuations
  // ---------------------------------------------------------------------

  /** Prepends `x` to every sequence of `ss`. */
  function ConsAll<T>(x: T, ss: seq<seq<T>>): seq<seq<T>> {
    seq(|ss|, i requires 0 <= i < |ss| => [x] + ss[i])
  }

  /** `itertools.combinations(s, r)`: the length-`r` selections of `s` that
      keep its order, the ones taking `s[0]` first. */
  function Combinations<T>(s: seq<T>, r: nat): seq<seq<T>> {
    if r == 0 then [[]]
    else if |s| == 0 then []
    else ConsAll(s[0], Combinations(s[1..], r - 1)) + Combinations(s[1..], r)
  }

  /** The elements of `s` where `mask` is true, in order. */
  function Pick<T>(s: seq<T>, mask: seq<bool>): seq<T>
    requires |mask| == |s|
  {
    if |s| == 0 then [] else (if mask[0] then [s[0]] else []) + Pick(s[1..], mask[1..])
  }

  function Count(mask: seq<bool>): nat {
    if |mask| == 0 then 0 else (if mask[0] then 1 else 0) + Count(mask[1..])
  }

  function Binomial(n: nat, k: nat): nat {
    if k == 0 then 1 else if n == 0 then 0 else Binomial(n - 1, k - 1) + Binomial(n - 1, k)
  }

  function Pow(b: nat, k: nat): nat {
    if k == 0 then 1 else b * Pow(b, k - 1)
  }

  lemma {:induction false} PickLength<T>(s: seq<T>, mask: seq<bool>)
    requires |mask| == |s|
    ensures |Pick(s, mask)| == Count(mask) <= |s|
  {
    if |s| > 0 {
      PickLength(s[1..], mask[1..]);
    }
  }

  lemma {:induction false} PickNone<T>(s: seq<T>, mask: seq<bool>)
    requires |mask| == |s| && Count(mask) == 0
    ensures Pick(s, mask) == []
  {
    if |s| > 0 {
      PickNone(s[1..], mask[1..]);
    }
  }

  lemma {:induction false} CombinationsCount<T>(s: seq<T>, r: nat)
    ensures |Combinations(s, r)| == Binomial(|s|, r)
  {
    if r > 0 && |s| > 0 {
      CombinationsCount(s[1..], r - 1);
      CombinationsCount(s[1..], r);
    }
  }

  /** Every order-keeping selection of `s` is among the combinations of its size. */
  lemma {:induction false} CombinationsComplete<T>(s: seq<T>, mask: seq<bool>)
    requires |mask| == |s|
    ensures Pick(s, mask) in Combinations(s, Count(mask))
  {
    if |s| > 0 {
      var m := mask[1..];
      var c := Pick(s[1..], m);
      CombinationsComplete(s[1..], m);
      if mask[0] {
        assert Count(mask) == Count(m) + 1 && Pick(s, mask) == [s[0]] + c;
        CombinationsStep(s, Count(m), c, true);
      } else if Count(m) == 0 {
        PickNone(s, mask);
      } else {
        assert Count(mask) == Count(m) && Pick(s, mask) == c;
        CombinationsStep(s, Count(m), c, false);
      }
    }
  }

  /** One step of `Combinations`: taking `s[0]` or skipping it. */
  lemma CombinationsStep<T>(s: seq<T>, r: nat, c: seq<T>, take: bool)
    requires |s| > 0 && c in Combinations(s[1..], r)
    requires !take ==> r > 0
    ensures take ==> [s[0]] + c in Combinations(s, r + 1)
    ensures !take ==> c in Combinations(s, r)
  {
    if take {
      ConsAllMembers(s[0], Combinations(s[1..], r), [s[0]] + c);
      assert ([s[0]] + c)[1..] == c;
    }
  }

  /** Every combination is an order-keeping selection of `s` of its size. */
  lemma {:induction false} CombinationsSound<T>(s: seq<T>, r: nat, c: seq<T>)
    requires c in Combinations(s, r)
    ensures exists mask :: |mask| == |s| && Count(mask) == r && Pick(s, mask) == c
  {
    if r == 0 {
      var none := seq(|s|, _ => false);
      NoneCountsZero(|s|);
      PickNone(s, none);
      assert Pick(s, none) == c;
    } else {
      var cs := Combinations(s[1..], r - 1);
      assert Combinations(s, r) == ConsAll(s[0], cs) + Combinations(s[1..], r);
      ConsAllMembers(s[0], cs, c);
      if c in ConsAll(s[0], cs) {
        CombinationsSound(s[1..], r - 1, c[1..]);
        var m :| |m| == |s| - 1 && Count(m) == r - 1 && Pick(s[1..], m) == c[1..];
        assert [s[0]] + c[1..] == c;
        MaskWitness(s, true, m, r, c);
      } else {
        CombinationsSound(s[1..], r, c);
        var m :| |m| == |s| - 1 && Count(m) == r && Pick(s[1..], m) == c;
        MaskWitness(s, false, m, r, c);
      }
    }
  }

  /** A mask for `s[1..]` with one more leading choice is a mask for `s`. */
  lemma MaskWitness<T>(s: seq<T>, b: bool, m: seq<bool>, r: nat, c: seq<T>)
    requires |s| > 0 && |m| == |s| - 1
    requires Count(m) + (if b then 1 else 0) == r
    requires (if b then [s[0]] else []) + Pick(s[1..], m) == c
    ensures exists mask :: |mask| == |s| && Count(mask) == r && Pick(s, mask) == c
  {
    MaskCons(s, b, m);
    assert Pick(s, [b] + m) == c;
  }

  /** Picking with one more leading choice. */
  lemma MaskCons<T>(s: seq<T>, b: bool, m: seq<bool>)
    requires |s| > 0 && |m| == |s| - 1
    ensures Count([b] + m) == Count(m) + (if b then 1 else 0)
    ensures Pick(s, [b] + m) == (if b then [s[0]] else []) + Pick(s[1..], m)
  {
    assert ([b] + m)[1..] == m;
  }

  lemma ConsAllMembers<T>(x: T, ss: seq<seq<T>>, c: seq<T>)
    ensures c in ConsAll(x, ss) <==> |c| > 0 && c[0] == x && c[1..] in ss
  {
    var cs := ConsAll(x, ss);
    if c in cs {
      var k :| 0 <= k < |cs| && cs[k] == c;
      assert c[1..] == ss[k];
    }
    if |c| > 0 && c[0] == x && c[1..] in ss {
      var k :| 0 <= k < |ss| && ss[k] == c[1..];
      assert cs[k] == c;
    }
  }

  lemma {:induction false} NoneCountsZero(n: nat)
    ensures Count(seq(n, _ => false)) == 0
  {
    if n > 0 {
      NoneCountsZero(n - 1);
      assert seq(n, _ => false)[1..] == seq(n - 1, _ => false);
    }
  }

  /** `itertools.product([True, False], repeat = k)`: every truth assignment
      of length `k`, `True` before `False`, the first position varying slowest. */
  function Assignments(k: nat): seq<seq<bool>> {
    if k == 0 then [[]] else ConsAll(true, Assignments(k - 1)) + ConsAll(false, Assignments(k - 1))
  }

  lemma {:induction false} AssignmentsCount(k: nat)
    ensures |Assignments(k)| == Pow(2, k)
  {
    if k > 0 {
      AssignmentsCount(k - 1);
    }
  }

  /** The assignments of length `k` are exactly the sequences of `k` truth values. */
  lemma {:induction false} AssignmentsComplete(k: nat, v: seq<bool>)
    ensures v in Assignments(k) <==> |v| == k
  {
    if k > 0 {
      var prev := Assignments(k - 1);
      assert Assignments(k) == ConsAll(true, prev) + ConsAll(false, prev);
      ConsAllMembers(true, prev, v);
      ConsAllMembers(false, prev, v);
      if |v| > 0 {
        AssignmentsComplete(k - 1, v[1..]);
        assert v in ConsAll(true, prev) <==> v[0] && v[1..] in prev;
        assert v in ConsAll(false, prev) <==> !v[0] && v[1..] in prev;
      }
    } else if |v| == 0 {
      assert v == [];
    }
  }

  /** Python's `zip`: pairs up to the shorter length. */
  function Zip<E>(ps: seq<E>, vs: seq<bool>): seq<(E, bool)> {
    var n := if |ps| < |vs| then |ps| else |vs|;
    seq(n, i requires 0 <= i < n => (ps[i], vs[i]))
  }

  /** The other predicates in iteration order: every one but `current`. */
  function Others<E(==)>(atomic: seq<E>, current: E): seq<E> {
    if |atomic| == 0 then []
    else (if atomic[0] != current then [atomic[0]] else []) + Others(atomic[1..], current)
  }

  /** The subsets in the order the chained `combinations` calls produce them:
      by size, each size in `Combinations` order. */
  function Subsets<E>(others: seq<E>): seq<seq<E>> {
    SubsetsFrom(others, 0)
  }

  /** The combinations of sizes `r` to `|others|`, smallest first. */
  function SubsetsFrom<E>(others: seq<E>, r: nat): seq<seq<E>>
    decreases |others| + 1 - r
  {
    if r > |others| then [] else Combinations(others, r) + SubsetsFrom(others, r + 1)
  }

  /** The valuations of one subset: it zipped with every assignment of its length. */
  function ValuationsOf<E>(fixed: seq<E>): seq<seq<(E, bool)>> {
    var all := Assignments(|fixed|);
    seq(|all|, i requires 0 <= i < |all| => Zip(fixed, all[i]))
  }

  /** All the fixed valuations tried for one current predicate, in order. */
  function FixedValuations<E>(others: seq<E>): seq<seq<(E, bool)>> {
    ValuationsOfAll(Subsets(others))
  }

  function ValuationsOfAll<E>(subs: seq<seq<E>>): seq<seq<(E, bool)>> {
    if |subs| == 0 then [] else ValuationsOf(subs[0]) + ValuationsOfAll(subs[1..])
  }

  /** The unfixed predicates: those of `atomic` neither fixed nor current. */
  function Unfixed<E(==)>(atomic: seq<E>, current: E, fixed: seq<E>): seq<E> {
    if |atomic| == 0 then []
    else (if atomic[0] !in fixed && atomic[0] != current then [atomic[0]] else []) + Unfixed(atomic[1..], current, fixed)
  }

  /** A subset is listed exactly when it is a combination of its own size. */
  lemma SubsetsMembers<E>(others: seq<E>, sub: seq<E>)
    ensures sub in Subsets(others) <==> sub in Combinations(others, |sub|)
  {
    SubsetsFromMembers(others, 0, sub);
  }

  lemma {:induction false} SubsetsFromMembers<E>(others: seq<E>, from: nat, sub: seq<E>)
    ensures sub in SubsetsFrom(others, from) <==> from <= |sub| && sub in Combinations(others, |sub|)
    decreases |others| + 1 - from
  {
    CombinationsLength(others, |sub|, sub);
    if from <= |others| {
      SubsetsFromMembers(others, from + 1, sub);
      CombinationsLength(others, from, sub);
      var here := Combinations(others, from);
      var rest := SubsetsFrom(others, from + 1);
      assert SubsetsFrom(others, from) == here + rest;
      assert sub in here + rest <==> sub in here || sub in rest;
    }
  }

  lemma {:induction false} CombinationsLength<T>(s: seq<T>, r: nat, c: seq<T>)
    ensures c in Combinations(s, r) ==> |c| == r <= |s|
  {
    if r > 0 && |s| > 0 {
      var cs := Combinations(s[1..], r - 1);
      ConsAllMembers(s[0], cs, c);
      if |c| > 0 {
        CombinationsLength(s[1..], r - 1, c[1..]);
      }
      CombinationsLength(s[1..], r, c);
    }
  }

  lemma ValuationsOfMembers<E>(fixed: seq<E>, fv: seq<(E, bool)>)
    ensures fv in ValuationsOf(fixed) <==> exists vals :: |vals| == |fixed| && fv == Zip(fixed, vals)
  {
    var all := Assignments(|fixed|);
    if fv in ValuationsOf(fixed) {
      var i :| 0 <= i < |all| && ValuationsOf(fixed)[i] == fv;
      AssignmentsComplete(|fixed|, all[i]);
    }
    if exists vals :: |vals| == |fixed| && fv == Zip(fixed, vals) {
      var vals :| |vals| == |fixed| && fv == Zip(fixed, vals);
      AssignmentsComplete(|fixed|, vals);
      var i :| 0 <= i < |all| && all[i] == vals;
      assert ValuationsOf(fixed)[i] == fv;
    }
  }

  lemma FixedValuationsMembers<E>(others: seq<E>, fv: seq<(E, bool)>)
    ensures fv in FixedValuations(others) <==> exists sub :: sub in Subsets(others) && fv in ValuationsOf(sub)
  {
    ValuationsOfAllMembers(Subsets(others), fv);
  }

  lemma {:induction false} ValuationsOfAllMembers<E>(subs: seq<seq<E>>, fv: seq<(E, bool)>)
    ensures fv in ValuationsOfAll(subs) <==> exists sub :: sub in subs && fv in ValuationsOf(sub)
  {
    if |subs| > 0 {
      ValuationsOfAllMembers(subs[1..], fv);
      if exists sub :: sub in subs && fv in ValuationsOf(sub) {
        var sub :| sub in subs && fv in ValuationsOf(sub);
        if sub != subs[0] {
          assert sub in subs[1..];
        }
      }
    }
  }

  /** Every subset of the other predicates, each paired with every truth
      assignment, is among the fixed valuations. */
  lemma FixedValuationsComplete<E>(others: seq<E>, mask: seq<bool>, vals: seq<bool>)
    requires |mask| == |others| && |vals| == Count(mask)
    ensures Zip(Pick(others, mask), vals) in FixedValuations(others)
  {
    var sub := Pick(others, mask);
    PickLength(others, mask);
    CombinationsComplete(others, mask);
    SubsetsMembers(others, sub);
    CombinationsLength(others, Count(mask), sub);
    ValuationsOfMembers(sub, Zip(sub, vals));
    FixedValuationsMembers(others, Zip(sub, vals));
  }

  /** Every fixed valuation pairs a subset of the other predicates, in order,
      with a truth assignment of the same length. */
  lemma FixedValuationsSound<E>(others: seq<E>, fv: seq<(E, bool)>)
    requires fv in FixedValuations(others)
    ensures exists mask, vals :: |mask| == |others| && |vals| == Count(mask) && fv == Zip(Pick(others, mask), vals)
  {
    FixedValuationsMembers(others, fv);
    var sub :| sub in Subsets(others) && fv in ValuationsOf(sub);
    SubsetsMembers(others, sub);
    var r := |sub|;
    CombinationsSound(others, r, sub);
    var mask :| |mask| == |others| && Count(mask) == r && Pick(others, mask) == sub;
    PickLength(others, mask);
    ValuationsOfMembers(sub, fv);
    var vals :| |vals| == |sub| && fv == Zip(sub, vals);
    assert |mask| == |others| && |vals| == Count(mask) && fv == Zip(Pick(others, mask), vals);
  }

  lemma {:induction false} OthersMembers<E>(atomic: seq<E>, current: E, p: E)
    ensures p in Others(atomic, current) <==> p in atomic && p != current
  {
    if |atomic| > 0 {
      OthersMembers(atomic[1..], current, p);
      assert atomic == [atomic[0]] + atomic[1..];
    }
  }

  /** The current, the fixed and the unfixed predicates split the atomic ones:
      an atomic predicate is unfixed exactly when it is neither of the others. */
  lemma {:induction false} UnfixedMembers<E>(atomic: seq<E>, current: E, fixed: seq<E>, p: E)
    ensures p in Unfixed(atomic, current, fixed) <==> p in atomic && p !in fixed && p != current
  {
    if |atomic| > 0 {
      UnfixedMembers(atomic[1..], current, fixed, p);
      assert atomic == [atomic[0]] + atomic[1..];
    }
  }

  // ---------------------------------------------------------------------
  // The sampling loops
  // ---------------------------------------------------------------------

  /** `[x for x in vals if x not in initial]`. */
  function NotIn<V(==)>(vals: seq<V>, initial: seq<V>): seq<V> {
    if |vals| == 0 then [] else (if vals[0] !in initial then [vals[0]] else []) + NotIn(vals[1..], initial)
  }

  lemma {:induction false} NotInMembers<V>(vals: seq<V>, initial: seq<V>, x: V)
    ensures x in NotIn(vals, initial) <==> x in vals && x !in initial
  {
    if |vals| > 0 {
      NotInMembers(vals[1..], initial, x);
      assert vals == [vals[0]] + vals[1..];
    }
  }

  lemma {:induction false} NotInAppend<V>(a: seq<V>, b: seq<V>, initial: seq<V>)
    ensures NotIn(a + b, initial) == NotIn(a, initial) + NotIn(b, initial)
  {
    if |a| > 0 {
      NotInAppend(a[1..], b, initial);
      assert (a + b)[0] == a[0];
      assert (a + b)[1..] == a[1..] + b;
    } else {
      assert a + b == b;
    }
  }

  /** Filtering out what is in `initial` keeps a sequence none of whose
      elements is there, and drops one all of whose elements are. */
  lemma {:induction false} NotInKeepsOrDrops<V>(vals: seq<V>, initial: seq<V>)
    ensures (forall i :: 0 <= i < |vals| ==> vals[i] !in initial) ==> NotIn(vals, initial) == vals
    ensures (forall i :: 0 <= i < |vals| ==> vals[i] in initial) ==> NotIn(vals, initial) == []
  {
    if |vals| > 0 {
      NotInKeepsOrDrops(vals[1..], initial);
      assert forall i :: 1 <= i < |vals| ==> vals[1..][i - 1] == vals[i];
      assert vals == [vals[0]] + vals[1..];
    }
  }

  /** A list filtered against itself is empty. */
  lemma NotInSelf<V>(vals: seq<V>)
    ensures NotIn(vals, vals) == []
  {
    NotInKeepsOrDrops(vals, vals);
  }

  /** What a sampling loop ends with: the points it added, or the failed
      `assert` on a repeated counterexample; `OutOfFuel` bounds the loop that
      the source runs until the checker accepts. */
  datatype Sampling<V> = Sufficient(added: seq<V>) | RepeatedPoint | OutOfFuel

  /** `added` is the sequence of counterexamples the checker returns when
      asked after each addition, none of them repeating an earlier point. */
  ghost predicate Chain<V>(initial: seq<V>, added: seq<V>, cexFor: seq<V> -> Option<V>) {
    forall i :: 0 <= i < |added| ==> cexFor(initial + added[..i]) == Some(added[i]) && added[i] !in initial + added[..i]
  }

  lemma ChainSnoc<V>(initial: seq<V>, added: seq<V>, cexFor: seq<V> -> Option<V>, x: V)
    requires Chain(initial, added, cexFor)
    requires cexFor(initial + added) == Some(x) && x !in initial + added
    ensures Chain(initial, added + [x], cexFor)
  {
    var longer := added + [x];
    forall i | 0 <= i < |longer|
      ensures cexFor(initial + longer[..i]) == Some(longer[i]) && longer[i] !in initial + longer[..i]
    {
      if i < |added| {
        assert longer[..i] == added[..i];
      } else {
        assert longer[..i] == added;
      }
    }
  }

  lemma ChainPrefix<V>(initial: seq<V>, added: seq<V>, cexFor: seq<V> -> Option<V>, k: nat)
    requires Chain(initial, added, cexFor) && k <= |added|
    ensures Chain(initial, added[..k], cexFor)
  {
    forall i | 0 <= i < k
      ensures cexFor(initial + added[..k][..i]) == Some(added[..k][i])
    {
      assert added[..k][..i] == added[..i];
    }
  }

  /** Filtering a chain's final list against its start gives back the chain. */
  lemma ChainAddsFresh<V>(initial: seq<V>, added: seq<V>, cexFor: seq<V> -> Option<V>)
    requires Chain(initial, added, cexFor)
    ensures NotIn(initial + added, initial) == added
  {
    ExtensionFilter(initial, added);
  }

  /** Extending a list and filtering against the original gives the new
      elements not already there: all of them when none was there. */
  lemma ExtensionFilter<V>(initial: seq<V>, ext: seq<V>)
    ensures NotIn(initial + ext, initial) == NotIn(ext, initial)
    ensures (forall i :: 0 <= i < |ext| ==> ext[i] !in initial) ==> NotIn(initial + ext, initial) == ext
  {
    NotInAppend(initial, ext, initial);
    NotInKeepsOrDrops(initial, initial);
    NotInKeepsOrDrops(ext, initial);
  }

  /** A chain from a start the checker accepts is empty. */
  lemma ChainFromAccepted<V>(initial: seq<V>, added: seq<V>, cexFor: seq<V> -> Option<V>)
    requires Chain(initial, added, cexFor) && cexFor(initial) == None
    ensures added == []
  {
    ChainHead(initial, added, cexFor);
  }

  /** The first added point is the checker's answer on the start list. */
  lemma ChainHead<V>(initial: seq<V>, added: seq<V>, cexFor: seq<V> -> Option<V>)
    requires Chain(initial, added, cexFor)
    ensures |added| > 0 ==> cexFor(initial) == Some(added[0])
  {
    if |added| > 0 {
      assert initial + added[..0] == initial;
    }
  }

  /** The checker's answers fix the added points: two chains from the same
      start agree on their common length. */
  lemma {:induction false} ChainUnique<V>(initial: seq<V>, a: seq<V>, b: seq<V>, cexFor: seq<V> -> Option<V>)
    requires Chain(initial, a, cexFor) && Chain(initial, b, cexFor) && |a| <= |b|
    ensures a == b[..|a|]
    decreases |a|
  {
    if |a| > 0 {
      var n := |a| - 1;
      ChainPrefix(initial, a, cexFor, n);
      ChainPrefix(initial, b, cexFor, n);
      ChainUnique(initial, a[..n], b[..n], cexFor);
      assert a[..n] == b[..n][..n];
      assert b[..n][..n] == b[..n];
      assert a == a[..n] + [a[n]];
      assert b[..|a|] == b[..n] + [b[n]];
    }
  }

  /** `get_sufficient_samples`: the list grows by the checker's counterexample
      (`cexFor` stands for solving at the current points and checking the
      solution) until there is none, and the loop returns the points that were
      not there at the start; a counterexample already present fails the
      `assert`.  At most `fuel` counterexamples are taken. */
  method GetSufficientSamples<V(==)>(initial: seq<V>, cexFor: seq<V> -> Option<V>, fuel: nat) returns (r: Sampling<V>)
    ensures r.Sufficient? ==> Chain(initial, r.added, cexFor) && cexFor(initial + r.added) == None
    ensures r.RepeatedPoint? ==> exists added :: Chain(initial, added, cexFor) && |added| < fuel && cexFor(initial + added).Some? && cexFor(initial + added).value in initial + added
    ensures r.OutOfFuel? ==> exists added :: Chain(initial, added, cexFor) && |added| == fuel
  {
    var valuations := initial;
    ghost var added: seq<V> := [];
    var rounds := 0;
    while rounds < fuel
      invariant rounds == |added| <= fuel && valuations == initial + added && Chain(initial, added, cexFor)
    {
      var cex := cexFor(valuations);
      if cex.None? {
        ChainAddsFresh(initial, added, cexFor);
        return Sufficient(NotIn(valuations, initial));
      }
      if cex.value in valuations {
        return RepeatedPoint;
      }
      ChainSnoc(initial, added, cexFor, cex.value);
      valuations := valuations + [cex.value];
      added := added + [cex.value];
      rounds := rounds + 1;
    }
    return OutOfFuel;
  }

  /** The start list of the guarded-term loop: the relevant valuations, or the
      sampled point of the guard region when there are none. */
  function Seed<V>(relevant: seq<V>, sample: Option<V>): seq<V> {
    if |relevant| > 0 then relevant else if sample.Some? then [sample.value] else []
  }

  /** `get_guarded_term_sufficient_samples` as written: with no relevant
      valuation the sampled point of the guard region seeds the loop and,
      being part of the loop's start list, is not reported. */
  method GetGuardedTermSufficientSamplesAsWritten<V(==)>(relevant: seq<V>, sample: Option<V>, cexFor: seq<V> -> Option<V>, fuel: nat)
    returns (r: Sampling<V>)
    ensures |relevant| == 0 && sample.None? ==> r == Sufficient([])
    ensures |Seed(relevant, sample)| > 0 && r.Sufficient? ==>
      Chain(Seed(relevant, sample), r.added, cexFor) && cexFor(Seed(relevant, sample) + r.added) == None
    ensures |relevant| == 0 && sample.Some? && cexFor([sample.value]) == None && fuel > 0 ==> r == Sufficient([])
  {
    if |relevant| == 0 && sample.None? {
      return Sufficient([]);
    }
    var seed := Seed(relevant, sample);
    r := GetSufficientSamples(seed, cexFor, fuel);
    if r.Sufficient? {
      if cexFor(seed) == None {
        ChainFromAccepted(seed, r.added, cexFor);
      }
    } else if r.RepeatedPoint? && cexFor(seed) == None {
      ghost var added :| Chain(seed, added, cexFor) && |added| < fuel && cexFor(seed + added).Some? && cexFor(seed + added).value in seed + added;
      ChainFromAccepted(seed, added, cexFor);
      assert seed + added == seed;
    } else if r.OutOfFuel? && cexFor(seed) == None {
      ghost var added :| Chain(seed, added, cexFor) && |added| == fuel;
      ChainFromAccepted(seed, added, cexFor);
    }
  }

  /** `get_guarded_term_sufficient_samples` reporting the sampled point too:
      the points of the guard region the loop ends with, beyond the relevant
      valuations it was given. */
  method GetGuardedTermSufficientSamples<V(==)>(relevant: seq<V>, sample: Option<V>, cexFor: seq<V> -> Option<V>, fuel: nat)
    returns (r: Sampling<V>)
    ensures |relevant| == 0 && sample.None? ==> r == Sufficient([])
    ensures |relevant| > 0 && r.Sufficient? ==> Chain(relevant, r.added, cexFor) && cexFor(relevant + r.added) == None
    ensures |relevant| == 0 && sample.Some? && r.Sufficient? ==>
      |r.added| > 0 && r.added[0] == sample.value &&
      Chain([sample.value], r.added[1..], cexFor) && cexFor(r.added) == None
  {
    if |relevant| == 0 && sample.None? {
      return Sufficient([]);
    }
    var seed := Seed(relevant, sample);
    r := GetSufficientSamples(seed, cexFor, fuel);
    if |relevant| == 0 && r.Sufficient? {
      var added := r.added;
      r := Sufficient(seed + added);
      assert r.added[1..] == added;
    }
  }

  /** `[v for v in vals if _eval_pred_list(pl, v)]`: the valuations at whose
      point the predicate valuation holds. */
  function Relevant<E, V>(vals: seq<V>, pl: seq<(E, bool)>, holdsAt: (E, V) -> bool): seq<V> {
    if |vals| == 0 then []
    else (if Matches(pl, p => holdsAt(p, vals[0])) then [vals[0]] else []) + Relevant(vals[1..], pl, holdsAt)
  }

  lemma {:induction false} RelevantMembers<E, V>(vals: seq<V>, pl: seq<(E, bool)>, holdsAt: (E, V) -> bool, v: V)
    ensures v in Relevant(vals, pl, holdsAt) <==> v in vals && Matches(pl, p => holdsAt(p, v))
  {
    if |vals| > 0 {
      RelevantMembers(vals[1..], pl, holdsAt, v);
      assert vals == [vals[0]] + vals[1..];
    }
  }

  /** The valuations after the queries `qs` are handled in order: each query
      adds what `more` returns for it and for the valuations its predicate
      valuation selects. */
  function Rounds<K, E, V>(vals: seq<V>, qs: seq<(seq<(E, bool)>, K)>,
                           more: ((seq<(E, bool)>, K), seq<V>) -> seq<V>, holdsAt: (E, V) -> bool): seq<V>
    decreases |qs|
  {
    if |qs| == 0 then vals
    else Rounds(vals + more(qs[0], Relevant(vals, qs[0].0, holdsAt)), qs[1..], more, holdsAt)
  }

  /** One round taken from the front of `qs[j..] + rest`. */
  lemma RoundsSplit<K, E, V>(vals: seq<V>, qs: seq<(seq<(E, bool)>, K)>, j: nat, rest: seq<(seq<(E, bool)>, K)>,
                             more: ((seq<(E, bool)>, K), seq<V>) -> seq<V>, holdsAt: (E, V) -> bool)
    requires j < |qs|
    ensures Rounds(vals, qs[j..] + rest, more, holdsAt)
            == Rounds(vals + more(qs[j], Relevant(vals, qs[j].0, holdsAt)), qs[j + 1..] + rest, more, holdsAt)
  {
    assert (qs[j..] + rest)[0] == qs[j];
    assert (qs[j..] + rest)[1..] == qs[j + 1..] + rest;
  }

  /** The loops only ever extend the list. */
  lemma {:induction false} RoundsExtend<K, E, V>(vals: seq<V>, qs: seq<(seq<(E, bool)>, K)>,
                                                more: ((seq<(E, bool)>, K), seq<V>) -> seq<V>, holdsAt: (E, V) -> bool)
    ensures vals <= Rounds(vals, qs, more, holdsAt)
    decreases |qs|
  {
    if |qs| > 0 {
      var next := vals + more(qs[0], Relevant(vals, qs[0].0, holdsAt));
      RoundsExtend(next, qs[1..], more, holdsAt);
    }
  }

  /** `get_term_sufficient_samples` on a copy of the caller's list: one query
      per entry of the predicate-list-to-term mapping, `guarded` giving the
      new points for the entry and its relevant valuations; the result is
      every point not already in the caller's list. */
  method GetTermSufficientSamples<E, V(==)>(initial: seq<V>, m: Mapping<E>,
                                            guarded: ((seq<(E, bool)>, E), seq<V>) -> seq<V>, holdsAt: (E, V) -> bool)
    returns (r: seq<V>)
    ensures r == NotIn(Rounds(initial, m, guarded, holdsAt), initial)
  {
    var valuations := initial;
    for i := 0 to |m|
      invariant Rounds(valuations, m[i..], guarded, holdsAt) == Rounds(initial, m, guarded, holdsAt)
    {
      var (pl, term) := m[i];
      var relevant := Relevant(valuations, pl, holdsAt);
      var newValuations := guarded((pl, term), relevant);
      assert m[i..][1..] == m[i + 1..];
      valuations := valuations + newValuations;
    }
    assert m[|m|..] == [];
    r := NotIn(valuations, initial);
  }

  /** A Python list the sampling functions share and extend in place. */
  class ValuationList<V> {
    var items: seq<V>

    constructor (items: seq<V>)
      ensures this.items == items
    {
      this.items := items;
    }
  }

  /** `get_term_sufficient_samples` as written: `valuations` is the caller's
      list itself, so the loop extends the caller's list and the final filter
      compares that list with itself. */
  method GetTermSufficientSamplesAsWritten<E, V(==)>(initial: ValuationList<V>, m: Mapping<E>,
                                                     guarded: ((seq<(E, bool)>, E), seq<V>) -> seq<V>, holdsAt: (E, V) -> bool)
    returns (r: seq<V>)
    modifies initial
    ensures initial.items == Rounds(old(initial.items), m, guarded, holdsAt)
    ensures r == []
  {
    var valuations := initial;
    for i := 0 to |m|
      invariant valuations == initial
      invariant Rounds(valuations.items, m[i..], guarded, holdsAt) == Rounds(old(initial.items), m, guarded, holdsAt)
    {
      var (pl, term) := m[i];
      var relevant := Relevant(valuations.items, pl, holdsAt);
      var newValuations := guarded((pl, term), relevant);
      assert m[i..][1..] == m[i + 1..];
      valuations.items := valuations.items + newValuations;
    }
    assert m[|m|..] == [];
    r := NotIn(valuations.items, initial.items);
    NotInSelf(initial.items);
  }

  /** With one entry whose guard region gets the point 7, the copying loop
      reports it while the aliased list compares it away. */
  lemma TermSamplesLostByAliasing()
    ensures var m: Mapping<int> := [([], 0)];
            var guarded := (q: (seq<(int, bool)>, int), vs: seq<int>) => [7];
            var holdsAt := (p: int, v: int) => true;
            var final := Rounds([], m, guarded, holdsAt);
            NotIn(final, []) == [7] && NotIn(final, final) == []
  {
    var m: Mapping<int> := [([], 0)];
    var guarded := (q: (seq<(int, bool)>, int), vs: seq<int>) => [7];
    var holdsAt := (p: int, v: int) => true;
    assert guarded(m[0], Relevant([], m[0].0, holdsAt)) == [7];
    assert m[1..] == [];
    assert Rounds([], m, guarded, holdsAt) == Rounds([7], m[1..], guarded, holdsAt) == [7];
    assert NotIn([7], []) == [7] + NotIn([], []);
    NotInSelf([7]);
  }

  /** The queries of the predicate loop pair each current predicate with its
      fixed valuations. */
  function QueriesFor<E>(current: E, fvs: seq<seq<(E, bool)>>): seq<(seq<(E, bool)>, E)> {
    seq(|fvs|, i requires 0 <= i < |fvs| => (fvs[i], current))
  }

  /** The queries for the atomic predicates from position `from` on, in loop order. */
  function PredQueries<E(==)>(atomic: seq<E>, from: nat): seq<(seq<(E, bool)>, E)>
    decreases |atomic| - from
  {
    if from >= |atomic| then []
    else QueriesFor(atomic[from], FixedValuations(Others(atomic, atomic[from]))) + PredQueries(atomic, from + 1)
  }

  /** The predicate loop asks about exactly the atomic predicates, each with
      every fixed valuation of the others. */
  lemma {:induction false} PredQueriesMembers<E>(atomic: seq<E>, from: nat, fv: seq<(E, bool)>, current: E)
    ensures (fv, current) in PredQueries(atomic, from) <==>
      exists i :: from <= i < |atomic| && atomic[i] == current && fv in FixedValuations(Others(atomic, current))
    decreases |atomic| - from
  {
    if from < |atomic| {
      PredQueriesMembers(atomic, from + 1, fv, current);
      var all := FixedValuations(Others(atomic, atomic[from]));
      var here := QueriesFor(atomic[from], all);
      var rest := PredQueries(atomic, from + 1);
      assert PredQueries(atomic, from) == here + rest;
      assert (fv, current) in here + rest <==> (fv, current) in here || (fv, current) in rest;
      QueriesForMembers(atomic[from], all, fv, current);
      if atomic[from] == current && fv in all {
        assert from <= from < |atomic| && atomic[from] == current;
      } else if exists i :: from <= i < |atomic| && atomic[i] == current && fv in FixedValuations(Others(atomic, current)) {
        var i :| from <= i < |atomic| && atomic[i] == current && fv in FixedValuations(Others(atomic, current));
        assert from + 1 <= i < |atomic|;
      }
    }
  }

  lemma QueriesForMembers<E>(x: E, all: seq<seq<(E, bool)>>, fv: seq<(E, bool)>, current: E)
    ensures (fv, current) in QueriesFor(x, all) <==> x == current && fv in all
  {
    if (fv, current) in QueriesFor(x, all) {
      var k :| 0 <= k < |all| && QueriesFor(x, all)[k] == (fv, current);
    }
    if x == current && fv in all {
      var k :| 0 <= k < |all| && all[k] == fv;
      assert QueriesFor(x, all)[k] == (fv, current);
    }
  }

  /** `get_pred_sufficient_samples`: for every atomic predicate and every
      fixed valuation of the others, `distinguish` gives the points that tell
      the predicate's two values apart among the valuations the fixed
      valuation selects; the result is every point not in the initial list. */
  method GetPredSufficientSamples<E(==), V(==)>(initial: seq<V>, atomic: seq<E>,
                                               distinguish: ((seq<(E, bool)>, E), seq<V>) -> seq<V>, holdsAt: (E, V) -> bool)
    returns (r: seq<V>)
    ensures r == NotIn(Rounds(initial, PredQueries(atomic, 0), distinguish, holdsAt), initial)
  {
    var valuations := initial;
    ghost var target := Rounds(initial, PredQueries(atomic, 0), distinguish, holdsAt);
    for i := 0 to |atomic|
      invariant Rounds(valuations, PredQueries(atomic, i), distinguish, holdsAt) == target
    {
      var current := atomic[i];
      var all := FixedValuations(Others(atomic, current));
      ghost var qs := QueriesFor(current, all);
      ghost var rest := PredQueries(atomic, i + 1);
      for j := 0 to |all|
        invariant Rounds(valuations, qs[j..] + rest, distinguish, holdsAt) == target
      {
        var fixedVal := all[j];
        var relevant := Relevant(valuations, fixedVal, holdsAt);
        var morePoints := distinguish((fixedVal, current), relevant);
        RoundsSplit(valuations, qs, j, rest, distinguish, holdsAt);
        valuations := valuations + morePoints;
      }
      assert qs[|all|..] + rest == rest;
    }
    r := NotIn(valuations, initial);
  }

  /** The valuations `get_icfp_sufficient_samples` ends with: the term loop's
      list (extended in place), then the predicate loop's new points, then the
      benchmark completion's. */
  function IcfpValuations<E(==), V(==)>(initial: seq<V>, m: Mapping<E>, guarded: ((seq<(E, bool)>, E), seq<V>) -> seq<V>,
                                        atomic: seq<E>, distinguish: ((seq<(E, bool)>, E), seq<V>) -> seq<V>,
                                        holdsAt: (E, V) -> bool, complete: seq<V> -> seq<V>): seq<V>
  {
    var afterTerms := Rounds(initial, m, guarded, holdsAt);
    var afterPreds := afterTerms + NotIn(Rounds(afterTerms, PredQueries(atomic, 0), distinguish, holdsAt), afterTerms);
    afterPreds + complete(afterPreds)
  }

  /** `get_icfp_sufficient_samples`: the three stages on a copy of the
      caller's list, returning every point not in it. */
  method GetIcfpSufficientSamples<E(==), V(==)>(initial: seq<V>, m: Mapping<E>, guarded: ((seq<(E, bool)>, E), seq<V>) -> seq<V>,
                                               atomic: seq<E>, distinguish: ((seq<(E, bool)>, E), seq<V>) -> seq<V>,
                                               holdsAt: (E, V) -> bool, complete: seq<V> -> seq<V>)
    returns (r: seq<V>)
    ensures r == NotIn(IcfpValuations(initial, m, guarded, atomic, distinguish, holdsAt, complete), initial)
  {
    var valuations := new ValuationList(initial);
    var termPoints := GetTermSufficientSamplesAsWritten(valuations, m, guarded, holdsAt);
    valuations.items := valuations.items + termPoints;
    assert valuations.items == Rounds(initial, m, guarded, holdsAt);
    var predPoints := GetPredSufficientSamples(valuations.items, atomic, distinguish, holdsAt);
    valuations.items := valuations.items + predPoints;
    var completion := complete(valuations.items);
    valuations.items := valuations.items + completion;
    r := NotIn(valuations.items, initial);
  }

  /** In the composition the aliasing does not lose the term points: the list
      the term stage leaves has the same points as the caller's list extended
      by the copying version's result, and is that very list when no added
      point was already in the caller's list. */
  lemma IcfpTermStageAgrees<E, V>(initial: seq<V>, m: Mapping<E>, guarded: ((seq<(E, bool)>, E), seq<V>) -> seq<V>,
                                  holdsAt: (E, V) -> bool, x: V)
    ensures var afterTerms := Rounds(initial, m, guarded, holdsAt);
            x in afterTerms <==> x in initial + NotIn(afterTerms, initial)
    ensures var afterTerms := Rounds(initial, m, guarded, holdsAt);
            (forall k :: |initial| <= k < |afterTerms| ==> afterTerms[k] !in initial) ==>
              afterTerms == initial + NotIn(afterTerms, initial)
  {
    var afterTerms := Rounds(initial, m, guarded, holdsAt);
    RoundsExtend(initial, m, guarded, holdsAt);
    var ext := afterTerms[|initial|..];
    assert afterTerms == initial + ext;
    ExtensionFilter(initial, ext);
    NotInMembers(ext, initial, x);
    if forall k :: |initial| <= k < |afterTerms| ==> afterTerms[k] !in initial {
      forall i | 0 <= i < |ext| ensures ext[i] !in initial {
        assert ext[i] == afterTerms[|initial| + i];
      }
    }
  }
}
