/**
  The expressions that the solver and the sample-sufficiency helpers assemble
  through the synthesis context, over atoms of type `E`: the terms and
  predicates that the enumerators produce, each taken as an opaque expression.

  `Truth` reads a Boolean expression under a valuation of the atoms, where an
  atom "holds" when it evaluates to true (for a Boolean predicate) or to 1 (for
  the bit-vector predicates that `is1` and `if0` test).  `Select` follows the
  conditionals of a term-valued expression down to the atom it returns.
*/
module SynthExprs {

  datatype Option<+T> = None | Some(value: T)

  datatype Expr<E> =
    | Atom(e: E)
    | TrueConst
    | Not(arg: Expr<E>)
    | And(args: seq<Expr<E>>)
    | Ite(cond: Expr<E>, thenE: Expr<E>, elseE: Expr<E>)
    | Is1(arg: Expr<E>)
    | If0(cond: Expr<E>, thenE: Expr<E>, elseE: Expr<E>)

  /** The truth of a Boolean expression; `and` of no arguments is true. */
  predicate Truth<E>(g: Expr<E>, holds: E -> bool) {
    match g
    case Atom(e) => holds(e)
    case TrueConst => true
    case Not(a) => !Truth(a, holds)
    case And(args) => forall i :: 0 <= i < |args| ==> Truth(args[i], holds)
    case Ite(c, t, f) => if Truth(c, holds) then Truth(t, holds) else Truth(f, holds)
    case Is1(a) => Truth(a, holds)
    case If0(c, t, f) => if Truth(c, holds) then Truth(t, holds) else Truth(f, holds)
  }

  /** The atom a term-valued expression evaluates to, following `ite` and `if0`;
      `None` for an expression that is not a term (a Boolean connective). */
  function Select<E>(x: Expr<E>, holds: E -> bool): Option<E> {
    match x
    case Atom(e) => Some(e)
    case Ite(c, t, f) => if Truth(c, holds) then Select(t, holds) else Select(f, holds)
    case If0(c, t, f) => if Truth(c, holds) then Select(t, holds) else Select(f, holds)
    case _ => None
  }

  /** A conjunction extended by one more conjunct holds iff both parts hold. */
  lemma AndSnoc<E>(path: seq<Expr<E>>, g: Expr<E>, holds: E -> bool)
    ensures Truth(And(path + [g]), holds) <==> Truth(And(path), holds) && Truth(g, holds)
  {
    var args := path + [g];
    if Truth(And(path), holds) && Truth(g, holds) {
      forall i | 0 <= i < |args|
        ensures Truth(args[i], holds)
      {
        if i < |path| {
          assert args[i] == path[i];
        }
      }
    }
    if Truth(And(args), holds) {
      assert args[|path|] == g;
      forall i | 0 <= i < |path|
        ensures Truth(path[i], holds)
      {
        assert args[i] == path[i];
      }
    }
  }
}
