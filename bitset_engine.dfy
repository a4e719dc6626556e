/**
  The BitSet engine that the C interface forwards to, modelled as the set of
  naturals it stands for: a universe size fixed at construction and the set of
  members below it.  Word packing, padding, popcount and the scan algorithm
  are not modelled; each operation is stated on the abstract set.

  Every operation that can throw a C++ exception returns an `Outcome`: either
  the value it returns or the text of the exception it throws (`e.what()`).
*/
module BitSetEngine {

  /** The result of calling into the engine: a returned value or a thrown exception. */
  datatype Outcome<+T> = Returned(value: T) | Threw(what: string)

  /** Texts of the exceptions the engine throws.  The engine's own wording is not
      part of this model; what matters to the interface is that none is empty. */
  const IndexOutOfRange: string := "BitSet: index out of range"
  const IncompatibleUniverse: string := "BitSet: operands have different universe sizes"
  const BadAlloc: string := "std::bad_alloc"

  /** A set of naturals drawn from the universe {0, ..., universe - 1}. */
  datatype BitSet = BitSet(universe: nat, members: set<nat>)

  /** Canonical padding, stated abstractly: nothing at or above the universe size is a member. */
  predicate WellFormed(b: BitSet) {
    forall e :: e in b.members ==> e < b.universe
  }

  /** The universe {0, ..., n - 1} itself. */
  function Below(n: nat): (s: set<nat>)
    ensures forall e: nat :: e in s <==> e < n
  {
    if n == 0 then {} else Below(n - 1) + {n - 1}
  }

  /** Construction with an initial fill value; allocation may fail. */
  function Construct(n: nat, initial: bool, allocFails: bool): Outcome<BitSet> {
    if allocFails then Threw(BadAlloc)
    else Returned(BitSet(n, if initial then Below(n) else {}))
  }

  function SetBit(b: BitSet, i: nat): Outcome<BitSet> {
    if i >= b.universe then Threw(IndexOutOfRange) else Returned(b.(members := b.members + {i}))
  }

  function ClearBit(b: BitSet, i: nat): Outcome<BitSet> {
    if i >= b.universe then Threw(IndexOutOfRange) else Returned(b.(members := b.members - {i}))
  }

  /** Flips element i and returns the new set together with the element's new value. */
  function FlipBit(b: BitSet, i: nat): Outcome<(BitSet, bool)> {
    if i >= b.universe then Threw(IndexOutOfRange)
    else if i in b.members then Returned((b.(members := b.members - {i}), false))
    else Returned((b.(members := b.members + {i}), true))
  }

  function TestBit(b: BitSet, i: nat): Outcome<bool> {
    if i >= b.universe then Threw(IndexOutOfRange) else Returned(i in b.members)
  }

  /** The three bulk mutators. */
  datatype BulkOp = SetAll | ClearAll | FlipAll

  function Bulk(op: BulkOp, b: BitSet): BitSet {
    match op
    case SetAll => b.(members := Below(b.universe))
    case ClearAll => b.(members := {})
    case FlipAll => b.(members := Below(b.universe) - b.members)
  }

  function Length(b: BitSet): nat { |b.members| }

  predicate IsFull(b: BitSet) { b.members == Below(b.universe) }

  predicate IsEmpty(b: BitSet) { b.members == {} }

  /** The four binary set-algebra operations. */
  datatype SetOp = Intersection | Union | SymmetricDifference | Difference

  function Apply(op: SetOp, x: set<nat>, y: set<nat>): set<nat> {
    match op
    case Intersection => x * y
    case Union => x + y
    case SymmetricDifference => (x - y) + (y - x)
    case Difference => x - y
  }

  /** A binary operation applied in place to `a`; both operands must share a universe. */
  function InPlace(op: SetOp, a: BitSet, b: BitSet): Outcome<BitSet> {
    if a.universe != b.universe then Threw(IncompatibleUniverse)
    else Returned(a.(members := Apply(op, a.members, b.members)))
  }

  /** The functional variant: the same result in a newly allocated instance. */
  function Functional(op: SetOp, a: BitSet, b: BitSet, allocFails: bool): Outcome<BitSet> {
    if a.universe != b.universe then Threw(IncompatibleUniverse)
    else if allocFails then Threw(BadAlloc)
    else Returned(a.(members := Apply(op, a.members, b.members)))
  }

  function Negated(b: BitSet): BitSet {
    b.(members := Below(b.universe) - b.members)
  }

  function Negate(b: BitSet, allocFails: bool): Outcome<BitSet> {
    if allocFails then Threw(BadAlloc) else Returned(Negated(b))
  }

  /** `==` on two instances: both must share a universe. */
  function Equal(a: BitSet, b: BitSet): Outcome<bool> {
    if a.universe != b.universe then Threw(IncompatibleUniverse) else Returned(a.members == b.members)
  }

  /** The engine's `<`, `<=`, `>` and `>=`: the subset order. */
  datatype Order = ProperSubset | Subset | ProperSuperset | Superset

  function Compare(rel: Order, a: BitSet, b: BitSet): Outcome<bool> {
    if a.universe != b.universe then Threw(IncompatibleUniverse)
    else Returned(match rel
                  case ProperSubset => a.members < b.members
                  case Subset => a.members <= b.members
                  case ProperSuperset => a.members > b.members
                  case Superset => a.members >= b.members)
  }

  /** Smallest member at or after `i`, or -1 when there is none. */
  function NextFrom(b: BitSet, i: nat): (r: int)
    decreases b.universe - i
    ensures r == -1 || (i <= r < b.universe && r in b.members)
    ensures forall j :: i <= j < b.universe && (r == -1 || j < r) ==> j !in b.members
  {
    if i >= b.universe then -1
    else if i in b.members then i
    else NextFrom(b, i + 1)
  }

  /** Largest member at or before `i`, or -1 when there is none. */
  function PrevFrom(b: BitSet, i: int): (r: int)
    requires i < b.universe
    decreases i + 1
    ensures r == -1 || (0 <= r <= i && r in b.members)
    ensures forall j :: 0 <= j <= i && r < j ==> j !in b.members
  {
    if i < 0 then -1
    else if i in b.members then i
    else PrevFrom(b, i - 1)
  }

  /** The four directional scans. */
  datatype Scan = NextAtOrAfter | NextAfter | PrevAtOrBefore | PrevBefore

  /** A scan from `pos`; a position outside the universe is a range error. */
  function ScanFrom(dir: Scan, b: BitSet, pos: nat): Outcome<int> {
    if pos >= b.universe then Threw(IndexOutOfRange)
    else Returned(match dir
                  case NextAtOrAfter => NextFrom(b, pos)
                  case NextAfter => NextFrom(b, pos + 1)
                  case PrevAtOrBefore => PrevFrom(b, pos)
                  case PrevBefore => PrevFrom(b, pos - 1))
  }

  /** Rendering with element 0 first, one '1' or '0' per element. */
  function Render(b: BitSet): (s: string)
    ensures |s| == b.universe
    ensures forall i :: 0 <= i < b.universe ==> (s[i] == '1' <==> i in b.members)
  {
    seq(b.universe, i => if i in b.members then '1' else '0')
  }

  function ToString(b: BitSet, allocFails: bool): Outcome<string> {
    if allocFails then Threw(BadAlloc) else Returned(Render(b))
  }

  function Clone(b: BitSet, allocFails: bool): Outcome<BitSet> {
    if allocFails then Threw(BadAlloc) else Returned(b)
  }
}
