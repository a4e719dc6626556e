/**
  The size-indexed enumerators: leaf, functional and alternatives generators,
  the recursive cartesian product of sub-generators, and placeholders that a
  registry resolves to freshly built generators so that grammars can recurse.

  A generator is modelled as a value holding its configuration and its
  current size.  `SetSize` returns the generator with its new size (and, for
  alternatives and placeholders, the new state of what it owns); `Generate`
  reads that state and returns everything the generator yields, in order.
  The source's constructors clone every sub-generator they are given, so no
  two generators share a sub-generator and a value per generator is faithful.
*/
module Enumerators {

  /** A generated object: a leaf object, or a function descriptor applied to
      the objects its sub-generators produced. */
  datatype Obj<A> = Item(a: A) | Node(desc: A, args: seq<Obj<A>>)

  /** The size of an object: one per leaf and one per function application. */
  function ObjSize<A>(o: Obj<A>): nat {
    match o
    case Item(_) => 1
    case Node(_, args) => 1 + SizeSum(args)
  }

  function SizeSum<A>(os: seq<Obj<A>>): nat {
    if |os| == 0 then 0 else ObjSize(os[0]) + SizeSum(os[1..])
  }

  /** What a placeholder has been resolved to by its last `set_size`: nothing yet,
      nothing (a size of zero or less), or a freshly built generator. */
  datatype Instantiation<!A> = Unset | Inactive | Active(actual: Gen<A>)

  /** The four generator kinds.  `accept` is the object validator (the default
      one accepts everything).  An alternatives generator records its size too,
      but never reads it, so that field is not modelled. */
  datatype Gen<!A> =
    | Leaf(leaves: seq<A>, accept: Obj<A> -> bool, allowedSize: int)
    | Functional(desc: A, subs: seq<Gen<A>>, accept: Obj<A> -> bool, allowedSize: int)
    | Alternatives(subs: seq<Gen<A>>, accept: Obj<A> -> bool)
    | Placeholder(id: string, state: Instantiation<A>)

  /** The factory registry as placeholders see it: for each name, the generator
      its registered factory builds from its registered arguments. */
  type Registry<!A> = map<string, Gen<A>>

  /** `utils.partitions(n, k)`, taken as a parameter: the ways to split `n` into `k` sizes. */
  type Partitioner = (nat, nat) -> seq<seq<nat>>

  function Sum(p: seq<nat>): nat {
    if |p| == 0 then 0 else p[0] + Sum(p[1..])
  }

  /** What is assumed of `utils.partitions`: each partition of `n` into `k`
      parts has `k` entries that add up to `n`. */
  ghost predicate PartitionsOk(parts: Partitioner) {
    forall n: nat, k: nat, p :: p in parts(n, k) ==> |p| == k && Sum(p) == n
  }

  // ---------------------------------------------------------------------
  // Well-formedness of generators and of the registry
  // ---------------------------------------------------------------------

  /** No placeholder is reached by `set_size` without passing a functional generator. */
  predicate Guarded<A>(g: Gen<A>) {
    match g
    case Alternatives(subs, _) => forall i :: 0 <= i < |subs| ==> Guarded(subs[i])
    case Placeholder(_, _) => false
    case _ => true
  }

  /** Every placeholder inside `g` names a registered factory. */
  predicate Resolved<A>(g: Gen<A>, env: Registry<A>) {
    match g
    case Leaf(_, _, _) => true
    case Functional(_, subs, _, _) => forall i :: 0 <= i < |subs| ==> Resolved(subs[i], env)
    case Alternatives(subs, _) => forall i :: 0 <= i < |subs| ==> Resolved(subs[i], env)
    case Placeholder(id, st) => id in env && (st.Active? ==> Resolved(st.actual, env))
  }

  /** A registry whose templates resolve within it and never recurse unguarded. */
  predicate RegistryOk<A>(env: Registry<A>) {
    forall id :: id in env ==> Guarded(env[id]) && Resolved(env[id], env)
  }

  /** Every placeholder that `generate` would reach has had its size set. */
  predicate Ready<A>(g: Gen<A>) {
    match g
    case Alternatives(subs, _) => forall i :: 0 <= i < |subs| ==> Ready(subs[i])
    case Placeholder(_, st) => !st.Unset? && (st.Active? ==> Ready(st.actual))
    case _ => true
  }

  /** The state `set_size(n)` leaves behind: every size reached is `n`, and a
      placeholder is instantiated exactly when `n` is positive. */
  predicate Sized<A>(g: Gen<A>, n: int) {
    match g
    case Leaf(_, _, s) => s == n
    case Functional(_, _, _, s) => s == n
    case Alternatives(subs, _) => forall i :: 0 <= i < |subs| ==> Sized(subs[i], n)
    case Placeholder(_, st) =>
      if n > 0 then st.Active? && Sized(st.actual, n) else st.Inactive?
  }

  // ---------------------------------------------------------------------
  // Termination measures
  // ---------------------------------------------------------------------

  function Max0(n: int): nat {
    if n > 0 then n else 0
  }

  /** The largest size that `generate` reaches before it passes a functional generator. */
  function Bound<A>(g: Gen<A>): nat {
    match g
    case Leaf(_, _, s) => Max0(s)
    case Functional(_, _, _, s) => Max0(s)
    case Alternatives(subs, _) => MaxBound(subs)
    case Placeholder(_, st) => if st.Active? then Bound(st.actual) else 0
  }

  function MaxBound<A>(gs: seq<Gen<A>>): nat {
    if |gs| == 0 then 0
    else if Bound(gs[0]) < MaxBound(gs[1..]) then MaxBound(gs[1..])
    else Bound(gs[0])
  }

  lemma {:induction false} MaxBoundAtMost<A>(gs: seq<Gen<A>>, b: nat)
    requires forall i :: 0 <= i < |gs| ==> Bound(gs[i]) <= b
    ensures MaxBound(gs) <= b
  {
    if |gs| > 0 {
      MaxBoundAtMost(gs[1..], b);
    }
  }

  lemma {:induction false} BoundAtMostMax<A>(gs: seq<Gen<A>>, i: nat)
    requires i < |gs|
    ensures Bound(gs[i]) <= MaxBound(gs)
  {
    if i > 0 {
      BoundAtMostMax(gs[1..], i - 1);
    }
  }

  /** The number of generator nodes `generate` walks through before it passes
      a functional generator. */
  function Size<A>(g: Gen<A>): nat {
    match g
    case Alternatives(subs, _) => 1 + SizeOfAll(subs)
    case Placeholder(_, st) => if st.Active? then 1 + Size(st.actual) else 1
    case _ => 1
  }

  function SizeOfAll<A>(gs: seq<Gen<A>>): nat {
    if |gs| == 0 then 0 else Size(gs[0]) + SizeOfAll(gs[1..])
  }

  // ---------------------------------------------------------------------
  // set_size
  // ---------------------------------------------------------------------

  /** `set_size(n)`: leaf and functional generators record `n`; alternatives pass
      it to every sub-generator; a placeholder builds a fresh generator from its
      registered factory and sizes it when `n > 0`, and drops it otherwise. */
  function SetSize<A>(g: Gen<A>, n: int, env: Registry<A>): (r: Gen<A>)
    requires RegistryOk(env) && Resolved(g, env)
    decreases if Guarded(g) then 0 else 1, g
    ensures Sized(r, n) && Ready(r) && Resolved(r, env) && Bound(r) <= Max0(n)
  {
    match g
    case Leaf(l, acc, _) => Leaf(l, acc, n)
    case Functional(d, subs, acc, _) => Functional(d, subs, acc, n)
    case Alternatives(subs, acc) =>
      var rs := seq(|subs|, i requires 0 <= i < |subs| => SetSize(subs[i], n, env));
      MaxBoundAtMost(rs, Max0(n));
      Alternatives(rs, acc)
    case Placeholder(id, _) =>
      if n > 0 then Placeholder(id, Active(SetSize(env[id], n, env)))
      else Placeholder(id, Inactive)
  }

  /** `_set_sub_generator_sizes(partition)`: sub-generator `i` gets size `p[i]`. */
  function SetSizes<A>(subs: seq<Gen<A>>, p: seq<nat>, env: Registry<A>): (r: seq<Gen<A>>)
    requires RegistryOk(env) && |p| == |subs|
    requires forall i :: 0 <= i < |subs| ==> Resolved(subs[i], env)
    ensures |r| == |subs|
    ensures forall i :: 0 <= i < |r| ==> Ready(r[i]) && Resolved(r[i], env) && Bound(r[i]) <= p[i]
  {
    seq(|subs|, i requires 0 <= i < |subs| => SetSize(subs[i], p[i], env))
  }

  lemma {:induction false} PartAtMostSum(p: seq<nat>, i: nat)
    requires i < |p|
    ensures p[i] <= Sum(p)
  {
    if i > 0 {
      PartAtMostSum(p[1..], i - 1);
    }
  }

  // ---------------------------------------------------------------------
  // generate
  // ---------------------------------------------------------------------

  /** The objects that pass a validator, in order. */
  function Filter<A>(accept: Obj<A> -> bool, xs: seq<Obj<A>>): seq<Obj<A>> {
    if |xs| == 0 then []
    else (if accept(xs[0]) then [xs[0]] else []) + Filter(accept, xs[1..])
  }

  function Items<A>(l: seq<A>): seq<Obj<A>> {
    seq(|l|, i requires 0 <= i < |l| => Item(l[i]))
  }

  function Apply<A>(d: A, ts: seq<seq<Obj<A>>>): seq<Obj<A>> {
    seq(|ts|, i requires 0 <= i < |ts| => Node(d, ts[i]))
  }

  /** For each tuple of `rest` in order, every element of `first` in order put in front of it. */
  function Extend<A>(first: seq<Obj<A>>, rest: seq<seq<Obj<A>>>): seq<seq<Obj<A>>> {
    if |rest| == 0 then []
    else seq(|first|, j requires 0 <= j < |first| => [first[j]] + rest[0]) + Extend(first, rest[1..])
  }

  /** `generate()`. */
  function Generate<A>(g: Gen<A>, env: Registry<A>, parts: Partitioner): seq<Obj<A>>
    requires RegistryOk(env) && PartitionsOk(parts) && Resolved(g, env) && Ready(g)
    decreases Bound(g), Size(g), 0
  {
    match g
    case Leaf(l, acc, s) => if s != 1 then [] else Filter(acc, Items(l))
    case Functional(d, subs, acc, s) =>
      if s - 1 < |subs| then [] else FunctionalOver(d, subs, acc, parts(s - 1, |subs|), s, env, parts)
    case Alternatives(subs, _) => GenerateAll(subs, env, parts)
    case Placeholder(_, st) => if st.Active? then Generate(st.actual, env, parts) else []
  }

  /** The outputs of a list of generators, one after another. */
  function GenerateAll<A>(gs: seq<Gen<A>>, env: Registry<A>, parts: Partitioner): seq<Obj<A>>
    requires RegistryOk(env) && PartitionsOk(parts)
    requires forall i :: 0 <= i < |gs| ==> Resolved(gs[i], env) && Ready(gs[i])
    decreases MaxBound(gs), SizeOfAll(gs), 1
  {
    if |gs| == 0 then []
    else
      BoundAtMostMax(gs, 0);
      Generate(gs[0], env, parts) + GenerateAll(gs[1..], env, parts)
  }

  /** The loop of a functional generator of size `s` over the partitions in `plist`. */
  function FunctionalOver<A>(d: A, subs: seq<Gen<A>>, acc: Obj<A> -> bool, plist: seq<seq<nat>>, s: nat,
                             env: Registry<A>, parts: Partitioner): seq<Obj<A>>
    requires RegistryOk(env) && PartitionsOk(parts) && s >= 1
    requires forall i :: 0 <= i < |subs| ==> Resolved(subs[i], env)
    requires forall p :: p in plist ==> |p| == |subs| && Sum(p) == s - 1
    decreases s, 0, |plist|
  {
    if |plist| == 0 then []
    else
      var p := plist[0];
      var sized := SetSizes(subs, p, env);
      assert forall i :: 0 <= i < |sized| ==> Bound(sized[i]) <= s - 1 by {
        forall i | 0 <= i < |sized| {
          PartAtMostSum(p, i);
        }
      }
      MaxBoundAtMost(sized, s - 1);
      Filter(acc, Apply(d, Product(sized, env, parts))) + FunctionalOver(d, subs, acc, plist[1..], s, env, parts)
  }

  /** `_cartesian_product_of_generators`: the tuples whose `i`-th element is an
      output of `gs[i]`, the element of `gs[0]` varying fastest.  The source
      never calls it with no generators (a functional generator has at least one
      sub-generator); the model gives the empty sequence there. */
  function Product<A>(gs: seq<Gen<A>>, env: Registry<A>, parts: Partitioner): seq<seq<Obj<A>>>
    requires RegistryOk(env) && PartitionsOk(parts)
    requires forall i :: 0 <= i < |gs| ==> Resolved(gs[i], env) && Ready(gs[i])
    decreases MaxBound(gs), SizeOfAll(gs), 1
  {
    if |gs| == 0 then []
    else
      BoundAtMostMax(gs, 0);
      var first := Generate(gs[0], env, parts);
      if |gs| == 1 then Extend(first, [[]]) else Extend(first, Product(gs[1..], env, parts))
  }

  // ---------------------------------------------------------------------
  // What the generators yield
  // ---------------------------------------------------------------------

  lemma {:induction false} FilterMembers<A>(accept: Obj<A> -> bool, xs: seq<Obj<A>>)
    ensures forall o :: o in Filter(accept, xs) <==> o in xs && accept(o)
  {
    if |xs| > 0 {
      FilterMembers(accept, xs[1..]);
      assert xs == [xs[0]] + xs[1..];
    }
  }

  lemma {:induction false} FilterAllAccepted<A>(accept: Obj<A> -> bool, xs: seq<Obj<A>>)
    requires forall i :: 0 <= i < |xs| ==> accept(xs[i])
    ensures Filter(accept, xs) == xs
  {
    if |xs| > 0 {
      FilterAllAccepted(accept, xs[1..]);
    }
  }

  /** `LeafGenerator.generate`: nothing unless the size is 1; then exactly the
      leaf objects the validator accepts, and all of them in list order when it
      accepts every one. */
  lemma LeafOutputs<A>(l: seq<A>, acc: Obj<A> -> bool, s: int, env: Registry<A>, parts: Partitioner, o: Obj<A>)
    requires RegistryOk(env) && PartitionsOk(parts)
    ensures s != 1 ==> Generate(Leaf(l, acc, s), env, parts) == []
    ensures o in Generate(Leaf(l, acc, s), env, parts) <==> s == 1 && o.Item? && o.a in l && acc(o)
    ensures s == 1 && (forall x :: x in l ==> acc(Item(x))) ==>
              Generate(Leaf(l, acc, s), env, parts) == Items(l)
  {
    var items := Items(l);
    FilterMembers(acc, items);
    if o.Item? && o.a in l {
      var i :| 0 <= i < |l| && l[i] == o.a;
      assert items[i] == o;
    }
    if s == 1 && (forall x :: x in l ==> acc(Item(x))) {
      forall i | 0 <= i < |items| ensures acc(items[i]) {
        assert l[i] in l;
      }
      FilterAllAccepted(acc, items);
    }
  }

  lemma {:induction false} ExtendLength<A>(first: seq<Obj<A>>, rest: seq<seq<Obj<A>>>)
    ensures |Extend(first, rest)| == |first| * |rest|
  {
    if |rest| > 0 {
      ExtendLength(first, rest[1..]);
      assert |first| * |rest| == |first| + |first| * (|rest| - 1);
    }
  }

  /** Tuple `i * |first| + j` of `Extend(first, rest)` is `first[j]` in front of `rest[i]`. */
  lemma {:induction false} ExtendAt<A>(first: seq<Obj<A>>, rest: seq<seq<Obj<A>>>, i: nat, j: nat)
    requires i < |rest| && j < |first|
    ensures i * |first| + j < |Extend(first, rest)|
    ensures Extend(first, rest)[i * |first| + j] == [first[j]] + rest[i]
  {
    ExtendLength(first, rest);
    RowIndex(i, j, |first|, |rest|);
    var head := seq(|first|, k requires 0 <= k < |first| => [first[k]] + rest[0]);
    assert Extend(first, rest) == head + Extend(first, rest[1..]);
    if i == 0 {
      assert Extend(first, rest)[j] == head[j];
    } else {
      ExtendAt(first, rest[1..], i - 1, j);
      var k := (i - 1) * |first| + j;
      assert i * |first| + j == |first| + k;
      assert Extend(first, rest)[|first| + k] == Extend(first, rest[1..])[k];
    }
  }

  /** Row `i`, column `j` of an `m`-row table with `n` columns is in range,
      and rows after the first start `n` entries later. */
  lemma RowIndex(i: nat, j: nat, n: nat, m: nat)
    requires i < m && j < n
    ensures i * n + j < n * m
    ensures i > 0 ==> i * n + j == n + ((i - 1) * n + j)
  {
    assert i * n <= (m - 1) * n;
    if i > 0 {
      assert i * n == n + (i - 1) * n;
    }
  }

  lemma {:induction false} ExtendMembers<A>(first: seq<Obj<A>>, rest: seq<seq<Obj<A>>>, t: seq<Obj<A>>)
    ensures t in Extend(first, rest) <==> |t| > 0 && t[0] in first && t[1..] in rest
  {
    if |rest| > 0 {
      ExtendMembers(first, rest[1..], t);
      var head := seq(|first|, j requires 0 <= j < |first| => [first[j]] + rest[0]);
      assert Extend(first, rest) == head + Extend(first, rest[1..]);
      if t in head {
        var j :| 0 <= j < |first| && head[j] == t;
        assert t[1..] == rest[0];
      }
      if |t| > 0 && t[0] in first && t[1..] == rest[0] {
        var j :| 0 <= j < |first| && first[j] == t[0];
        assert t == [t[0]] + t[1..];
        assert head[j] == t;
      }
      assert rest == [rest[0]] + rest[1..];
    }
  }

  /** The tuples of the cartesian product are exactly those with one element
      per generator, element `i` drawn from the outputs of `gs[i]`. */
  lemma {:induction false} ProductMembers<A>(gs: seq<Gen<A>>, env: Registry<A>, parts: Partitioner, t: seq<Obj<A>>)
    requires RegistryOk(env) && PartitionsOk(parts)
    requires forall i :: 0 <= i < |gs| ==> Resolved(gs[i], env) && Ready(gs[i])
    requires |gs| >= 1
    ensures t in Product(gs, env, parts) <==>
              |t| == |gs| && forall i :: 0 <= i < |gs| ==> t[i] in Generate(gs[i], env, parts)
  {
    var first := Generate(gs[0], env, parts);
    if |gs| == 1 {
      ExtendMembers(first, [[]], t);
      if |t| > 0 {
        var unit: seq<seq<Obj<A>>> := [[]];
        assert t[1..] in unit <==> t[1..] == unit[0];
      }
    } else {
      ExtendMembers(first, Product(gs[1..], env, parts), t);
      if |t| > 0 {
        ProductMembers(gs[1..], env, parts, t[1..]);
        if |t| == |gs| && t[0] in first && t[1..] in Product(gs[1..], env, parts) {
          forall i | 0 <= i < |gs| ensures t[i] in Generate(gs[i], env, parts) {
            if i > 0 {
              assert t[1..][i - 1] == t[i];
            }
          }
        }
        if |t| == |gs| && forall i :: 0 <= i < |gs| ==> t[i] in Generate(gs[i], env, parts) {
          assert t[0] in first;
          forall i | 0 <= i < |gs| - 1 ensures t[1..][i] in Generate(gs[1..][i], env, parts) {
            assert t[1..][i] == t[i + 1];
          }
        }
      }
    }
  }

  /** The number of tuples the product of `gs` can form. */
  ghost function OutputCount<A>(gs: seq<Gen<A>>, env: Registry<A>, parts: Partitioner): nat
    requires RegistryOk(env) && PartitionsOk(parts)
    requires forall i :: 0 <= i < |gs| ==> Resolved(gs[i], env) && Ready(gs[i])
  {
    if |gs| == 0 then 1 else |Generate(gs[0], env, parts)| * OutputCount(gs[1..], env, parts)
  }

  /** The product yields as many tuples as the sub-generators' output counts multiplied. */
  lemma {:induction false} ProductCount<A>(gs: seq<Gen<A>>, env: Registry<A>, parts: Partitioner)
    requires RegistryOk(env) && PartitionsOk(parts)
    requires forall i :: 0 <= i < |gs| ==> Resolved(gs[i], env) && Ready(gs[i])
    requires |gs| >= 1
    ensures |Product(gs, env, parts)| == OutputCount(gs, env, parts)
  {
    var first := Generate(gs[0], env, parts);
    if |gs| == 1 {
      ExtendLength(first, [[]]);
    } else {
      ProductCount(gs[1..], env, parts);
      ExtendLength(first, Product(gs[1..], env, parts));
    }
  }

  /** The element drawn from `gs[0]` varies fastest: tuple `i * |G0| + j` is
      output `j` of `gs[0]` in front of tuple `i` of the product of the rest. */
  lemma ProductOrder<A>(gs: seq<Gen<A>>, env: Registry<A>, parts: Partitioner, i: nat, j: nat)
    requires RegistryOk(env) && PartitionsOk(parts)
    requires forall k :: 0 <= k < |gs| ==> Resolved(gs[k], env) && Ready(gs[k])
    requires |gs| >= 2 && i < |Product(gs[1..], env, parts)| && j < |Generate(gs[0], env, parts)|
    ensures i * |Generate(gs[0], env, parts)| + j < |Product(gs, env, parts)|
    ensures Product(gs, env, parts)[i * |Generate(gs[0], env, parts)| + j]
            == [Generate(gs[0], env, parts)[j]] + Product(gs[1..], env, parts)[i]
  {
    ExtendAt(Generate(gs[0], env, parts), Product(gs[1..], env, parts), i, j);
  }

  lemma {:induction false} ApplyMembers<A>(d: A, ts: seq<seq<Obj<A>>>, o: Obj<A>)
    ensures o in Apply(d, ts) <==> o.Node? && o.desc == d && o.args in ts
  {
    if o.Node? && o.desc == d && o.args in ts {
      var i :| 0 <= i < |ts| && ts[i] == o.args;
      assert Apply(d, ts)[i] == o;
    }
  }

  lemma {:induction false} FunctionalOverMembers<A>(d: A, subs: seq<Gen<A>>, acc: Obj<A> -> bool, plist: seq<seq<nat>>,
                                                    s: nat, env: Registry<A>, parts: Partitioner, o: Obj<A>)
    requires RegistryOk(env) && PartitionsOk(parts) && s >= 1
    requires forall i :: 0 <= i < |subs| ==> Resolved(subs[i], env)
    requires forall p :: p in plist ==> |p| == |subs| && Sum(p) == s - 1
    ensures o in FunctionalOver(d, subs, acc, plist, s, env, parts) <==>
              acc(o) && o.Node? && o.desc == d &&
              exists p :: p in plist && |p| == |subs| && o.args in Product(SetSizes(subs, p, env), env, parts)
  {
    if |plist| > 0 {
      var p := plist[0];
      var products := Product(SetSizes(subs, p, env), env, parts);
      var head := Filter(acc, Apply(d, products));
      FunctionalOverMembers(d, subs, acc, plist[1..], s, env, parts, o);
      FunctionalOverCons(d, subs, acc, plist, s, env, parts, o);
      FilterMembers(acc, Apply(d, products));
      assert o in head <==> o in Apply(d, products) && acc(o);
      ApplyMembers(d, products, o);
      if o in head {
        assert p in plist && |p| == |subs| && o.args in products;
      }
      if acc(o) && o.Node? && o.desc == d &&
         exists q :: q in plist && |q| == |subs| && o.args in Product(SetSizes(subs, q, env), env, parts)
      {
        var q :| q in plist && |q| == |subs| && o.args in Product(SetSizes(subs, q, env), env, parts);
        if q != p {
          assert q in plist[1..];
        }
      }
    }
  }

  /** One partition's accepted applications, then those of the remaining partitions. */
  lemma FunctionalOverCons<A>(d: A, subs: seq<Gen<A>>, acc: Obj<A> -> bool, plist: seq<seq<nat>>,
                              s: nat, env: Registry<A>, parts: Partitioner, o: Obj<A>)
    requires RegistryOk(env) && PartitionsOk(parts) && s >= 1 && |plist| > 0
    requires forall i :: 0 <= i < |subs| ==> Resolved(subs[i], env)
    requires forall p :: p in plist ==> |p| == |subs| && Sum(p) == s - 1
    ensures o in FunctionalOver(d, subs, acc, plist, s, env, parts) <==>
              o in Filter(acc, Apply(d, Product(SetSizes(subs, plist[0], env), env, parts))) ||
              o in FunctionalOver(d, subs, acc, plist[1..], s, env, parts)
  {
  }

  /** Child `i` of `t` is an output of sub-generator `i` set to size `p[i]`. */
  ghost predicate ChildrenFrom<A>(subs: seq<Gen<A>>, p: seq<nat>, env: Registry<A>, parts: Partitioner, t: seq<Obj<A>>)
    requires RegistryOk(env) && PartitionsOk(parts) && |p| == |subs|
    requires forall i :: 0 <= i < |subs| ==> Resolved(subs[i], env)
  {
    |t| == |subs| && forall i :: 0 <= i < |subs| ==> t[i] in Generate(SetSize(subs[i], p[i], env), env, parts)
  }

  /** The product of sub-generators sized by a partition: child `i` comes from sub-generator `i` at size `p[i]`. */
  lemma ProductOfSized<A>(subs: seq<Gen<A>>, p: seq<nat>, env: Registry<A>, parts: Partitioner, t: seq<Obj<A>>)
    requires RegistryOk(env) && PartitionsOk(parts) && |subs| >= 1 && |p| == |subs|
    requires forall i :: 0 <= i < |subs| ==> Resolved(subs[i], env)
    ensures t in Product(SetSizes(subs, p, env), env, parts) <==> ChildrenFrom(subs, p, env, parts, t)
  {
    var sized := SetSizes(subs, p, env);
    ProductMembers(sized, env, parts, t);
    assert forall i :: 0 <= i < |subs| ==> sized[i] == SetSize(subs[i], p[i], env);
  }

  /** A functional generator without sub-generators, which its constructor rules out, yields nothing. */
  lemma {:induction false} FunctionalOverNoSubs<A>(d: A, acc: Obj<A> -> bool, plist: seq<seq<nat>>, s: nat,
                                                   env: Registry<A>, parts: Partitioner)
    requires RegistryOk(env) && PartitionsOk(parts) && s >= 1
    requires forall p :: p in plist ==> |p| == 0 && Sum(p) == s - 1
    ensures FunctionalOver(d, [], acc, plist, s, env, parts) == []
  {
    if |plist| > 0 {
      FunctionalOverNoSubs(d, acc, plist[1..], s, env, parts);
    }
  }

  /** `FunctionalGenerator.generate`: nothing when the size leaves fewer than one
      unit per argument; otherwise exactly the accepted applications of the
      descriptor to `arity` children, where for some partition of `size - 1`
      child `i` is an output of sub-generator `i` set to size `partition[i]`. */
  lemma FunctionalOutputs<A>(d: A, subs: seq<Gen<A>>, acc: Obj<A> -> bool, s: int,
                             env: Registry<A>, parts: Partitioner, o: Obj<A>)
    requires RegistryOk(env) && PartitionsOk(parts) && |subs| >= 1
    requires forall i :: 0 <= i < |subs| ==> Resolved(subs[i], env)
    ensures s - 1 < |subs| ==> Generate(Functional(d, subs, acc, s), env, parts) == []
    ensures s - 1 >= |subs| ==>
              (o in Generate(Functional(d, subs, acc, s), env, parts) <==>
                 acc(o) && o.Node? && o.desc == d && |o.args| == |subs| &&
                 exists p :: p in parts(s - 1, |subs|) && |p| == |subs| && ChildrenFrom(subs, p, env, parts, o.args))
  {
    if s - 1 >= |subs| {
      var plist := parts(s - 1, |subs|);
      FunctionalOverMembers(d, subs, acc, plist, s, env, parts, o);
      if o in Generate(Functional(d, subs, acc, s), env, parts) {
        var p :| p in plist && |p| == |subs| && o.args in Product(SetSizes(subs, p, env), env, parts);
        ProductOfSized(subs, p, env, parts, o.args);
      }
      if acc(o) && o.Node? && o.desc == d && exists p :: p in plist && |p| == |subs| && ChildrenFrom(subs, p, env, parts, o.args) {
        var p :| p in plist && |p| == |subs| && ChildrenFrom(subs, p, env, parts, o.args);
        ProductOfSized(subs, p, env, parts, o.args);
      }
    }
  }

  /** The concatenation of a list of sequences. */
  function Flatten<T>(ss: seq<seq<T>>): seq<T> {
    if |ss| == 0 then [] else ss[0] + Flatten(ss[1..])
  }

  lemma {:induction false} FlattenMembers<T>(ss: seq<seq<T>>, x: T)
    ensures x in Flatten(ss) <==> exists i :: 0 <= i < |ss| && x in ss[i]
  {
    if |ss| > 0 {
      FlattenMembers(ss[1..], x);
      if x in ss[0] {
      } else if exists i :: 0 <= i < |ss| && x in ss[i] {
        var i :| 0 <= i < |ss| && x in ss[i];
        assert ss[1..][i - 1] == ss[i];
      }
    }
  }

  lemma {:induction false} GenerateAllIsFlatten<A>(gs: seq<Gen<A>>, env: Registry<A>, parts: Partitioner)
    requires RegistryOk(env) && PartitionsOk(parts)
    requires forall i :: 0 <= i < |gs| ==> Resolved(gs[i], env) && Ready(gs[i])
    ensures GenerateAll(gs, env, parts) == Flatten(seq(|gs|, i requires 0 <= i < |gs| => Generate(gs[i], env, parts)))
  {
    var outs := seq(|gs|, i requires 0 <= i < |gs| => Generate(gs[i], env, parts));
    if |gs| > 0 {
      GenerateAllIsFlatten(gs[1..], env, parts);
      assert outs[1..] == seq(|gs[1..]|, i requires 0 <= i < |gs[1..]| => Generate(gs[1..][i], env, parts));
    }
  }

  /** `AlternativesGenerator`: `set_size(n)` sizes every alternative to `n`, and
      `generate` is the in-order concatenation of what they then yield. */
  lemma AlternativesOutputs<A>(subs: seq<Gen<A>>, acc: Obj<A> -> bool, n: int, env: Registry<A>, parts: Partitioner)
    requires RegistryOk(env) && PartitionsOk(parts)
    requires forall i :: 0 <= i < |subs| ==> Resolved(subs[i], env)
    ensures Generate(SetSize(Alternatives(subs, acc), n, env), env, parts)
            == Flatten(seq(|subs|, i requires 0 <= i < |subs| => Generate(SetSize(subs[i], n, env), env, parts)))
    ensures forall o :: o in Generate(SetSize(Alternatives(subs, acc), n, env), env, parts) <==>
              exists i :: 0 <= i < |subs| && o in Generate(SetSize(subs[i], n, env), env, parts)
  {
    var sized := SetSize(Alternatives(subs, acc), n, env).subs;
    assert |sized| == |subs|;
    assert forall i :: 0 <= i < |subs| ==> sized[i] == SetSize(subs[i], n, env);
    var outs := seq(|subs|, i requires 0 <= i < |subs| => Generate(SetSize(subs[i], n, env), env, parts));
    GenerateAllIsFlatten(sized, env, parts);
    assert seq(|sized|, i requires 0 <= i < |sized| => Generate(sized[i], env, parts)) == outs;
    var all := Generate(SetSize(Alternatives(subs, acc), n, env), env, parts);
    assert all == Flatten(outs);
    forall o ensures o in all <==> exists i :: 0 <= i < |subs| && o in Generate(SetSize(subs[i], n, env), env, parts) {
      FlattenMembers(outs, o);
      if o in all {
        var i :| 0 <= i < |outs| && o in outs[i];
        assert outs[i] == Generate(SetSize(subs[i], n, env), env, parts);
      }
      if exists i :: 0 <= i < |subs| && o in Generate(SetSize(subs[i], n, env), env, parts) {
        var i :| 0 <= i < |subs| && o in Generate(SetSize(subs[i], n, env), env, parts);
        assert o in outs[i];
      }
    }
  }

  /** A placeholder's `set_size(n)`: for `n <= 0` it yields nothing; otherwise it
      yields what a fresh generator from its registered factory yields at size
      `n`, whatever it held before. */
  lemma PlaceholderOutputs<A>(id: string, st: Instantiation<A>, n: int, env: Registry<A>, parts: Partitioner)
    requires RegistryOk(env) && PartitionsOk(parts) && Resolved(Placeholder(id, st), env)
    ensures n <= 0 ==> Generate(SetSize(Placeholder(id, st), n, env), env, parts) == []
    ensures n > 0 ==> Generate(SetSize(Placeholder(id, st), n, env), env, parts)
                      == Generate(SetSize(env[id], n, env), env, parts)
  {
  }

  lemma {:induction false} SizeSumOfParts<A>(os: seq<Obj<A>>, p: seq<nat>)
    requires |os| == |p| && forall i :: 0 <= i < |p| ==> ObjSize(os[i]) == p[i]
    ensures SizeSum(os) == Sum(p)
  {
    if |p| > 0 {
      SizeSumOfParts(os[1..], p[1..]);
    }
  }

  lemma {:induction false} SizeAtMostAll<A>(gs: seq<Gen<A>>, i: nat)
    requires i < |gs|
    ensures Size(gs[i]) <= SizeOfAll(gs)
  {
    if i > 0 {
      SizeAtMostAll(gs[1..], i - 1);
    }
  }

  lemma {:induction false} GenerateAllMembers<A>(gs: seq<Gen<A>>, env: Registry<A>, parts: Partitioner, o: Obj<A>)
    requires RegistryOk(env) && PartitionsOk(parts)
    requires forall i :: 0 <= i < |gs| ==> Resolved(gs[i], env) && Ready(gs[i])
    ensures o in GenerateAll(gs, env, parts) <==> exists i :: 0 <= i < |gs| && o in Generate(gs[i], env, parts)
  {
    var outs := seq(|gs|, i requires 0 <= i < |gs| => Generate(gs[i], env, parts));
    GenerateAllIsFlatten(gs, env, parts);
    FlattenMembers(outs, o);
    assert forall i :: 0 <= i < |gs| ==> outs[i] == Generate(gs[i], env, parts);
  }

  /** The enumerators are size-indexed: once a generator has been set to size
      `n`, every object it yields has size `n`. */
  lemma {:induction false} SizedOutputs<A>(g: Gen<A>, n: int, env: Registry<A>, parts: Partitioner)
    requires RegistryOk(env) && PartitionsOk(parts) && Resolved(g, env) && Ready(g) && Sized(g, n)
    decreases Bound(g), Size(g), 1
    ensures forall o :: o in Generate(g, env, parts) ==> ObjSize(o) == n
  {
    match g
    case Leaf(l, acc, s) =>
      forall o | o in Generate(g, env, parts) ensures ObjSize(o) == n {
        LeafOutputs(l, acc, s, env, parts, o);
      }
    case Functional(d, subs, acc, s) =>
      SizedFunctionalOutputs(d, subs, acc, s, env, parts);
    case Alternatives(subs, _) =>
      SizedAlternativesOutputs(subs, n, env, parts);
    case Placeholder(_, st) =>
      if st.Active? {
        SizedOutputs(st.actual, n, env, parts);
      }
  }

  lemma {:induction false} SizedFunctionalOutputs<A>(d: A, subs: seq<Gen<A>>, acc: Obj<A> -> bool, s: int,
                                                     env: Registry<A>, parts: Partitioner)
    requires RegistryOk(env) && PartitionsOk(parts)
    requires forall i :: 0 <= i < |subs| ==> Resolved(subs[i], env)
    decreases Max0(s), 0, 0
    ensures forall o :: o in Generate(Functional(d, subs, acc, s), env, parts) ==> ObjSize(o) == s
  {
    var out := Generate(Functional(d, subs, acc, s), env, parts);
    if s - 1 >= |subs| && |subs| == 0 {
      FunctionalOverNoSubs(d, acc, parts(s - 1, 0), s, env, parts);
    } else if s - 1 >= |subs| {
      forall o | o in out ensures ObjSize(o) == s {
        FunctionalOutputs(d, subs, acc, s, env, parts, o);
        var p :| p in parts(s - 1, |subs|) && |p| == |subs| && ChildrenFrom(subs, p, env, parts, o.args);
        forall i | 0 <= i < |subs| ensures ObjSize(o.args[i]) == p[i] {
          PartAtMostSum(p, i);
          SizedOutputs(SetSize(subs[i], p[i], env), p[i], env, parts);
        }
        SizeSumOfParts(o.args, p);
      }
    }
  }

  lemma {:induction false} SizedAlternativesOutputs<A>(subs: seq<Gen<A>>, n: int, env: Registry<A>, parts: Partitioner)
    requires RegistryOk(env) && PartitionsOk(parts)
    requires forall i :: 0 <= i < |subs| ==> Resolved(subs[i], env) && Ready(subs[i]) && Sized(subs[i], n)
    decreases MaxBound(subs), SizeOfAll(subs), 2
    ensures forall o :: o in GenerateAll(subs, env, parts) ==> ObjSize(o) == n
  {
    forall o | o in GenerateAll(subs, env, parts) ensures ObjSize(o) == n {
      GenerateAllMembers(subs, env, parts, o);
      var i :| 0 <= i < |subs| && o in Generate(subs[i], env, parts);
      BoundAtMostMax(subs, i);
      SizeAtMostAll(subs, i);
      SizedOutputs(subs[i], n, env, parts);
    }
  }

  /** Output indexed by size: `set_size(n)` followed by `generate()` yields only objects of size `n`. */
  lemma OutputsHaveSize<A>(g: Gen<A>, n: int, env: Registry<A>, parts: Partitioner)
    requires RegistryOk(env) && PartitionsOk(parts) && Resolved(g, env)
    ensures forall o :: o in Generate(SetSize(g, n, env), env, parts) ==> ObjSize(o) == n
  {
    SizedOutputs(SetSize(g, n, env), n, env, parts);
  }

  // ---------------------------------------------------------------------
  // Construction and cloning
  // ---------------------------------------------------------------------

  /** The exceptions the constructors and the registry raise. */
  datatype Raised = AssertionError | ArgumentError | KeyError

  datatype Result<T> = Ok(value: T) | Err(error: Raised)

  /** `clone()`: the same configuration with fresh sub-generators, every size
      back to zero and every placeholder not yet instantiated. */
  function Clone<A>(g: Gen<A>): Gen<A> {
    match g
    case Leaf(l, acc, _) => Leaf(l, acc, 0)
    case Functional(d, subs, acc, _) =>
      Functional(d, seq(|subs|, i requires 0 <= i < |subs| => Clone(subs[i])), acc, 0)
    case Alternatives(subs, acc) =>
      Alternatives(seq(|subs|, i requires 0 <= i < |subs| => Clone(subs[i])), acc)
    case Placeholder(id, _) => Placeholder(id, Unset)
  }

  /** `LeafGenerator(leaf_objects, validator)`. */
  function NewLeaf<A>(l: seq<A>, acc: Obj<A> -> bool): Gen<A> {
    Leaf(l, acc, 0)
  }

  /** `FunctionalGenerator(descriptor, sub_generators, validator)`: at least one
      sub-generator is required, and each one is cloned. */
  function NewFunctional<A>(d: A, subs: seq<Gen<A>>, acc: Obj<A> -> bool): (r: Result<Gen<A>>)
    ensures r.Err? <==> |subs| < 1
    ensures r.Err? ==> r.error == AssertionError
  {
    if |subs| < 1 then Err(AssertionError)
    else Ok(Functional(d, seq(|subs|, i requires 0 <= i < |subs| => Clone(subs[i])), acc, 0))
  }

  /** `AlternativesGenerator(sub_generators, validator)`: more than one
      alternative is required, and each one is cloned. */
  function NewAlternatives<A>(subs: seq<Gen<A>>, acc: Obj<A> -> bool): (r: Result<Gen<A>>)
    ensures r.Err? <==> |subs| <= 1
    ensures r.Err? ==> r.error == AssertionError
  {
    if |subs| <= 1 then Err(AssertionError)
    else Ok(Alternatives(seq(|subs|, i requires 0 <= i < |subs| => Clone(subs[i])), acc))
  }

  /** Cloning a clone gives the clone again. */
  lemma {:induction false} CloneIdempotent<A>(g: Gen<A>)
    ensures Clone(Clone(g)) == Clone(g)
  {
    match g
    case Leaf(_, _, _) =>
    case Functional(d, subs, acc, _) =>
      forall i | 0 <= i < |subs| {
        CloneIdempotent(subs[i]);
      }
      assert Clone(Clone(g)).subs == Clone(g).subs;
    case Alternatives(subs, acc) =>
      forall i | 0 <= i < |subs| {
        CloneIdempotent(subs[i]);
      }
      assert Clone(Clone(g)).subs == Clone(g).subs;
    case Placeholder(_, _) =>
  }

  lemma {:induction false} CloneResolved<A>(g: Gen<A>, env: Registry<A>)
    requires Resolved(g, env)
    ensures Resolved(Clone(g), env)
  {
    match g
    case Leaf(_, _, _) =>
    case Functional(_, subs, _, _) =>
      forall i | 0 <= i < |subs| {
        CloneResolved(subs[i], env);
      }
    case Alternatives(subs, _) =>
      forall i | 0 <= i < |subs| {
        CloneResolved(subs[i], env);
      }
    case Placeholder(_, _) =>
  }

  /** The product depends only on what each generator yields. */
  lemma {:induction false} ProductCongruent<A>(gs1: seq<Gen<A>>, gs2: seq<Gen<A>>, env: Registry<A>, parts: Partitioner)
    requires RegistryOk(env) && PartitionsOk(parts) && |gs1| == |gs2|
    requires forall i :: 0 <= i < |gs1| ==> Resolved(gs1[i], env) && Ready(gs1[i]) && Resolved(gs2[i], env) && Ready(gs2[i])
    requires forall i :: 0 <= i < |gs1| ==> Generate(gs1[i], env, parts) == Generate(gs2[i], env, parts)
    ensures Product(gs1, env, parts) == Product(gs2, env, parts)
  {
    if |gs1| > 1 {
      ProductCongruent(gs1[1..], gs2[1..], env, parts);
    }
  }

  lemma {:induction false} GenerateAllCongruent<A>(gs1: seq<Gen<A>>, gs2: seq<Gen<A>>, env: Registry<A>, parts: Partitioner)
    requires RegistryOk(env) && PartitionsOk(parts) && |gs1| == |gs2|
    requires forall i :: 0 <= i < |gs1| ==> Resolved(gs1[i], env) && Ready(gs1[i]) && Resolved(gs2[i], env) && Ready(gs2[i])
    requires forall i :: 0 <= i < |gs1| ==> Generate(gs1[i], env, parts) == Generate(gs2[i], env, parts)
    ensures GenerateAll(gs1, env, parts) == GenerateAll(gs2, env, parts)
  {
    if |gs1| > 0 {
      GenerateAllCongruent(gs1[1..], gs2[1..], env, parts);
    }
  }

  /** A functional generator's output depends only on what its sub-generators yield at each size. */
  lemma {:induction false} FunctionalOverCongruent<A>(d: A, subs1: seq<Gen<A>>, subs2: seq<Gen<A>>, acc: Obj<A> -> bool,
                                                      plist: seq<seq<nat>>, s: nat, env: Registry<A>, parts: Partitioner)
    requires RegistryOk(env) && PartitionsOk(parts) && s >= 1 && |subs1| == |subs2|
    requires forall i :: 0 <= i < |subs1| ==> Resolved(subs1[i], env) && Resolved(subs2[i], env)
    requires forall p :: p in plist ==> |p| == |subs1| && Sum(p) == s - 1
    requires forall i, k: int :: 0 <= i < |subs1| ==>
               Generate(SetSize(subs1[i], k, env), env, parts) == Generate(SetSize(subs2[i], k, env), env, parts)
    ensures FunctionalOver(d, subs1, acc, plist, s, env, parts) == FunctionalOver(d, subs2, acc, plist, s, env, parts)
  {
    if |plist| > 0 {
      var p := plist[0];
      var sized1 := SetSizes(subs1, p, env);
      var sized2 := SetSizes(subs2, p, env);
      forall i | 0 <= i < |sized1| ensures Generate(sized1[i], env, parts) == Generate(sized2[i], env, parts) {
        assert sized1[i] == SetSize(subs1[i], p[i], env);
        assert sized2[i] == SetSize(subs2[i], p[i], env);
      }
      ProductCongruent(sized1, sized2, env, parts);
      FunctionalOverCongruent(d, subs1, subs2, acc, plist[1..], s, env, parts);
    }
  }

  /** `clone` copies the descriptor, the leaves and the structure: at every size
      a clone yields exactly what the original yields. */
  lemma {:induction false} CloneGenerates<A>(g: Gen<A>, n: int, env: Registry<A>, parts: Partitioner)
    requires RegistryOk(env) && PartitionsOk(parts) && Resolved(g, env)
    ensures Resolved(Clone(g), env)
    ensures Generate(SetSize(Clone(g), n, env), env, parts) == Generate(SetSize(g, n, env), env, parts)
  {
    CloneResolved(g, env);
    match g
    case Leaf(_, _, _) =>
    case Functional(d, subs, acc, s) =>
      forall i | 0 <= i < |subs| ensures Resolved(Clone(subs[i]), env) {
        CloneResolved(subs[i], env);
      }
      forall i, k: int | 0 <= i < |subs|
        ensures Generate(SetSize(Clone(subs[i]), k, env), env, parts) == Generate(SetSize(subs[i], k, env), env, parts)
      {
        CloneGenerates(subs[i], k, env, parts);
      }
      var clones := Clone(g).subs;
      assert forall i :: 0 <= i < |subs| ==> clones[i] == Clone(subs[i]);
      assert SetSize(Clone(g), n, env) == Functional(d, clones, acc, n);
      FunctionalCongruent(d, clones, subs, acc, n, env, parts);
    case Alternatives(subs, acc) =>
      forall i | 0 <= i < |subs|
        ensures Resolved(Clone(subs[i]), env)
        ensures Generate(SetSize(Clone(subs[i]), n, env), env, parts) == Generate(SetSize(subs[i], n, env), env, parts)
      {
        CloneGenerates(subs[i], n, env, parts);
      }
      CloneAlternativesStep(subs, acc, n, env, parts);
    case Placeholder(_, _) =>
  }

  lemma GenerateFunctional<A>(d: A, subs: seq<Gen<A>>, acc: Obj<A> -> bool, n: int, env: Registry<A>, parts: Partitioner)
    requires RegistryOk(env) && PartitionsOk(parts)
    requires forall i :: 0 <= i < |subs| ==> Resolved(subs[i], env)
    ensures n - 1 < |subs| ==> Generate(Functional(d, subs, acc, n), env, parts) == []
    ensures n - 1 >= |subs| ==> Generate(Functional(d, subs, acc, n), env, parts)
                                == FunctionalOver(d, subs, acc, parts(n - 1, |subs|), n, env, parts)
  {
  }

  /** Functional generators over sub-generators that yield the same at every size yield the same. */
  lemma FunctionalCongruent<A>(d: A, subs1: seq<Gen<A>>, subs2: seq<Gen<A>>, acc: Obj<A> -> bool, n: int,
                               env: Registry<A>, parts: Partitioner)
    requires RegistryOk(env) && PartitionsOk(parts) && |subs1| == |subs2|
    requires forall i :: 0 <= i < |subs1| ==> Resolved(subs1[i], env) && Resolved(subs2[i], env)
    requires forall i, k: int :: 0 <= i < |subs1| ==>
               Generate(SetSize(subs1[i], k, env), env, parts) == Generate(SetSize(subs2[i], k, env), env, parts)
    ensures Generate(Functional(d, subs1, acc, n), env, parts) == Generate(Functional(d, subs2, acc, n), env, parts)
  {
    if n - 1 >= |subs1| {
      FunctionalOverCongruent(d, subs1, subs2, acc, parts(n - 1, |subs1|), n, env, parts);
      GenerateFunctional(d, subs1, acc, n, env, parts);
      GenerateFunctional(d, subs2, acc, n, env, parts);
    } else {
      GenerateFunctional(d, subs1, acc, n, env, parts);
      GenerateFunctional(d, subs2, acc, n, env, parts);
    }
  }

  lemma CloneAlternativesStep<A>(subs: seq<Gen<A>>, acc: Obj<A> -> bool, n: int, env: Registry<A>, parts: Partitioner)
    requires RegistryOk(env) && PartitionsOk(parts)
    requires forall i :: 0 <= i < |subs| ==> Resolved(subs[i], env) && Resolved(Clone(subs[i]), env)
    requires forall i :: 0 <= i < |subs| ==>
               Generate(SetSize(Clone(subs[i]), n, env), env, parts) == Generate(SetSize(subs[i], n, env), env, parts)
    ensures Resolved(Clone(Alternatives(subs, acc)), env)
    ensures Generate(SetSize(Clone(Alternatives(subs, acc)), n, env), env, parts)
            == Generate(SetSize(Alternatives(subs, acc), n, env), env, parts)
  {
    var sized1 := SetSize(Clone(Alternatives(subs, acc)), n, env).subs;
    var sized2 := SetSize(Alternatives(subs, acc), n, env).subs;
    assert forall i :: 0 <= i < |subs| ==> sized1[i] == SetSize(Clone(subs[i]), n, env);
    assert forall i :: 0 <= i < |subs| ==> sized2[i] == SetSize(subs[i], n, env);
    GenerateAllCongruent(sized1, sized2, env, parts);
  }

  /** A generator built by the constructors yields, at every size, what the
      same generator over the un-cloned sub-generators yields. */
  lemma NewFunctionalGenerates<A>(d: A, subs: seq<Gen<A>>, acc: Obj<A> -> bool, n: int,
                                  env: Registry<A>, parts: Partitioner)
    requires RegistryOk(env) && PartitionsOk(parts)
    requires forall i :: 0 <= i < |subs| ==> Resolved(subs[i], env)
    ensures NewFunctional(d, subs, acc).Ok? ==>
              Resolved(NewFunctional(d, subs, acc).value, env) &&
              Generate(SetSize(NewFunctional(d, subs, acc).value, n, env), env, parts)
              == Generate(Functional(d, subs, acc, n), env, parts)
  {
    if |subs| >= 1 {
      var g := Functional(d, subs, acc, 0);
      CloneGenerates(g, n, env, parts);
      assert NewFunctional(d, subs, acc).value == Clone(g);
    }
  }

  lemma NewAlternativesGenerates<A>(subs: seq<Gen<A>>, acc: Obj<A> -> bool, n: int, env: Registry<A>, parts: Partitioner)
    requires RegistryOk(env) && PartitionsOk(parts)
    requires forall i :: 0 <= i < |subs| ==> Resolved(subs[i], env)
    ensures NewAlternatives(subs, acc).Ok? ==>
              Resolved(NewAlternatives(subs, acc).value, env) &&
              Generate(SetSize(NewAlternatives(subs, acc).value, n, env), env, parts)
              == Generate(SetSize(Alternatives(subs, acc), n, env), env, parts)
  {
    if |subs| > 1 {
      var g := Alternatives(subs, acc);
      CloneGenerates(g, n, env, parts);
      assert NewAlternatives(subs, acc).value == Clone(g);
    }
  }

  // ---------------------------------------------------------------------
  // The registry of recursive generators
  // ---------------------------------------------------------------------

  /** `RecursiveGeneratorFactory`: which identifiers have a placeholder, and
      for each generator name the generator its registered factory builds. */
  class GeneratorFactory<A> {
    var placeholderIds: set<string>
    var templates: Registry<A>

    constructor()
      ensures placeholderIds == {} && templates == map[]
    {
      placeholderIds := {};
      templates := map[];
    }

    /** `make_placeholder`: an identifier can be registered once. */
    method MakePlaceholder(id: string) returns (r: Result<Gen<A>>)
      modifies this
      ensures templates == old(templates)
      ensures id in old(placeholderIds) ==> r == Err(ArgumentError) && placeholderIds == old(placeholderIds)
      ensures id !in old(placeholderIds) ==>
                r == Ok(Placeholder(id, Unset)) && placeholderIds == old(placeholderIds) + {id}
    {
      if id in placeholderIds {
        return Err(ArgumentError);
      }
      placeholderIds := placeholderIds + {id};
      return Ok(Placeholder(id, Unset));
    }

    /** `make_generator`: records the factory under `name` (even when no
      placeholder has that name), then returns the placeholder registered under it. */
    method MakeGenerator(name: string, template: Gen<A>) returns (r: Result<Gen<A>>)
      modifies this
      ensures placeholderIds == old(placeholderIds)
      ensures templates == old(templates)[name := template]
      ensures name in placeholderIds ==> r == Ok(Placeholder(name, Unset))
      ensures name !in placeholderIds ==> r == Err(KeyError)
    {
      templates := templates[name := template];
      if name in placeholderIds {
        return Ok(Placeholder(name, Unset));
      }
      return Err(KeyError);
    }

    /** `_instantiate_placeholder`: what the factory registered for `id` builds. */
    function Instantiate(id: string): (r: Result<Gen<A>>)
      reads this
      ensures r.Err? <==> id !in templates
      ensures r.Err? ==> r.error == KeyError
    {
      if id in templates then Ok(templates[id]) else Err(KeyError)
    }
  }

  /** Sizing a placeholder made by the factory to `n > 0` instantiates it with
      what its factory builds, set to size `n`; to `n <= 0` it drops it. */
  lemma PlaceholderInstantiates<A>(f: GeneratorFactory<A>, id: string, n: int)
    requires RegistryOk(f.templates) && id in f.templates
    ensures f.Instantiate(id).Ok?
    ensures n > 0 ==> SetSize(Placeholder(id, Unset), n, f.templates)
                      == Placeholder(id, Active(SetSize(f.Instantiate(id).value, n, f.templates)))
    ensures n <= 0 ==> SetSize(Placeholder(id, Unset), n, f.templates) == Placeholder(id, Inactive)
  {
  }
}
