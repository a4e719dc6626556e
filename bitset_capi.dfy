/**
  The C interface of libeusolver over the BitSet engine.

  The interface keeps two process-wide strings: the last-error slot and the
  output buffer of `to_string`.  Every checked entry empties the error slot
  on entry, forwards to the engine, and, when the engine throws, stores the
  exception's text in the slot and returns its sentinel (`nullptr`, `false`
  or `0`).  Objects are reached through untyped handles; handle 0 is `nullptr`.
*/
module BitSetCApi {
  import E = BitSetEngine

  /** A `void*` naming a BitSet object; `Null` is `nullptr`. */
  type Handle = nat

  const Null: Handle := 0

  /** A `const char*` result: `nullptr`, or a pointer into one of the two static strings. */
  datatype CStr = NullStr | OutputBufferPtr | ErrorBufferPtr

  /** What a checked entry returns: the engine's value, or the sentinel when the engine threw. */
  function Checked<T>(o: E.Outcome<T>, sentinel: T): T {
    if o.Returned? then o.value else sentinel
  }

  /** A scan answer of 0 with the error flag clear means "element 0"; the same 0
      with the flag set means the engine threw.  The value alone cannot tell them apart. */
  lemma ScanSentinelIsAmbiguous()
    ensures exists b: E.BitSet, pos: nat ::
              E.ScanFrom(E.NextAtOrAfter, b, pos).Returned? && Checked(E.ScanFrom(E.NextAtOrAfter, b, pos), 0) == 0
    ensures exists b: E.BitSet, pos: nat ::
              E.ScanFrom(E.NextAtOrAfter, b, pos).Threw? && Checked(E.ScanFrom(E.NextAtOrAfter, b, pos), 0) == 0
  {
    var hit := E.BitSet(1, {0});
    assert E.ScanFrom(E.NextAtOrAfter, hit, 0) == E.Returned(0);
    var miss := E.BitSet(0, {});
    assert E.ScanFrom(E.NextAtOrAfter, miss, 0).Threw?;
  }

  /** `not_equal` negates the sentinel of `equal`: comparing sets of different
      universes yields `true` although the engine reported an error. */
  lemma NotEqualIsTrueOnFailure()
    ensures exists a: E.BitSet, b: E.BitSet ::
              E.Equal(a, b).Threw? && !Checked(E.Equal(a, b), false)
  {
    var a, b := E.BitSet(1, {}), E.BitSet(2, {});
    assert E.Equal(a, b).Threw?;
  }

  class CApi {
    /** `s_libeusolver_c_api_error_buffer_`: the text of the last exception, or empty. */
    var errorBuffer: string
    /** `s_bitset_c_api_output_buffer_`: the rendering stored by the last `to_string`. */
    var outputBuffer: string
    /** The BitSet objects currently allocated, by address. */
    var heap: map<Handle, E.BitSet>
    /** Every address handed out so far lies below this bound. */
    var nextAddress: Handle
    /** The engine's hash function, which this model does not fix. */
    const hash: E.BitSet -> nat

    ghost predicate Valid()
      reads this
    {
      && Null !in heap
      && 0 < nextAddress
      && (forall h :: h in heap ==> h < nextAddress && E.WellFormed(heap[h]))
    }

    /** The error slot after a checked entry whose engine call had outcome `o`. */
    ghost predicate Reported<T>(o: E.Outcome<T>)
      reads this
    {
      errorBuffer == (if o.Threw? then o.what else "")
    }

    /** The string a non-null `const char*` result points to, as it reads now. */
    function Deref(p: CStr): string
      reads this
      requires p != NullStr
    {
      if p == OutputBufferPtr then outputBuffer else errorBuffer
    }

    /** The library as loaded: both static strings empty, no objects. */
    constructor (hash: E.BitSet -> nat)
      ensures Valid() && errorBuffer == "" && outputBuffer == "" && heap == map[]
      ensures this.hash == hash
    {
      errorBuffer, outputBuffer := "", "";
      heap, nextAddress := map[], 1;
      this.hash := hash;
    }

    /** `new`: a fresh address holding `b`. */
    method Allocate(b: E.BitSet) returns (h: Handle)
      requires Valid() && E.WellFormed(b)
      modifies this
      ensures Valid()
      ensures h != Null && h !in old(heap) && heap == old(heap)[h := b]
      ensures errorBuffer == old(errorBuffer) && outputBuffer == old(outputBuffer)
    {
      h := nextAddress;
      heap := heap[h := b];
      nextAddress := nextAddress + 1;
    }

    /** `eus_bitset_construct` */
    method Construct(sizeOfUniverse: nat, initialValue: bool, allocFails: bool) returns (r: Handle)
      requires Valid()
      modifies this
      ensures Valid() && outputBuffer == old(outputBuffer)
      ensures Reported(E.Construct(sizeOfUniverse, initialValue, allocFails))
      ensures match E.Construct(sizeOfUniverse, initialValue, allocFails)
              case Returned(b) => r != Null && r !in old(heap) && heap == old(heap)[r := b]
              case Threw(_) => r == Null && heap == old(heap)
    {
      errorBuffer := "";
      match E.Construct(sizeOfUniverse, initialValue, allocFails)
      case Returned(b) =>
        r := Allocate(b);
      case Threw(what) =>
        errorBuffer := what;
        r := Null;
    }

    /** `eus_bitset_destroy`: deleting `nullptr` does nothing. */
    method Destroy(h: Handle)
      requires Valid() && (h == Null || h in heap)
      modifies this
      ensures Valid() && errorBuffer == "" && outputBuffer == old(outputBuffer)
      ensures heap == old(heap) - {h}
    {
      errorBuffer := "";
      heap := heap - {h};
    }

    /** `eus_bitsets_equal` */
    method Equal(h1: Handle, h2: Handle) returns (r: bool)
      requires Valid() && h1 in heap && h2 in heap
      modifies this
      ensures Valid() && heap == old(heap) && outputBuffer == old(outputBuffer)
      ensures Reported(E.Equal(heap[h1], heap[h2]))
      ensures r == Checked(E.Equal(heap[h1], heap[h2]), false)
    {
      errorBuffer := "";
      var o := E.Equal(heap[h1], heap[h2]);
      if o.Threw? {
        errorBuffer := o.what;
      }
      r := Checked(o, false);
    }

    /** `eus_bitsets_not_equal`: the negation of `eus_bitsets_equal`, sentinel included. */
    method NotEqual(h1: Handle, h2: Handle) returns (r: bool)
      requires Valid() && h1 in heap && h2 in heap
      modifies this
      ensures Valid() && heap == old(heap) && outputBuffer == old(outputBuffer)
      ensures Reported(E.Equal(heap[h1], heap[h2]))
      ensures r == !Checked(E.Equal(heap[h1], heap[h2]), false)
      ensures E.Equal(heap[h1], heap[h2]).Threw? ==> r && errorBuffer != ""
    {
      var eq := Equal(h1, h2);
      r := !eq;
    }

    /** `eus_bitset_is_proper_subset`, `eus_bitset_is_subset`, `eus_bitset_is_proper_superset`
        and `eus_bitset_is_superset`: the engine's `<`, `<=`, `>`, `>=` on (h1, h2). */
    method Compare(rel: E.Order, h1: Handle, h2: Handle) returns (r: bool)
      requires Valid() && h1 in heap && h2 in heap
      modifies this
      ensures Valid() && heap == old(heap) && outputBuffer == old(outputBuffer)
      ensures Reported(E.Compare(rel, heap[h1], heap[h2]))
      ensures r == Checked(E.Compare(rel, heap[h1], heap[h2]), false)
    {
      errorBuffer := "";
      var o := E.Compare(rel, heap[h1], heap[h2]);
      if o.Threw? {
        errorBuffer := o.what;
      }
      r := Checked(o, false);
    }

    /** `eus_bitset_set_bit` */
    method SetBit(h: Handle, bitNum: nat)
      requires Valid() && h in heap
      modifies this
      ensures Valid() && outputBuffer == old(outputBuffer)
      ensures Reported(E.SetBit(old(heap)[h], bitNum))
      ensures match E.SetBit(old(heap)[h], bitNum)
              case Returned(b) => heap == old(heap)[h := b]
              case Threw(_) => heap == old(heap)
    {
      errorBuffer := "";
      match E.SetBit(heap[h], bitNum)
      case Returned(b) =>
        heap := heap[h := b];
      case Threw(what) =>
        errorBuffer := what;
    }

    /** `eus_bitset_clear_bit` */
    method ClearBit(h: Handle, bitNum: nat)
      requires Valid() && h in heap
      modifies this
      ensures Valid() && outputBuffer == old(outputBuffer)
      ensures Reported(E.ClearBit(old(heap)[h], bitNum))
      ensures match E.ClearBit(old(heap)[h], bitNum)
              case Returned(b) => heap == old(heap)[h := b]
              case Threw(_) => heap == old(heap)
    {
      errorBuffer := "";
      match E.ClearBit(heap[h], bitNum)
      case Returned(b) =>
        heap := heap[h := b];
      case Threw(what) =>
        errorBuffer := what;
    }

    /** `eus_bitset_flip_bit`: returns the element's new value, or `false` on failure. */
    method FlipBit(h: Handle, bitNum: nat) returns (r: bool)
      requires Valid() && h in heap
      modifies this
      ensures Valid() && outputBuffer == old(outputBuffer)
      ensures Reported(E.FlipBit(old(heap)[h], bitNum))
      ensures match E.FlipBit(old(heap)[h], bitNum)
              case Returned(res) => heap == old(heap)[h := res.0] && r == res.1
              case Threw(_) => heap == old(heap) && !r
      ensures bitNum < old(heap)[h].universe ==> (r <==> bitNum in heap[h].members)
    {
      errorBuffer := "";
      match E.FlipBit(heap[h], bitNum)
      case Returned(res) =>
        heap := heap[h := res.0];
        r := res.1;
      case Threw(what) =>
        errorBuffer := what;
        r := false;
    }

    /** `eus_bitset_test_bit` */
    method TestBit(h: Handle, bitNum: nat) returns (r: bool)
      requires Valid() && h in heap
      modifies this
      ensures Valid() && heap == old(heap) && outputBuffer == old(outputBuffer)
      ensures Reported(E.TestBit(heap[h], bitNum))
      ensures r == Checked(E.TestBit(heap[h], bitNum), false)
    {
      errorBuffer := "";
      var o := E.TestBit(heap[h], bitNum);
      if o.Threw? {
        errorBuffer := o.what;
      }
      r := Checked(o, false);
    }

    /** `eus_bitset_set_all`, `eus_bitset_clear_all` and `eus_bitset_flip_all` */
    method Bulk(op: E.BulkOp, h: Handle)
      requires Valid() && h in heap
      modifies this
      ensures Valid() && errorBuffer == "" && outputBuffer == old(outputBuffer)
      ensures heap == old(heap)[h := E.Bulk(op, old(heap)[h])]
      ensures op == E.SetAll ==> E.IsFull(heap[h])
      ensures op == E.ClearAll ==> E.IsEmpty(heap[h])
    {
      errorBuffer := "";
      heap := heap[h := E.Bulk(op, heap[h])];
    }

    /** `eus_bitset_get_size_of_universe` */
    method GetSizeOfUniverse(h: Handle) returns (r: nat)
      requires Valid() && h in heap
      modifies this
      ensures Valid() && heap == old(heap) && outputBuffer == old(outputBuffer)
      ensures errorBuffer == "" && r == heap[h].universe
    {
      errorBuffer := "";
      r := heap[h].universe;
    }

    /** `eus_bitset_get_length` */
    method GetLength(h: Handle) returns (r: nat)
      requires Valid() && h in heap
      modifies this
      ensures Valid() && heap == old(heap) && outputBuffer == old(outputBuffer)
      ensures errorBuffer == "" && r == |heap[h].members|
    {
      errorBuffer := "";
      r := E.Length(heap[h]);
    }

    /** `eus_bitset_is_full` */
    method IsFull(h: Handle) returns (r: bool)
      requires Valid() && h in heap
      modifies this
      ensures Valid() && heap == old(heap) && outputBuffer == old(outputBuffer)
      ensures errorBuffer == "" && (r <==> forall e: nat :: e < heap[h].universe ==> e in heap[h].members)
    {
      errorBuffer := "";
      r := E.IsFull(heap[h]);
    }

    /** `eus_bitset_is_empty` */
    method IsEmpty(h: Handle) returns (r: bool)
      requires Valid() && h in heap
      modifies this
      ensures Valid() && heap == old(heap) && outputBuffer == old(outputBuffer)
      ensures errorBuffer == "" && (r <==> heap[h].members == {})
    {
      errorBuffer := "";
      r := E.IsEmpty(heap[h]);
    }

    /** `eus_bitset_and_functional`, `eus_bitset_or_functional`, `eus_bitset_xor_functional`
        and `eus_bitset_minus_functional`: a new object, or `nullptr` on failure. */
    method Functional(op: E.SetOp, h1: Handle, h2: Handle, allocFails: bool) returns (r: Handle)
      requires Valid() && h1 in heap && h2 in heap
      modifies this
      ensures Valid() && outputBuffer == old(outputBuffer)
      ensures Reported(E.Functional(op, old(heap)[h1], old(heap)[h2], allocFails))
      ensures match E.Functional(op, old(heap)[h1], old(heap)[h2], allocFails)
              case Returned(b) => r != Null && r !in old(heap) && heap == old(heap)[r := b]
              case Threw(_) => r == Null && heap == old(heap)
    {
      errorBuffer := "";
      match E.Functional(op, heap[h1], heap[h2], allocFails)
      case Returned(b) =>
        r := Allocate(b);
      case Threw(what) =>
        errorBuffer := what;
        r := Null;
    }

    /** `eus_bitset_negate_functional` */
    method NegateFunctional(h: Handle, allocFails: bool) returns (r: Handle)
      requires Valid() && h in heap
      modifies this
      ensures Valid() && outputBuffer == old(outputBuffer)
      ensures Reported(E.Negate(old(heap)[h], allocFails))
      ensures match E.Negate(old(heap)[h], allocFails)
              case Returned(b) => r != Null && r !in old(heap) && heap == old(heap)[r := b]
              case Threw(_) => r == Null && heap == old(heap)
    {
      errorBuffer := "";
      match E.Negate(heap[h], allocFails)
      case Returned(b) =>
        r := Allocate(b);
      case Threw(what) =>
        errorBuffer := what;
        r := Null;
    }

    /** `eus_bitset_inplace_and`, `eus_bitset_inplace_or`, `eus_bitset_inplace_xor` and
        `eus_bitset_inplace_minus`: h1 is the receiver, h2 the argument. */
    method InPlace(op: E.SetOp, h1: Handle, h2: Handle)
      requires Valid() && h1 in heap && h2 in heap
      modifies this
      ensures Valid() && outputBuffer == old(outputBuffer)
      ensures Reported(E.InPlace(op, old(heap)[h1], old(heap)[h2]))
      ensures match E.InPlace(op, old(heap)[h1], old(heap)[h2])
              case Returned(b) => heap == old(heap)[h1 := b]
              case Threw(_) => heap == old(heap)
    {
      errorBuffer := "";
      match E.InPlace(op, heap[h1], heap[h2])
      case Returned(b) =>
        heap := heap[h1 := b];
      case Threw(what) =>
        errorBuffer := what;
    }

    /** `eus_bitset_inplace_negate` */
    method InPlaceNegate(h: Handle)
      requires Valid() && h in heap
      modifies this
      ensures Valid() && errorBuffer == "" && outputBuffer == old(outputBuffer)
      ensures heap == old(heap)[h := E.Negated(old(heap)[h])]
    {
      errorBuffer := "";
      heap := heap[h := E.Negated(heap[h])];
    }

    /** `eus_bitset_get_next_element_greater_than_or_equal_to`, `..._greater_than`,
        `eus_bitset_get_prev_element_lesser_than_or_equal_to` and `..._lesser_than`. */
    method Scan(dir: E.Scan, h: Handle, position: nat) returns (r: int)
      requires Valid() && h in heap
      modifies this
      ensures Valid() && heap == old(heap) && outputBuffer == old(outputBuffer)
      ensures Reported(E.ScanFrom(dir, heap[h], position))
      ensures r == Checked(E.ScanFrom(dir, heap[h], position), 0)
    {
      errorBuffer := "";
      var o := E.ScanFrom(dir, heap[h], position);
      if o.Threw? {
        errorBuffer := o.what;
      }
      r := Checked(o, 0);
    }

    /** `eus_bitset_get_hash` */
    method GetHash(h: Handle) returns (r: nat)
      requires Valid() && h in heap
      modifies this
      ensures Valid() && heap == old(heap) && outputBuffer == old(outputBuffer)
      ensures errorBuffer == "" && r == hash(heap[h])
    {
      errorBuffer := "";
      r := hash(heap[h]);
    }

    /** `eus_bitset_to_string`: renders into the single shared output buffer and
        returns a pointer to it. */
    method ToString(h: Handle, allocFails: bool) returns (p: CStr)
      requires Valid() && h in heap
      modifies this
      ensures Valid() && heap == old(heap)
      ensures Reported(E.ToString(heap[h], allocFails))
      ensures match E.ToString(heap[h], allocFails)
              case Returned(s) => p == OutputBufferPtr && outputBuffer == s
              case Threw(_) => p == NullStr && outputBuffer == old(outputBuffer)
    {
      errorBuffer := "";
      match E.ToString(heap[h], allocFails)
      case Returned(s) =>
        outputBuffer := s;
        p := OutputBufferPtr;
      case Threw(what) =>
        errorBuffer := what;
        p := NullStr;
    }

    /** `eus_bitset_clone` */
    method Clone(h: Handle, allocFails: bool) returns (r: Handle)
      requires Valid() && h in heap
      modifies this
      ensures Valid() && outputBuffer == old(outputBuffer)
      ensures Reported(E.Clone(old(heap)[h], allocFails))
      ensures !allocFails ==> r != Null && r !in old(heap) && heap == old(heap)[r := old(heap)[h]]
      ensures allocFails ==> r == Null && heap == old(heap)
    {
      errorBuffer := "";
      match E.Clone(heap[h], allocFails)
      case Returned(b) =>
        r := Allocate(b);
      case Threw(what) =>
        errorBuffer := what;
        r := Null;
    }

    /** `eus_check_error`: whether the last checked entry stored an error. */
    method CheckError() returns (b: bool)
      ensures b <==> |errorBuffer| > 0
    {
      b := |errorBuffer| > 0;
    }

    /** `eus_get_last_error_string`: a pointer to the error slot when an error is stored. */
    method GetLastErrorString() returns (p: CStr)
      ensures p == NullStr || p == ErrorBufferPtr
      ensures p != NullStr <==> |errorBuffer| > 0
      ensures p != NullStr ==> Deref(p) == errorBuffer
    {
      var failed := CheckError();
      if failed {
        p := ErrorBufferPtr;
      } else {
        p := NullStr;
      }
    }
  }

  /** A second `to_string` overwrites the text the first call's pointer refers to. */
  method SharedOutputBuffer(api: CApi, h1: Handle, h2: Handle) returns (p1: CStr, p2: CStr)
    requires api.Valid() && h1 in api.heap && h2 in api.heap
    modifies api
    ensures p1 == p2 == OutputBufferPtr
    ensures api.Deref(p1) == E.Render(old(api.heap)[h2])
  {
    p1 := api.ToString(h1, false);
    p2 := api.ToString(h2, false);
  }

  /** After any entry whose engine call returned, the error flag reads clear;
      after one whose engine call threw, it reads set with the exception's text. */
  method ErrorFlagAfterTestBit(api: CApi, h: Handle, bitNum: nat) returns (r: bool, failed: bool, msg: CStr)
    requires api.Valid() && h in api.heap
    modifies api
    ensures failed <==> bitNum >= old(api.heap)[h].universe
    ensures failed ==> msg == ErrorBufferPtr && api.Deref(msg) == E.IndexOutOfRange && !r
    ensures !failed ==> msg == NullStr && (r <==> bitNum in old(api.heap)[h].members)
  {
    r := api.TestBit(h, bitNum);
    failed := api.CheckError();
    msg := api.GetLastErrorString();
  }
}
