/**
  Value types shared by the models.
 */
module Common {
  datatype Option<+T> = None | Some(value: T)

  datatype Result<+T, +E> = Success(value: T) | Failure(error: E)

  const U64_SIZE: nat := 0x1_0000_0000_0000_0000

  type U64 = n: nat | n < U64_SIZE

  type Byte = n: nat | n < 0x100

  type Bytes = seq<Byte>

  /** `wrapping_add(1)` and `fetch_add(1)` on 64 bits. */
  function WrappingIncrement(n: U64): U64 {
    if n == U64_SIZE - 1 then 0 else n + 1
  }

  // ------------------------------------------------------------------
  // Concatenation
  // ------------------------------------------------------------------

  function Concat<T>(parts: seq<seq<T>>): seq<T> {
    if parts == [] then [] else Concat(parts[..|parts| - 1]) + parts[|parts| - 1]
  }

  /** Where part `k` starts when the parts are laid end to end. */
  function Offset<T>(parts: seq<seq<T>>, k: nat): nat
    requires k <= |parts|
  {
    if k == 0 then 0 else Offset(parts, k - 1) + |parts[k - 1]|
  }

  /** The parts end to end, and nothing else. */
  ghost predicate EndToEnd<T>(parts: seq<seq<T>>, whole: seq<T>) {
    && |whole| == Offset(parts, |parts|)
    && forall k: nat :: k < |parts| ==> PartAt(parts, whole, k)
  }

  ghost predicate PartAt<T>(parts: seq<seq<T>>, whole: seq<T>, k: nat)
    requires k < |parts|
  {
    Offset(parts, k + 1) <= |whole| && whole[Offset(parts, k)..Offset(parts, k + 1)] == parts[k]
  }

  lemma {:induction false} OffsetFront<T>(parts: seq<seq<T>>, n: nat, k: nat)
    requires k <= n <= |parts|
    ensures Offset(parts[..n], k) == Offset(parts, k)
    decreases k
  {
    if k > 0 {
      OffsetFront(parts, n, k - 1);
    }
  }

  lemma PartStays<T>(parts: seq<seq<T>>, n: nat, whole: seq<T>, more: seq<T>, k: nat)
    requires k < n <= |parts| && PartAt(parts[..n], whole, k)
    ensures PartAt(parts, whole + more, k)
  {
    OffsetFront(parts, n, k);
    OffsetFront(parts, n, k + 1);
  }

  lemma {:induction false} ConcatEndToEnd<T>(parts: seq<seq<T>>)
    ensures EndToEnd(parts, Concat(parts))
    decreases |parts|
  {
    if parts != [] {
      var n := |parts| - 1;
      var front := parts[..n];
      ConcatEndToEnd(front);
      OffsetFront(parts, n, n);
      forall k: nat | k < |parts| ensures PartAt(parts, Concat(parts), k) {
        if k < n {
          PartStays(parts, n, Concat(front), parts[n], k);
        }
      }
    }
  }

  lemma ConcatSnoc<T>(front: seq<seq<T>>, part: seq<T>)
    ensures Concat(front + [part]) == Concat(front) + part
  {
    assert (front + [part])[..|front|] == front;
  }
}
