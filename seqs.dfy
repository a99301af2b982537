/** Sequence helpers that stand for the JavaScript array and Set built-ins the
    program leans on: `indexOf`, `filter`, `splice` of one element, and the
    insertion-ordered `Set` behind the selection. */
module Seqs {

  /** A value that may be absent (`null`/`undefined` on the JavaScript side). */
  datatype Option<T> = None | Some(value: T)

  /** No element occurs twice (what a JavaScript `Set` guarantees). */
  predicate Distinct<T(==)>(s: seq<T>) {
    forall i, j :: 0 <= i < j < |s| ==> s[i] != s[j]
  }

  /** `Array.prototype.indexOf`: the first position of `x`, or -1. */
  function IndexOf<T(==)>(s: seq<T>, x: T): (r: int)
    ensures -1 <= r < |s|
    ensures r == -1 <==> x !in s
    ensures r >= 0 ==> s[r] == x && x !in s[..r]
  {
    if s == [] then -1
    else if s[0] == x then 0
    else
      var k := IndexOf(s[1..], x);
      assert s[1..][..(if k < 0 then 0 else k)] == s[1..(if k < 0 then 1 else k + 1)];
      if k == -1 then -1 else k + 1
  }

  /** `String.prototype.lastIndexOf` for one element: the last position of `x`, or -1. */
  function LastIndexOf<T(==)>(s: seq<T>, x: T): (r: int)
    ensures -1 <= r < |s|
    ensures r == -1 <==> x !in s
    ensures r >= 0 ==> s[r] == x && x !in s[r + 1..]
  {
    if s == [] then -1
    else if s[|s| - 1] == x then |s| - 1
    else
      var init := s[..|s| - 1];
      var k := LastIndexOf(init, x);
      assert s == init + [s[|s| - 1]];
      LastIndexOfStep(init, s[|s| - 1], x, k);
      k
  }

  lemma LastIndexOfStep<T>(init: seq<T>, last: T, x: T, k: int)
    requires last != x
    requires -1 <= k < |init|
    requires k == -1 ==> x !in init
    requires k >= 0 ==> init[k] == x && x !in init[k + 1..]
    ensures k == -1 ==> x !in init + [last]
    ensures k >= 0 ==> x !in (init + [last])[k + 1..]
  {
    if k >= 0 {
      assert (init + [last])[k + 1..] == init[k + 1..] + [last];
    }
  }

  /** `splice(i, 1)`: drop the element at position `i`, keep the rest in order. */
  function RemoveAt<T>(s: seq<T>, i: nat): (r: seq<T>)
    requires i < |s|
    ensures |r| == |s| - 1
    ensures forall k :: 0 <= k < i ==> r[k] == s[k]
    ensures forall k :: i <= k < |r| ==> r[k] == s[k + 1]
  {
    s[..i] + s[i + 1..]
  }

  /** `Array.prototype.filter`, keeping the elements that satisfy `f` in order. */
  function Filter<T(!new)>(s: seq<T>, f: T -> bool): (r: seq<T>)
    ensures |r| <= |s|
    ensures forall x :: x in r <==> x in s && f(x)
    ensures forall k :: 0 <= k < |r| ==> f(r[k])
    decreases |s|
  {
    if s == [] then []
    else
      var init := Filter(s[..|s| - 1], f);
      var last := s[|s| - 1];
      assert forall x :: x in s <==> x in s[..|s| - 1] || x == last by {
        assert s == s[..|s| - 1] + [last];
      }
      init + (if f(last) then [last] else [])
  }

  /** A filter of a duplicate-free sequence is duplicate-free. */
  lemma {:induction false} FilterDistinct<T(!new)>(s: seq<T>, f: T -> bool)
    ensures Distinct(s) ==> Distinct(Filter(s, f))
    decreases |s|
  {
    if s != [] && Distinct(s) {
      var init := s[..|s| - 1];
      assert Distinct(init);
      FilterDistinct(init, f);
      assert s[|s| - 1] !in init;
    }
  }

  /** Filtering one more element appends it exactly when it passes. */
  lemma FilterSnoc<T(!new)>(s: seq<T>, x: T, f: T -> bool)
    ensures Filter(s + [x], f) == Filter(s, f) + (if f(x) then [x] else [])
  {
    assert (s + [x])[..|s + [x]| - 1] == s;
  }

  /** Filtering one element keeps it exactly when it passes. */
  lemma FilterOne<T(!new)>(x: T, f: T -> bool)
    ensures Filter([x], f) == if f(x) then [x] else []
  {
    FilterSnoc([], x, f);
    assert [] + [x] == [x];
  }

  /** Filtering a concatenation filters each part and keeps them in order, so
      the elements kept appear in their input order, each as often as there. */
  lemma {:induction false} FilterAppend<T(!new)>(a: seq<T>, b: seq<T>, f: T -> bool)
    ensures Filter(a + b, f) == Filter(a, f) + Filter(b, f)
    decreases |b|
  {
    if b == [] {
      assert a + b == a;
    } else {
      var init, last := b[..|b| - 1], b[|b| - 1];
      var tail := if f(last) then [last] else [];
      assert (a + b)[..|a + b| - 1] == a + init;
      assert (a + b)[|a + b| - 1] == last;
      assert Filter(a + b, f) == Filter(a + init, f) + tail;
      assert Filter(b, f) == Filter(init, f) + tail;
      FilterAppend(a, init, f);
      assert (Filter(a, f) + Filter(init, f)) + tail == Filter(a, f) + (Filter(init, f) + tail);
    }
  }

  /** Filtering a three-element sequence, spelled out. */
  lemma FilterOfThree<T(!new)>(a: T, b: T, c: T, f: T -> bool)
    ensures Filter([a, b, c], f)
      == (if f(a) then [a] else []) + (if f(b) then [b] else []) + (if f(c) then [c] else [])
  {
    assert [a, b, c] == [a, b] + [c];
    assert [a, b] == [a] + [b];
    assert [a] == [] + [a];
    FilterSnoc([], a, f);
    FilterSnoc([a], b, f);
    FilterSnoc([a, b], c, f);
  }

  /** Of three elements, keeping only the last two. */
  lemma FilterKeepsLastTwo<T(!new)>(a: T, b: T, c: T, f: T -> bool)
    requires !f(a) && f(b) && f(c)
    ensures Filter([a, b, c], f) == [b, c]
  {
    FilterOfThree(a, b, c, f);
  }

  /** `Set.prototype.delete` on an insertion-ordered set. */
  function Without<T(==,!new)>(s: seq<T>, x: T): (r: seq<T>)
    ensures |r| <= |s|
    ensures forall y :: y in r <==> y in s && y != x
    ensures Distinct(s) ==> Distinct(r)
    ensures x !in s ==> r == s
    decreases |s|
  {
    if s == [] then []
    else
      var init := Without(s[..|s| - 1], x);
      var last := s[|s| - 1];
      assert forall y :: y in s <==> y in s[..|s| - 1] || y == last by {
        assert s == s[..|s| - 1] + [last];
      }
      assert Distinct(s) ==> Distinct(s[..|s| - 1]) && last !in s[..|s| - 1];
      if last == x then init else init + [last]
  }

  /** `Set.prototype.add` on an insertion-ordered set: append when absent. */
  function Add<T(==,!new)>(s: seq<T>, x: T): (r: seq<T>)
    ensures forall y :: y in r <==> y in s || y == x
    ensures Distinct(s) ==> Distinct(r)
  {
    if x in s then s else s + [x]
  }

  /** Number of elements that satisfy `f`. */
  function Count<T(!new)>(s: seq<T>, f: T -> bool): nat
  {
    |Filter(s, f)|
  }

  /** Length of the longest prefix whose elements all satisfy `f`. */
  function LeadingCount<T(!new)>(s: seq<T>, f: T -> bool): (n: nat)
    ensures n <= |s|
    ensures forall k :: 0 <= k < n ==> f(s[k])
    ensures n < |s| ==> !f(s[n])
  {
    if s == [] || !f(s[0]) then 0 else 1 + LeadingCount(s[1..], f)
  }

  /** When the first `n` elements satisfy `f` and the next one does not,
      the leading run is exactly `n` long. */
  lemma {:induction false} LeadingCountOfPrefix<T(!new)>(s: seq<T>, f: T -> bool, n: nat)
    requires n <= |s|
    requires forall k :: 0 <= k < n ==> f(s[k])
    requires n < |s| ==> !f(s[n])
    ensures LeadingCount(s, f) == n
    decreases n
  {
    if n > 0 {
      LeadingCountOfPrefix(s[1..], f, n - 1);
    }
  }

  /** The length of the longest run at the end of `s` whose elements satisfy `f`. */
  function TrailingCount<T(!new)>(s: seq<T>, f: T -> bool): (n: nat)
    ensures n <= |s|
    ensures forall k :: |s| - n <= k < |s| ==> f(s[k])
    ensures n < |s| ==> !f(s[|s| - 1 - n])
  {
    if s == [] || !f(s[|s| - 1]) then 0
    else 1 + TrailingCount(s[..|s| - 1], f)
  }

  /** `s` without its leading and its trailing run of elements that satisfy
      `f`: what it cuts off satisfies `f`, and what it keeps neither begins
      nor ends with such an element. */
  function Strip<T(!new)>(s: seq<T>, f: T -> bool): (r: seq<T>)
    ensures LeadingCount(s, f) + |r| <= |s|
    ensures r == s[LeadingCount(s, f)..LeadingCount(s, f) + |r|]
    ensures forall k :: 0 <= k < LeadingCount(s, f) ==> f(s[k])
    ensures forall k :: LeadingCount(s, f) + |r| <= k < |s| ==> f(s[k])
    ensures r == [] || (!f(r[0]) && !f(r[|r| - 1]))
  {
    var lead := LeadingCount(s, f);
    var n := TrailingCount(s[lead..], f);
    s[lead..|s| - n]
  }

  /** A sequence that neither begins nor ends with an element satisfying `f`
      is its own strip. */
  lemma StripOfStripped<T(!new)>(s: seq<T>, f: T -> bool)
    requires s == [] || (!f(s[0]) && !f(s[|s| - 1]))
    ensures Strip(s, f) == s
  {
    assert LeadingCount(s, f) == 0;
    assert TrailingCount(s, f) == 0;
  }

  /** `f` applied to the first `n` elements of `s`, each with its position. */
  function MapIndexed<T, U>(s: seq<T>, f: (T, nat) -> U, n: nat): (r: seq<U>)
    requires n <= |s|
    ensures |r| == n
  {
    if n == 0 then [] else MapIndexed(s, f, n - 1) + [f(s[n - 1], n - 1)]
  }

  /** The `k`-th element of `MapIndexed` is `f` at the `k`-th element. */
  lemma {:induction false} MapIndexedAt<T, U>(s: seq<T>, f: (T, nat) -> U, n: nat, k: nat)
    requires k < n <= |s|
    ensures MapIndexed(s, f, n)[k] == f(s[k], k)
  {
    if k < n - 1 {
      MapIndexedAt(s, f, n - 1, k);
    }
  }
}
