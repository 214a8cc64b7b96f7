/** Small datatypes, machine widths and sequence facts shared by every module. */
module Prelude {

  datatype Option<+T> = None | Some(value: T)

  /** The largest Rust `u32`: positions, gaps, document and book numbers. */
  const U32_MAX: nat := 0xFFFF_FFFF
  const U64_MAX: nat := 0xFFFF_FFFF_FFFF_FFFF

  function Min(a: int, b: int): int {
    if a <= b then a else b
  }

  function Max(a: int, b: int): int {
    if a >= b then a else b
  }

  /** 32-bit addition that stops at the greatest value. */
  function SaturatingAdd(a: nat, b: nat): nat {
    Min(a + b, U32_MAX)
  }

  ghost predicate Sorted(s: seq<nat>) {
    forall i, j :: 0 <= i < j < |s| ==> s[i] <= s[j]
  }

  ghost predicate StrictlySorted(s: seq<nat>) {
    forall i, j :: 0 <= i < j < |s| ==> s[i] < s[j]
  }

  ghost predicate Distinct<T>(s: seq<T>) {
    forall i, j :: 0 <= i < j < |s| ==> s[i] != s[j]
  }

  ghost predicate IsTotalOrder<T(!new)>(notAfter: (T, T) -> bool) {
    && (forall a, b :: notAfter(a, b) || notAfter(b, a))
    && (forall a, b, c :: notAfter(a, b) && notAfter(b, c) ==> notAfter(a, c))
  }

  /** The top of a min-heap that holds `heap`. */
  method Peek<T(!new)>(heap: set<T>, notAfter: (T, T) -> bool) returns (top: T)
    requires heap != {} && IsTotalOrder(notAfter)
    ensures top in heap && forall e :: e in heap ==> notAfter(top, e)
  {
    top :| top in heap;
    var rest := heap - {top};
    while rest != {}
      invariant rest <= heap && top in heap
      invariant forall e :: e in heap - rest ==> notAfter(top, e)
    {
      var e :| e in rest;
      assert heap - (rest - {e}) == (heap - rest) + {e};
      if !notAfter(top, e) {
        top := e;
      }
      rest := rest - {e};
    }
  }

  /** The numbers below `n`. */
  function Below(n: nat): (numbers: set<nat>)
    ensures forall i: int :: i in numbers <==> 0 <= i < n
  {
    if n == 0 then {} else Below(n - 1) + {n - 1}
  }

  lemma {:induction false} BelowSize(n: nat)
    ensures |Below(n)| == n
  {
    if n > 0 {
      BelowSize(n - 1);
    }
  }

  /** A duplicate-free sequence of numbers below `n` has at most `n` of them. */
  lemma {:induction false} Pigeonhole(s: seq<nat>, n: nat)
    requires Distinct(s)
    requires forall i :: 0 <= i < |s| ==> s[i] < n
    ensures |s| <= n
  {
    var elements := set x | x in s;
    DistinctSize(s);
    BelowSize(n);
    assert elements <= Below(n);
    SubsetSize(elements, Below(n));
  }

  lemma {:induction false} DistinctSize<T>(s: seq<T>)
    requires Distinct(s)
    ensures |set x | x in s| == |s|
  {
    if s == [] {
      assert (set x | x in s) == {};
    } else {
      var last := s[|s| - 1];
      var front := s[..|s| - 1];
      DistinctSize(front);
      assert (set x | x in s) == (set x | x in front) + {last};
      assert last !in front;
    }
  }

  lemma DistinctWithin<T>(a: seq<T>, b: seq<T>)
    requires Distinct(a) && Distinct(b) && forall x :: x in a ==> x in b
    ensures |a| <= |b|
  {
    var some, all := set x | x in a, set x | x in b;
    DistinctSize(a);
    DistinctSize(b);
    assert some <= all;
    SubsetSize(some, all);
  }

  lemma {:induction false} SubsetSize<T>(a: set<T>, b: set<T>)
    requires a <= b
    ensures |a| <= |b|
    decreases |a|
  {
    if a != {} {
      var x :| x in a;
      SubsetSize(a - {x}, b - {x});
    }
  }

  /** An injective map has as many values as keys. */
  lemma {:induction false} InjectionSize<A, B>(m: map<A, B>)
    requires forall a, b :: a in m && b in m && m[a] == m[b] ==> a == b
    ensures |m.Values| == |m.Keys|
    decreases |m|
  {
    if m.Keys == {} {
      assert m.Values == {};
    } else {
      var x :| x in m.Keys;
      var rest := m - {x};
      InjectionSize(rest);
      assert m.Keys == rest.Keys + {x};
      assert m.Values == rest.Values + {m[x]} by {
        forall b | b in m.Values ensures b in rest.Values + {m[x]} {
          var a :| a in m && m[a] == b;
          assert a == x || a in rest;
        }
      }
    }
  }

  lemma Regroup<T>(a: seq<T>, b: seq<T>, c: seq<T>)
    ensures (a + b) + c == a + (b + c)
  {
  }

  lemma SliceWithLast<T>(s: seq<T>, i: nat, j: nat)
    requires i < j <= |s|
    ensures s[i..j] == s[i..j - 1] + [s[j - 1]]
  {
  }

  lemma WholeSlice<T>(s: seq<T>)
    ensures s[0..] == s && s[0..|s|] == s
  {
  }

  lemma NothingBefore<T>(s: seq<T>)
    ensures [] + s == s
  {
  }
}
