/** Small helpers shared by the font model: an Option type, powers of two
    (the Bitwise::firstPO2From rounding), the float-to-integer conversions the
    font code applies to 26.6 metrics, and the ascending enumeration of a
    finite set that std::map iteration provides. */
module Util {

  datatype Option<T> = None | Some(value: T)

  // ---------------------------------------------------------------------
  // Powers of two
  // ---------------------------------------------------------------------

  predicate IsPow2(n: int)
    decreases if n < 0 then 0 else n
  {
    n == 1 || (n > 1 && n % 2 == 0 && IsPow2(n / 2))
  }

  /** Rounds a positive value up to a power of two by doubling a candidate. */
  function PO2AtLeast(n: int, p: int): (r: int)
    requires n >= 1 && IsPow2(p) && p < 2 * n
    ensures IsPow2(r) && n <= r < 2 * n
    decreases n - p
  {
    if p >= n then p else PO2AtLeast(n, 2 * p)
  }

  /** Bitwise::firstPO2From: the smallest power of two that is at least n;
      the bit-smearing implementation gives 0 for every n <= 0. */
  function FirstPO2From(n: int): (r: int)
    ensures n <= 0 ==> r == 0
    ensures n >= 1 ==> IsPow2(r) && n <= r < 2 * n
  {
    if n <= 0 then 0 else PO2AtLeast(n, 1)
  }

  lemma {:induction false} Pow2Positive(p: int)
    requires IsPow2(p)
    ensures p >= 1
  {
  }

  /** Two distinct powers of two are at least a factor two apart. */
  lemma {:induction false} Pow2Gap(p: int, q: int)
    requires IsPow2(p) && IsPow2(q) && p < q
    ensures 2 * p <= q
    decreases q
  {
    if p > 1 {
      Pow2Gap(p / 2, q / 2);
    }
  }

  /** FirstPO2From really gives the least power of two not below n. */
  lemma FirstPO2FromIsLeast(n: int, p: int)
    requires n >= 1 && IsPow2(p) && p >= n
    ensures FirstPO2From(n) <= p
  {
    var r := FirstPO2From(n);
    if p < r {
      Pow2Gap(p, r);
    }
  }

  lemma {:induction false} Pow2Half(p: int)
    requires IsPow2(p) && p >= 2
    ensures IsPow2(p / 2) && (p / 2) * 2 == p
  {
  }

  lemma {:induction false} Pow2Double(p: int)
    requires IsPow2(p)
    ensures IsPow2(2 * p)
  {
    assert (2 * p) / 2 == p;
  }

  // ---------------------------------------------------------------------
  // Float to integer conversions (floats are modelled as reals)
  // ---------------------------------------------------------------------

  /** (int)ceil(x) */
  function Ceil(x: real): (r: int)
    ensures x <= r as real < x + 1.0
  {
    -((-x).Floor)
  }

  /** A C cast from float to an integer type: truncation toward zero. */
  function Trunc(x: real): (r: int)
    ensures x >= 0.0 ==> r as real <= x < r as real + 1.0
    ensures x < 0.0 ==> r as real - 1.0 < x <= r as real
  {
    if x >= 0.0 then x.Floor else -((-x).Floor)
  }

  /** C integer division, which truncates toward zero (Dafny's `/` is Euclidean). */
  function TruncDiv(a: int, b: int): (q: int)
    requires b > 0
    ensures a >= 0 ==> q == a / b
    ensures a < 0 ==> q == -((-a) / b)
  {
    if a >= 0 then a / b else -((-a) / b)
  }

  // ---------------------------------------------------------------------
  // Ascending enumeration of a finite set of integers
  // ---------------------------------------------------------------------

  /** A set is empty or has an element (the step from `s != {}` to a witness). */
  lemma EmptyOrInhabited(s: set<int>)
    ensures s == {} || exists y :: y in s
  {
    if forall y :: y !in s {
      assert s == {};
    }
  }

  /** The least element of a non-empty finite set, found by removing an
      arbitrary element and comparing it with the least of the rest. */
  lemma {:induction false} LeastOf(s: set<int>) returns (m: int)
    requires s != {}
    ensures m in s && forall x :: x in s ==> m <= x
    decreases |s|
  {
    EmptyOrInhabited(s);
    var y :| y in s;
    var rest := s - {y};
    if rest == {} {
      m := y;
    } else {
      var k := LeastOf(rest);
      m := if y < k then y else k;
    }
    forall x | x in s
      ensures m <= x
    {
      if x != y {
        assert x in rest;
      }
    }
  }

  lemma MinExists(s: set<int>)
    requires s != {}
    ensures exists m :: m in s && forall x :: x in s ==> m <= x
  {
    var m := LeastOf(s);
  }

  function SetMin(s: set<int>): (m: int)
    requires s != {}
    ensures m in s && forall x :: x in s ==> m <= x
  {
    MinExists(s);
    var m :| m in s && forall x :: x in s ==> m <= x;
    m
  }

  predicate StrictlyIncreasing(r: seq<int>)
  {
    forall i, j :: 0 <= i < j < |r| ==> r[i] < r[j]
  }

  /** The last element of a strictly increasing sequence is its largest. */
  lemma LastIsLargest(r: seq<int>)
    requires StrictlyIncreasing(r) && r != []
    ensures forall x :: x in r ==> x <= r[|r| - 1]
  {
    forall x | x in r
      ensures x <= r[|r| - 1]
    {
      var i :| 0 <= i < |r| && r[i] == x;
      if i < |r| - 1 {
        assert r[i] < r[|r| - 1];
      }
    }
  }

  /** The elements of s in ascending order: the order in which a std::map or
      std::set with key set s is iterated. */
  function Sorted(s: set<int>): (r: seq<int>)
    ensures |r| == |s|
    ensures forall x :: x in r <==> x in s
    ensures StrictlyIncreasing(r)
    decreases |s|
  {
    if s == {} then []
    else
      var m := SetMin(s);
      [m] + Sorted(s - {m})
  }
}
