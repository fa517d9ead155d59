/**
  Small generic vocabulary shared by the rest of the model: an optional value
  (JavaScript's `null`/`undefined` versus a present value) and the few
  sequence operations the site's code builds on (`Array.prototype.filter`,
  string concatenation of a token list, and repetition of a list).
 */
module Base {

  /** A value that may be absent (`null` or `undefined` in the source). */
  datatype Option<T> = None | Some(value: T)

  /** The elements of `s` that satisfy `p`, in their original order
      (`Array.prototype.filter`): every element satisfying `p` is kept as
      often as it occurs, every other one is dropped. Defined from the back
      so that a loop that pushes element by element meets it step by step. */
  function Filter<T>(s: seq<T>, p: T -> bool): (r: seq<T>)
    ensures |r| <= |s|
    ensures forall x :: x in r ==> x in s && p(x)
    ensures forall x :: x in s && p(x) ==> x in r
    ensures forall x :: x in s ==> multiset(r)[x] == if p(x) then multiset(s)[x] else 0
    decreases |s|
  {
    if |s| == 0 then []
    else
      var init := s[..|s| - 1];
      var last := s[|s| - 1];
      assert s == init + [last];
      var r := Filter(init, p) + (if p(last) then [last] else []);
      assert multiset(s) == multiset(init) + multiset{last};
      r
  }

  /** Filtering a sequence extended by one element. */
  lemma FilterSnoc<T>(s: seq<T>, x: T, p: T -> bool)
    ensures Filter(s + [x], p) == Filter(s, p) + (if p(x) then [x] else [])
  {
    assert (s + [x])[..|s + [x]| - 1] == s;
  }

  /** The concatenation of a list of strings, in order. */
  function Flatten(parts: seq<string>): (r: string)
    ensures |parts| == 0 ==> r == []
  {
    if |parts| == 0 then [] else parts[0] + Flatten(parts[1..])
  }

  /** Flattening distributes over concatenation of the lists. */
  lemma {:induction false} FlattenAppend(a: seq<string>, b: seq<string>)
    ensures Flatten(a + b) == Flatten(a) + Flatten(b)
    decreases |a|
  {
    if |a| == 0 {
      assert a + b == b;
    } else {
      assert (a + b)[1..] == a[1..] + b;
      FlattenAppend(a[1..], b);
    }
  }

  /** `s.map(f)`. */
  function Map<A, B>(s: seq<A>, f: A -> B): (r: seq<B>)
    ensures |r| == |s| && forall k :: 0 <= k < |s| ==> r[k] == f(s[k])
  {
    seq(|s|, k requires 0 <= k < |s| => f(s[k]))
  }

  /** `s` written out `n` times in a row. */
  function Repeat<T>(s: seq<T>, n: nat): (r: seq<T>)
    ensures |r| == n * |s|
    ensures forall k :: 0 <= k < |r| ==> r[k] == s[k % |s|]
  {
    if n == 0 then []
    else
      var prev := Repeat(s, n - 1);
      var r := prev + s;
      forall k | 0 <= k < |r|
        ensures r[k] == s[k % |s|]
      {
        if k >= |prev| {
          ModOfShifted(k, |s|, n - 1);
        }
      }
      r
  }

  /** `k % m` for `k` in the `q`-th block of length `m`. */
  lemma ModOfShifted(k: int, m: int, q: int)
    requires m > 0 && q >= 0
    requires q * m <= k < q * m + m
    ensures k % m == k - q * m
    ensures k / m == q
  {
    var r := k - q * m;
    assert k == q * m + r && 0 <= r < m;
    DivModUnique(k, m, q, r);
  }

  /** Division and remainder are determined by the quotient-remainder equation. */
  lemma DivModUnique(a: int, m: int, q: int, r: int)
    requires m > 0 && 0 <= r < m && a == q * m + r
    ensures a / m == q && a % m == r
  {
    var q' := a / m;
    var r' := a % m;
    assert q' * m + r' == q * m + r;
    var d := q' - q;
    assert d * m == r - r' by { assert d * m == q' * m - q * m; }
    MulAtLeast(d, m);
  }

  /** A non-zero multiple of a positive `m` is at least `m` away from zero. */
  lemma MulAtLeast(d: int, m: int)
    requires m > 0
    ensures d >= 1 ==> d * m >= m
    ensures d <= -1 ==> d * m <= -m
  {
  }
}
