/** What several parts of the library share. */
module Common {

  /** A pointer that may be NULL, or a call that may fail. */
  datatype Option<T> = None | Some(value: T)

  /** 1 << k */
  function Pow2(k: nat): (r: nat)
    ensures r > 0
  {
    if k == 0 then 1 else 2 * Pow2(k - 1)
  }

  /** small_align: the next multiple of a. */
  function Align(x: nat, a: nat): nat
    requires a > 0
  {
    (x + a - 1) / a * a
  }

  /** It is the least multiple not below x. */
  lemma AlignIs(x: nat, a: nat)
    requires a > 0
    ensures x <= Align(x, a) < x + a && Align(x, a) % a == 0
  {
    var y := x + a - 1;
    assert y == a * (y / a) + y % a;
    DivModUnique(Align(x, a), a, y / a, 0);
  }

  lemma MulMono(a: nat, b: nat, c: nat)
    requires a <= b
    ensures a * c <= b * c
  {
  }

  lemma DivModUnique(x: nat, d: nat, q: nat, r: nat)
    requires d > 0 && x == q * d + r && r < d
    ensures x / d == q && x % d == r
  {
    var q', r' := x / d, x % d;
    assert x == q' * d + r';
    if q' < q { MulMono(q' + 1, q, d); }
    if q < q' { MulMono(q + 1, q', d); }
  }

  /** A list with element i removed. */
  function Without<T>(s: seq<T>, i: nat): seq<T>
    requires i < |s|
  {
    s[..i] + s[i + 1..]
  }

  /** No element occurs twice. */
  ghost predicate NoDup<T>(s: seq<T>) { forall i, j :: 0 <= i < j < |s| ==> s[i] != s[j] }
}
