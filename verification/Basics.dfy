/** What several modules need and no one owns. */
module Basics {

  datatype Option<T> = None | Some(value: T)

  function Min(a: int, b: int): int { if a < b then a else b }

  function Max(a: int, b: int): int { if a > b then a else b }

  lemma Regroup<T>(a: seq<T>, b: seq<T>, c: seq<T>)
    ensures a + (b + c) == a + b + c
  {
  }

  /** Of two prefixes of a list one is a prefix of the other. */
  lemma Nested<T>(a: seq<T>, b: seq<T>, s: seq<T>)
    requires a <= s && b <= s
    ensures a <= b || b <= a
  {
  }

  lemma MultipleBeyond(k: int, d: int)
    requires d > 0
    ensures k >= 1 ==> k * d >= d
    ensures k <= -1 ==> k * d <= -d
  {
    if k >= 1 {
      assert (k - 1) * d >= 0;
    } else if k <= -1 {
      assert (-k - 1) * d >= 0;
    }
  }

  lemma DivUnique(a: int, d: int, q: int)
    requires d > 0 && q * d <= a < q * d + d
    ensures a / d == q
  {
    var p := a / d;
    assert p * d <= a < p * d + d;
    assert (p - q) * d == p * d - q * d;
    MultipleBeyond(p - q, d);
  }

  lemma ModUnique(a: int, d: int, q: int, r: int)
    requires d > 0 && a == q * d + r && 0 <= r < d
    ensures a % d == r
  {
    DivUnique(a, d, q);
  }
}
