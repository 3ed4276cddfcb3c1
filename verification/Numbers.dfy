/** Small facts about numbers, sets and sequences that several components share. */
module Numbers {
  type Byte = n: int | 0 <= n < 256

  function Min(a: int, b: int): int {
    if a < b then a else b
  }

  function Power(base: nat, k: nat): (p: nat)
    requires base >= 1
    ensures p >= 1
  {
    if k == 0 then 1 else base * Power(base, k - 1)
  }

  lemma Times(b: nat, x: nat, y: nat)
    ensures x <= y ==> b * x <= b * y
  {
  }

  lemma {:induction false} SubsetSize<T>(a: set<T>, b: set<T>)
    requires a <= b
    ensures |a| <= |b|
  {
    if a != {} {
      var x :| x in a;
      SubsetSize(a - {x}, b - {x});
    }
  }

  lemma Regroup<T>(a: seq<T>, b: seq<T>, c: seq<T>)
    ensures (a + b) + c == a + (b + c)
  {
  }
}
