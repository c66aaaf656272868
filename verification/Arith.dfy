/** The few facts about division by a variable that the proofs need. */
module Arith {

  function Min(a: int, b: int): int {
    if a < b then a else b
  }

  function Max(a: int, b: int): int {
    if a > b then a else b
  }

  lemma SmallMultiple(s: int, t: int)
    requires s > 0
    ensures -s < s * t < s ==> t == 0
  {
    if t >= 1 {
      assert s * t >= s * 1;
    } else if t <= -1 {
      assert s * t <= s * -1;
    }
  }

  lemma DivMod(x: int, s: int)
    requires s > 0
    ensures x == (x / s) * s + x % s && 0 <= x % s < s
  {
  }

  lemma MultipleMod(q: int, s: int)
    requires s > 0
    ensures (q * s) % s == 0 && (q * s) / s == q
  {
    var x := q * s;
    var d, m := x / s, x % s;
    DivMod(x, s);
    assert s * (q - d) == m;
    SmallMultiple(s, q - d);
  }

  lemma DivUnique(x: int, s: int, q: int)
    requires s > 0 && q * s <= x < q * s + s
    ensures x / s == q && x % s == x - q * s
  {
    var d, m := x / s, x % s;
    DivMod(x, s);
    assert s * (q - d) == q * s - d * s;
    SmallMultiple(s, q - d);
  }

  /** ((x + s - 1) / s) * s as Go writes it. */
  function AlignUp(x: nat, s: nat): (r: nat)
    requires s > 0
    ensures x <= r < x + s && r % s == 0
  {
    DivMod(x + s - 1, s);
    MultipleMod((x + s - 1) / s, s);
    ((x + s - 1) / s) * s
  }

  /** (x / s) * s */
  function AlignDown(x: nat, s: nat): (r: nat)
    requires s > 0
    ensures x - s < r <= x && r % s == 0
  {
    DivMod(x, s);
    MultipleMod(x / s, s);
    (x / s) * s
  }

  /** No multiple of s lies strictly between x and its alignment. */
  lemma AlignUpLeast(x: nat, s: nat, y: nat)
    requires s > 0 && y >= x && y % s == 0
    ensures AlignUp(x, s) <= y
  {
    var r := AlignUp(x, s);
    DivMod(y, s);
    DivMod(r, s);
    if y < r {
      assert s * (r / s - y / s) == r - y;
      SmallMultiple(s, r / s - y / s);
    }
  }

  lemma MulMono(a: int, b: int, s: int)
    requires s >= 0
    ensures a <= b ==> a * s <= b * s
  {
    if a <= b {
      assert (b - a) * s >= 0;
    }
  }

  lemma DivMono(x: int, y: int, s: int)
    requires s > 0
    ensures x <= y ==> x / s <= y / s
  {
    DivMod(x, s);
    DivMod(y, s);
    if x <= y {
      MulMono(y / s + 1, x / s, s);
      assert (y / s + 1) * s == (y / s) * s + s;
    }
  }

  /** A block that starts inside n, a multiple of s, ends inside it. */
  lemma BlockInside(n: nat, s: nat, b: nat)
    requires s > 0 && n % s == 0 && b * s < n
    ensures b * s + s <= n
  {
    DivMod(n, s);
    MulMono(n / s, b, s);
    MulMono(b + 1, n / s, s);
    assert (b + 1) * s == b * s + s;
  }
}
