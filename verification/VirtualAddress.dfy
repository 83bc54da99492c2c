/** What it means for two virtual addresses to share a leaf, in terms of the addresses. */
module VirtualAddress {
  import opened Arithmetic
  import opened PageEntry
  import opened FlatMap
  import opened AddressSpaces

  lemma ModSplit(y: nat, k: nat)
    requires k > 0
    ensures y % (512 * k) == y % 512 + 512 * (y / 512 % k)
    ensures y / (512 * k) == y / 512 / k
  {
    var q, r := y / 512 / k, y / 512 % k;
    assert y / 512 == q * k + r;
    assert y == (q * k + r) * 512 + y % 512;
    assert y == q * (512 * k) + (512 * r + y % 512);
    QuotientUnique(y, 512 * k, q, 512 * r + y % 512);
  }

  /** Equality modulo 512 * k is equality of the low digit and of the rest. */
  lemma DigitsEqual(y: nat, z: nat, k: nat)
    requires k > 0
    ensures y % (512 * k) == z % (512 * k) <==> y % 512 == z % 512 && y / 512 % k == z / 512 % k
  {
    ModSplit(y, k);
    ModSplit(z, k);
    var a, b := y / 512 % k, z / 512 % k;
    if a != b {
      assert y % 512 + 512 * a != z % 512 + 512 * b;
    }
  }

  lemma DivDiv(v: nat, a: nat, b: nat)
    requires a > 0 && b > 0
    ensures a * b > 0 && v / (a * b) == v / a / b
  {
    var q, r := v / a / b, v / a % b;
    assert v / a == q * b + r;
    assert v == (q * b + r) * a + v % a;
    assert v == q * (a * b) + (r * a + v % a);
    assert r * a + v % a < a * b by {
      assert r <= b - 1;
      assert r * a <= (b - 1) * a;
    }
    assert a * b > 0;
    QuotientUnique(v, a * b, q, r * a + v % a);
  }

  /** The `n` lowest base-512 digits of `y` and `z` are the same. */
  predicate SameDigits(y: nat, z: nat, n: nat)
    decreases n
  {
    n == 0 || (y % 512 == z % 512 && SameDigits(y / 512, z / 512, n - 1))
  }

  function Pow512(n: nat): (r: nat)
    ensures r > 0
  {
    if n == 0 then 1 else 512 * Pow512(n - 1)
  }

  lemma {:induction false} SameDigitsIff(y: nat, z: nat, n: nat)
    ensures SameDigits(y, z, n) <==> y % Pow512(n) == z % Pow512(n)
    decreases n
  {
    if n > 0 {
      SameDigitsIff(y / 512, z / 512, n - 1);
      DigitsEqual(y, z, Pow512(n - 1));
    }
  }

  /** The four indices are the low base-512 digits of the page number. */
  lemma PathDigits(v: nat)
    ensures var y := v / 0x1000; var x := v / 0x20_0000;
      && Path4(v) == [y / 512 / 512 / 512 % 512, y / 512 / 512 % 512, y / 512 % 512, y % 512]
      && Path5(v)[0] == y / 512 / 512 / 512 / 512 % 512
      && x == y / 512
  {
    DivDiv(v, 0x1000, 512);
    DivDiv(v, 0x20_0000, 512);
    DivDiv(v, 0x4000_0000, 512);
    DivDiv(v, 0x80_0000_0000, 512);
  }

  lemma SamePageDigits4(v: nat, w: nat)
    ensures SamePage(Path4(v), Path4(w), 1) <==> SameDigits(v / 0x1000, w / 0x1000, 4)
    ensures SamePage(Path4(v), Path4(w), 2) <==> SameDigits(v / 0x20_0000, w / 0x20_0000, 3)
  {
    PathDigits(v);
    PathDigits(w);
    UnfoldSamePage(Path4(v), Path4(w));
    UnfoldDigits(v / 0x1000, w / 0x1000);
    UnfoldDigits(v / 0x20_0000, w / 0x20_0000);
  }

  lemma UnfoldSamePage(p: seq<nat>, q: seq<nat>)
    requires |p| == |q| == 4
    ensures SamePage(p, q, 1) <==> p == q
    ensures SamePage(p, q, 2) <==> p[0] == q[0] && p[1] == q[1] && p[2] == q[2]
  {
    var p1, q1, p2, q2 := p[1..], q[1..], p[2..], q[2..];
    assert p1[1..] == p2 && q1[1..] == q2;
    assert SamePage(p2[1..], q2[1..], 1) <==> p[3] == q[3];
    assert SamePage(p2, q2, 1) <==> p[2] == q[2] && p[3] == q[3];
    assert SamePage(p2, q2, 2) <==> p[2] == q[2];
    assert SamePage(p1, q1, 1) <==> p[1] == q[1] && SamePage(p2, q2, 1);
    assert SamePage(p1, q1, 2) <==> p[1] == q[1] && SamePage(p2, q2, 2);
  }

  lemma UnfoldDigits(y: nat, z: nat)
    ensures SameDigits(y, z, 3) <==> y % 512 == z % 512 && y / 512 % 512 == z / 512 % 512 && y / 512 / 512 % 512 == z / 512 / 512 % 512
    ensures SameDigits(y, z, 4) <==> SameDigits(y, z, 3) && y / 512 / 512 / 512 % 512 == z / 512 / 512 / 512 % 512
    ensures SameDigits(y, z, 5) <==> SameDigits(y, z, 4) && y / 512 / 512 / 512 / 512 % 512 == z / 512 / 512 / 512 / 512 % 512
  {
    var a, b := y / 512 / 512, z / 512 / 512;
    assert SameDigits(a / 512 / 512, b / 512 / 512, 1) <==> a / 512 / 512 % 512 == b / 512 / 512 % 512;
    assert SameDigits(a, b, 1) <==> a % 512 == b % 512;
    assert SameDigits(a, b, 2) <==> a % 512 == b % 512 && a / 512 % 512 == b / 512 % 512;
    assert SameDigits(a, b, 3) <==> SameDigits(a, b, 2) && a / 512 / 512 % 512 == b / 512 / 512 % 512;
  }

  /** Two addresses share a leaf iff they agree above the leaf's offset, as far as the table reaches. */
  lemma SamePageIff(v: nat, w: nat, levels: nat, level: nat)
    requires levels in {4, 5} && level in {1, 2}
    ensures SamePage(PathOf(v, levels), PathOf(w, levels), level) <==>
      v / LeafSize(level) % Pow512(levels - level + 1) == w / LeafSize(level) % Pow512(levels - level + 1)
  {
    hide Pow512, SameDigits;
    var y, z := v / LeafSize(level), w / LeafSize(level);
    SameDigitsIff(y, z, levels - level + 1);
    SamePageDigits4(v, w);
    if levels == 5 {
      PathDigits(v);
      PathDigits(w);
      UnfoldDigits(y, z);
      assert Path5(v)[1..] == Path4(v) && Path5(w)[1..] == Path4(w);
    }
  }
}
