/** Fixed-width little-endian numbers. */
module LittleEndian {
  import opened Bytes
  import opened Powers

  function Pow256(k: nat): (r: nat)
    ensures r >= 1
  {
    if k == 0 then 1 else 256 * Pow256(k - 1)
  }

  function Put(n: nat, k: nat): (b: Str)
    ensures |b| == k
    decreases k
  {
    if k == 0 then [] else [n % 256] + Put(n / 256, k - 1)
  }

  function Get(b: Str): (n: nat)
    ensures n < Pow256(|b|)
  {
    if b == [] then 0 else
      var high := Get(b[1..]);
      b[0] + 256 * high
  }

  lemma {:induction false} GetPut(n: nat, k: nat)
    requires n < Pow256(k)
    ensures Get(Put(n, k)) == n
    decreases k
  {
    if k > 0 {
      GetPut(n / 256, k - 1);
      assert Put(n, k)[1..] == Put(n / 256, k - 1);
    }
  }

  /** Byte i is the digit of weight 256^i: the least one comes first. */
  lemma {:induction false} ByteAt(n: nat, k: nat, i: nat)
    requires i < k
    ensures Put(n, k)[i] == n / Pow256(i) % 256
    decreases k
  {
    if i > 0 {
      ByteAt(n / 256, k - 1, i - 1);
      DivTwice(n, Pow256(i - 1));
    }
  }

  lemma DivTwice(n: nat, p: nat)
    requires p >= 1
    ensures n / 256 / p == n / (256 * p)
  {
    var q, r := n / (256 * p), n % (256 * p);
    assert n == q * (256 * p) + r && 0 <= r < 256 * p;
    assert q * (256 * p) == (q * p) * 256;
    assert n / 256 == q * p + r / 256;
    Quotient(q * p + r / 256, p, q, r / 256);
  }

  lemma {:induction false} GetInjective(a: Str, b: Str)
    requires |a| == |b| && Get(a) == Get(b)
    ensures a == b
    decreases |a|
  {
    if a != [] {
      LastDigit(a[0], Get(a[1..]), b[0], Get(b[1..]));
      GetInjective(a[1..], b[1..]);
      assert a == [a[0]] + a[1..] && b == [b[0]] + b[1..];
    }
  }

  lemma LastDigit(a: int, x: int, b: int, y: int)
    requires 0 <= a < 256 && 0 <= b < 256 && a + 256 * x == b + 256 * y
    ensures a == b && x == y
  {}

  lemma FourBytes()
    ensures Pow256(4) == 0x1_0000_0000
  {
    assert Pow256(1) == 256 * Pow256(0);
    assert Pow256(2) == 256 * Pow256(1);
    assert Pow256(3) == 256 * Pow256(2);
  }
}
