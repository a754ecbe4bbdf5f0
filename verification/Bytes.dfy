/** Byte strings: little-endian numbers, and writing into the middle of a byte string. */
module Bytes {

  type byte = x: int | 0 <= x < 256

  function Zeros(n: nat): (z: seq<byte>)
    ensures |z| == n
    ensures forall i :: 0 <= i < n ==> z[i] == 0
  {
    seq(n, _ => 0)
  }

  /** What is left of `s` after `n` bytes; nothing when the position lies past the end. */
  function Drop(s: seq<byte>, n: nat): seq<byte> {
    if n <= |s| then s[n..] else []
  }

  /** At most `length` bytes of `s` from offset `at` on, as many as there are. */
  function Window(s: seq<byte>, at: nat, length: nat): (w: seq<byte>)
    ensures |w| <= length && |w| <= |Drop(s, at)|
  {
    var rest := Drop(s, at);
    if |rest| <= length then rest else rest[..length]
  }

  /** Taking `n` bytes off the front of a window leaves the window behind them. */
  lemma WindowFront(s: seq<byte>, at: nat, length: nat, n: nat)
    requires n <= |Window(s, at, length)|
    ensures Window(s, at, length)[..n] == Drop(s, at)[..n]
    ensures Window(s, at, length)[n..] == Window(s, at + n, length - n)
  {
    DropDrop(s, at, n);
  }

  /** Adjacent windows concatenate. */
  lemma WindowsConcatenate(s: seq<byte>, at: nat, x: nat, y: nat)
    ensures Window(s, at, x) + Window(s, at + x, y) == Window(s, at, x + y)
  {
    DropDrop(s, at, x);
  }

  lemma DropDrop(s: seq<byte>, m: nat, n: nat)
    ensures Drop(Drop(s, m), n) == Drop(s, m + n)
  {
    if m + n <= |s| {
      assert s[m..][n..] == s[m + n..];
    }
  }

  lemma Associate(a: seq<byte>, b: seq<byte>, c: seq<byte>)
    ensures (a + b) + c == a + (b + c)
  {
  }

  lemma TakeSum(s: seq<byte>, m: nat, n: nat)
    requires m + n <= |s|
    ensures |Drop(s, m)| == |s| - m && s[..m + n] == s[..m] + Drop(s, m)[..n]
  {
  }

  /** Writing `data` at offset `at`, with the gap zero-filled when `at` lies past the end. */
  function Overwrite(old': seq<byte>, at: nat, data: seq<byte>): (r: seq<byte>)
  {
    if data == [] then old'
    else
      (if at <= |old'| then old'[..at] else old' + Zeros(at - |old'|))
      + data
      + Drop(old', at + |data|)
  }

  lemma OverwriteFacts(b: seq<byte>, at: nat, data: seq<byte>)
    requires data != []
    ensures var r := Overwrite(b, at, data);
            && |r| == (if at + |data| <= |b| then |b| else at + |data|)
            && r[at..at + |data|] == data
            && (forall i :: 0 <= i < at ==> r[i] == if i < |b| then b[i] else 0)
            && Drop(r, at + |data|) == Drop(b, at + |data|)
  {
  }

  /** Two adjacent writes are one write. */
  lemma OverwriteTwice(b: seq<byte>, at: nat, x: seq<byte>, y: seq<byte>)
    ensures Overwrite(Overwrite(b, at, x), at + |x|, y) == Overwrite(b, at, x + y)
  {
    if x == [] {
      assert x + y == y;
    } else if y == [] {
      assert x + y == x;
    } else {
      OverwriteFacts(b, at, x);
      var once := Overwrite(b, at, x);
      assert at + |x| <= |once|;
      var head := if at <= |b| then b[..at] else b + Zeros(at - |b|);
      assert once[..at + |x|] == head + x;
      DropDrop(b, at + |x|, |y|);
      DropDrop(once, at + |x|, |y|);
      assert Drop(once, at + |x| + |y|) == Drop(b, at + |x| + |y|);
      assert (head + x) + y == head + (x + y);
    }
  }

  /** A write that ends inside `b` at the offset where it started replacing a prefix. */
  lemma OverwritePrefix(b: seq<byte>, data: seq<byte>)
    ensures Overwrite(b, 0, data) == data + Drop(b, |data|)
  {
    if data != [] {
      assert b[..0] + data == data;
    }
  }

  function Pow256(w: nat): (p: nat)
    ensures p >= 1
  {
    if w == 0 then 1 else 256 * Pow256(w - 1)
  }

  lemma Pow256Values()
    ensures Pow256(1) == 0x100
    ensures Pow256(2) == 0x1_0000
    ensures Pow256(4) == 0x1_0000_0000
    ensures Pow256(8) == 0x1_0000_0000_0000_0000
  {
    assert Pow256(3) == 256 * Pow256(2);
    assert Pow256(5) == 256 * Pow256(4);
    assert Pow256(7) == 256 * Pow256(6);
  }

  /** The `w` low-order bytes of `n`, least significant first. */
  function ToLe(n: nat, w: nat): (b: seq<byte>)
    ensures |b| == w
  {
    if w == 0 then [] else [n % 256] + ToLe(n / 256, w - 1)
  }

  function FromLe(b: seq<byte>): (n: nat)
  {
    if b == [] then 0 else b[0] + 256 * FromLe(b[1..])
  }

  lemma {:induction false} FromLeToLe(n: nat, w: nat)
    requires n < Pow256(w)
    ensures FromLe(ToLe(n, w)) == n
  {
    if w > 0 {
      assert n / 256 < Pow256(w - 1);
      FromLeToLe(n / 256, w - 1);
      assert ToLe(n, w)[1..] == ToLe(n / 256, w - 1);
    }
  }

  lemma {:induction false} ToLeFromLe(b: seq<byte>)
    ensures FromLe(b) < Pow256(|b|)
    ensures ToLe(FromLe(b), |b|) == b
  {
    if b != [] {
      ToLeFromLe(b[1..]);
      assert FromLe(b) / 256 == FromLe(b[1..]);
      assert FromLe(b) % 256 == b[0];
      assert b == [b[0]] + b[1..];
    }
  }

  /** Little-endian, digit by digit: byte `i` carries the weight 256 to the power of `i`. */
  lemma {:induction false} ToLeDigits(n: nat, w: nat, i: nat)
    requires i < w
    ensures ToLe(n, w)[i] == n / Pow256(i) % 256
  {
    if i > 0 {
      ToLeDigits(n / 256, w - 1, i - 1);
      DivideTwice(n, Pow256(i - 1));
    }
  }

  lemma DivideTwice(n: nat, p: nat)
    requires p >= 1
    ensures n / 256 / p == n / (256 * p)
  {
    var q, r := n / 256 / p, n / 256 % p;
    assert n / 256 == q * p + r;
    assert n == (256 * p) * q + (256 * r + n % 256);
    assert 256 * r + n % 256 < 256 * p;
    QuotientIs(n, 256 * p, q, 256 * r + n % 256);
  }

  lemma QuotientIs(n: nat, d: nat, q: nat, r: nat)
    requires d > 0 && n == d * q + r && r < d
    ensures n / d == q
  {
    assert d * (n / d - q) == r - n % d;
    Scaled(d, n / d - q);
  }

  lemma Scaled(d: int, e: int)
    requires d > 0
    ensures e >= 1 ==> d * e >= d
    ensures e <= -1 ==> d * e <= -d
  {
  }

  /** Two's complement: the unsigned reading of a signed number of `w` bytes. */
  function Unsigned(v: int, w: nat): (n: nat)
    requires w > 0 && -(Pow256(w) / 2) <= v < Pow256(w) / 2
    ensures n < Pow256(w)
  {
    if v < 0 then v + Pow256(w) else v
  }

  function Signed(n: nat, w: nat): (v: int)
    requires w > 0 && n < Pow256(w)
    ensures -(Pow256(w) / 2) <= v < Pow256(w) / 2
  {
    assert Pow256(w) == 256 * Pow256(w - 1);
    if n >= Pow256(w) / 2 then n - Pow256(w) else n
  }

  lemma SignedUnsigned(v: int, n: nat, w: nat)
    requires w > 0
    ensures -(Pow256(w) / 2) <= v < Pow256(w) / 2 ==> Signed(Unsigned(v, w), w) == v
    ensures n < Pow256(w) ==> Unsigned(Signed(n, w), w) == n
  {
    assert Pow256(w) == 256 * Pow256(w - 1);
  }
}
