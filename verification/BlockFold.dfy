/** Iterated hashing: a step folded over the blocks of a padded message. */
module BlockFold {
  import opened Words
  import opened Bytes

  /** The chaining value after the whole blocks of m. */
  function Fold<S>(f: (S, seq<u8>) -> S, n: nat, h: S, m: seq<u8>): S
    requires n > 0
    decreases |m|
  {
    if |m| < n then h else Fold(f, n, f(h, m[..n]), m[n..])
  }

  lemma ModMinus(a: nat, n: nat)
    requires 0 < n <= a
    ensures (a - n) % n == a % n
  {
    assert a - n == n * (a / n - 1) + a % n;
    DivModUnique(a - n, n, a / n - 1, a % n);
  }

  lemma SmallMod(a: nat, n: nat)
    requires a < n
    ensures a % n == a
  {
    DivModUnique(a, n, 0, a);
  }

  lemma {:induction false} FoldConcat<S>(f: (S, seq<u8>) -> S, n: nat, h: S, a: seq<u8>, b: seq<u8>)
    requires n > 0 && |a| % n == 0
    ensures Fold(f, n, h, a + b) == Fold(f, n, Fold(f, n, h, a), b)
    decreases |a|
  {
    if |a| < n {
      SmallMod(|a|, n);
      assert a + b == b;
    } else {
      ModMinus(|a|, n);
      FoldConcat(f, n, f(h, a[..n]), a[n..], b);
      assert (a + b)[..n] == a[..n] && (a + b)[n..] == a[n..] + b;
    }
  }

  lemma FoldOne<S>(f: (S, seq<u8>) -> S, n: nat, h: S, a: seq<u8>)
    requires n > 0 && |a| == n
    ensures Fold(f, n, h, a) == f(h, a)
  {
    assert a[..n] == a && a[n..] == [];
  }

  /** A message shorter than a block is not compressed. */
  lemma FoldNothing<S>(f: (S, seq<u8>) -> S, n: nat, h: S, a: seq<u8>)
    requires n > 0 && |a| < n
    ensures Fold(f, n, h, a) == h
  {
  }

  function Zeros(n: nat): (s: seq<u8>)
    ensures |s| == n
  {
    seq(n, _ => 0)
  }

  /** The number of zero bytes that fill up the last block. */
  function Filler(length: nat, n: nat, tail: nat): nat
    requires n > 0
  {
    (n - (length + 1 + tail) % n) % n
  }

  /** m, a one bit, as few zeros as fill the last block, and the tail. */
  function Padded(m: seq<u8>, n: nat, tail: seq<u8>): seq<u8>
    requires n > 0
  {
    m + [0x80] + Zeros(Filler(|m|, n, |tail|)) + tail
  }

  lemma PaddedLength(m: seq<u8>, n: nat, tail: seq<u8>)
    requires n > 0
    ensures |Padded(m, n, tail)| % n == 0
    ensures |Padded(m, n, tail)| - |m| - 1 - |tail| < n
  {
    var x := |m| + 1 + |tail|;
    var q, r := x / n, x % n;
    if r == 0 {
      DivModUnique(n, n, 1, 0);
    } else {
      SmallMod(n - r, n);
      assert x + (n - r) == n * (q + 1);
      DivModUnique(x + (n - r), n, q + 1, 0);
    }
  }

  /** The message, the byte 0x80, zeros up to the tail, and the tail. */
  lemma PaddedLayout(m: seq<u8>, n: nat, tail: seq<u8>)
    requires n > 0
    ensures var p := Padded(m, n, tail);
      && |p| % n == 0 && |m| + 1 + |tail| <= |p| < |m| + 1 + |tail| + n
      && p[..|m|] == m && p[|m|] == 0x80 && p[|p| - |tail|..] == tail
      && forall i :: |m| < i < |p| - |tail| ==> p[i] == 0
  {
    PaddedLength(m, n, tail);
  }

  /** Padding can be taken off again, if the tail tells the length: different messages give
      different padded messages. */
  lemma PaddedInjective(m: seq<u8>, m': seq<u8>, n: nat, tail: seq<u8>, tail': seq<u8>)
    requires n > 0 && |tail| == |tail'| && (tail == tail' ==> |m| == |m'|)
    requires Padded(m, n, tail) == Padded(m', n, tail')
    ensures m == m'
  {
    var p, k := Padded(m, n, tail), |tail|;
    assert p[|p| - k..] == tail && p[|p| - k..] == tail';
    assert p[..|m|] == m && p[..|m'|] == m';
  }

  /** Padding a message that begins with whole blocks pads the rest. */
  lemma PaddedRest(done: seq<u8>, rest: seq<u8>, n: nat, tail: seq<u8>)
    requires n > 0 && |done| % n == 0
    ensures Padded(done + rest, n, tail) == done + Padded(rest, n, tail)
  {
    var x, y := |rest| + 1 + |tail|, |done|;
    DivModUnique(x + y, n, x / n + y / n, x % n) by {
      assert x == n * (x / n) + x % n;
      assert y == n * (y / n);
      assert n * (x / n) + n * (y / n) == n * (x / n + y / n);
    }
    assert Filler(|done + rest|, n, |tail|) == Filler(|rest|, n, |tail|);
  }

  /** The n bytes of v, most significant first. */
  function BeBytes(v: nat, n: nat): (s: seq<u8>)
    ensures |s| == n
  {
    if n == 0 then [] else BeBytes(v / 256, n - 1) + [v % 256]
  }

  /** Byte j of a number, counted from the end. */
  lemma {:induction false} BeByteAt(v: nat, n: nat, j: nat)
    requires j < n
    ensures BeBytes(v, n)[n - 1 - j] == v / Pow256(j) % 256
  {
    if j > 0 {
      BeByteAt(v / 256, n - 1, j - 1);
      DivDiv(v, 256, Pow256(j - 1));
    }
  }

  /** The last n bytes of a number do not see what is beyond them. */
  lemma {:induction false} BeBytesMod(v: nat, n: nat)
    ensures BeBytes(v % Pow256(n), n) == BeBytes(v, n)
  {
    if n > 0 {
      BeBytesMod(v / 256, n - 1);
      LowByte(v, Pow256(n - 1));
    }
  }

  lemma {:induction false} BeBytesSplit(a: nat, b: nat, m: nat, n: nat)
    requires b < Pow256(n)
    ensures BeBytes(a * Pow256(n) + b, m + n) == BeBytes(a, m) + BeBytes(b, n)
  {
    if n == 0 {
      assert BeBytes(b, 0) == [];
    } else {
      var v := a * Pow256(n) + b;
      var x := a * Pow256(n - 1);
      assert v == 256 * (x + b / 256) + b % 256;
      DivModUnique(v, 256, x + b / 256, b % 256);
      BeBytesSplit(a, b / 256, m, n - 1);
      assert BeBytes(v, m + n) == BeBytes(x + b / 256, m + n - 1) + [b % 256];
      assert BeBytes(a, m) + (BeBytes(b / 256, n - 1) + [b % 256])
        == BeBytes(a, m) + BeBytes(b / 256, n - 1) + [b % 256];
    }
  }

  lemma {:induction false} BeBytesInjective(v: nat, w: nat, n: nat)
    requires v < Pow256(n) && w < Pow256(n) && BeBytes(v, n) == BeBytes(w, n)
    ensures v == w
  {
    if n > 0 {
      var s, t := BeBytes(v, n), BeBytes(w, n);
      assert s[..n - 1] == BeBytes(v / 256, n - 1) && t[..n - 1] == BeBytes(w / 256, n - 1) && s[n - 1] == t[n - 1];
      BeBytesInjective(v / 256, w / 256, n - 1);
    }
  }

  /** dst[at..] gets the bytes of s, as memcpy does it. */
  method CopyIn(dst: array<u8>, at: nat, s: seq<u8>)
    requires at + |s| <= dst.Length
    modifies dst
    ensures dst[..] == old(dst[..at]) + s + old(dst[at + |s|..])
  {
    forall i | 0 <= i < |s| {
      dst[at + i] := s[i];
    }
  }
}
