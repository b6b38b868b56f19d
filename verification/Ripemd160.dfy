/** The streaming RIPEMD-160; the compression of one block is a parameter. */
module Ripemd160 {
  import opened Words
  import opened Bytes
  import opened BlockFold

  /** The five chaining words. */
  type Chain = s: seq<u32> | |s| == 5 witness [0, 0, 0, 0, 0]

  type Step = (Chain, seq<u8>) -> Chain

  const INITIAL: Chain := [0x67452301, 0xEFCDAB89, 0x98BADCFE, 0x10325476, 0xC3D2E1F0]

  // ----- the digest of a message (padding as in sections 3.1 and 3.2 of RFC 1320) -----

  /** The message, a one bit, zeros, and the bit length in 64 bits, in blocks of 64 bytes. */
  function Pad(m: seq<u8>): seq<u8> {
    Padded(m, 64, LeBytes(8 * |m| % 0x1_0000_0000_0000_0000, 8))
  }

  function StoreAll(h: seq<u32>): (s: seq<u8>)
    ensures |s| == 4 * |h|
  {
    if h == [] then [] else LeBytes(h[0], 4) + StoreAll(h[1..])
  }

  function Digest(f: Step, m: seq<u8>): (d: seq<u8>)
    ensures |d| == 20
  {
    StoreAll(Fold(f, 64, INITIAL, Pad(m)))
  }

  /** The initial words, stored in order, are bytes that count up and down in their digits. */
  lemma InitialBytes()
    ensures StoreAll(INITIAL) ==
      [0x01, 0x23, 0x45, 0x67, 0x89, 0xAB, 0xCD, 0xEF, 0xFE, 0xDC, 0xBA, 0x98, 0x76, 0x54, 0x32, 0x10,
       0xF0, 0xE1, 0xD2, 0xC3]
  {
    var h := INITIAL;
    StoreFive(h);
    FourBytes(0x67452301, 0x01, 0x23, 0x45, 0x67);
    FourBytes(0xEFCDAB89, 0x89, 0xAB, 0xCD, 0xEF);
    FourBytes(0x98BADCFE, 0xFE, 0xDC, 0xBA, 0x98);
    FourBytes(0x10325476, 0x76, 0x54, 0x32, 0x10);
    FourBytes(0xC3D2E1F0, 0xF0, 0xE1, 0xD2, 0xC3);
  }

  lemma StoreFive(h: Chain)
    ensures StoreAll(h)
      == LeBytes(h[0], 4) + (LeBytes(h[1], 4) + (LeBytes(h[2], 4) + (LeBytes(h[3], 4) + LeBytes(h[4], 4))))
  {
    hide LeBytes, StoreAll;
    StoreNext(h, 1);
    StoreNext(h, 2);
    StoreNext(h, 3);
    StoreNext(h, 4);
    StoreEnds(h);
  }

  lemma StoreNext(h: seq<u32>, i: nat)
    requires i < |h|
    ensures StoreAll(h[i..]) == LeBytes(h[i], 4) + StoreAll(h[i + 1..])
  {
    hide LeBytes;
    assert h[i..][1..] == h[i + 1..];
  }

  lemma StoreEnds(h: seq<u32>)
    requires |h| == 5
    ensures StoreAll(h) == LeBytes(h[0], 4) + StoreAll(h[1..]) && StoreAll(h[5..]) == []
  {
    hide LeBytes;
  }

  lemma FourBytes(w: u32, a: u8, b: u8, c: u8, d: u8)
    requires w == a + 0x100 * b + 0x10000 * c + 0x1000000 * d
    ensures LeBytes(w, 4) == [a, b, c, d]
  {
    DivModUnique(w, 256, b + 0x100 * c + 0x10000 * d, a);
    DivModUnique(b + 0x100 * c + 0x10000 * d, 256, c + 0x100 * d, b);
    DivModUnique(c + 0x100 * d, 256, d, c);
    assert LeBytes(d, 1) == [d % 256] + LeBytes(d / 256, 0) == [d];
    assert LeBytes(c + 0x100 * d, 2) == [c] + LeBytes(d, 1) == [c, d];
    assert LeBytes(b + 0x100 * c + 0x10000 * d, 3) == [b] + LeBytes(c + 0x100 * d, 2);
  }

  /** The digest is the words of the last chaining value in order, each with its least significant
      byte first. */
  lemma {:induction false} DigestWords(f: Step, m: seq<u8>, k: nat, j: nat)
    requires k < 5 && j < 4
    ensures Digest(f, m)[4 * k + j] == Fold(f, 64, INITIAL, Pad(m))[k] / Pow256(j) % 256
  {
    hide Pad, Fold, Pow256, LeBytes;
    var h := Fold(f, 64, INITIAL, Pad(m));
    StoredWordAt(h, k);
    LeByteAt(h[k], 4, j);
    assert Digest(f, m)[4 * k..4 * k + 4][j] == Digest(f, m)[4 * k + j];
  }

  lemma {:induction false} StoredWordAt(h: seq<u32>, k: nat)
    requires k < |h|
    ensures StoreAll(h)[4 * k..4 * k + 4] == LeBytes(h[k], 4)
  {
    hide LeBytes;
    if k > 0 {
      StoredWordAt(h[1..], k - 1);
      var t := StoreAll(h[1..]);
      assert StoreAll(h)[4 * k..4 * k + 4] == t[4 * (k - 1)..4 * (k - 1) + 4];
    }
  }

  /** The padded message consists of whole blocks: the message, 0x80, fewer than 64 zeros, and the
      bit length in the last 8 bytes, least significant first. */
  lemma PadLayout(m: seq<u8>)
    ensures var p := Pad(m);
      && |p| % 64 == 0 && |m| + 9 <= |p| < |m| + 9 + 64
      && p[..|m|] == m && p[|m|] == 0x80 && (forall i :: |m| < i < |p| - 8 ==> p[i] == 0)
      && forall j: nat :: j < 8 ==> p[|p| - 8 + j] == 8 * |m| / Pow256(j) % 256
  {
    hide LeBytes, Padded, Pow256;
    var tail := LeBytes(8 * |m|, 8);
    Pow256At8();
    LeBytesMod(8 * |m|, 8);
    PaddedLayout(m, 64, tail);
    var p := Pad(m);
    forall j: nat | j < 8
      ensures p[|p| - 8 + j] == 8 * |m| / Pow256(j) % 256
    {
      LeByteAt(8 * |m|, 8, j);
      assert p[|p| - 8 + j] == p[|p| - 8..][j];
    }
  }

  /** Different messages of less than 2^61 bytes are padded differently, to whole blocks. */
  lemma PadIsInjective(m: seq<u8>, m': seq<u8>)
    requires |m| < 0x2000_0000_0000_0000 && |m'| < 0x2000_0000_0000_0000
    ensures |Pad(m)| % 64 == 0
    ensures Pad(m) == Pad(m') ==> m == m'
  {
    hide LeBytes, Padded, Pow256, LeValue;
    var t, t' := LeBytes(8 * |m|, 8), LeBytes(8 * |m'|, 8);
    PaddedLength(m, 64, t);
    Pow256At8();
    LeValueOfLeBytes(8 * |m|, 8);
    LeValueOfLeBytes(8 * |m'|, 8);
    if Pad(m) == Pad(m') {
      PaddedInjective(m, m', 64, t, t');
    }
  }

  // ----- the streaming state -----

  /** h is the chaining value after the whole blocks of m. */
  ghost predicate Chained(f: Step, h: Chain, m: seq<u8>) {
    |m| % 64 == 0 && h == Fold(f, 64, INITIAL, m)
  }

  class State {
    const step: Step
    var length: u64
    const buf: array<u8>
    var h: Chain
    var bufpos: u8
    ghost var absorbed: seq<u8>

    /** The part of the message that has gone through the step. */
    ghost function Whole(): seq<u8>
      requires bufpos <= |absorbed|
      reads this
    {
      absorbed[..|absorbed| - bufpos]
    }

    /** A buffer that is never full, and zero from bufpos on. */
    ghost predicate Valid()
      reads this, buf
    {
      && buf.Length == 64 && bufpos < 64 && bufpos <= |absorbed|
      && Chained(step, h, Whole())
      && buf[..] == absorbed[|absorbed| - bufpos..] + Zeros(64 - bufpos)
      && length == 8 * |absorbed| % 0x1_0000_0000_0000_0000
    }

    constructor (step: Step)
      ensures Valid() && absorbed == [] && fresh(buf) && this.step == step
    {
      this.step := step;
      h := INITIAL;
      buf := new u8[64](_ => 0);
      length, bufpos := 0, 0;
      absorbed := [];
      new;
      assert buf[..] == Zeros(64);
    }

    /** Compresses the full buffer and clears it. */
    method Compress(ghost whole: seq<u8>)
      requires buf.Length == 64 && bufpos == 64 && Chained(step, h, whole)
      modifies `h, `bufpos, buf
      ensures bufpos == 0 && buf[..] == Zeros(64)
      ensures Chained(step, h, whole + old(buf[..]))
    {
      OneBlock(step, h, whole, buf[..]);
      h := step(h, buf[..]);
      CopyIn(buf, 0, Zeros(64));
      assert buf[..] == Zeros(64);
      bufpos := 0;
    }

    method Process(p: seq<u8>)
      requires Valid()
      modifies this, buf
      ensures Valid() && absorbed == old(absorbed) + p
    {
      var data := p;
      while |data| > 0
        invariant Valid() && absorbed + data == old(absorbed) + p
        decreases |data|
      {
        var bytesNeeded := 64 - bufpos;
        if |data| >= bytesNeeded {
          assert absorbed + data == absorbed + data[..bytesNeeded] + data[bytesNeeded..];
          FillBlock(data[..bytesNeeded]);
          data := data[bytesNeeded..];
        } else {
          KeepRest(data);
          return;
        }
      }
      assert data == [];
    }

    /** Fills the buffer and compresses it. */
    method FillBlock(data: seq<u8>)
      requires Valid() && |data| == 64 - bufpos
      modifies this, buf
      ensures Valid() && absorbed == old(absorbed) + data
    {
      hide Chained, Fold;
      ghost var kept, whole := absorbed[|absorbed| - bufpos..], Whole();
      assert absorbed == whole + kept;
      CopyIn(buf, bufpos, data);
      bufpos := bufpos + |data|;
      AddLength(length, |absorbed|, |data|);
      length := Add64(length, |data| * 8);
      assert buf[..] == kept + data;
      Compress(whole);
      absorbed := absorbed + data;
      assert absorbed == whole + (kept + data) == Whole() && absorbed[|absorbed|..] == [];
    }

    /** Keeps what does not fill the buffer. */
    method KeepRest(data: seq<u8>)
      requires Valid() && |data| < 64 - bufpos
      modifies this, buf
      ensures Valid() && absorbed == old(absorbed) + data
    {
      hide Chained, Fold;
      ghost var kept, whole := absorbed[|absorbed| - bufpos..], Whole();
      assert absorbed == whole + kept;
      CopyIn(buf, bufpos, data);
      bufpos := bufpos + |data|;
      AddLength(length, |absorbed|, |data|);
      length := Add64(length, |data| * 8);
      absorbed := absorbed + data;
      assert absorbed == whole + (kept + data);
      assert Whole() == whole && absorbed[|absorbed| - bufpos..] == kept + data;
      assert buf[..] == kept + data + Zeros(64 - bufpos);
    }

    method Done() returns (out: seq<u8>)
      requires Valid()
      modifies this, buf
      ensures out == Digest(step, old(absorbed))
    {
      hide Chained, Fold, Pad, Digest, LeBytes;
      ghost var whole, rest := Whole(), absorbed[|absorbed| - bufpos..];
      assert absorbed == whole + rest;
      WholeIsBlocks(step, h, whole);
      PadAsWritten(whole, rest, length);
      buf[bufpos] := 0x80;
      bufpos := bufpos + 1;
      assert buf[..] == rest + [0x80] + Zeros(63 - |rest|);
      if bufpos > 56 {
        bufpos := 64;
        Compress(whole);
        whole := whole + (rest + [0x80] + Zeros(63 - |rest|));
      }
      assert buf[..56] == if |rest| <= 55 then rest + [0x80] + Zeros(55 - |rest|) else Zeros(56);
      out := LastBlock(absorbed, whole);
    }

    /** Writes the bit length into the last block and compresses it. */
    method LastBlock(ghost m: seq<u8>, ghost whole: seq<u8>) returns (out: seq<u8>)
      requires buf.Length == 64 && Chained(step, h, whole)
      requires Pad(m) == whole + (buf[..56] + (LeBytes(length % 0x1_0000_0000, 4) + LeBytes(length / 0x1_0000_0000, 4)))
      modifies this, buf
      ensures out == Digest(step, m)
    {
      hide Chained, Fold, Pad, Digest, LeBytes;
      ghost var front := buf[..56];
      CopyIn(buf, 56, LeBytes(length % 0x1_0000_0000, 4));
      CopyIn(buf, 60, LeBytes(length / 0x1_0000_0000, 4));
      assert buf[..] == front + (LeBytes(length % 0x1_0000_0000, 4) + LeBytes(length / 0x1_0000_0000, 4));
      bufpos := 64;
      Compress(whole);
      out := StoreAll(h);
      DigestOfChain(step, h, m);
    }
  }

  lemma OneBlock(f: Step, h: Chain, m: seq<u8>, block: seq<u8>)
    requires |block| == 64 && Chained(f, h, m)
    ensures Chained(f, f(h, block), m + block)
  {
    FoldConcat(f, 64, INITIAL, m, block);
    FoldOne(f, 64, h, block);
  }

  lemma WholeIsBlocks(f: Step, h: Chain, m: seq<u8>)
    requires Chained(f, h, m)
    ensures |m| % 64 == 0
  {
  }

  lemma AddLength(length: u64, bytes: nat, more: nat)
    requires length == 8 * bytes % 0x1_0000_0000_0000_0000 && more <= 64
    ensures Add64(length, more * 8) == 8 * (bytes + more) % 0x1_0000_0000_0000_0000
  {
  }

  /** The padding as done writes it is the padding of the whole message. */
  lemma PadAsWritten(whole: seq<u8>, rest: seq<u8>, length: u64)
    requires |whole| % 64 == 0 && |rest| < 64 && length == 8 * |whole + rest| % 0x1_0000_0000_0000_0000
    ensures var tail := LeBytes(length % 0x1_0000_0000, 4) + LeBytes(length / 0x1_0000_0000, 4);
      Pad(whole + rest) == if |rest| <= 55
        then whole + (rest + [0x80] + Zeros(55 - |rest|) + tail)
        else whole + (rest + [0x80] + Zeros(63 - |rest|)) + (Zeros(56) + tail)
  {
    LengthWords(length);
    hide LeBytes;
    var tail := LeBytes(length, 8);
    PaddedRest(whole, rest, 64, tail);
    FillerHere(|rest|);
    if |rest| > 55 {
      assert Zeros(119 - |rest|) == Zeros(63 - |rest|) + Zeros(56);
      assert rest + [0x80] + (Zeros(63 - |rest|) + Zeros(56)) + tail
        == (rest + [0x80] + Zeros(63 - |rest|)) + (Zeros(56) + tail);
    }
  }

  lemma FillerHere(k: nat)
    requires k < 64
    ensures Filler(k, 64, 8) == if k <= 55 then 55 - k else 119 - k
  {
  }

  lemma LengthWords(x: u64)
    ensures LeBytes(x, 8) == LeBytes(x % 0x1_0000_0000, 4) + LeBytes(x / 0x1_0000_0000, 4)
  {
    var lo, hi := x % 0x1_0000_0000, x / 0x1_0000_0000;
    var s := LeBytes(lo, 4) + LeBytes(hi, 4);
    assert Pow256(4) == 0x1_0000_0000;
    hide LeBytes, LeValue, Pow256;
    LeValueOfLeBytes(lo, 4);
    LeValueOfLeBytes(hi, 4);
    LeValueConcat(LeBytes(lo, 4), LeBytes(hi, 4));
    LeBytesOfLeValue(s);
  }

  lemma DigestOfChain(f: Step, h: Chain, m: seq<u8>)
    requires Chained(f, h, Pad(m))
    ensures StoreAll(h) == Digest(f, m)
  {
  }

  method Hash(f: Step, input: seq<u8>) returns (out: seq<u8>)
    ensures out == Digest(f, input)
  {
    var md := new State(f);
    md.Process(input);
    out := md.Done();
    assert [] + input == input;
  }
}
