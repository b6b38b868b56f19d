/** The streaming SHA-512 of the reference hash; the compression of one block is a parameter. */
module Sha512 {
  import opened Words
  import opened Bytes
  import opened BlockFold

  /** The eight chaining words. */
  type Chain = s: seq<u64> | |s| == 8 witness [0, 0, 0, 0, 0, 0, 0, 0]

  type Step = (Chain, seq<u8>) -> Chain

  const INITIAL: Chain := [0x6a09e667f3bcc908, 0xbb67ae8584caa73b, 0x3c6ef372fe94f82b, 0xa54ff53a5f1d36f1,
                           0x510e527fade682d1, 0x9b05688c2b3e6c1f, 0x1f83d9abfb41bd6b, 0x5be0cd19137e2179]

  // ----- the digest of a message (sections 5.1.2 and 6.4 of FIPS 180-4) -----

  /** The message, a one bit, zeros, and the bit length in 128 bits, in blocks of 128 bytes. */
  function Pad(m: seq<u8>): seq<u8> {
    Padded(m, 128, BeBytes(8 * |m| % 0x1_0000_0000_0000_0000_0000_0000_0000_0000, 16))
  }

  function StoreAll(h: seq<u64>): (s: seq<u8>)
    ensures |s| == 8 * |h|
  {
    if h == [] then [] else BeBytes(h[0], 8) + StoreAll(h[1..])
  }

  function Digest(f: Step, m: seq<u8>): (d: seq<u8>)
    ensures |d| == 64
  {
    StoreAll(Fold(f, 128, INITIAL, Pad(m)))
  }

  /** The initial words are the first 64 bits of the fractional parts of the square roots of the
      first eight primes: i * 2^64 + word is the integer part of the root of q * 2^128
      (section 5.3.5 of FIPS 180-4). */
  lemma InitialWords()
    ensures IsRoot(0x1_0000_0000_0000_0000, INITIAL[0], 2) && IsRoot(0x1_0000_0000_0000_0000, INITIAL[1], 3)
    ensures IsRoot(0x2_0000_0000_0000_0000, INITIAL[2], 5) && IsRoot(0x2_0000_0000_0000_0000, INITIAL[3], 7)
    ensures IsRoot(0x3_0000_0000_0000_0000, INITIAL[4], 11) && IsRoot(0x3_0000_0000_0000_0000, INITIAL[5], 13)
    ensures IsRoot(0x4_0000_0000_0000_0000, INITIAL[6], 17) && IsRoot(0x4_0000_0000_0000_0000, INITIAL[7], 19)
  {
  }

  /** whole + word is the integer part of the square root of q * 2^128. */
  predicate IsRoot(whole: nat, word: u64, q: nat) {
    var x := whole + word;
    x * x <= q * 0x1_0000_0000_0000_0000_0000_0000_0000_0000 < (x + 1) * (x + 1)
  }

  /** The digest is the words of the last chaining value in order, each with its most significant
      byte first. */
  lemma {:induction false} DigestWords(f: Step, m: seq<u8>, k: nat, j: nat)
    requires k < 8 && j < 8
    ensures Digest(f, m)[8 * k + j] == Fold(f, 128, INITIAL, Pad(m))[k] / Pow256(7 - j) % 256
  {
    hide Pad, Fold, Pow256, BeBytes;
    var h := Fold(f, 128, INITIAL, Pad(m));
    StoredWordAt(h, k);
    BeByteAt(h[k], 8, 7 - j);
    assert Digest(f, m)[8 * k..8 * k + 8][j] == Digest(f, m)[8 * k + j];
  }

  lemma {:induction false} StoredWordAt(h: seq<u64>, k: nat)
    requires k < |h|
    ensures StoreAll(h)[8 * k..8 * k + 8] == BeBytes(h[k], 8)
  {
    hide BeBytes;
    if k > 0 {
      StoredWordAt(h[1..], k - 1);
      var t := StoreAll(h[1..]);
      assert StoreAll(h)[8 * k..8 * k + 8] == t[8 * (k - 1)..8 * (k - 1) + 8];
    }
  }

  /** The padded message consists of whole blocks: the message, 0x80, fewer than 128 zeros, and the
      bit length in the last 16 bytes, most significant first. */
  lemma PadLayout(m: seq<u8>)
    ensures var p := Pad(m);
      && |p| % 128 == 0 && |m| + 17 <= |p| < |m| + 17 + 128
      && p[..|m|] == m && p[|m|] == 0x80 && (forall i :: |m| < i < |p| - 16 ==> p[i] == 0)
      && forall j: nat :: j < 16 ==> p[|p| - 1 - j] == 8 * |m| / Pow256(j) % 256
  {
    hide BeBytes, Padded, Pow256;
    var tail := BeBytes(8 * |m|, 16);
    Pow256At16();
    BeBytesMod(8 * |m|, 16);
    PaddedLayout(m, 128, tail);
    var p := Pad(m);
    forall j: nat | j < 16
      ensures p[|p| - 1 - j] == 8 * |m| / Pow256(j) % 256
    {
      BeByteAt(8 * |m|, 16, j);
      assert p[|p| - 1 - j] == p[|p| - 16..][15 - j];
    }
  }

  /** Different messages of less than 2^125 bytes are padded differently, to whole blocks. */
  lemma PadIsInjective(m: seq<u8>, m': seq<u8>)
    requires |m| < 0x2000_0000_0000_0000_0000_0000_0000_0000 && |m'| < 0x2000_0000_0000_0000_0000_0000_0000_0000
    ensures |Pad(m)| % 128 == 0
    ensures Pad(m) == Pad(m') ==> m == m'
  {
    hide BeBytes, Padded;
    var t, t' := BeBytes(8 * |m|, 16), BeBytes(8 * |m'|, 16);
    PaddedLength(m, 128, t);
    if t == t' {
      Pow256At16();
      BeBytesInjective(8 * |m|, 8 * |m'|, 16);
    }
    if Pad(m) == Pad(m') {
      PaddedInjective(m, m', 128, t, t');
    }
  }

  // ----- the streaming state -----

  class Context {
    const step: Step
    var h: Chain
    var t0: u64
    var t1: u64
    var leftover: nat
    const buffer: array<u8>
    ghost var absorbed: seq<u8>

    /** The part of the message that has gone through the step. */
    ghost function Whole(): seq<u8>
      requires leftover <= |absorbed|
      reads this
    {
      absorbed[..|absorbed| - leftover]
    }

    ghost predicate Valid()
      reads this, buffer
    {
      && buffer.Length == 128 && leftover < 128 && leftover <= |absorbed|
      && |Whole()| % 128 == 0
      && Joined(absorbed, Whole(), buffer[..leftover])
      && Chained(step, h, t0, t1, Whole())
    }

    constructor (step: Step)
      ensures Valid() && absorbed == [] && fresh(buffer) && this.step == step
    {
      hide Chained, Joined;
      this.step := step;
      h := INITIAL;
      t0, t1, leftover := 0, 0, 0;
      buffer := new u8[128];
      absorbed := [];
      new;
      NothingChained(step);
      NothingJoined(Whole(), buffer[..leftover]);
    }

    /** Compresses n blocks of the input. */
    method Blocks(input: seq<u8>, n: nat, ghost before: seq<u8>)
      requires 128 * n == |input| && |before| % 128 == 0 && Chained(step, h, t0, t1, before)
      modifies `h, `t0, `t1
      ensures Chained(step, h, t0, t1, before + input)
    {
      hide Chained;
      var i := 0;
      assert before + input[..0] == before;
      while i < n
        invariant 0 <= i <= n && Chained(step, h, t0, t1, before + input[..128 * i])
      {
        var block := input[128 * i..128 * i + 128];
        OneBlock(step, h, t0, t1, before + input[..128 * i], block);
        assert before + input[..128 * i] + block == before + input[..128 * (i + 1)];
        h := step(h, block);
        t0 := Add64(t0, 128 * 8);
        t1 := Add64(t1, if t0 == 0 then 1 else 0);
        i := i + 1;
      }
      assert input[..128 * n] == input;
    }

    method Update(input: seq<u8>)
      requires Valid()
      modifies this, buffer
      ensures Valid() && absorbed == old(absorbed) + input
    {
      hide Chained, Fold;
      var data := input;
      ghost var whole, kept := Whole(), buffer[..leftover];
      assert absorbed == whole + kept;
      // the previous data
      if leftover != 0 {
        var want := 128 - leftover;
        want := if want < |data| then want else |data|;
        CopyIn(buffer, leftover, data[..want]);
        leftover := leftover + want;
        if leftover < 128 {
          absorbed := absorbed + input;
          assert buffer[..leftover] == kept + input && absorbed == whole + (kept + input);
          return;
        }
        data := data[want..];
        assert buffer[..] == kept + input[..want];
        Blocks(buffer[..], 1, whole);
        whole := whole + (kept + input[..want]);
        assert old(absorbed) + input == whole + data;
        WholeBlocks(|old(Whole())|, 128);
      }
      UpdateRest(data, whole);
    }

    /** Compresses the whole blocks of the data and keeps what is left over. */
    method UpdateRest(data: seq<u8>, ghost whole: seq<u8>)
      requires buffer.Length == 128 && |whole| % 128 == 0 && Chained(step, h, t0, t1, whole)
      modifies this, buffer
      ensures Valid() && absorbed == whole + data
    {
      hide Chained, Fold;
      var blocks := |data| - |data| % 128;
      leftover := |data| - blocks;
      var rest := data;
      assert whole + data[..0] == whole;
      if blocks != 0 {
        Blocks(data[..blocks], blocks / 128, whole);
        rest := data[blocks..];
      }
      if leftover != 0 {
        CopyIn(buffer, 0, rest[..leftover]);
      }
      absorbed := whole + data;
      WholeBlocks(|whole|, blocks);
      assert absorbed == whole + data[..blocks] + data[blocks..];
      assert Whole() == whole + data[..blocks];
      assert buffer[..leftover] == data[blocks..];
    }

    method Final() returns (hash: seq<u8>)
      requires Valid()
      modifies this, buffer
      ensures hash == Digest(step, old(absorbed))
    {
      hide Chained, Fold, Digest, BeBytes, Pad;
      ghost var whole, rest := Whole(), buffer[..leftover];
      assert absorbed == whole + rest;
      var c0, c1 := Add64(t0, leftover * 8), t1;
      PadAsWritten(step, h, t0, t1, whole, rest);
      buffer[leftover] := 0x80;
      if leftover <= 111 {
        FillBelow112(rest);
      } else {
        whole := FillAndCompress(rest, whole);
      }
      hash := LastBlock(c0, c1, absorbed, whole);
    }

    /** Zeros up to the length field. */
    method FillBelow112(ghost rest: seq<u8>)
      requires buffer.Length == 128 && leftover <= 111 && buffer[..leftover] == rest && buffer[leftover] == 0x80
      modifies buffer
      ensures buffer[..112] == rest + [0x80] + Zeros(111 - leftover)
    {
      CopyIn(buffer, leftover + 1, Zeros(111 - leftover));
    }

    /** Zeros up to the end of the block, which is compressed, and zeros up to the length field
        of the next. */
    method FillAndCompress(ghost rest: seq<u8>, ghost whole: seq<u8>) returns (ghost more: seq<u8>)
      requires buffer.Length == 128 && leftover <= 127 && buffer[..leftover] == rest && buffer[leftover] == 0x80
      requires |whole| % 128 == 0 && Chained(step, h, t0, t1, whole)
      modifies this, buffer
      ensures more == whole + (rest + [0x80] + Zeros(127 - old(leftover))) && buffer[..112] == Zeros(112)
      ensures |more| % 128 == 0 && Chained(step, h, t0, t1, more) && absorbed == old(absorbed)
    {
      hide Chained, Fold;
      CopyIn(buffer, leftover + 1, Zeros(127 - leftover));
      assert buffer[..] == rest + [0x80] + Zeros(127 - leftover);
      more := whole + (rest + [0x80] + Zeros(127 - leftover));
      Blocks(buffer[..], 1, whole);
      WholeBlocks(|whole|, 128);
      CopyIn(buffer, 0, Zeros(112));
    }

    /** Writes the bit count into the last block and compresses it. */
    method LastBlock(c0: u64, c1: u64, ghost m: seq<u8>, ghost whole: seq<u8>) returns (hash: seq<u8>)
      requires buffer.Length == 128 && |whole| % 128 == 0 && Chained(step, h, t0, t1, whole)
      requires Pad(m) == whole + (buffer[..112] + (BeBytes(c1, 8) + BeBytes(c0, 8)))
      modifies this, buffer
      ensures hash == Digest(step, m)
    {
      hide Chained, Fold, Digest, BeBytes, Pad;
      ghost var front := buffer[..112];
      CopyIn(buffer, 112, BeBytes(c1, 8));
      CopyIn(buffer, 120, BeBytes(c0, 8));
      assert buffer[..] == front + (BeBytes(c1, 8) + BeBytes(c0, 8));
      Blocks(buffer[..], 1, whole);
      hash := StoreAll(h);
      DigestOfChain(step, h, t0, t1, m);
    }
  }

  /** h is the chaining value after the whole blocks of m, and t1 t0 counts their bits. */
  ghost predicate Chained(f: Step, h: Chain, t0: u64, t1: u64, m: seq<u8>) {
    h == Fold(f, 128, INITIAL, m)
    && t1 * 0x1_0000_0000_0000_0000 + t0 == 8 * |m| % 0x1_0000_0000_0000_0000_0000_0000_0000_0000
  }

  /** m is what has gone through the step followed by what is left in the buffer. */
  ghost predicate Joined(m: seq<u8>, whole: seq<u8>, rest: seq<u8>) {
    m == whole + rest
  }

  lemma NothingJoined(whole: seq<u8>, rest: seq<u8>)
    requires whole == [] && rest == []
    ensures Joined([], whole, rest)
  {
  }

  lemma NothingChained(f: Step)
    ensures Chained(f, INITIAL, 0, 0, [])
  {
  }

  lemma OneBlock(f: Step, h: Chain, t0: u64, t1: u64, m: seq<u8>, block: seq<u8>)
    requires |m| % 128 == 0 && |block| == 128 && Chained(f, h, t0, t1, m)
    ensures var next := Add64(t0, 1024);
      Chained(f, f(h, block), next, Add64(t1, if next == 0 then 1 else 0), m + block)
  {
    hide Fold, Add64;
    FoldConcat(f, 128, INITIAL, m, block);
    FoldOne(f, 128, h, block);
    CountBlock(t0, t1, |m|, |m + block|);
  }

  lemma CountBlock(t0: u64, t1: u64, bytes: nat, more: nat)
    requires bytes % 128 == 0 && more == bytes + 128
    requires t1 * 0x1_0000_0000_0000_0000 + t0 == 8 * bytes % 0x1_0000_0000_0000_0000_0000_0000_0000_0000
    ensures var next := Add64(t0, 1024);
      Add64(t1, if next == 0 then 1 else 0) * 0x1_0000_0000_0000_0000 + next
        == 8 * more % 0x1_0000_0000_0000_0000_0000_0000_0000_0000
  {
    hide Add64;
    Counter(t0, t1, 8 * bytes);
  }

  /** The counter is a multiple of 1024, so its low word passes through zero when it wraps. */
  lemma Counter(t0: u64, t1: u64, bits: nat)
    requires bits % 1024 == 0
    requires t1 * 0x1_0000_0000_0000_0000 + t0 == bits % 0x1_0000_0000_0000_0000_0000_0000_0000_0000
    ensures var next := Add64(t0, 1024);
      Add64(t1, if next == 0 then 1 else 0) * 0x1_0000_0000_0000_0000 + next
        == (bits + 1024) % 0x1_0000_0000_0000_0000_0000_0000_0000_0000
    ensures t0 % 1024 == 0
  {
    var x := bits % 0x1_0000_0000_0000_0000_0000_0000_0000_0000;
    NextMod(bits);
    Multiples1024(bits, x, t0, t1);
    if t0 == 0x1_0000_0000_0000_0000 - 1024 {
      assert Add64(t0, 1024) == 0;
    } else {
      assert Add64(t0, 1024) == t0 + 1024;
    }
  }

  lemma Multiples1024(bits: nat, x: nat, t0: u64, t1: u64)
    requires bits % 1024 == 0 && x == bits % 0x1_0000_0000_0000_0000_0000_0000_0000_0000
    requires t1 * 0x1_0000_0000_0000_0000 + t0 == x
    ensures x % 1024 == 0 && t0 % 1024 == 0
  {
    var h := bits / 0x1_0000_0000_0000_0000_0000_0000_0000_0000;
    DivModUnique(x, 1024, bits / 1024 - 0x40_0000_0000_0000_0000_0000_0000_0000 * h, 0);
    DivModUnique(t0, 1024, x / 1024 - 0x40_0000_0000_0000 * t1, 0);
  }

  lemma NextMod(bits: nat)
    ensures var m := 0x1_0000_0000_0000_0000_0000_0000_0000_0000;
      (bits + 1024) % m == if bits % m + 1024 < m then bits % m + 1024 else bits % m + 1024 - m
  {
  }

  lemma WholeBlocks(a: nat, b: nat)
    requires a % 128 == 0 && b % 128 == 0
    ensures (a + b) % 128 == 0
  {
  }

  /** The two words that final writes are the length of the message: no carry is lost. */
  lemma CountBits(t0: u64, t1: u64, bytes: nat, rest: nat)
    requires bytes % 128 == 0 && rest < 128
    requires t1 * 0x1_0000_0000_0000_0000 + t0 == 8 * bytes % 0x1_0000_0000_0000_0000_0000_0000_0000_0000
    ensures BeBytes(t1, 8) + BeBytes(Add64(t0, rest * 8), 8)
         == BeBytes(8 * (bytes + rest) % 0x1_0000_0000_0000_0000_0000_0000_0000_0000, 16)
  {
    hide BeBytes, Pow256, Add64;
    Counter(t0, t1, 8 * bytes);
    NoCarry(t0, t1, 8 * bytes, 8 * rest);
    TwoWords(t1, t0 + 8 * rest);
  }

  lemma TwoWords(hi: u64, lo: u64)
    ensures BeBytes(hi * 0x1_0000_0000_0000_0000 + lo, 16) == BeBytes(hi, 8) + BeBytes(lo, 8)
  {
    hide BeBytes, Pow256;
    Pow256At8();
    BeBytesSplit(hi, lo, 8, 8);
  }

  lemma NoCarry(t0: u64, t1: u64, bits: nat, more: nat)
    requires t0 % 1024 == 0 && more < 1024
    requires t1 * 0x1_0000_0000_0000_0000 + t0 == bits % 0x1_0000_0000_0000_0000_0000_0000_0000_0000
    ensures Add64(t0, more) == t0 + more
    ensures t1 * 0x1_0000_0000_0000_0000 + (t0 + more) == (bits + more) % 0x1_0000_0000_0000_0000_0000_0000_0000_0000
  {
    assert t0 + more < 0x1_0000_0000_0000_0000;
    MoreMod(bits, more);
  }

  lemma MoreMod(bits: nat, more: nat)
    requires bits % 0x1_0000_0000_0000_0000_0000_0000_0000_0000 + more < 0x1_0000_0000_0000_0000_0000_0000_0000_0000
    ensures (bits + more) % 0x1_0000_0000_0000_0000_0000_0000_0000_0000
      == bits % 0x1_0000_0000_0000_0000_0000_0000_0000_0000 + more
  {
  }

  /** The padding as final writes it is the padding of the whole message. */
  lemma PadAsWritten(f: Step, h: Chain, t0: u64, t1: u64, whole: seq<u8>, rest: seq<u8>)
    requires |whole| % 128 == 0 && |rest| < 128 && Chained(f, h, t0, t1, whole)
    ensures var tail := BeBytes(t1, 8) + BeBytes(Add64(t0, |rest| * 8), 8);
      Pad(whole + rest) == if |rest| <= 111
        then whole + (rest + [0x80] + Zeros(111 - |rest|) + tail)
        else whole + (rest + [0x80] + Zeros(127 - |rest|)) + (Zeros(112) + tail)
  {
    hide BeBytes, Fold;
    CountBits(t0, t1, |whole|, |rest|);
    PaddedByHand(whole, rest, BeBytes(t1, 8) + BeBytes(Add64(t0, |rest| * 8), 8));
  }

  lemma PaddedByHand(whole: seq<u8>, rest: seq<u8>, tail: seq<u8>)
    requires |whole| % 128 == 0 && |rest| < 128 && |tail| == 16
    ensures Padded(whole + rest, 128, tail) ==
      if |rest| <= 111 then whole + (rest + [0x80] + Zeros(111 - |rest|) + tail)
      else whole + (rest + [0x80] + Zeros(127 - |rest|)) + (Zeros(112) + tail)
  {
    PaddedRest(whole, rest, 128, tail);
    FillerHere(|rest|);
    if |rest| > 111 {
      assert Zeros(239 - |rest|) == Zeros(127 - |rest|) + Zeros(112);
      assert rest + [0x80] + (Zeros(127 - |rest|) + Zeros(112)) + tail
        == (rest + [0x80] + Zeros(127 - |rest|)) + (Zeros(112) + tail);
    }
  }

  lemma FillerHere(k: nat)
    requires k < 128
    ensures Filler(k, 128, 16) == if k <= 111 then 111 - k else 239 - k
  {
  }

  lemma DigestOfChain(f: Step, h: Chain, t0: u64, t1: u64, m: seq<u8>)
    requires Chained(f, h, t0, t1, Pad(m))
    ensures StoreAll(h) == Digest(f, m)
  {
  }

  method Hash(f: Step, input: seq<u8>) returns (hash: seq<u8>)
    ensures hash == Digest(f, input)
  {
    var context := new Context(f);
    context.Update(input);
    hash := context.Final();
    assert [] + input == input;
  }

  function Flatten(parts: seq<seq<u8>>): seq<u8> {
    if parts == [] then [] else Flatten(parts[..|parts| - 1]) + parts[|parts| - 1]
  }

  /** The parts one after the other. */
  lemma {:induction false} FlattenConcat(parts: seq<seq<u8>>, more: seq<seq<u8>>)
    ensures Flatten(parts + more) == Flatten(parts) + Flatten(more)
    ensures |parts| == 1 ==> Flatten(parts) == parts[0]
  {
    if |parts| == 1 {
      assert parts[..0] == [];
    }
    if more == [] {
      assert parts + more == parts;
    } else {
      var n := |more| - 1;
      FlattenConcat(parts, more[..n]);
      assert (parts + more)[..|parts| + n] == parts + more[..n];
    }
  }

  /** Hashing in parts, as signing and verification do it, hashes their concatenation. */
  method HashParts(f: Step, parts: seq<seq<u8>>) returns (hash: seq<u8>)
    ensures hash == Digest(f, Flatten(parts))
  {
    var context := new Context(f);
    var i := 0;
    while i < |parts|
      invariant 0 <= i <= |parts| && context.Valid() && context.step == f
      invariant fresh(context) && fresh(context.buffer)
      invariant context.absorbed == Flatten(parts[..i])
    {
      context.Update(parts[i]);
      assert parts[..i + 1][..i] == parts[..i];
      i := i + 1;
    }
    assert parts[..i] == parts;
    hash := context.Final();
  }
}
