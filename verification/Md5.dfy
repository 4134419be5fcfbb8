/** The streaming MD5 digest over an uninterpreted block function. */
module Md5 {
  import opened Bytes
  import opened Words

  const WORD: int := 0x1_0000_0000
  const DWORD: int := 0x1_0000_0000_0000_0000

  /** The digest buffer: four 32-bit words. */
  type Word = w: int | 0 <= w < WORD
  datatype Digest = Digest(a: Word, b: Word, c: Word, d: Word)

  /** md5_process, the 64 rounds on one block of 64 bytes. */
  type Process = (Digest, bytes) -> Digest

  // ---------------------------------------------------------------- RFC 1321, in one piece

  /** The initial digest buffer. */
  const INITIAL: Digest := Digest(0x67452301, 0xefcdab89, 0x98badcfe, 0x10325476)

  /** The blocks of s, one after the other. */
  function Fold(f: Process, d: Digest, s: bytes): Digest
    requires |s| % 64 == 0
    decreases |s|
  {
    if s == [] then d else Fold(f, f(d, s[..64]), s[64..])
  }

  /** Sections 3.1 and 3.2: a one bit, zero bits up to 448 modulo 512, and the length in bits modulo 2^64. */
  function Padded(m: bytes): (s: bytes)
    ensures |s| % 64 == 0
    ensures |m| + 9 <= |s| <= |m| + 72
  {
    PaddedLength(|m|);
    m + ([0x80] + Zeros((55 - |m|) % 64)) + Little(|m| * 8 % DWORD, 8)
  }

  lemma PaddedLength(n: nat)
    ensures 0 <= (55 - n) % 64 < 64 && (n + 9 + (55 - n) % 64) % 64 == 0
  {
    var q, k := (55 - n) / 64, (55 - n) % 64;
    assert 55 - n == 64 * q + k;
    assert n + 9 + k == 64 * (1 - q);
    Multiple64(1 - q);
  }

  lemma Multiple64(x: int)
    ensures 64 * x % 64 == 0
  {
  }

  function DigestBytes(d: Digest): (s: bytes)
    ensures |s| == 16
  {
    Little(d.a, 4) + Little(d.b, 4) + Little(d.c, 4) + Little(d.d, 4)
  }

  function Hash(f: Process, m: bytes): bytes {
    DigestBytes(Fold(f, INITIAL, Padded(m)))
  }

  /** Section 3.3: the words of the initial buffer, low-order bytes first. */
  lemma InitialBytes()
    ensures DigestBytes(INITIAL) == [0x01, 0x23, 0x45, 0x67, 0x89, 0xab, 0xcd, 0xef,
                                     0xfe, 0xdc, 0xba, 0x98, 0x76, 0x54, 0x32, 0x10]
  {
    FourBytes(0x67452301, 0x01, 0x23, 0x45, 0x67);
    FourBytes(0xefcdab89, 0x89, 0xab, 0xcd, 0xef);
    FourBytes(0x98badcfe, 0xfe, 0xdc, 0xba, 0x98);
    FourBytes(0x10325476, 0x76, 0x54, 0x32, 0x10);
    hide Little;
    Sixteen([0x01, 0x23, 0x45, 0x67], [0x89, 0xab, 0xcd, 0xef], [0xfe, 0xdc, 0xba, 0x98], [0x76, 0x54, 0x32, 0x10]);
  }

  lemma Sixteen(a: bytes, b: bytes, c: bytes, d: bytes)
    requires |a| == 4 && |b| == 4 && |c| == 4 && |d| == 4
    ensures a + b + c + d == [a[0], a[1], a[2], a[3], b[0], b[1], b[2], b[3],
                              c[0], c[1], c[2], c[3], d[0], d[1], d[2], d[3]]
  {
  }

  lemma FourBytes(n: nat, a: byte, b: byte, c: byte, d: byte)
    requires n == a + 256 * (b + 256 * (c + 256 * (d as nat)))
    ensures Little(n, 4) == [a, b, c, d]
  {
    LittleStep(n, 3);
    LittleStep(n / 256, 2);
    LittleStep(n / 256 / 256, 1);
    LittleStep(n / 256 / 256 / 256, 0);
    hide Little;
    assert n / 256 == b + 256 * (c + 256 * (d as nat)) && n / 256 / 256 == c + 256 * (d as nat);
    assert Little(d as nat / 256, 0) == [];
  }

  /** The number that eight bytes hold, the low-order first. */
  function Eight(s: bytes): nat
    requires |s| == 8
  {
    var n: seq<nat> := s;
    n[0] + 0x100 * n[1] + 0x1_0000 * n[2] + 0x100_0000 * n[3] + 0x1_0000_0000 * n[4] + 0x100_0000_0000 * n[5]
    + 0x1_0000_0000_0000 * n[6] + 0x100_0000_0000_0000 * n[7]
  }

  /** Sections 3.1 and 3.2 byte by byte: the message, a byte 128, zeros, and the length in bits in the last eight
      bytes; no whole block more than that needs. */
  lemma PaddedIs(m: bytes)
    ensures var s := Padded(m);
            && |s| % 64 == 0 && |m| + 9 <= |s| < |m| + 9 + 64
            && s[..|m|] == m && s[|m|] == 128
            && (forall i | |m| < i < |s| - 8 :: s[i] == 0)
            && Eight(s[|s| - 8..]) == 8 * |m| % 0x1_0000_0000_0000_0000
  {
    var s, n, k := Padded(m), 8 * |m| % DWORD, (55 - |m|) % 64;
    PaddedLength(|m|);
    assert s == m + ([0x80] + Zeros(k)) + Little(n, 8);
    hide Padded, Little;
    PartsOf(m, k, Little(n, 8));
    EightIs(n);
  }

  lemma PartsOf(m: bytes, k: nat, tail: bytes)
    requires |tail| == 8
    ensures var s := m + ([0x80] + Zeros(k)) + tail;
            && |s| == |m| + 9 + k && s[..|m|] == m && s[|m|] == 128
            && (forall i | |m| < i < |s| - 8 :: s[i] == 0)
            && s[|s| - 8..] == tail
  {
  }

  lemma EightIs(n: nat)
    requires n < DWORD
    ensures Eight(Little(n, 8)) == n
  {
    var q1 := n / 256;
    var q2 := q1 / 256;
    var q3 := q2 / 256;
    var q4 := q3 / 256;
    var q5 := q4 / 256;
    var q6 := q5 / 256;
    var q7 := q6 / 256;
    LittleStep(n, 7);
    LittleStep(q1, 6);
    LittleStep(q2, 5);
    LittleStep(q3, 4);
    LittleStep(q4, 3);
    LittleStep(q5, 2);
    LittleStep(q6, 1);
    LittleStep(q7, 0);
    assert Little(q7 / 256, 0) == [];
    hide Little;
    assert q7 < 256;
    assert Little(n, 8) == [n % 256, q1 % 256, q2 % 256, q3 % 256, q4 % 256, q5 % 256, q6 % 256, q7 % 256];
  }

  lemma {:induction false} FoldConcat(f: Process, d: Digest, s: bytes, t: bytes)
    requires |s| % 64 == 0 && |t| % 64 == 0
    ensures |s + t| % 64 == 0
    ensures Fold(f, d, s + t) == Fold(f, Fold(f, d, s), t)
    decreases |s|
  {
    if s == [] {
      assert s + t == t;
    } else {
      assert (s + t)[..64] == s[..64] && (s + t)[64..] == s[64..] + t;
      FoldConcat(f, f(d, s[..64]), s[64..], t);
    }
  }

  lemma FoldOne(f: Process, d: Digest, s: bytes, block: bytes)
    requires |s| % 64 == 0 && |block| == 64
    ensures |s + block| % 64 == 0
    ensures Fold(f, d, s + block) == f(Fold(f, d, s), block)
  {
    FoldConcat(f, d, s, block);
    assert block[..64] == block && block[64..] == [];
  }

  /** The part of the bytes seen that fills whole blocks. */
  function Whole(s: bytes): (w: bytes)
    ensures |w| % 64 == 0 && |w| + |s| % 64 == |s|
  {
    s[..|s| - |s| % 64]
  }

  /** Two words as the 64-bit count. */
  lemma LittleSplits(lo: nat, hi: nat)
    requires lo < WORD && hi < WORD
    ensures Little(hi * WORD + lo, 8) == Little(lo, 4) + Little(hi, 4)
  {
    LittleConcat(lo, hi, 4, 0x1_0000_0000);
  }

  lemma Divide256(m: nat, lo: nat)
    ensures (256 * m + lo) / 256 == m + lo / 256 && (256 * m + lo) % 256 == lo % 256
  {
  }

  lemma {:induction false} LittleConcat(lo: nat, hi: nat, k: nat, size: nat)
    requires lo < size == Pow(k)
    ensures Little(hi * size + lo, k + 4) == Little(lo, k) + Little(hi, 4)
  {
    if k > 0 {
      var size' := Pow(k - 1);
      var m := hi * size';
      Scaled(hi, size');
      hide Pow;
      Divide256(m, lo);
      LittleConcat(lo / 256, hi, k - 1, size');
      LittleStep(256 * m + lo, k + 3);
      LittleStep(lo, k - 1);
      hide Little;
    }
  }

  lemma Scaled(hi: nat, size: nat)
    ensures hi * (256 * size) == 256 * (hi * size)
  {
  }

  lemma LittleStep(n: nat, k: nat)
    ensures Little(n, k + 1) == [n % 256] + Little(n / 256, k)
  {
  }

  // ---------------------------------------------------------------- the two count words

  /** The two words hold the bit length of n bytes modulo 2^64. */
  predicate Counts(count0: int, count1: int, n: nat) {
    0 <= count0 < WORD && 0 <= count1 < WORD && count1 * WORD + count0 == 8 * n % DWORD
  }

  /** Adding a length with the carry kept in 32-bit words. */
  function Added(count0: int, count1: int, n: nat): (int, int) {
    var nbits := 8 * n % WORD;
    var c1 := (count1 + n / 0x2000_0000) % WORD;
    var c0 := (count0 + nbits) % WORD;
    (c0, if c0 < nbits then (c1 + 1) % WORD else c1)
  }

  lemma CountsAdd(count0: int, count1: int, n: nat, more: nat)
    requires Counts(count0, count1, n)
    ensures Counts(Added(count0, count1, more).0, Added(count0, count1, more).1, n + more)
  {
    var nbits, high := 8 * more % WORD, more / 0x2000_0000;
    LengthSplits(more);
    var carry := if count0 + nbits >= WORD then 1 else 0;
    var c0 := count0 + nbits - carry * WORD;
    var c1 := (count1 + high + carry) % WORD;
    LowCarries(count0, nbits);
    WrapTwice(count1 + high, carry);
    WordsSum(count0, count1, n, more, high, nbits, carry);
    var before, sum := 8 * n / DWORD, (count1 + high + carry) / WORD;
    Remainder(8 * (n + more), before + sum, c1 * WORD + c0);
  }

  lemma LengthSplits(more: nat)
    ensures 8 * more == more / 0x2000_0000 * WORD + 8 * more % WORD
  {
  }

  /** The low words wrap exactly when there is a carry, and then show it. */
  lemma LowCarries(count0: nat, nbits: nat)
    requires count0 < WORD && nbits < WORD
    ensures (count0 + nbits) % WORD == if count0 + nbits >= WORD then count0 + nbits - WORD else count0 + nbits
    ensures (count0 + nbits) % WORD < nbits <==> count0 + nbits >= WORD
  {
  }

  lemma WordsSum(count0: nat, count1: nat, n: nat, more: nat, high: nat, nbits: nat, carry: nat)
    requires count1 * WORD + count0 == 8 * n % DWORD && 8 * more == high * WORD + nbits
    requires carry * WORD <= count0 + nbits
    ensures var h := count1 + high + carry;
            8 * (n + more) == (8 * n / DWORD + h / WORD) * DWORD + (h % WORD * WORD + (count0 + nbits - carry * WORD))
  {
    var h, before := count1 + high + carry, 8 * n / DWORD;
    assert 8 * n == before * DWORD + count1 * WORD + count0;
    assert h == h / WORD * WORD + h % WORD;
  }

  lemma WrapTwice(a: nat, b: nat)
    ensures (a % WORD + b) % WORD == (a + b) % WORD
  {
  }

  lemma Remainder(n: nat, q: nat, r: nat)
    requires n == q * DWORD + r && r < DWORD
    ensures n % DWORD == r
  {
  }

  lemma Modulo64(n: nat, q: nat, r: nat)
    requires n == 64 * q + r
    ensures r % 64 == n % 64 && (55 - r) % 64 == (55 - n) % 64
  {
  }

  /** Where the next byte goes in the buffer. */
  lemma OffsetIs(count0: int, count1: int, n: nat)
    requires Counts(count0, count1, n)
    ensures count0 / 8 % 64 == n % 64
    ensures (55 - count0 / 8) % 64 == (55 - n) % 64
  {
    var q := 8 * n / DWORD;
    assert 8 * n == q * DWORD + count1 * WORD + count0;
    Modulo64(n, q * 0x80_0000_0000_0000 + count1 * 0x80_0000, count0 / 8);
  }

  /** What Finish appends pads the message. */
  lemma PadsTo(m: bytes, count0: int, count1: int, pad: bytes, data: bytes)
    requires Counts(count0, count1, |m|)
    requires pad == [0x80] + Zeros((55 - count0 / 8) % 64) && data == Little(count0, 4) + Little(count1, 4)
    ensures m + pad + data == Padded(m) && |Padded(m)| % 64 == 0
  {
    hide Little, Zeros;
    OffsetIs(count0, count1, |m|);
    LittleSplits(count0, count1);
    assert |m| * 8 % DWORD == count1 * WORD + count0;
  }

  lemma BlockNext(all: bytes, data: bytes, p: nat)
    requires |data| <= |all| && all[|all| - |data|..] == data && p + 64 <= |data|
    ensures var base := |all| - |data|; all[..base + p] + data[p..p + 64] == all[..base + p + 64]
  {
    var base := |all| - |data|;
    assert data[p..p + 64] == all[base..][p..p + 64] == all[base + p..base + p + 64];
  }

  // ---------------------------------------------------------------- the state

  class Md5State {
    const process: Process
    var count0: int
    var count1: int
    var abcd: Digest
    const buf: array<byte>
    ghost var seen: bytes

    /** The words count the bytes seen, the digest holds the whole blocks, and buf the bytes after them. */
    ghost predicate Valid()
      reads this, buf
    {
      && buf.Length == 64
      && Counts(count0, count1, |seen|)
      && abcd == Fold(process, INITIAL, Whole(seen))
      && buf[..|seen| % 64] == seen[|Whole(seen)|..]
    }

    /** md5_init. */
    constructor (process: Process)
      ensures Valid() && fresh(buf) && seen == [] && this.process == process
    {
      this.process := process;
      count0, count1 := 0, 0;
      abcd := Digest(0x67452301, WORD - 1 - 0x10325476, WORD - 1 - 0x67452301, 0x10325476);
      buf := new byte[64](_ => 0);
      seen := [];
    }

    /** memcpy into the buffer. */
    method Copy(offset: nat, p: bytes)
      requires offset + |p| <= buf.Length
      modifies buf
      ensures buf[offset..offset + |p|] == p
      ensures buf[..offset] == old(buf[..offset])
    {
      var i := 0;
      while i < |p|
        invariant 0 <= i <= |p|
        invariant forall k | 0 <= k < i :: buf[offset + k] == p[k]
        invariant forall k | 0 <= k < offset :: buf[k] == old(buf[k])
      {
        buf[offset + i] := p[i];
        i := i + 1;
      }
    }

    /** The length of nbytes more bytes. */
    method Count(n: nat)
      requires Counts(count0, count1, |seen|)
      modifies `count0, `count1
      ensures Counts(count0, count1, |seen| + n)
    {
      CountsAdd(count0, count1, |seen|, n);
      var nbits := 8 * n % WORD;
      count1 := (count1 + n / 0x2000_0000) % WORD;
      count0 := (count0 + nbits) % WORD;
      if count0 < nbits {
        count1 := (count1 + 1) % WORD;
      }
    }

    method Process(block: bytes)
      requires |block| == 64
      modifies `abcd
      ensures abcd == process(old(abcd), block)
    {
      abcd := process(abcd, block);
    }

    /** Fill the partial block in the buffer, and digest it if it is full; p bytes of data are used. */
    method AppendFirst(data: bytes, offset: nat) returns (p: nat, full: bool)
      requires buf.Length == 64 && 0 < offset == |seen| % 64
      requires abcd == Fold(process, INITIAL, Whole(seen)) && buf[..offset] == seen[|Whole(seen)|..]
      modifies `abcd, buf
      ensures full ==>
                && p <= |data| && (|seen| + p) % 64 == 0
                && abcd == Fold(process, INITIAL, (seen + data)[..|seen| + p])
      ensures !full ==>
                && abcd == Fold(process, INITIAL, Whole(seen + data))
                && buf[..|seen + data| % 64] == (seen + data)[|Whole(seen + data)|..]
    {
      var copy := if offset + |data| > 64 then 64 - offset else |data|;
      Copy(offset, data[..copy]);
      assert buf[..offset + copy] == buf[..offset] + buf[offset..offset + copy];
      BufferFilled(seen, data, copy, buf[..offset + copy]);
      full := offset + copy >= 64;
      p := copy;
      if full {
        assert buf[..] == buf[..offset + copy];
        FoldOne(process, INITIAL, Whole(seen), buf[..]);
        Process(buf[..]);
      }
    }

    /** md5_append. */
    method Append(data: bytes)
      requires Valid()
      modifies this, buf
      ensures Valid() && seen == old(seen) + data
    {
      hide Fold, Whole;
      OffsetIs(count0, count1, |seen|);
      var offset := count0 / 8 % 64;
      ghost var all := seen + data;
      if |data| == 0 {
        assert all == seen;
        return;
      }
      Count(|data|);
      var p := 0;
      if offset != 0 {
        var full;
        p, full := AppendFirst(data, offset);
        if !full {
          seen := all;
          return;
        }
      } else {
        WholeIsAll(seen, data);
      }
      p := AppendBlocks(data, p, all);
      Copy(0, data[p..]);
      RestIs(all, data, p);
      seen := all;
    }

    /** The loop over whole blocks: the bytes digested so far are all but data[p..]. */
    method AppendBlocks(data: bytes, from: nat, ghost all: bytes) returns (p: nat)
      requires from <= |data| <= |all| && all[|all| - |data|..] == data
      requires (|all| - |data| + from) % 64 == 0
      requires abcd == Fold(process, INITIAL, all[..|all| - |data| + from])
      modifies `abcd
      ensures from <= p <= |data| < p + 64
      ensures (|all| - |data| + p) % 64 == 0 && abcd == Fold(process, INITIAL, all[..|all| - |data| + p])
    {
      hide Fold;
      p := from;
      ghost var base := |all| - |data|;
      while |data| - p >= 64
        invariant from <= p <= |data| && (base + p) % 64 == 0
        invariant abcd == Fold(process, INITIAL, all[..base + p])
      {
        FoldOne(process, INITIAL, all[..base + p], data[p..p + 64]);
        BlockNext(all, data, p);
        Process(data[p..p + 64]);
        p := p + 64;
      }
    }

    /** md5_finish: the length first, then the padding, then the length. */
    method Finish() returns (digest: bytes)
      requires Valid()
      modifies this, buf
      ensures digest == Hash(process, old(seen))
    {
      hide Fold, Little, Zeros, Whole, DigestBytes;
      var data := Little(count0, 4) + Little(count1, 4);
      var pad := [0x80] + Zeros((55 - count0 / 8) % 64);
      Append(pad);
      Append(data);
      PadsTo(old(seen), old(count0), old(count1), pad, data);
      WholeIsAll(seen, []);
      digest := DigestBytes(abcd);
    }
  }

  /** After the first copy: the buffer is the tail of what has been seen. */
  lemma BufferFilled(seen: bytes, data: bytes, copy: nat, b: bytes)
    requires copy <= |data| && |seen| % 64 + copy <= 64
    requires b == seen[|Whole(seen)|..] + data[..copy]
    ensures |seen| % 64 + copy < 64 && copy == |data| ==>
              Whole(seen + data) == Whole(seen) && b == (seen + data)[|Whole(seen)|..]
    ensures |seen| % 64 + copy == 64 ==> (|seen| + copy) % 64 == 0 && Whole(seen) + b == (seen + data)[..|seen| + copy]
  {
    var w := |Whole(seen)|;
    assert seen == Whole(seen) + seen[w..];
  }

  lemma WholeIsAll(seen: bytes, data: bytes)
    requires |seen| % 64 == 0
    ensures Whole(seen) == seen == (seen + data)[..|seen|]
  {
  }

  lemma RestIs(all: bytes, data: bytes, p: nat)
    requires p <= |data| < p + 64 && |data| <= |all| && all[|all| - |data|..] == data && (|all| - |data| + p) % 64 == 0
    ensures Whole(all) == all[..|all| - |data| + p] && data[p..] == all[|Whole(all)|..]
  {
  }

  /** md5_hash_string, on a message in any number of pieces: only their concatenation matters. */
  method HashPieces(process: Process, pieces: seq<bytes>) returns (digest: bytes)
    ensures digest == Hash(process, Joined(pieces))
  {
    var state := new Md5State(process);
    var i := 0;
    while i < |pieces|
      invariant 0 <= i <= |pieces| && state.Valid() && state.process == process && fresh(state) && fresh(state.buf)
      invariant state.seen == Joined(pieces[..i])
    {
      state.Append(pieces[i]);
      assert pieces[..i + 1][..i] == pieces[..i];
      i := i + 1;
    }
    assert pieces[..i] == pieces;
    digest := state.Finish();
  }

  function Joined(pieces: seq<bytes>): bytes {
    if pieces == [] then [] else Joined(pieces[..|pieces| - 1]) + pieces[|pieces| - 1]
  }
}
