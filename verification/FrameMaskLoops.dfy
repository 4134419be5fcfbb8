/** The masking loops over buffers. Input and output may be the same buffer. */
module FrameMaskLoops {
  import opened Bytes
  import opened FrameMask
  import opened Words

  /** Bytes at to upto of the output are those of the input xored with the key, repeated from base on. */
  twostate predicate Wrote(input: array<byte>, output: array<byte>, at: nat, upto: nat, key: Key, base: int)
    requires base <= at <= upto <= input.Length && upto <= output.Length
    reads output
  {
    forall k | at <= k < upto :: output[k] == XorByte(old(input[k]), KeyAt(key, k - base))
  }

  /** No other byte has changed. */
  twostate predicate Only(output: array<byte>, at: nat, upto: nat)
    reads output
  {
    forall k | 0 <= k < output.Length && !(at <= k < upto) :: output[k] == old(output[k])
  }

  /** So a finished loop has masked its piece of the buffer. */
  lemma AllMasked(before: bytes, after: bytes, key: Key)
    requires |before| == |after|
    requires forall k | 0 <= k < |after| :: after[k] == XorByte(before[k], KeyAt(key, k))
    ensures after == Masked(before, key, 0)
  {
    hide XorByte, KeyAt;
  }

  /** byte_mask: the key index runs from 0 to 3 and round again. */
  method ByteMask(input: array<byte>, output: array<byte>, at: nat, upto: nat, key: Key, keyOffset: nat)
    requires at <= upto <= input.Length && upto <= output.Length
    modifies output
    ensures Wrote(input, output, at, upto, key, at - keyOffset) && Only(output, at, upto)
  {
    hide XorByte, KeyAt;
    var keyIndex := keyOffset % 4;
    var i := at;
    KeyIndex(key, keyOffset);
    while i < upto
      invariant at <= i <= upto && keyIndex == (keyOffset + (i - at)) % 4
      invariant key[keyIndex] == KeyAt(key, keyOffset + (i - at))
      invariant Wrote(input, output, at, i, key, at - keyOffset) && Only(output, at, i)
    {
      output[i] := XorByte(input[i], key[keyIndex]);
      keyIndex := keyIndex + 1;
      keyIndex := keyIndex % 4;
      ModNext(keyOffset + (i - at));
      i := i + 1;
      KeyIndex(key, keyOffset + (i - at));
    }
  }

  lemma KeyIndex(key: Key, i: nat)
    ensures KeyAt(key, i) == key[i % 4]
  {
  }

  lemma ModNext(i: nat)
    ensures (i % 4 + 1) % 4 == (i + 1) % 4
  {
  }

  /** One machine word: load, xor, store. */
  method MaskWord(a: Arch, input: array<byte>, output: array<byte>, at: nat, w: nat)
    requires at + Size(a) <= input.Length && at + Size(a) <= output.Length && w < Pow(Size(a))
    modifies output
    ensures forall k | at <= k < at + Size(a) :: output[k] == XorByte(old(input[k]), Stored(a, w)[k - at])
    ensures Only(output, at, at + Size(a))
  {
    hide Stored, Xor, Loaded, XorByte, Pow;
    XorStored(a, input[at..at + Size(a)], w);
    var word := Stored(a, Xor(Loaded(a, input[at..at + Size(a)]), w));
    var i := 0;
    while i < Size(a)
      invariant 0 <= i <= Size(a)
      invariant forall k | at <= k < at + i :: output[k] == word[k - at]
      invariant Only(output, at, at + i)
    {
      output[at + i] := word[i];
      i := i + 1;
    }
  }

  /** The words of a buffer, as many as fit before upto. */
  method MaskWords(a: Arch, input: array<byte>, output: array<byte>, at: nat, upto: nat, w: nat) returns (i: nat)
    requires at <= upto <= input.Length && upto <= output.Length && Prepared(a, w)
    modifies output
    ensures at <= i <= upto < i + Size(a) && (i - at) % Size(a) == 0
    ensures Wrote(input, output, at, i, KeyOf(a, w), at) && Only(output, at, i)
  {
    hide Stored, XorByte, KeyOf, KeyAt, Spread, Pow;
    var key := KeyOf(a, w);
    i := at;
    while upto - i >= Size(a)
      invariant at <= i <= upto && (i - at) % Size(a) == 0
      invariant Wrote(input, output, at, i, key, at) && Only(output, at, i)
    {
      MaskWord(a, input, output, i, w);
      WordKeys(a, key, i - at);
      i := i + Size(a);
    }
  }

  /** A whole number of words leaves the key where it was. */
  lemma WordKeys(a: Arch, key: Key, done: nat)
    requires done % Size(a) == 0
    ensures forall j | 0 <= j < Size(a) :: Spread(a, key)[j] == KeyAt(key, done + j)
    ensures (done + Size(a)) % Size(a) == 0
  {
    hide Spread;
    assert done % 4 == 0;
    forall j | 0 <= j < Size(a) ensures Spread(a, key)[j] == KeyAt(key, done + j) {
      SpreadAt(a, key, j);
    }
  }

  /** word_mask_exact: whole words with the prepared key, the bytes left over with the key itself. */
  method WordMaskExact(a: Arch, input: array<byte>, output: array<byte>, n: nat, key: Key)
    requires n <= input.Length && n <= output.Length
    modifies output
    ensures output[..n] == Masked(old(input[..n]), key, 0) && Only(output, 0, n)
  {
    hide XorByte, KeyAt, Stored, Prepared, PrepareMaskingKey;
    var preparedKey := PrepareMaskingKey(a, key);
    PrepareStores(a, key);
    var i := MaskWords(a, input, output, 0, n, preparedKey);
    while i < n
      invariant 0 <= i <= n && Wrote(input, output, 0, i, key, 0) && Only(output, 0, i)
    {
      KeyIndex(key, i);
      output[i] := XorByte(input[i], key[i % 4]);
      i := i + 1;
    }
    AllMasked(old(input[..n]), output[..n], key);
  }

  /** word_mask_circ: the bytes left over are masked with the first bytes of the prepared key, which is
      then shifted past them. */
  method WordMaskCirc(a: Arch, input: array<byte>, output: array<byte>, at: nat, upto: nat, preparedKey: nat)
    returns (shifted: nat)
    requires at <= upto <= input.Length && upto <= output.Length && Prepared(a, preparedKey)
    modifies output
    ensures Wrote(input, output, at, upto, KeyOf(a, preparedKey), at) && Only(output, at, upto)
    ensures Prepared(a, shifted) && KeyOf(a, shifted) == Rotated(KeyOf(a, preparedKey), upto - at)
  {
    hide XorByte, KeyAt, Stored, KeyOf, Rotated, Circshift, Prepared, Size;
    var start := MaskWords(a, input, output, at, upto, preparedKey);
    CircPasses(a, preparedKey, start - at, upto - start);
    MaskTail(input, output, at, start, upto, Stored(a, preparedKey), KeyOf(a, preparedKey));
    shifted := Circshift(a, preparedKey, upto - start);
  }

  /** After a whole number of words the bytes of the prepared key come next; and shifting it by the bytes
      left over makes up for all of them. */
  lemma CircPasses(a: Arch, w: nat, done: nat, l: nat)
    requires Prepared(a, w) && done % Size(a) == 0 && l < Size(a)
    ensures forall j | 0 <= j < Size(a) :: Stored(a, w)[j] == KeyAt(KeyOf(a, w), done + j)
    ensures Prepared(a, Circshift(a, w, l)) && KeyOf(a, Circshift(a, w, l)) == Rotated(KeyOf(a, w), done + l)
  {
    var key := KeyOf(a, w);
    assert Stored(a, w) == Spread(a, key);
    hide Stored, KeyOf, Spread, Circshift, Prepared, KeyAt, Rotated, Pow;
    WordKeys(a, key, done);
    CircRotates(a, w, l);
    WordsRotate(a, key, done, l);
  }

  /** The bytes after the last whole word. */
  method MaskTail(input: array<byte>, output: array<byte>, ghost at: nat, start: nat, upto: nat, byteKey: bytes,
                  ghost key: Key)
    requires at <= start <= upto <= input.Length && upto <= output.Length && upto - start <= |byteKey|
    requires forall j | 0 <= j < |byteKey| :: byteKey[j] == KeyAt(key, start - at + j)
    modifies output
    ensures Wrote(input, output, start, upto, key, at) && Only(output, start, upto)
  {
    hide XorByte, KeyAt;
    var i := 0;
    while i < upto - start
      invariant 0 <= i <= upto - start
      invariant Wrote(input, output, start, start + i, key, at) && Only(output, start, start + i)
    {
      output[start + i] := XorByte(input[start + i], byteKey[i]);
      i := i + 1;
    }
  }

  lemma WordsRotate(a: Arch, key: Key, done: nat, l: nat)
    requires done % Size(a) == 0
    ensures Rotated(key, done + l) == Rotated(key, l)
  {
    assert done % 4 == 0;
    ModSum(done, l);
    RotatedSame(key, done + l, l);
  }

  lemma ModSum(i: nat, l: nat)
    ensures (i + l) % 4 == (i % 4 + l) % 4
  {
    assert i + l == 4 * (i / 4) + (i % 4 + l);
  }

  lemma RotatedSame(key: Key, m: nat, n: nat)
    requires m % 4 == n % 4
    ensures Rotated(key, m) == Rotated(key, n)
  {
    ModSum(m, 1);
    ModSum(n, 1);
    ModSum(m, 2);
    ModSum(n, 2);
    ModSum(m, 3);
    ModSum(n, 3);
  }

  /** byte_mask_circ: the key bytes are those of the low 32 bits of the prepared key. */
  method ByteMaskCirc(a: Arch, input: array<byte>, output: array<byte>, at: nat, upto: nat, preparedKey: nat)
    returns (shifted: nat)
    requires at <= upto <= input.Length && upto <= output.Length && Prepared(a, preparedKey)
    modifies output
    ensures Wrote(input, output, at, upto, KeyOf(a, preparedKey), at) && Only(output, at, upto)
    ensures Prepared(a, shifted) && KeyOf(a, shifted) == Rotated(KeyOf(a, preparedKey), upto - at)
  {
    hide XorByte, KeyAt, Stored, KeyOf, Spread, Rotated, Circshift, Prepared;
    var key := Stored(Arch(false, a.little), preparedKey % Pow(4));
    LowHalf(a, preparedKey);
    var i := at;
    while i < upto
      invariant at <= i <= upto && Wrote(input, output, at, i, key, at) && Only(output, at, i)
    {
      KeyIndex(key, i - at);
      output[i] := XorByte(input[i], key[(i - at) % 4]);
      i := i + 1;
    }
    shifted := Circshift(a, preparedKey, (upto - at) % 4);
    CircRotates(a, preparedKey, (upto - at) % 4);
    RotatedSame(key, (upto - at) % 4, upto - at);
  }

  lemma LowModulo(w: nat, n: nat)
    requires w < Pow(n) && n >= 4
    ensures Little(w % Pow(4), 4) == Little(w, n)[..4]
  {
    hide Little, Number, Pow;
    var s := Little(w, n);
    LowNumber(w, n);
    SplitNumber(s, 4);
    DivideParts(Number(s[..4]), Number(s[4..]), Pow(4));
    NumberLow(s[..4]);
  }

  /** In either byte order the low half of a prepared key is the key. */
  lemma LowHalf(a: Arch, w: nat)
    requires Prepared(a, w)
    ensures Stored(Arch(false, a.little), w % Pow(4)) == KeyOf(a, w)
  {
    var n := Size(a);
    LowModulo(w, n);
    var s, key := Little(w, n), KeyOf(a, w);
    assert Ordered(a, s) == Spread(a, key);
    hide Little, Pow;
    if !a.little {
      OrderedTwice(a, s);
      assert s[..4] == Reversed(Spread(a, key))[..4] == Reversed(key);
      OrderedTwice(a, key);
    }
  }

  // ---------------------------------------------------------------- streams

  /** A chunk of a stream: its length, and whether it is masked by words or by bytes. */
  datatype Chunk = Chunk(length: nat, words: bool)

  function Total(chunks: seq<Chunk>): nat {
    if chunks == [] then 0 else chunks[0].length + Total(chunks[1..])
  }

  /** A buffer masked in place, chunk by chunk, each loop given the key the one before returned. */
  method MaskChunks(a: Arch, data: array<byte>, chunks: seq<Chunk>, key: Key)
    requires Total(chunks) == data.Length
    modifies data
    ensures data[..] == Masked(old(data[..]), key, 0)
  {
    hide XorByte, KeyAt, Stored, KeyOf, Rotated, Prepared, PrepareMaskingKey;
    var w := PrepareMaskingKey(a, key);
    PrepareStores(a, key);
    RotatedNone(key);
    var at: nat, i: nat := 0, 0;
    assert chunks[0..] == chunks;
    while i < |chunks|
      invariant 0 <= i <= |chunks| && at + Total(chunks[i..]) == data.Length
      invariant Wrote(data, data, 0, at, key, 0) && Only(data, 0, at)
      invariant Prepared(a, w) && KeyOf(a, w) == Rotated(key, at)
    {
      assert chunks[i..][1..] == chunks[i + 1..];
      var upto := at + chunks[i].length;
      if chunks[i].words {
        w := WordMaskCirc(a, data, data, at, upto, w);
      } else {
        w := ByteMaskCirc(a, data, data, at, upto, w);
      }
      KeysContinue(key, at, upto);
      RotatedTwice(key, at, upto - at);
      at, i := upto, i + 1;
    }
    AllMasked(old(data[..]), data[..], key);
  }

  lemma RotatedNone(key: Key)
    ensures Rotated(key, 0) == key
  {
  }

  lemma KeysContinue(key: Key, at: nat, upto: nat)
    ensures forall k | at <= k < upto :: KeyAt(Rotated(key, at), k - at) == KeyAt(key, k)
  {
    hide Rotated;
    forall k | at <= k < upto ensures KeyAt(Rotated(key, at), k - at) == KeyAt(key, k) {
      RotatedAt(key, at, k - at);
    }
  }
}
