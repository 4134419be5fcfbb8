/** A frame header against the picture of section 5.2 of RFC 6455, in plain arithmetic: every bit of the first two
    bytes by its weight, the extended size in falling powers of 256, and the key. */
module FrameWire {
  import opened Bytes
  import opened FrameHeader

  function Weight(on: bool, weight: nat): nat {
    if on then weight else 0
  }

  /** The bytes that follow the first two for the size. */
  function SizeBytes(size: nat): nat {
    if size < 126 then 0 else if size < 0x1_0000 then 2 else 8
  }

  /** Two or eight bytes in network order. */
  function Weighed(s: bytes): nat
    requires |s| == 2 || |s| == 8
  {
    var n: seq<nat> := s;
    if |n| == 2 then n[0] * 0x100 + n[1]
    else n[0] * 0x100_0000_0000_0000 + n[1] * 0x1_0000_0000_0000 + n[2] * 0x100_0000_0000 + n[3] * 0x1_0000_0000
         + n[4] * 0x100_0000 + n[5] * 0x1_0000 + n[6] * 0x100 + n[7]
  }

  lemma FirstByteIs(f: Fields)
    requires f.opcode <= 0x0F
    ensures MakeBasic(f).b0 as nat
         == Weight(f.fin, 128) + Weight(f.rsv1, 64) + Weight(f.rsv2, 32) + Weight(f.rsv3, 16) + f.opcode as nat
  {
    hide SizeCode;
  }

  lemma SecondByteIs(f: Fields)
    ensures MakeBasic(f).b1 as nat
         == Weight(f.masked, 128) + (if f.size < 126 then f.size else if f.size < 0x1_0000 then 126 else 127)
  {
    hide SizeCode;
    var code := SizeCode(f.size);
    CodeIs(f.size);
    MaskAdds(f.masked, code);
  }

  lemma CodeIs(size: nat)
    ensures SizeCode(size) < 0x80
    ensures SizeCode(size) as nat == if size < 126 then size else if size < 0x1_0000 then 126 else 127
  {
    if size < 126 {
      SmallCode(size);
      assert SizeCode(size) == size as bv8;
    }
  }

  lemma SmallCode(size: nat)
    requires size < 126
    ensures (size as bv8) as nat == size && size as bv8 < 0x80
  {
  }

  lemma MaskAdds(masked: bool, code: bv8)
    requires code < 0x80
    ensures (Set(0, MASK, masked) | code) as nat == Weight(masked, 128) + code as nat
  {
  }

  lemma WeighedIs(s: bytes)
    requires |s| == 2 || |s| == 8
    ensures FromBigEndian(s) == Weighed(s)
  {
    hide FromBigEndian;
    if |s| == 2 {
      TwoWeigh(s);
    } else {
      TwoWeigh(s[..2]);
      LastWeighs(s[..3]);
      LastWeighs(s[..4]);
      LastWeighs(s[..5]);
      LastWeighs(s[..6]);
      LastWeighs(s[..7]);
      LastWeighs(s);
      assert s[..3][..2] == s[..2] && s[..4][..3] == s[..3] && s[..5][..4] == s[..4] && s[..6][..5] == s[..5]
          && s[..7][..6] == s[..6];
    }
  }

  lemma LastWeighs(s: bytes)
    requires s != []
    ensures FromBigEndian(s) == FromBigEndian(s[..|s| - 1]) * 256 + s[|s| - 1]
  {
  }

  lemma TwoWeigh(s: bytes)
    requires |s| == 2
    ensures FromBigEndian(s) == Weighed(s)
  {
    LastWeighs(s);
    LastWeighs(s[..1]);
    assert s[..1][..0] == [];
  }

  /** The header a frame is sent with. */
  lemma HeaderOnTheWire(f: Fields)
    requires ValidFields(f)
    ensures var s := PrepareHeader(MakeBasic(f), MakeExtended(f)); var n := SizeBytes(f.size);
            && |s| == 2 + n + (if f.masked then 4 else 0)
            && s[0] == Weight(f.fin, 128) + Weight(f.rsv1, 64) + Weight(f.rsv2, 32) + Weight(f.rsv3, 16)
                       + f.opcode as nat
            && s[1] == Weight(f.masked, 128) + (if n == 0 then f.size else if n == 2 then 126 else 127)
            && (n > 0 ==> Weighed(s[2..2 + n]) == f.size)
            && (f.masked ==> s[2 + n..] == f.key)
  {
    hide MakeBasic, SizeCode, FromBigEndian, BigEndian, Weighed, GetBasicSize;
    var h, m := MakeBasic(f), MakeExtended(f);
    FirstByteIs(f);
    SecondByteIs(f);
    SizeForm(f);
    var s, n := PrepareHeader(h, m), SizeBytes(f.size);
    assert n == 8 - PayloadOffset(f.size);
    var len := |s| - 2;
    KeepsSize(f, m, m, len);
    assert s[2..] == m[..len];
    assert s[2..2 + n] == m[..n];
    if n > 0 {
      WeighedIs(m[..n]);
    }
    if f.masked {
      assert s[2 + n..] == m[n..n + 4];
    }
  }

  /** What any two bytes, and twelve behind them, say, a size that is not in its shortest form included. */
  lemma HeaderFromTheWire(h: Basic, e: bytes)
    requires |e| == 12
    ensures var f, low := Read(h, e), h.b1 as nat % 128;
            var n := if low < 126 then 0 else if low == 126 then 2 else 8;
            && f.opcode as nat == h.b0 as nat % 16
            && (f.fin <==> h.b0 as nat >= 128) && (f.rsv1 <==> h.b0 as nat / 64 % 2 == 1)
            && (f.rsv2 <==> h.b0 as nat / 32 % 2 == 1) && (f.rsv3 <==> h.b0 as nat / 16 % 2 == 1)
            && (f.masked <==> h.b1 as nat >= 128)
            && f.size == (if n == 0 then low else Weighed(e[..n]))
            && f.key == (if f.masked then e[n..n + 4] else [0, 0, 0, 0])
            && GetHeaderLen(h) == 2 + n + (if f.masked then 4 else 0)
  {
    OpcodeOf(h.b0);
    FinOf(h.b0);
    Rsv1Of(h.b0);
    Rsv2Of(h.b0);
    Rsv3Of(h.b0);
    LowBits(h.b1);
    WeighedIs(e[..2]);
    WeighedIs(e[..8]);
    hide Weighed, FromBigEndian;
  }

  lemma OpcodeOf(b: bv8)
    ensures (b & OPCODE) as nat == b as nat % 16
  {
  }

  lemma FinOf(b: bv8)
    ensures b & FIN == FIN <==> b as nat >= 128
  {
  }

  lemma Rsv1Of(b: bv8)
    ensures b & RSV1 == RSV1 <==> b as nat / 64 % 2 == 1
  {
  }

  lemma Rsv2Of(b: bv8)
    ensures b & RSV2 == RSV2 <==> b as nat / 32 % 2 == 1
  {
  }

  lemma Rsv3Of(b: bv8)
    ensures b & RSV3 == RSV3 <==> b as nat / 16 % 2 == 1
  {
  }

  lemma LowBits(b: bv8)
    ensures (b & PAYLOAD) as nat == b as nat % 128
    ensures b & MASK == MASK <==> b as nat >= 128
  {
  }
}
