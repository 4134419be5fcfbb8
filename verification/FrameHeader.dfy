/** WebSocket frame headers (section 5.2 of RFC 6455): built from their fields, serialised, read back. */
module FrameHeader {
  import opened Bytes
  import opened Words

  const PAYLOAD_SIZE_BASIC: nat := 125
  const PAYLOAD_SIZE_EXTENDED: nat := 0xFFFF
  const CODE_16BIT: bv8 := 0x7E
  const CODE_64BIT: bv8 := 0x7F
  const BASIC_HEADER_LENGTH: nat := 2
  const MAX_HEADER_LENGTH: nat := 14
  const MAX_EXTENDED_HEADER_LENGTH: nat := 12
  const TWO64: nat := 0x1_0000_0000_0000_0000

  const FIN: bv8 := 0x80
  const RSV1: bv8 := 0x40
  const RSV2: bv8 := 0x20
  const RSV3: bv8 := 0x10
  const OPCODE: bv8 := 0x0F
  const MASK: bv8 := 0x80
  const PAYLOAD: bv8 := 0x7F

  // ---------------------------------------------------------------- network byte order

  /** The k low bytes of n, the most significant first, as htonll puts them. */
  function BigEndian(n: nat, k: nat): (s: bytes)
    ensures |s| == k
  {
    if k == 0 then [] else BigEndian(n / 256, k - 1) + [n % 256]
  }

  /** The number that stands in network order as s. */
  function FromBigEndian(s: bytes): nat {
    if s == [] then 0 else FromBigEndian(s[..|s| - 1]) * 256 + s[|s| - 1]
  }

  lemma {:induction false} BigEndianReads(n: nat, k: nat)
    requires n < Pow(k)
    ensures FromBigEndian(BigEndian(n, k)) == n
  {
    if k > 0 {
      BigEndianReads(n / 256, k - 1);
      assert BigEndian(n, k)[..k - 1] == BigEndian(n / 256, k - 1);
    }
  }

  lemma {:induction false} LowBytes(n: nat, k: nat, j: nat)
    requires j <= k
    ensures BigEndian(n, k)[k - j..] == BigEndian(n, j)
    decreases j
  {
    if j > 0 {
      LowBytes(n / 256, k - 1, j - 1);
      assert BigEndian(n, k)[k - j..] == BigEndian(n / 256, k - 1)[k - j..] + [n % 256];
    }
  }

  // ---------------------------------------------------------------- the basic header

  datatype Basic = Basic(b0: bv8, b1: bv8)

  /** What a header says. The opcode has four bits. */
  datatype Fields = Fields(opcode: bv8, size: nat, fin: bool, masked: bool, rsv1: bool, rsv2: bool, rsv3: bool,
                           key: Key)

  predicate ValidFields(f: Fields) {
    f.opcode <= OPCODE && f.size < TWO64
  }

  function Set(b: bv8, bit: bv8, on: bool): bv8 {
    if on then b | bit else b
  }

  function SizeCode(size: nat): bv8 {
    if size <= PAYLOAD_SIZE_BASIC then size as bv8 else if size <= PAYLOAD_SIZE_EXTENDED then CODE_16BIT else CODE_64BIT
  }

  /** basic_header(op, size, fin, mask, rsv1, rsv2, rsv3). */
  function MakeBasic(f: Fields): Basic {
    var b0 := Set(Set(Set(Set(0, FIN, f.fin), RSV1, f.rsv1), RSV2, f.rsv2), RSV3, f.rsv3) | (f.opcode & OPCODE);
    var b1 := Set(0, MASK, f.masked) | SizeCode(f.size);
    Basic(b0, b1)
  }

  predicate Has(b: bv8, bit: bv8) {
    b & bit == bit
  }

  function GetOpcode(h: Basic): bv8 {
    h.b0 & OPCODE
  }

  function GetBasicSize(h: Basic): bv8 {
    h.b1 & PAYLOAD
  }

  predicate GetMasked(h: Basic) {
    Has(h.b1, MASK)
  }

  function GetMaskingKeyOffset(h: Basic): nat {
    if GetBasicSize(h) == CODE_16BIT then 2 else if GetBasicSize(h) == CODE_64BIT then 8 else 0
  }

  function GetHeaderLen(h: Basic): nat {
    BASIC_HEADER_LENGTH + GetMaskingKeyOffset(h) + (if GetMasked(h) then 4 else 0)
  }

  // ---------------------------------------------------------------- the extended header

  /** copy_payload: the low bytes of the size in network order, none, two or all eight. */
  function PayloadOffset(size: nat): nat {
    if size <= PAYLOAD_SIZE_BASIC then 8 else if size <= PAYLOAD_SIZE_EXTENDED then 6 else 0
  }

  /** extended_header(size) or extended_header(size, key), twelve bytes. */
  function MakeExtended(f: Fields): (e: bytes)
    ensures |e| == MAX_EXTENDED_HEADER_LENGTH
  {
    var size := BigEndian(f.size, 8)[PayloadOffset(f.size)..];
    var body := if f.masked then size + f.key else size;
    body + Zeros(12 - |body|)
  }

  function GetPayloadSize(h: Basic, e: bytes): nat
    requires |e| == MAX_EXTENDED_HEADER_LENGTH
  {
    var val := GetBasicSize(h);
    if val as nat <= PAYLOAD_SIZE_BASIC then val as nat
    else if val == CODE_16BIT then FromBigEndian(e[..2])
    else FromBigEndian(e[..8])
  }

  function GetMaskingKey(h: Basic, e: bytes): Key
    requires |e| == MAX_EXTENDED_HEADER_LENGTH
  {
    if !GetMasked(h) then [0, 0, 0, 0]
    else e[GetMaskingKeyOffset(h)..GetMaskingKeyOffset(h) + 4]
  }

  /** prepare_header: the header as it goes on the wire. */
  function PrepareHeader(h: Basic, e: bytes): (s: bytes)
    requires |e| == MAX_EXTENDED_HEADER_LENGTH
    ensures |s| == GetHeaderLen(h) <= MAX_HEADER_LENGTH
  {
    [h.b0 as byte, h.b1 as byte] + e[..GetHeaderLen(h) - BASIC_HEADER_LENGTH]
  }

  // ---------------------------------------------------------------- there and back

  /** All the getters together. */
  function Read(h: Basic, e: bytes): Fields
    requires |e| == MAX_EXTENDED_HEADER_LENGTH
  {
    Fields(GetOpcode(h), GetPayloadSize(h, e), Has(h.b0, FIN), GetMasked(h), Has(h.b0, RSV1), Has(h.b0, RSV2),
           Has(h.b0, RSV3), GetMaskingKey(h, e))
  }

  /** The first byte holds every flag and the opcode apart. */
  lemma FirstByte(f: Fields)
    requires f.opcode <= OPCODE
    ensures var h := MakeBasic(f);
            && GetOpcode(h) == f.opcode && Has(h.b0, FIN) == f.fin && Has(h.b0, RSV1) == f.rsv1
            && Has(h.b0, RSV2) == f.rsv2 && Has(h.b0, RSV3) == f.rsv3
  {
  }

  lemma SecondByte(masked: bool, code: bv8)
    requires code <= PAYLOAD
    ensures (Set(0, MASK, masked) | code) & PAYLOAD == code
    ensures Has(Set(0, MASK, masked) | code, MASK) == masked
  {
  }

  /** A size takes the shortest of the three forms that can hold it. */
  lemma SizeForm(f: Fields)
    ensures var h := MakeBasic(f);
            && GetMasked(h) == f.masked
            && (GetBasicSize(h) as nat <= PAYLOAD_SIZE_BASIC <==> f.size <= PAYLOAD_SIZE_BASIC)
            && (f.size <= PAYLOAD_SIZE_BASIC ==> GetBasicSize(h) as nat == f.size)
            && GetMaskingKeyOffset(h) == 8 - PayloadOffset(f.size)
  {
    var code := SizeCode(f.size);
    assert code <= PAYLOAD;
    SecondByte(f.masked, code);
  }

  /** A size of two bytes or eight is one that has no shorter form. */
  lemma ShortestForm(f: Fields)
    requires ValidFields(f)
    ensures var n := GetMaskingKeyOffset(MakeBasic(f));
            && n in {0, 2, 8}
            && (n == 2 <==> PAYLOAD_SIZE_BASIC < f.size < Pow(2))
            && (n == 8 <==> Pow(2) <= f.size)
            && f.size < Pow(8)
  {
    SizeForm(f);
    PowEight();
  }

  /** The wire has been received: its first two bytes, and the rest at the start of the twelve bytes kept
      for it, whatever else is in them. */
  predicate Received(wire: bytes, h: Basic, e: bytes) {
    && |e| == MAX_EXTENDED_HEADER_LENGTH
    && 2 <= |wire| <= MAX_HEADER_LENGTH
    && wire[0] == h.b0 as byte && wire[1] == h.b1 as byte
    && e[..|wire| - 2] == wire[2..]
  }

  lemma SameByte(a: bv8, b: bv8)
    requires a as byte == b as byte
    ensures a == b
  {
    assert a == (a as byte) as bv8;
  }

  /** The header on the wire is at most 14 bytes long, as long as get_header_len says, and reads back to
      the fields it was built from; the key of an unmasked frame reads as zero. */
  lemma HeaderReadsBack(f: Fields, h: Basic, e: bytes)
    requires ValidFields(f) && Received(PrepareHeader(MakeBasic(f), MakeExtended(f)), h, e)
    ensures Read(h, e) == if f.masked then f else f.(key := [0, 0, 0, 0])
    ensures |PrepareHeader(MakeBasic(f), MakeExtended(f))| == GetHeaderLen(h) <= MAX_HEADER_LENGTH
  {
    hide MakeBasic, Has, GetOpcode, GetBasicSize, SizeCode;
    var m, h' := MakeExtended(f), MakeBasic(f);
    SameByte(h.b0, h'.b0);
    SameByte(h.b1, h'.b1);
    assert h == h';
    FirstByte(f);
    SizeForm(f);
    var wire := PrepareHeader(h, m);
    var len := GetHeaderLen(h) - 2;
    assert m[..len] == wire[2..] == e[..len];
    KeepsSize(f, m, e, len);
  }

  /** The bytes that count: the size, and the key behind it. */
  lemma KeepsSize(f: Fields, m: bytes, e: bytes, len: nat)
    requires ValidFields(f) && m == MakeExtended(f) && |e| == |m|
    requires len == 8 - PayloadOffset(f.size) + (if f.masked then 4 else 0)
    requires m[..len] == e[..len]
    ensures var n := 8 - PayloadOffset(f.size);
            && (n > 0 ==> FromBigEndian(e[..n]) == f.size)
            && (f.masked ==> e[n..n + 4] == f.key)
  {
    var n := 8 - PayloadOffset(f.size);
    LowBytes(f.size, 8, n);
    assert e[..n] == e[..len][..n] == m[..len][..n] == BigEndian(f.size, n);
    PowEight();
    if n > 0 {
      BigEndianReads(f.size, n);
    }
    if f.masked {
      assert e[n..n + 4] == e[..len][n..] == m[..len][n..] == f.key;
    }
  }

  lemma PowEight()
    ensures Pow(8) == TWO64 && Pow(2) == 0x1_0000
  {
    assert Pow(4) == 0x1_0000_0000 by {
      assert Pow(2) == 0x1_0000 by { assert Pow(1) == 256; }
      assert Pow(3) == 0x100_0000;
    }
    assert Pow(6) == 0x1_0000_0000_0000 by { assert Pow(5) == 0x100_0000_0000; }
    assert Pow(7) == 0x100_0000_0000_0000;
  }

  // ---------------------------------------------------------------- setting single fields

  predicate IsFlag(bit: bv8) {
    bit == FIN || bit == RSV1 || bit == RSV2 || bit == RSV3
  }

  function Put(b: bv8, bit: bv8, on: bool): bv8 {
    if on then b | bit else b & !bit
  }

  lemma FlagPut(b: bv8, bit: bv8, on: bool, other: bv8)
    requires IsFlag(bit) && IsFlag(other)
    ensures Has(Put(b, bit, on), other) == if other == bit then on else Has(b, other)
    ensures Put(b, bit, on) & OPCODE == b & OPCODE
  {
  }

  /** b0 and b1, changed a flag at a time. */
  class BasicHeader {
    var b0: bv8
    var b1: bv8

    function Value(): Basic
      reads this
    {
      Basic(b0, b1)
    }

    /** The constructor's steps; the getters give the fields back. */
    constructor (f: Fields)
      ensures Value() == MakeBasic(f)
    {
      b0, b1 := 0, 0;
      new;
      if f.fin { b0 := b0 | FIN; }
      if f.rsv1 { b0 := b0 | RSV1; }
      if f.rsv2 { b0 := b0 | RSV2; }
      if f.rsv3 { b0 := b0 | RSV3; }
      b0 := b0 | (f.opcode & OPCODE);
      if f.masked { b1 := b1 | MASK; }
      b1 := b1 | SizeCode(f.size);
    }

    /** set_fin and set_rsv1 to set_rsv3: one flag of the first byte, no other and not the opcode. */
    method SetFlag(bit: bv8, on: bool)
      requires IsFlag(bit)
      modifies `b0
      ensures Has(b0, bit) == on
      ensures forall other | IsFlag(other) && other != bit :: Has(b0, other) == Has(old(b0), other)
      ensures GetOpcode(Value()) == GetOpcode(old(Value()))
    {
      hide Has, IsFlag;
      forall other | IsFlag(other) { FlagPut(b0, bit, on, other); }
      FlagPut(b0, bit, on, bit);
      b0 := Put(b0, bit, on);
    }

    /** set_masked: the mask flag, and not the size. */
    method SetMasked(on: bool)
      modifies `b1
      ensures GetMasked(Value()) == on && GetBasicSize(Value()) == GetBasicSize(old(Value()))
    {
      b1 := if on then b1 | MASK else b1 & !MASK;
    }
  }
}
