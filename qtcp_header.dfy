/**
 * The 16-byte header the buffer writes in front of every unit
 * (tcp-tx-buffer.cc:324-342, 388-408, 444-465) and the redundancy transform
 * `Encode` (tcp-tx-buffer.cc:243-258).
 */
module QtcpHeader {
  import opened U32

  /** Bytes 0-3: the magic tag "QTCS". */
  const Magic: seq<byte> := ['Q' as byte, 'T' as byte, 'C' as byte, 'S' as byte]

  /** `x>>24`, `x>>16`, `x>>8`, `x>>0`, each stored into a `uint8_t`. */
  function BigEndian32(x: nat): (r: seq<byte>)
    ensures |r| == 4
  {
    [((x / 0x100_0000) % 256) as byte, ((x / 0x1_0000) % 256) as byte,
     ((x / 0x100) % 256) as byte, (x % 256) as byte]
  }

  /** How a receiver reads a big-endian 32-bit field back. */
  function DecodeBigEndian32(b: seq<byte>): nat
    requires |b| == 4
  {
    (b[0] as nat) * 0x100_0000 + (b[1] as nat) * 0x1_0000 + (b[2] as nat) * 0x100 + (b[3] as nat)
  }

  /** The four base-256 digits of a 32-bit value recompose it. */
  lemma Digits(x: int)
    requires Is32(x)
    ensures ((x / 0x100_0000) % 256) * 0x100_0000 + ((x / 0x1_0000) % 256) * 0x1_0000
            + ((x / 0x100) % 256) * 0x100 + x % 256 == x
  {
    var a := x / 0x100;
    var b := a / 0x100;
    var c := b / 0x100;
    assert x == a * 0x100 + x % 0x100;
    assert a == b * 0x100 + a % 0x100;
    assert b == c * 0x100 + b % 0x100;
    assert x / 0x1_0000 == b;
    assert x / 0x100_0000 == c;
  }

  lemma DecodeEncode(x: nat)
    ensures Is32(x) ==> DecodeBigEndian32(BigEndian32(x)) == x
  {
    if Is32(x) {
      Digits(x);
    }
  }

  /** Byte 12 of a primary header: `128+64+m_qheader/4`, truncated to a byte. */
  function PrimaryFlag(headerSize: nat): byte {
    ((128 + 64 + headerSize / 4) % 256) as byte
  }

  /** Byte 12 of an auxiliary header: `128+m_qheader/4`, truncated to a byte. */
  function AuxiliaryFlag(headerSize: nat): byte {
    ((128 + headerSize / 4) % 256) as byte
  }

  function Zeros(n: nat): (r: seq<byte>)
    ensures |r| == n && forall i :: 0 <= i < n ==> r[i] == 0
  {
    seq(n, i => 0)
  }

  /**
   * A header of `headerSize` bytes: the magic tag, two big-endian counters,
   * the flag/length byte, and zeros for the rest (the arrays it is cut from
   * are zero-initialised).
   */
  function Header(first: nat, second: nat, flag: byte, headerSize: nat): (r: seq<byte>)
    requires 16 <= headerSize
    ensures |r| == headerSize
  {
    Magic + BigEndian32(first) + BigEndian32(second) + [flag, 0, 0, 0] + Zeros(headerSize - 16)
  }

  /** What a receiver reads from each field of a header. */
  lemma HeaderLayout(first: nat, second: nat, flag: byte, headerSize: nat)
    requires 16 <= headerSize
    ensures var r := Header(first, second, flag, headerSize);
      && r[..4] == Magic
      && (Is32(first) ==> DecodeBigEndian32(r[4..8]) == first)
      && (Is32(second) ==> DecodeBigEndian32(r[8..12]) == second)
      && r[12] == flag
      && forall i :: 13 <= i < headerSize ==> r[i] == 0
  {
    var r := Header(first, second, flag, headerSize);
    assert r[4..8] == BigEndian32(first);
    assert r[8..12] == BigEndian32(second);
    DecodeEncode(first);
    DecodeEncode(second);
  }

  /** Byte 12 tells the two streams apart and carries the header size in words. */
  lemma FlagsDiffer(headerSize: nat)
    requires headerSize / 4 < 64
    ensures PrimaryFlag(headerSize) != AuxiliaryFlag(headerSize)
    ensures PrimaryFlag(headerSize) as int == 0xC0 + headerSize / 4
    ensures AuxiliaryFlag(headerSize) as int == 0x80 + headerSize / 4
  {
  }

  /** `uint8_t` addition: `b + k` modulo 256. */
  function AddByte(b: byte, k: int): (r: byte)
    ensures r as int == (b as int + k) % 256
  {
    ((b as int + k) % 256) as byte
  }

  /** Source byte `i`, or 0 past the end of the source (`CopyData` into a zeroed array). */
  function SourceByte(src: seq<byte>, i: nat): byte {
    if i < |src| then src[i] else 0
  }

  /**
   * The redundancy transform: `n` bytes, each the source byte plus 49 modulo
   * 256 (`uint8_t` arithmetic).
   */
  function EncodeBytes(src: seq<byte>, n: nat): (r: seq<byte>)
    ensures |r| == n
    ensures forall i :: 0 <= i < n ==> r[i] as int == (SourceByte(src, i) as int + 49) % 256
  {
    seq(n, i requires 0 <= i < n => AddByte(SourceByte(src, i), 49))
  }

  /**
   * A receiver recovers every source byte the transform covered by
   * subtracting 49 again.
   */
  lemma EncodeReversible(src: seq<byte>, n: nat)
    ensures forall i :: 0 <= i < n && i < |src| ==> AddByte(EncodeBytes(src, n)[i], -49) == src[i]
  {
  }

  /**
   * `Encode (p, q)`: a zeroed buffer of `q`'s size, filled with as much of
   * `p` as fits (`CopyData`), then 49 added to every byte.
   */
  method Encode(src: seq<byte>, n: nat) returns (dst: seq<byte>)
    ensures dst == EncodeBytes(src, n)
  {
    var bbb := new byte[n];
    var m := if |src| < n then |src| else n;
    var i := 0;
    while i < n
      invariant 0 <= i <= n
      invariant forall k :: 0 <= k < i ==> bbb[k] == 0
    {
      bbb[i] := 0;
      i := i + 1;
    }
    i := 0;
    while i < m
      invariant 0 <= i <= m
      invariant forall k :: 0 <= k < i ==> bbb[k] == src[k]
      invariant forall k :: i <= k < n ==> bbb[k] == 0
    {
      bbb[i] := src[i];
      i := i + 1;
    }
    i := 0;
    while i < n
      invariant 0 <= i <= n
      invariant forall k :: 0 <= k < i ==> bbb[k] == AddByte(SourceByte(src, k), 49)
      invariant forall k :: i <= k < n ==> bbb[k] == SourceByte(src, k)
    {
      bbb[i] := AddByte(bbb[i], 49);
      i := i + 1;
    }
    dst := bbb[..];
  }

  /** The regenerated redundancy of `Addqednew`: `n` bytes of 1, encoded. */
  function Regenerated(n: nat): (r: seq<byte>)
    ensures |r| == n && forall i :: 0 <= i < n ==> r[i] == 50
  {
    EncodeBytes(seq(n, i => 1), n)
  }
}
