/** Numbers as bytes: the two byte orders of the control messages, and what the readers of
    python/src/message.py and src/lib/serialize.c make of them. The kernel side is a
    little-endian machine whose `char` is signed. */
module Wire {
  import opened Machine

  type byte = x: int | 0 <= x < 256

  /** 256 to the power of the number of bytes. */
  function Bound(width: nat): (b: nat)
    ensures b > 0
  {
    if width == 0 then 1 else 256 * Bound(width - 1)
  }

  lemma Bounds()
    ensures Bound(1) == 256 && Bound(2) == TWO16 && Bound(4) == TWO32 && Bound(8) == TWO64
  {
    assert Bound(2) == 256 * Bound(1);
    assert Bound(4) == 256 * Bound(3) == 65536 * Bound(2);
    assert Bound(6) == 256 * Bound(5) == 65536 * Bound(4);
    assert Bound(8) == 256 * Bound(7) == 65536 * Bound(6);
  }

  /** Little-endian bytes of the low `width` bytes of v. */
  function Le(width: nat, v: nat): (bs: seq<byte>)
    ensures |bs| == width
  {
    if width == 0 then [] else [v % 256] + Le(width - 1, v / 256)
  }

  function UnLe(bs: seq<byte>): (v: nat) {
    if bs == [] then 0 else bs[0] + 256 * UnLe(bs[1..])
  }

  /** A number of the width survives being written and read. */
  lemma {:induction false} UnLeOfLe(width: nat, v: nat)
    requires v < Bound(width)
    ensures UnLe(Le(width, v)) == v
  {
    if width > 0 {
      UnLeOfLe(width - 1, v / 256);
      assert Le(width, v)[1..] == Le(width - 1, v / 256);
    }
  }

  /** Bytes survive being read and written. */
  lemma {:induction false} LeOfUnLe(bs: seq<byte>)
    ensures UnLe(bs) < Bound(|bs|)
    ensures Le(|bs|, UnLe(bs)) == bs
  {
    if bs != [] {
      LeOfUnLe(bs[1..]);
      assert bs == [bs[0]] + bs[1..];
    }
  }

  /** The bytes of a 32-bit number, one by one. */
  lemma LeFour(v: nat)
    requires v < TWO32
    ensures Le(4, v) == [v % 256, v / 256 % 256, v / 65536 % 256, v / 16777216]
  {
    assert Le(4, v) == [v % 256] + Le(3, v / 256);
    assert Le(3, v / 256) == [v / 256 % 256] + Le(2, v / 65536);
    assert Le(2, v / 65536) == [v / 65536 % 256] + Le(1, v / 16777216);
    assert Le(1, v / 16777216) == [v / 16777216 % 256] + Le(0, v / 4294967296);
  }

  /** Four base-256 digits, the least significant first. */
  function Digits4(a: int, b: int, c: int, d: int): int {
    a + 256 * b + 65536 * c + 16777216 * d
  }

  lemma UnLeFour(bs: seq<byte>)
    requires |bs| == 4
    ensures UnLe(bs) == Digits4(bs[0], bs[1], bs[2], bs[3])
  {
    assert bs[1..][1..] == bs[2..] && bs[2..][1..] == bs[3..] && bs[3..][1..] == [];
    assert UnLe(bs[3..]) == bs[3];
    assert UnLe(bs[2..]) == bs[2] as int + 256 * bs[3] as int;
    assert UnLe(bs[1..]) == bs[1] as int + 256 * UnLe(bs[2..]);
  }

  /** A number is made of its digits. */
  lemma DigitsOf(v: nat)
    requires v < TWO32
    ensures Digits4(v % 256, v / 256 % 256, v / 65536 % 256, v / 16777216) == v
  {
    assert v / 65536 == v / 256 / 256;
    assert v / 16777216 == v / 65536 / 256;
  }

  /** `struct.unpack("!I", ...)`: most significant byte first. */
  function UnBe4(bs: seq<byte>): int
    requires |bs| == 4
  {
    Digits4(bs[3], bs[2], bs[1], bs[0])
  }

  // ------------------------------------------------------------ one signed char

  /** `(u32)*buf`: one char, sign-extended to 32 bits. */
  function CharToU32(b: byte): u32 { if b < 128 then b else TWO32 - 256 + b }

  /** Reading a 32-bit number through one char gives the number back exactly for the 128
      smallest and the 128 largest. */
  lemma CharSurvivesExactly(v: u32)
    ensures CharToU32(Le(4, v)[0]) == v <==> v < 128 || v >= TWO32 - 128
  {
    LeFour(v);
  }

  // ------------------------------------------------------------ u32_from_bytes

  /** python/src/message.py's u32_from_bytes: the two bytes of each half change places. */
  function SwapHalves(bs: seq<byte>): int
    requires |bs| == 4
  {
    var tmp := UnLe(bs);
    var b1 := tmp / 16777216 % 256 * 16777216;
    var b2 := tmp / 65536 % 256 * 65536;
    var b3 := tmp / 256 % 256 * 256;
    var b4 := tmp % 256;
    b1 / 256 + b2 * 256 + b3 / 256 + b4 * 256
  }

  lemma SwapHalvesOf(bs: seq<byte>)
    requires |bs| == 4
    ensures SwapHalves(bs) == Digits4(bs[1], bs[0], bs[3], bs[2])
  {
    UnLeFour(bs);
    Digits(bs[0], bs[1], bs[2], bs[3]);
  }

  lemma Digits(a: int, b: int, c: int, d: int)
    requires 0 <= a < 256 && 0 <= b < 256 && 0 <= c < 256 && 0 <= d < 256
    ensures var v := Digits4(a, b, c, d);
      v % 256 == a && v / 256 % 256 == b && v / 65536 % 256 == c && v / 16777216 % 256 == d
  {
    var v := Digits4(a, b, c, d);
    assert v / 256 == b + 256 * c + 65536 * d;
    assert v / 65536 == c + 256 * d;
    assert v / 16777216 == d;
  }

  /** A number in host order read with u32_from_bytes comes back exactly when both of its
      halves have equal bytes: the init_cwnd and mss of a CREATE message do not. */
  lemma SwapSurvivesExactly(v: u32)
    ensures var bs := Le(4, v); SwapHalves(bs) == v <==> bs[0] == bs[1] && bs[2] == bs[3]
  {
    var bs := Le(4, v);
    LeFour(v);
    DigitsOf(v);
    SwapHalvesOf(bs);
    SwapFixes(bs[0], bs[1], bs[2], bs[3]);
  }

  lemma SwapFixes(a: int, b: int, c: int, d: int)
    requires 0 <= a < 256 && 0 <= b < 256 && 0 <= c < 256 && 0 <= d < 256
    ensures Digits4(b, a, d, c) == Digits4(a, b, c, d) <==> a == b && c == d
  {
  }

  // ------------------------------------------------------------ network order

  /** The field the kernel stores for a port: 16 bits in network order, widened. */
  function Htons(port: u16): u32 { port % 256 * 256 + port / 256 }

  /** The field the kernel stores for an address: four bytes in network order. */
  function Htonl(address: u32): int {
    Digits4(address / 16777216, address / 65536 % 256, address / 256 % 256, address % 256)
  }

  /** A port is recovered from the bytes of its network-order field. */
  lemma PortRoundTrip(port: u16)
    ensures SwapHalves(Le(4, Htons(port))) == port
  {
    Digits(port / 256, port % 256, 0, 0);
    LeFour(Htons(port));
    SwapHalvesOf(Le(4, Htons(port)));
  }

  /** So is an address. */
  lemma AddressRoundTrip(address: u32)
    ensures 0 <= Htonl(address) < TWO32
    ensures UnBe4(Le(4, Htonl(address))) == address
  {
    DigitsOf(address);
    Recovered(address / 16777216, address / 65536 % 256, address / 256 % 256, address % 256);
  }

  lemma Recovered(a: int, b: int, c: int, d: int)
    requires 0 <= a < 256 && 0 <= b < 256 && 0 <= c < 256 && 0 <= d < 256
    ensures 0 <= Digits4(a, b, c, d) < TWO32
    ensures UnBe4(Le(4, Digits4(a, b, c, d))) == Digits4(d, c, b, a)
  {
    Digits(a, b, c, d);
    LeFour(Digits4(a, b, c, d));
  }
}
