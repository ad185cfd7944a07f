/** Fixed-width unsigned integers and the host/network byte-order
    conversions (htons, ntohs, htonl, ntohl) the binary API applies to
    every multi-byte field.

    A value of width n bytes is spelled in memory as n bytes. Network
    order is big-endian; the host order is a parameter, so the model covers
    both the little-endian hosts where the conversion is a byte swap and
    big-endian hosts where it is the identity. */
module ByteOrder {

  type u8 = x: int | 0 <= x < 0x100
  type u16 = x: int | 0 <= x < 0x1_0000
  type u32 = x: int | 0 <= x < 0x1_0000_0000
  /** The C `int` / `i32` a handler computes its status in. */
  type i32 = x: int | -0x8000_0000 <= x < 0x8000_0000

  datatype Host = LittleEndian | BigEndian

  function Pow256(n: nat): (p: nat)
    ensures p >= 1
  {
    if n == 0 then 1 else 256 * Pow256(n - 1)
  }

  function Reverse<T>(s: seq<T>): (r: seq<T>)
    ensures |r| == |s|
    ensures forall i :: 0 <= i < |s| ==> r[i] == s[|s| - 1 - i]
  {
    if |s| == 0 then [] else Reverse(s[1..]) + [s[0]]
  }

  lemma ReverseReverse<T>(s: seq<T>)
    ensures Reverse(Reverse(s)) == s
  {
  }

  /** The n bytes of x, least significant first. */
  function LeBytes(x: nat, n: nat): (bs: seq<u8>)
    requires x < Pow256(n)
    ensures |bs| == n
  {
    if n == 0 then [] else [x % 256] + LeBytes(x / 256, n - 1)
  }

  /** The value spelled by bytes given least significant first. */
  function FromLe(bs: seq<u8>): (x: nat)
    ensures x < Pow256(|bs|)
  {
    if |bs| == 0 then 0
    else
      var rest := FromLe(bs[1..]);
      assert rest <= Pow256(|bs| - 1) - 1;
      assert 256 * rest <= 256 * Pow256(|bs| - 1) - 256;
      bs[0] + 256 * rest
  }

  lemma {:induction false} FromLeLeBytes(x: nat, n: nat)
    requires x < Pow256(n)
    ensures FromLe(LeBytes(x, n)) == x
  {
    if n > 0 {
      assert x / 256 < Pow256(n - 1);
      FromLeLeBytes(x / 256, n - 1);
      assert LeBytes(x, n)[1..] == LeBytes(x / 256, n - 1);
    }
  }

  lemma {:induction false} LeBytesFromLe(bs: seq<u8>)
    ensures LeBytes(FromLe(bs), |bs|) == bs
  {
    if |bs| > 0 {
      var x := FromLe(bs);
      var rest := FromLe(bs[1..]);
      assert x == bs[0] + 256 * rest;
      assert x % 256 == bs[0];
      assert x / 256 == rest;
      LeBytesFromLe(bs[1..]);
      assert LeBytes(x, |bs|) == [bs[0]] + bs[1..];
    }
  }

  /** The n bytes of x, most significant first (network order). */
  function BeBytes(x: nat, n: nat): (bs: seq<u8>)
    requires x < Pow256(n)
    ensures |bs| == n
  {
    Reverse(LeBytes(x, n))
  }

  function FromBe(bs: seq<u8>): (x: nat)
    ensures x < Pow256(|bs|)
  {
    FromLe(Reverse(bs))
  }

  /** How the host lays out an n-byte integer in memory. */
  function HostBytes(h: Host, x: nat, n: nat): (bs: seq<u8>)
    requires x < Pow256(n)
    ensures |bs| == n
  {
    match h
    case LittleEndian => LeBytes(x, n)
    case BigEndian => BeBytes(x, n)
  }

  function FromHost(h: Host, bs: seq<u8>): (x: nat)
    ensures x < Pow256(|bs|)
  {
    match h
    case LittleEndian => FromLe(bs)
    case BigEndian => FromBe(bs)
  }

  lemma FromBeBeBytes(x: nat, n: nat)
    requires x < Pow256(n)
    ensures FromBe(BeBytes(x, n)) == x
  {
    ReverseReverse(LeBytes(x, n));
    FromLeLeBytes(x, n);
  }

  lemma BeBytesFromBe(bs: seq<u8>)
    ensures BeBytes(FromBe(bs), |bs|) == bs
  {
    LeBytesFromLe(Reverse(bs));
    ReverseReverse(bs);
  }

  lemma FromHostHostBytes(h: Host, x: nat, n: nat)
    requires x < Pow256(n)
    ensures FromHost(h, HostBytes(h, x, n)) == x
  {
    match h
    case LittleEndian => FromLeLeBytes(x, n);
    case BigEndian => FromBeBeBytes(x, n);
  }

  lemma HostBytesFromHost(h: Host, bs: seq<u8>)
    ensures HostBytes(h, FromHost(h, bs), |bs|) == bs
  {
    match h
    case LittleEndian => LeBytesFromLe(bs);
    case BigEndian => BeBytesFromBe(bs);
  }

  /** hton for an n-byte field: the host value whose in-memory bytes are
      the network-order bytes of x. */
  function Hton(h: Host, n: nat, x: nat): (y: nat)
    requires x < Pow256(n)
    ensures y < Pow256(n)
  {
    FromHost(h, BeBytes(x, n))
  }

  /** ntoh for an n-byte field: the value that y's in-memory bytes spell
      when read in network order. */
  function Ntoh(h: Host, n: nat, y: nat): (x: nat)
    requires y < Pow256(n)
    ensures x < Pow256(n)
  {
    FromBe(HostBytes(h, y, n))
  }

  /** Decoding a field that was encoded recovers the value. */
  lemma NtohHton(h: Host, n: nat, x: nat)
    requires x < Pow256(n)
    ensures Ntoh(h, n, Hton(h, n, x)) == x
  {
    HostBytesFromHost(h, BeBytes(x, n));
    FromBeBeBytes(x, n);
  }

  /** Encoding a field that was decoded gives back the wire value. */
  lemma HtonNtoh(h: Host, n: nat, y: nat)
    requires y < Pow256(n)
    ensures Hton(h, n, Ntoh(h, n, y)) == y
  {
    BeBytesFromBe(HostBytes(h, y, n));
    FromHostHostBytes(h, y, n);
  }

  /** On either host, hton and ntoh are the same conversion: the identity
      on a big-endian host, the same byte reversal on a little-endian one. */
  lemma HtonIsNtoh(h: Host, n: nat, x: nat)
    requires x < Pow256(n)
    ensures Hton(h, n, x) == Ntoh(h, n, x)
  {
  }

  /** The conversion is an involution: applying it twice is the identity. */
  lemma HtonInvolution(h: Host, n: nat, x: nat)
    requires x < Pow256(n)
    ensures Hton(h, n, Hton(h, n, x)) == x
  {
    HtonIsNtoh(h, n, Hton(h, n, x));
    NtohHton(h, n, x);
  }

  lemma Pow256Widths()
    ensures Pow256(2) == 0x1_0000
    ensures Pow256(4) == 0x1_0000_0000
  {
  }

  /** The byte reversal of a 16-bit value, in arithmetic form. */
  function Swap16(x: u16): u16
  {
    (x % 0x100) * 0x100 + x / 0x100
  }

  /** The byte reversal of a 32-bit value, in arithmetic form. */
  function Swap32(x: u32): u32
  {
    var b0, b1, b2, b3 := x % 0x100, (x / 0x100) % 0x100, (x / 0x100 / 0x100) % 0x100, x / 0x100 / 0x100 / 0x100;
    b0 * 0x100_0000 + b1 * 0x1_0000 + b2 * 0x100 + b3
  }

  /** Swap16 is the 2-byte conversion on a little-endian host. */
  lemma Swap16IsHton(x: u16)
    ensures Pow256(2) == 0x1_0000
    ensures Swap16(x) == Hton(LittleEndian, 2, x)
    ensures Swap16(x) == Ntoh(LittleEndian, 2, x)
  {
    Pow256Widths();
    var bs := LeBytes(x, 2);
    assert bs == [x % 0x100] + LeBytes(x / 0x100, 1);
    assert LeBytes(x / 0x100, 1) == [x / 0x100 % 0x100] + LeBytes(x / 0x100 / 0x100, 0);
    assert bs == [x % 0x100, x / 0x100];
    var rs := Reverse(bs);
    assert rs == [x / 0x100, x % 0x100];
    assert rs[1..][1..] == [];
    assert FromLe(rs) == x / 0x100 + 0x100 * (x % 0x100 + 0x100 * 0);
  }

  /** Swap32 is the 4-byte conversion on a little-endian host. */
  lemma Swap32IsHton(x: u32)
    ensures Pow256(4) == 0x1_0000_0000
    ensures Swap32(x) == Hton(LittleEndian, 4, x)
    ensures Swap32(x) == Ntoh(LittleEndian, 4, x)
  {
    Pow256Widths();
    var b0, b1, b2, b3 := x % 0x100, (x / 0x100) % 0x100, (x / 0x100 / 0x100) % 0x100, x / 0x100 / 0x100 / 0x100;
    var bs := LeBytes(x, 4);
    assert x / 0x100 / 0x100 / 0x100 < 0x100;
    assert LeBytes(x / 0x100 / 0x100 / 0x100, 1) == [b3];
    assert LeBytes(x / 0x100 / 0x100, 2) == [b2, b3];
    assert LeBytes(x / 0x100, 3) == [b1, b2, b3];
    assert bs == [b0, b1, b2, b3];
    var rs := Reverse(bs);
    assert rs == [b3, b2, b1, b0];
    assert FromLe(rs[3..]) == b0;
    assert FromLe(rs[2..]) == b1 + 0x100 * b0;
    assert FromLe(rs[1..]) == b2 + 0x100 * (b1 + 0x100 * b0);
    assert FromLe(rs) == b3 + 0x100 * (b2 + 0x100 * (b1 + 0x100 * b0));
  }

  /** On a big-endian host the n-byte conversion is the identity. */
  lemma HtonBigEndian(n: nat, x: nat)
    requires x < Pow256(n)
    ensures Hton(BigEndian, n, x) == x
    ensures Ntoh(BigEndian, n, x) == x
  {
    FromBeBeBytes(x, n);
  }

  /** htons: a byte swap on a little-endian host, nothing on a big-endian
      one. */
  function Htons(h: Host, x: u16): (y: u16)
  {
    if h.LittleEndian? then Swap16(x) else x
  }

  function Ntohs(h: Host, y: u16): (x: u16)
  {
    if h.LittleEndian? then Swap16(y) else y
  }

  function Htonl(h: Host, x: u32): (y: u32)
  {
    if h.LittleEndian? then Swap32(x) else x
  }

  function Ntohl(h: Host, y: u32): (x: u32)
  {
    if h.LittleEndian? then Swap32(y) else y
  }

  /** The arithmetic conversions are the byte-order conversions defined
      through the in-memory byte layout. */
  lemma HtonsMeaning(h: Host, x: u16)
    ensures Pow256(2) == 0x1_0000
    ensures Htons(h, x) == Hton(h, 2, x)
    ensures Ntohs(h, x) == Ntoh(h, 2, x)
  {
    Pow256Widths();
    match h
    case LittleEndian => Swap16IsHton(x);
    case BigEndian => HtonBigEndian(2, x);
  }

  lemma HtonlMeaning(h: Host, x: u32)
    ensures Pow256(4) == 0x1_0000_0000
    ensures Htonl(h, x) == Hton(h, 4, x)
    ensures Ntohl(h, x) == Ntoh(h, 4, x)
  {
    Pow256Widths();
    match h
    case LittleEndian => Swap32IsHton(x);
    case BigEndian => HtonBigEndian(4, x);
  }

  /** ntohl undoes htonl on every 32-bit value. */
  lemma NtohlHtonl(h: Host, x: u32)
    ensures Ntohl(h, Htonl(h, x)) == x
  {
    HtonlMeaning(h, x);
    HtonlMeaning(h, Htonl(h, x));
    NtohHton(h, 4, x);
  }

  /** htonl undoes ntohl on every 32-bit wire value. */
  lemma HtonlNtohl(h: Host, y: u32)
    ensures Htonl(h, Ntohl(h, y)) == y
  {
    HtonlMeaning(h, y);
    HtonlMeaning(h, Ntohl(h, y));
    HtonNtoh(h, 4, y);
  }

  /** ntohs undoes htons on every 16-bit value. */
  lemma NtohsHtons(h: Host, x: u16)
    ensures Ntohs(h, Htons(h, x)) == x
  {
    HtonsMeaning(h, x);
    HtonsMeaning(h, Htons(h, x));
    NtohHton(h, 2, x);
  }

  /** ntohs and htons write the same 16-bit wire value. */
  lemma NtohsIsHtons(h: Host, x: u16)
    ensures Ntohs(h, x) == Htons(h, x)
  {
  }

  /** htonl is an involution: swapping twice gives the value back. */
  lemma HtonlInvolution(h: Host, x: u32)
    ensures Htonl(h, Htonl(h, x)) == x
  {
    HtonlMeaning(h, x);
    HtonlMeaning(h, Htonl(h, x));
    HtonInvolution(h, 4, x);
  }

  /** The two's-complement bit pattern of a 32-bit signed value. */
  function I32Bits(v: i32): (b: u32)
  {
    if v < 0 then v + 0x1_0000_0000 else v
  }

  /** The signed value a 32-bit pattern denotes. */
  function I32Of(b: u32): (v: i32)
  {
    if b >= 0x8000_0000 then b - 0x1_0000_0000 else b
  }

  lemma I32RoundTrip(v: i32)
    ensures I32Of(I32Bits(v)) == v
  {
  }
}
