/** The number coding of TCP header compression (net/slcompress.c, net/slcompress.h; section 3.2.2 of
    RFC 1144) and the byte order functions its fields go through (hp300/include/endian.h). */
module VjCode {
  import opened Bytes

  type u16 = x: int | 0 <= x < 0x1_0000
  type u32 = x: int | 0 <= x < 0x1_0000_0000

  // ---------- bytes of numbers ----------

  /** Byte i of a number, the lowest first. */
  function ByteOf(x: nat, i: nat): byte
    decreases i
  {
    if i == 0 then x % 256 else ByteOf(x / 256, i - 1)
  }

  function Value16(b0: byte, b1: byte): u16 {
    b0 + 256 * b1
  }

  function Value32(b0: byte, b1: byte, b2: byte, b3: byte): u32 {
    b0 + 256 * (b1 + 256 * (b2 + 256 * b3))
  }

  lemma OneByte(b: byte, q: nat)
    ensures (b + 256 * q) / 256 == q && (b + 256 * q) % 256 == b
  {
  }

  lemma Compose16(b0: byte, b1: byte)
    ensures ByteOf(Value16(b0, b1), 0) == b0 && ByteOf(Value16(b0, b1), 1) == b1
  {
    OneByte(b0, b1);
    assert ByteOf(b1, 0) == b1;
  }

  lemma Compose32(b0: byte, b1: byte, b2: byte, b3: byte)
    ensures ByteOf(Value32(b0, b1, b2, b3), 0) == b0
    ensures ByteOf(Value32(b0, b1, b2, b3), 1) == b1
    ensures ByteOf(Value32(b0, b1, b2, b3), 2) == b2
    ensures ByteOf(Value32(b0, b1, b2, b3), 3) == b3
  {
    var q2 := b2 + 256 * b3;
    var q1 := b1 + 256 * q2;
    OneByte(b0, q1);
    OneByte(b1, q2);
    OneByte(b2, b3);
    assert ByteOf(q1, 0) == b1 && ByteOf(q2, 0) == b2 && ByteOf(b3, 0) == b3;
    assert ByteOf(q1, 1) == b2 && ByteOf(q2, 1) == b3;
    assert ByteOf(q1, 2) == b3;
  }

  lemma Bytes16(x: u16)
    ensures x == Value16(ByteOf(x, 0), ByteOf(x, 1))
  {
    assert ByteOf(x, 1) == ByteOf(x / 256, 0);
  }

  lemma Bytes32(y: u32)
    ensures y == Value32(ByteOf(y, 0), ByteOf(y, 1), ByteOf(y, 2), ByteOf(y, 3))
  {
    var q1 := y / 256;
    var q2 := q1 / 256;
    var q3 := q2 / 256;
    assert y == ByteOf(y, 0) + 256 * q1;
    assert q1 == ByteOf(y, 1) + 256 * q2 by { assert ByteOf(y, 1) == ByteOf(q1, 0); }
    assert q2 == ByteOf(y, 2) + 256 * q3 by { assert ByteOf(y, 2) == ByteOf(q1, 1) == ByteOf(q2, 0); }
    assert q3 == ByteOf(y, 3) by { assert ByteOf(y, 3) == ByteOf(q1, 2) == ByteOf(q2, 1) == ByteOf(q3, 0); }
  }

  // ---------- byte order ----------

  /** htons, and ntohs, which is the same.  As written, the shifts leave only the high byte, in place. */
  function Swap16(form: Form, x: u16): u16 {
    if form.Repaired? then Value16(ByteOf(x, 1), ByteOf(x, 0)) else Value16(0, ByteOf(x, 1))
  }

  /** htonl, and ntohl, which is the same.  As written, byte 2 goes to place 1, byte 3 stays, and the
      others are shifted out. */
  function Swap32(form: Form, x: u32): u32 {
    if form.Repaired? then Value32(ByteOf(x, 3), ByteOf(x, 2), ByteOf(x, 1), ByteOf(x, 0))
    else Value32(0, ByteOf(x, 2), 0, ByteOf(x, 3))
  }

  /** htons on the number with these two octets, the low one first: repaired, it exchanges them; as written, it
      clears the low one. */
  lemma SwapOctets(form: Form, low: byte, high: byte)
    ensures Swap16(form, low + 256 * high) == if form.Repaired? then high + 256 * low else 256 * high
  {
    OneByte(low, high);
    assert ByteOf(low + 256 * high, 1) == ByteOf(high, 0) == high;
  }

  /** htonl on the number with these four: repaired, it turns them round; as written, octet 2 comes to place 1,
      octet 3 stays, and the other places are cleared. */
  lemma SwapFourOctets(form: Form, b0: byte, b1: byte, b2: byte, b3: byte)
    ensures Swap32(form, b0 + 0x100 * b1 + 0x1_0000 * b2 + 0x100_0000 * b3)
         == if form.Repaired? then b3 + 0x100 * b2 + 0x1_0000 * b1 + 0x100_0000 * b0
            else 0x100 * b2 + 0x100_0000 * b3
  {
    Compose32(b0, b1, b2, b3);
  }

  /** A 16-bit field stored in network order reads back as it was: always, and as written exactly when
      its low byte is zero. */
  lemma Involution16(form: Form, x: u16)
    ensures Swap16(form, Swap16(form, x)) == x <==> form.Repaired? || ByteOf(x, 0) == 0
  {
    Bytes16(x);
    if form.Repaired? {
      Compose16(ByteOf(x, 1), ByteOf(x, 0));
    } else {
      Compose16(0, ByteOf(x, 1));
    }
  }

  /** The same for 32 bits: as written, all but the high byte must be zero. */
  lemma Involution32(form: Form, y: u32)
    ensures Swap32(form, Swap32(form, y)) == y
            <==> form.Repaired? || ByteOf(y, 0) == ByteOf(y, 1) == ByteOf(y, 2) == 0
  {
    Bytes32(y);
    if form.Repaired? {
      Compose32(ByteOf(y, 3), ByteOf(y, 2), ByteOf(y, 1), ByteOf(y, 0));
    } else {
      Compose32(0, ByteOf(y, 2), 0, ByteOf(y, 3));
    }
  }

  // ---------- numbers ----------

  /** What ENCODE, and with `zeroToo` ENCODEZ, writes for n. */
  function Code(n: int, zeroToo: bool): seq<byte> {
    var v := n % 0x1_0000;
    if v >= 256 || (zeroToo && v == 0) then [0, ByteOf(v, 1), ByteOf(v, 0)] else [v]
  }

  /** The octets it writes, as numbers: one for 1 to 255, and three for other numbers; a zero takes one by ENCODE
      and three by ENCODEZ. */
  lemma CodeOctets(n: int, zeroToo: bool)
    ensures var v := n % 0x1_0000;
            Code(n, zeroToo) == if v >= 256 || (v == 0 && zeroToo) then [0, v / 256, n % 256] else [v]
  {
    LowBytes(n);
    HighByte(n % 0x1_0000);
  }

  lemma HighByte(v: u16)
    ensures ByteOf(v, 1) == v / 256
  {
    assert ByteOf(v, 1) == ByteOf(v / 256, 0);
  }

  /** Whether a whole number stands at the front. */
  predicate Readable(s: seq<byte>) {
    s != [] && (s[0] == 0 ==> |s| >= 3)
  }

  /** The number at the front, and how many octets it takes. */
  function Number(s: seq<byte>): (r: (u16, nat))
    requires Readable(s)
    ensures r.1 <= |s|
  {
    if s[0] == 0 then (Value16(s[2], s[1]), 3) else (s[0], 1)
  }

  /** The octets it is read from, as numbers. */
  lemma NumberOctets(s: seq<byte>)
    requires Readable(s)
    ensures s[0] == 0 ==> Number(s).0 == 256 * (s[1] as int) + s[2] && Number(s).1 == 3
    ensures s[0] != 0 ==> Number(s).0 == s[0] && Number(s).1 == 1
  {
  }

  /** A number is read back, and just its own octets are used up, whatever follows, exactly when it is
      not zero modulo 2^16 or was written by ENCODEZ. */
  lemma NumberRoundTrip(n: int, zeroToo: bool, rest: seq<byte>)
    requires |rest| >= 2 || zeroToo || n % 0x1_0000 != 0
    ensures Readable(Code(n, zeroToo) + rest)
    ensures Number(Code(n, zeroToo) + rest) == (n % 0x1_0000, |Code(n, zeroToo)|) <==> zeroToo || n % 0x1_0000 != 0
  {
    Bytes16(n % 0x1_0000);
  }

  lemma Drop<T>(a: seq<T>, b: seq<T>)
    ensures (a + b)[|a|..] == b
  {
  }

  /** Casts to u_char and u_short throw away the same high bits. */
  lemma LowBytes(n: int)
    ensures n % 256 == ByteOf(n % 0x1_0000, 0) && n / 256 % 256 == ByteOf(n % 0x1_0000, 1)
  {
    var v, k := n % 0x1_0000, n / 0x1_0000;
    var q := v / 256;
    assert n == v % 256 + 256 * (q + 256 * k);
    assert n / 256 == q + 256 * k;
    assert ByteOf(v, 1) == ByteOf(q, 0) == q;
  }

  // ---------- the macros ----------

  /** The octets of a compressed header and the pointer cp into them. */
  class Cursor {
    var octets: array<byte>
    var cp: nat

    constructor (octets: array<byte>)
      ensures this.octets == octets && cp == 0
    {
      this.octets, cp := octets, 0;
    }

    /** ENCODE: one octet for a number below 256, modulo 2^16, and three for another. */
    method Encode(n: int)
      requires cp + (if n % 0x1_0000 < 256 then 1 else 3) <= octets.Length
      modifies this`cp, octets
      ensures cp == old(cp) + if n % 0x1_0000 < 256 then 1 else 3
      ensures octets[..cp] == old(octets[..cp])
                              + if n % 0x1_0000 < 256 then [n % 0x1_0000] else [0, n % 0x1_0000 / 256, n % 256]
      ensures octets[cp..] == old(octets[..])[cp..]
    {
      if n % 0x1_0000 >= 256 {
        Long(n);
      } else {
        Short(n);
      }
    }

    /** ENCODEZ: one octet for a number from 1 to 255, modulo 2^16, and three for another. */
    method EncodeZ(n: int)
      requires cp + (if 0 < n % 0x1_0000 < 256 then 1 else 3) <= octets.Length
      modifies this`cp, octets
      ensures cp == old(cp) + if 0 < n % 0x1_0000 < 256 then 1 else 3
      ensures octets[..cp] == old(octets[..cp])
                              + if 0 < n % 0x1_0000 < 256 then [n % 0x1_0000] else [0, n % 0x1_0000 / 256, n % 256]
      ensures octets[cp..] == old(octets[..])[cp..]
    {
      if n % 0x1_0000 >= 256 || n % 0x1_0000 == 0 {
        Long(n);
      } else {
        Short(n);
      }
    }

    /** The short form both share. */
    method Short(n: int)
      requires cp + 1 <= octets.Length && n % 0x1_0000 < 256
      modifies this`cp, octets
      ensures cp == old(cp) + 1 && octets[..cp] == old(octets[..cp]) + [n % 0x1_0000]
      ensures octets[cp..] == old(octets[..])[cp..]
    {
      octets[cp] := n % 256;
      cp := cp + 1;
    }

    /** The long form both share. */
    method Long(n: int)
      requires cp + 3 <= octets.Length
      modifies this`cp, octets
      ensures cp == old(cp) + 3
      ensures octets[..cp] == old(octets[..cp]) + [0, n % 0x1_0000 / 256, n % 256]
      ensures octets[cp..] == old(octets[..])[cp..]
    {
      LowBytes(n);
      HighByte(n % 0x1_0000);
      octets[cp] := 0;
      cp := cp + 1;
      octets[cp + 1] := n % 256;
      octets[cp] := n / 256 % 256;
      cp := cp + 2;
    }

    /** What the three decoding macros do before they differ: the number at cp. */
    method Next() returns (v: u16)
      requires cp <= octets.Length && Readable(octets[cp..])
      modifies this`cp
      ensures v == Number(old(octets[cp..])).0 && cp == old(cp) + Number(old(octets[cp..])).1
      ensures octets[cp..] == old(octets[cp..])[Number(old(octets[cp..])).1..]
    {
      if octets[cp] == 0 {
        var high: int := octets[cp + 1];
        v := high * 256 + octets[cp + 2];
        cp := cp + 3;
      } else {
        v := octets[cp];
        cp := cp + 1;
      }
    }

    /** DECODEL */
    method DecodeL(form: Form, f: u32) returns (g: u32)
      requires cp <= octets.Length && Readable(octets[cp..])
      modifies this`cp
      ensures g == Add32(form, f, Number(old(octets[cp..])).0)
      ensures cp <= octets.Length && octets[cp..] == old(octets[cp..])[Number(old(octets[cp..])).1..]
    {
      var v := Next();
      WrapIsModulo(Swap32(form, f) + v, TWO32);
      g := Swap32(form, (Swap32(form, f) + v) % 0x1_0000_0000);
    }

    /** DECODES */
    method DecodeS(form: Form, f: u16) returns (g: u16)
      requires cp <= octets.Length && Readable(octets[cp..])
      modifies this`cp
      ensures g == Add16(form, f, Number(old(octets[cp..])).0)
      ensures cp <= octets.Length && octets[cp..] == old(octets[cp..])[Number(old(octets[cp..])).1..]
    {
      var v := Next();
      WrapIsModulo(Swap16(form, f) + v, TWO16);
      g := Swap16(form, (Swap16(form, f) + v) % 0x1_0000);
    }

    /** DECODEU */
    method DecodeU(form: Form) returns (g: u16)
      requires cp <= octets.Length && Readable(octets[cp..])
      modifies this`cp
      ensures g == Swap16(form, Number(old(octets[cp..])).0)
      ensures cp <= octets.Length && octets[cp..] == old(octets[cp..])[Number(old(octets[cp..])).1..]
    {
      var v := Next();
      g := Swap16(form, v);
    }
  }

  const TWO16: nat := 0x1_0000
  const TWO32: nat := 0x1_0000_0000

  /** A sum or difference of two numbers below m, modulo m. */
  function Wrap(n: int, m: int): (r: nat)
    requires 0 < m && -m < n < m + m
    ensures r < m
  {
    if n < 0 then n + m else if n < m then n else n - m
  }

  lemma WrapIsModulo(n: int, m: int)
    requires m == TWO16 || m == TWO32
    requires -m < n < m + m
    ensures Wrap(n, m) == n % m
  {
  }

  /** A field stored in network order, after a difference has been added. */
  function Add16(form: Form, f: u16, d: u16): u16 {
    Swap16(form, Wrap(Swap16(form, f) + d, TWO16))
  }

  function Add32(form: Form, f: u32, d: u16): u32 {
    Swap32(form, Wrap(Swap32(form, f) + d, TWO32))
  }

  /** A 16-bit field that held htons(x) holds htons(y) after DECODES of the difference: always, and as
      written exactly when the low byte has not become smaller. */
  lemma DeltaS(form: Form, x: u16, y: u16)
    ensures Add16(form, Swap16(form, x), Wrap(y - x, TWO16)) == Swap16(form, y)
            <==> form.Repaired? || ByteOf(x, 0) <= ByteOf(y, 0)
  {
    if form.Repaired? {
      DeltaSRepaired(x, y);
    } else {
      DeltaSAsWritten(x, y);
    }
  }

  lemma DeltaSRepaired(x: u16, y: u16)
    ensures Add16(Repaired, Swap16(Repaired, x), Wrap(y - x, TWO16)) == Swap16(Repaired, y)
  {
    var f, d := Swap16(Repaired, x), Wrap(y - x, TWO16);
    assert Swap16(Repaired, f) == x by { Involution16(Repaired, x); }
    Sum16(Repaired, f, d, x);
    assert Wrap(x + d, TWO16) == y;
  }

  lemma Sum16(form: Form, f: u16, d: u16, h: u16)
    requires Swap16(form, f) == h
    ensures Add16(form, f, d) == Swap16(form, Wrap(h + d, TWO16))
  {
  }

  lemma DeltaSAsWritten(x: u16, y: u16)
    ensures Add16(AsWritten, Swap16(AsWritten, x), Wrap(y - x, TWO16)) == Swap16(AsWritten, y)
            <==> ByteOf(x, 0) <= ByteOf(y, 0)
  {
    var h := x - ByteOf(x, 0);
    assert Swap16(AsWritten, Swap16(AsWritten, x)) == h by {
      Compose16(0, ByteOf(x, 1));
      Bytes16(x);
    }
    Truncated(ByteOf(x, 0), x, y);
    SameHighByte(Wrap(h + Wrap(y - x, TWO16), TWO16), y);
  }

  lemma SameHighByte(x: u16, y: u16)
    ensures Swap16(AsWritten, x) == Swap16(AsWritten, y) <==> ByteOf(x, 1) == ByteOf(y, 1)
  {
  }

  lemma WrapSum(b: byte, x: u16, y: u16)
    requires b <= x
    ensures Wrap(x - b + Wrap(y - x, TWO16), TWO16) == Wrap(y - b, TWO16)
  {
  }

  /** The high byte of a difference. */
  lemma Borrow(b: byte, e: byte, c: byte)
    ensures ByteOf(Wrap(Value16(e, c) - b, TWO16), 1) == c <==> b <= e
  {
    if b <= e {
      assert Wrap(Value16(e, c) - b, TWO16) == Value16(e - b, c);
      Compose16(e - b, c);
    } else {
      var high := if c > 0 then c - 1 else 255;
      assert Wrap(Value16(e, c) - b, TWO16) == Value16(256 + e - b, high);
      Compose16(256 + e - b, high);
    }
  }

  lemma Truncated(b: byte, x: u16, y: u16)
    requires b <= x
    ensures ByteOf(Wrap(x - b + Wrap(y - x, TWO16), TWO16), 1) == ByteOf(y, 1) <==> b <= ByteOf(y, 0)
  {
    WrapSum(b, x, y);
    Bytes16(y);
    Borrow(b, ByteOf(y, 0), ByteOf(y, 1));
  }

  /** The same for a 32-bit field and DECODEL, whose differences are below 2^16: as written it is right
      exactly when the new value keeps the high byte and has a zero in the byte below it. */
  lemma DeltaL(form: Form, x: u32, y: u32)
    requires Wrap(y - x, TWO32) < TWO16
    ensures Add32(form, Swap32(form, x), Wrap(y - x, TWO32)) == Swap32(form, y)
            <==> form.Repaired? || (ByteOf(y, 2) == 0 && ByteOf(y, 3) == ByteOf(x, 3))
  {
    if form.Repaired? {
      Involution32(form, x);
      assert Wrap(x + Wrap(y - x, TWO32), TWO32) == y;
    } else {
      DeltaLAsWritten(x, y, Wrap(y - x, TWO32));
    }
  }

  lemma DeltaLAsWritten(x: u32, y: u32, d: u16)
    ensures Add32(AsWritten, Swap32(AsWritten, x), d) == Swap32(AsWritten, y)
            <==> ByteOf(y, 2) == 0 && ByteOf(y, 3) == ByteOf(x, 3)
  {
    var h, z := Value32(0, 0, 0, ByteOf(x, 3)), Value32(ByteOf(d, 0), ByteOf(d, 1), 0, ByteOf(x, 3));
    assert Swap32(AsWritten, Swap32(AsWritten, x)) == h by {
      Compose32(0, ByteOf(x, 2), 0, ByteOf(x, 3));
    }
    assert Wrap(h + d, TWO32) == z by {
      Bytes16(d);
    }
    Compose32(ByteOf(d, 0), ByteOf(d, 1), 0, ByteOf(x, 3));
    SameHighBytes(z, y);
  }

  lemma SameHighBytes(x: u32, y: u32)
    ensures Swap32(AsWritten, x) == Swap32(AsWritten, y)
       <==> ByteOf(x, 2) == ByteOf(y, 2) && ByteOf(x, 3) == ByteOf(y, 3)
  {
  }

  // ---------- records of changes ----------

  /** The flags NEW_U, NEW_W, NEW_A, NEW_S and NEW_I. */
  datatype Mask = Mask(u: bool, w: bool, a: bool, s: bool, i: bool)

  /** A place in a record: whether it is flagged, and whether its number may be zero and so is written by
      ENCODEZ. */
  datatype Place = Place(flagged: bool, zeroToo: bool)

  /** The fixed order: urgent pointer, window, acknowledgement, sequence number, IP ID. */
  function Places(mask: Mask): seq<Place> {
    [Place(mask.u, true), Place(mask.w, false), Place(mask.a, false), Place(mask.s, false), Place(mask.i, true)]
  }

  /** What one place of a record takes. */
  function Part(p: Place, n: u16): seq<byte> {
    if p.flagged then Code(n, p.zeroToo) else []
  }

  /** The flagged ones of these numbers, in order. */
  function Record(ps: seq<Place>, ns: seq<u16>): seq<byte>
    requires |ps| == |ns|
  {
    if ps == [] then []
    else Part(ps[0], ns[0]) + Record(ps[1..], ns[1..])
  }

  /** A flagged number written by ENCODE is not zero. */
  predicate Writable(ps: seq<Place>, ns: seq<u16>)
    requires |ps| == |ns|
  {
    forall i :: 0 <= i < |ps| && ps[i].flagged && !ps[i].zeroToo ==> ns[i] != 0
  }

  /** The numbers with zero in the places that are not flagged. */
  function Flagged(ps: seq<Place>, ns: seq<u16>): (r: seq<u16>)
    requires |ps| == |ns|
    ensures |r| == |ps|
  {
    if ps == [] then []
    else [if ps[0].flagged then ns[0] else 0] + Flagged(ps[1..], ns[1..])
  }

  /** Reading the flagged places, zero for the others, and what is left; None when the octets run out. */
  function ReadRecord(ps: seq<Place>, s: seq<byte>): (r: Option<(seq<u16>, seq<byte>)>)
    ensures r.Some? ==> |r.value.0| == |ps|
    decreases |ps|
  {
    if ps == [] then Some(([], s))
    else if ps[0].flagged && !Readable(s) then None
    else
      var n := if ps[0].flagged then Number(s) else (0, 0);
      var more := ReadRecord(ps[1..], s[n.1..]);
      if more.None? then None else Some(([n.0] + more.value.0, more.value.1))
  }

  /** Whatever follows a record, reading it gives its numbers back and uses up just its own octets. */
  lemma {:induction false} PlacesRoundTrip(ps: seq<Place>, ns: seq<u16>, rest: seq<byte>)
    requires |ps| == |ns| && Writable(ps, ns)
    ensures ReadRecord(ps, Record(ps, ns) + rest) == Some((Flagged(ps, ns), rest))
    ensures |Record(ps, ns)| <= 3 * |ps|
    decreases |ps|
  {
    if ps == [] {
      assert [] + rest == rest;
    } else {
      var more := Record(ps[1..], ns[1..]) + rest;
      PlacesRoundTrip(ps[1..], ns[1..], rest);
      if ps[0].flagged {
        var c := Code(ns[0], ps[0].zeroToo);
        NumberRoundTrip(ns[0], ps[0].zeroToo, more);
        Drop(c, more);
        Assoc(c, Record(ps[1..], ns[1..]), rest);
      } else {
        assert Record(ps, ns) == Record(ps[1..], ns[1..]);
      }
    }
  }

  /** The record of a compressed header, for every mask and whatever follows it. */
  lemma RecordRoundTrip(mask: Mask, ns: seq<u16>, rest: seq<byte>)
    requires |ns| == 5 && Writable(Places(mask), ns)
    ensures ReadRecord(Places(mask), Record(Places(mask), ns) + rest) == Some((Flagged(Places(mask), ns), rest))
    ensures |Record(Places(mask), ns)| <= 15
  {
    PlacesRoundTrip(Places(mask), ns, rest);
  }

  /** The record holds, in this order, the urgent pointer by ENCODEZ, the window, the acknowledgement and the
      sequence number by ENCODE, and the packet identification by ENCODEZ, each when it is flagged. */
  lemma RecordLayout(mask: Mask, u: u16, w: u16, a: u16, s: u16, i: u16)
    ensures Record(Places(mask), [u, w, a, s, i])
         == (if mask.u then Code(u, true) else [])
            + ((if mask.w then Code(w, false) else [])
               + ((if mask.a then Code(a, false) else [])
                  + ((if mask.s then Code(s, false) else []) + (if mask.i then Code(i, true) else []))))
  {
    var ps, ns := Places(mask), [u, w, a, s, i];
    NoPart(ps);
    NoPart(ns);
    RecordFrom(ps, ns, 0);
    RecordFrom(ps, ns, 1);
    RecordFrom(ps, ns, 2);
    RecordFrom(ps, ns, 3);
    RecordFrom(ps, ns, 4);
    assert ps[5..] == [] && Part(ps[4], i) + [] == Part(ps[4], i);
  }

  lemma RecordFrom(ps: seq<Place>, ns: seq<u16>, k: nat)
    requires |ps| == |ns| && k < |ps|
    ensures Record(ps[k..], ns[k..]) == Part(ps[k], ns[k]) + Record(ps[k + 1..], ns[k + 1..])
  {
    assert ps[k..][1..] == ps[k + 1..] && ns[k..][1..] == ns[k + 1..];
  }

  /** A record takes one octet for each flagged number below 256, and three for each other, and for a zero that
      ENCODEZ writes. */
  lemma RecordLength(mask: Mask, u: u16, w: u16, a: u16, s: u16, i: u16)
    ensures |Record(Places(mask), [u, w, a, s, i])|
         == (if !mask.u then 0 else if 0 < u < 256 then 1 else 3) + (if !mask.w then 0 else if w < 256 then 1 else 3)
            + (if !mask.a then 0 else if a < 256 then 1 else 3) + (if !mask.s then 0 else if s < 256 then 1 else 3)
            + (if !mask.i then 0 else if 0 < i < 256 then 1 else 3)
  {
    RecordLayout(mask, u, w, a, s, i);
    CodeLength(u, true);
    CodeLength(w, false);
    CodeLength(a, false);
    CodeLength(s, false);
    CodeLength(i, true);
  }

  lemma CodeLength(n: u16, zeroToo: bool)
    ensures |Code(n, zeroToo)| == if n >= 256 || (n == 0 && zeroToo) then 3 else 1
  {
  }

  // ---------- headers over a run ----------

  /** The fields of a TCP/IP header that can change, as host values. */
  datatype Header = Header(u: u16, w: u16, a: u32, s: u32, i: u16)

  /** The numbers that take x to y: differences, but the urgent pointer itself. */
  function Changes(x: Header, y: Header): (r: seq<u16>)
    requires Near(x, y)
    ensures |r| == 5
  {
    [y.u, Wrap(y.w - x.w, TWO16), Wrap(y.a - x.a, TWO32), Wrap(y.s - x.s, TWO32), Wrap(y.i - x.i, TWO16)]
  }

  /** Otherwise an uncompressed packet is sent. */
  predicate Near(x: Header, y: Header) {
    Wrap(y.a - x.a, TWO32) < TWO16 && Wrap(y.s - x.s, TWO32) < TWO16
  }

  /** A record with this mask can take x to y: what is not flagged has not changed, what is flagged and
      written by ENCODE has. */
  predicate Sendable(x: Header, y: Header, mask: Mask) {
    && Near(x, y)
    && (!mask.u ==> x.u == y.u) && (!mask.i ==> x.i == y.i)
    && (mask.w <==> x.w != y.w) && (mask.a <==> x.a != y.a) && (mask.s <==> x.s != y.s)
  }

  /** The header as the receiver stores it, in network order. */
  datatype Stored = Stored(u: u16, w: u16, a: u32, s: u32, i: u16)

  function Store(form: Form, h: Header): Stored {
    Stored(Swap16(form, h.u), Swap16(form, h.w), Swap32(form, h.a), Swap32(form, h.s), Swap16(form, h.i))
  }

  /** DECODEU, DECODES, DECODEL, DECODEL and DECODES on the flagged fields. */
  function Update(form: Form, mask: Mask, f: Stored, ns: seq<u16>): Stored
    requires |ns| == 5
  {
    Stored(if mask.u then Swap16(form, ns[0]) else f.u,
           Update16(form, mask.w, f.w, ns[1]), Update32(form, mask.a, f.a, ns[2]), Update32(form, mask.s, f.s, ns[3]),
           Update16(form, mask.i, f.i, ns[4]))
  }

  function Update16(form: Form, flagged: bool, f: u16, d: u16): u16 {
    if flagged then Add16(form, f, d) else f
  }

  function Update32(form: Form, flagged: bool, f: u32, d: u16): u32 {
    if flagged then Add32(form, f, d) else f
  }

  /** DECODES takes htons(x) to htons(y). */
  predicate Kept16(form: Form, x: u16, y: u16) {
    form.Repaired? || ByteOf(x, 0) <= ByteOf(y, 0)
  }

  /** DECODEL takes htonl(x) to htonl(y). */
  predicate Kept32(form: Form, x: u32, y: u32) {
    form.Repaired? || (ByteOf(y, 2) == 0 && ByteOf(y, 3) == ByteOf(x, 3))
  }

  /** Every flagged field gets the sender's new value. */
  predicate Kept(form: Form, x: Header, y: Header, mask: Mask) {
    && (mask.w ==> Kept16(form, x.w, y.w)) && (mask.i ==> Kept16(form, x.i, y.i))
    && (mask.a ==> Kept32(form, x.a, y.a)) && (mask.s ==> Kept32(form, x.s, y.s))
  }

  lemma Update16Follows(form: Form, flagged: bool, x: u16, y: u16, d: u16)
    requires if flagged then d == Wrap(y - x, TWO16) else x == y
    ensures Update16(form, flagged, Swap16(form, x), d) == Swap16(form, y) <==> (flagged ==> Kept16(form, x, y))
  {
    if flagged {
      DeltaS(form, x, y);
    }
  }

  lemma Update32Follows(form: Form, flagged: bool, x: u32, y: u32, d: u16)
    requires if flagged then d == Wrap(y - x, TWO32) else x == y
    ensures Update32(form, flagged, Swap32(form, x), d) == Swap32(form, y) <==> (flagged ==> Kept32(form, x, y))
  {
    if flagged {
      DeltaL(form, x, y);
    }
  }

  lemma UpdateFollows(form: Form, x: Header, y: Header, mask: Mask)
    requires Sendable(x, y, mask)
    ensures Update(form, mask, Store(form, x), Flagged(Places(mask), Changes(x, y))) == Store(form, y)
       <==> Kept(form, x, y, mask)
  {
    var ns := Changes(x, y);
    var r := Flagged(Places(mask), ns);
    FlaggedFive(mask, ns);
    Update16Follows(form, mask.w, x.w, y.w, r[1]);
    Update32Follows(form, mask.a, x.a, y.a, r[2]);
    Update32Follows(form, mask.s, x.s, y.s, r[3]);
    Update16Follows(form, mask.i, x.i, y.i, r[4]);
  }

  lemma SendableIsWritable(x: Header, y: Header, mask: Mask)
    requires Sendable(x, y, mask)
    ensures Writable(Places(mask), Changes(x, y))
  {
  }

  /** One record takes the receiver from the sender's last header to its next one: repaired, always; as
      written, exactly when the bytes of the flagged fields allow it. */
  lemma OneRecord(form: Form, x: Header, y: Header, mask: Mask, more: seq<byte>)
    requires Sendable(x, y, mask)
    ensures var r := ReadRecord(Places(mask), Record(Places(mask), Changes(x, y)) + more);
            && r.Some? && r.value.1 == more
            && (Update(form, mask, Store(form, x), r.value.0) == Store(form, y) <==> Kept(form, x, y, mask))
  {
    UpdateFollows(form, x, y, mask);
    SendableIsWritable(x, y, mask);
    RecordRoundTrip(mask, Changes(x, y), more);
  }

  lemma FlaggedFive(mask: Mask, ns: seq<u16>)
    requires |ns| == 5
    ensures var r := Flagged(Places(mask), ns);
            && (mask.u ==> r[0] == ns[0]) && (mask.w ==> r[1] == ns[1]) && (mask.a ==> r[2] == ns[2])
            && (mask.s ==> r[3] == ns[3]) && (mask.i ==> r[4] == ns[4])
  {
    FlaggedAt(Places(mask), ns, 0);
    FlaggedAt(Places(mask), ns, 1);
    FlaggedAt(Places(mask), ns, 2);
    FlaggedAt(Places(mask), ns, 3);
    FlaggedAt(Places(mask), ns, 4);
  }

  lemma {:induction false} FlaggedAt(ps: seq<Place>, ns: seq<u16>, i: nat)
    requires |ps| == |ns| && i < |ps|
    ensures Flagged(ps, ns)[i] == if ps[i].flagged then ns[i] else 0
  {
    if i == 0 {
    } else {
      FlaggedAt(ps[1..], ns[1..], i - 1);
    }
  }

  /** The sender's headers from x on, with the masks it uses. */
  predicate Course(x: Header, ys: seq<(Header, Mask)>)
    decreases |ys|
  {
    ys != [] ==> Sendable(x, ys[0].0, ys[0].1) && Course(ys[0].0, ys[1..])
  }

  /** Everything the sender writes. */
  function Stream(x: Header, ys: seq<(Header, Mask)>): seq<byte>
    requires Course(x, ys)
    decreases |ys|
  {
    if ys == [] then [] else Record(Places(ys[0].1), Changes(x, ys[0].0)) + Stream(ys[0].0, ys[1..])
  }

  /** Every record of the run does its work. */
  predicate AllKept(form: Form, x: Header, ys: seq<(Header, Mask)>)
    decreases |ys|
  {
    ys != [] ==> Kept(form, x, ys[0].0, ys[0].1) && AllKept(form, ys[0].0, ys[1..])
  }

  /** The headers the receiver stores, one after each record. */
  function Follow(form: Form, f: Stored, masks: seq<Mask>, s: seq<byte>): Option<(seq<Stored>, seq<byte>)>
    decreases |masks|
  {
    if masks == [] then Some(([], s)) else
    var r := ReadRecord(Places(masks[0]), s);
    if r.None? then None else
    var g := Update(form, masks[0], f, r.value.0);
    var more := Follow(form, g, masks[1..], r.value.1);
    if more.None? then None else Some(([g] + more.value.0, more.value.1))
  }

  function Masks(ys: seq<(Header, Mask)>): (r: seq<Mask>)
    ensures |r| == |ys|
  {
    if ys == [] then [] else [ys[0].1] + Masks(ys[1..])
  }

  function Stores(form: Form, ys: seq<(Header, Mask)>): (r: seq<Stored>)
    ensures |r| == |ys|
  {
    if ys == [] then [] else [Store(form, ys[0].0)] + Stores(form, ys[1..])
  }

  /** Over any run, the receiver has the sender's header after every record, and leaves what follows the
      last record untouched: repaired, always; as written, exactly when every record does its work. */
  lemma {:induction false} ReceiverFollowsSender(form: Form, x: Header, ys: seq<(Header, Mask)>, rest: seq<byte>)
    requires Course(x, ys)
    ensures Follow(form, Store(form, x), Masks(ys), Stream(x, ys) + rest) == Some((Stores(form, ys), rest))
       <==> AllKept(form, x, ys)
    decreases |ys|
  {
    if ys == [] {
      assert [] + rest == rest;
    } else {
      var y, later := ys[0].0, Stream(ys[0].0, ys[1..]) + rest;
      StreamStep(x, ys, rest);
      OneRecord(form, x, y, ys[0].1, later);
      ReceiverFollowsSender(form, y, ys[1..], rest);
      assert Masks(ys)[1..] == Masks(ys[1..]);
      FollowStep(form, Store(form, x), Masks(ys), Stream(x, ys) + rest, Stores(form, ys), rest);
      assert Stores(form, ys)[1..] == Stores(form, ys[1..]) && Stores(form, ys)[0] == Store(form, y);
    }
  }

  /** Repaired, every record does. */
  lemma {:induction false} AllKeptRepaired(x: Header, ys: seq<(Header, Mask)>)
    ensures AllKept(Repaired, x, ys)
    decreases |ys|
  {
    if ys == [] {
    } else {
      AllKeptRepaired(ys[0].0, ys[1..]);
    }
  }

  lemma StreamStep(x: Header, ys: seq<(Header, Mask)>, rest: seq<byte>)
    requires ys != [] && Course(x, ys)
    ensures Stream(x, ys) + rest
         == Record(Places(ys[0].1), Changes(x, ys[0].0)) + (Stream(ys[0].0, ys[1..]) + rest)
  {
    var record, later := Record(Places(ys[0].1), Changes(x, ys[0].0)), Stream(ys[0].0, ys[1..]);
    assert Stream(x, ys) == record + later;
    assert (record + later) + rest == record + (later + rest);
  }

  lemma FollowStep(form: Form, f: Stored, masks: seq<Mask>, s: seq<byte>, gs: seq<Stored>, rest: seq<byte>)
    requires masks != [] && gs != [] && ReadRecord(Places(masks[0]), s).Some?
    ensures var r := ReadRecord(Places(masks[0]), s).value;
            var g := Update(form, masks[0], f, r.0);
            Follow(form, f, masks, s) == Some((gs, rest))
            <==> g == gs[0] && Follow(form, g, masks[1..], r.1) == Some((gs[1..], rest))
  {
    assert [gs[0]] + gs[1..] == gs;
    var r := ReadRecord(Places(masks[0]), s).value;
    var g := Update(form, masks[0], f, r.0);
    var more := Follow(form, g, masks[1..], r.1);
    if more.Some? {
      assert ([g] + more.value.0)[0] == g && ([g] + more.value.0)[1..] == more.value.0;
    }
  }

  // ---------- records in an array ----------

  /** These octets have been written behind the first i0 of a0, and those behind them are as they were. */
  predicate Wrote(a0: seq<byte>, i0: nat, a1: seq<byte>, i1: nat, part: seq<byte>) {
    i0 + |part| == i1 <= |a0| == |a1| && a1[..i1] == a0[..i0] + part && a1[i1..] == a0[i1..]
  }

  lemma WroteMore(a0: seq<byte>, i0: nat, a1: seq<byte>, i1: nat, a2: seq<byte>, i2: nat,
                  part: seq<byte>, more: seq<byte>)
    requires Wrote(a0, i0, a1, i1, part) && Wrote(a1, i1, a2, i2, more)
    ensures Wrote(a0, i0, a2, i2, part + more)
  {
    Assoc(a0[..i0], part, more);
    DropTwice(a0, i1, |more|);
    DropTwice(a1, i1, |more|);
  }

  /** A number that is flagged is written, by ENCODE or ENCODEZ. */
  method WritePlace(c: Cursor, p: Place, n: u16)
    requires c.cp + |Part(p, n)| <= c.octets.Length
    modifies c`cp, c.octets
    ensures Wrote(old(c.octets[..]), old(c.cp), c.octets[..], c.cp, Part(p, n))
  {
    ghost var a0, i0 := c.octets[..], c.cp;
    if !p.flagged {
      assert a0[..i0] + [] == a0[..i0];
    } else if p.zeroToo {
      CodeOctets(n, true);
      c.EncodeZ(n);
    } else {
      CodeOctets(n, false);
      c.Encode(n);
    }
  }

  /** The flagged ones of these numbers are written, in order. */
  method WritePlaces(c: Cursor, ps: seq<Place>, ns: seq<u16>)
    requires |ps| == |ns| && c.cp + |Record(ps, ns)| <= c.octets.Length
    modifies c`cp, c.octets
    ensures Wrote(old(c.octets[..]), old(c.cp), c.octets[..], c.cp, Record(ps, ns))
    decreases |ps|
  {
    ghost var a0, i0 := c.octets[..], c.cp;
    if ps == [] {
      assert a0[..i0] + [] == a0[..i0];
    } else {
      ghost var part, more := Part(ps[0], ns[0]), Record(ps[1..], ns[1..]);
      assert |Record(ps, ns)| == |part| + |more|;
      WritePlace(c, ps[0], ns[0]);
      ghost var a1, i1 := c.octets[..], c.cp;
      WritePlaces(c, ps[1..], ns[1..]);
      WroteMore(a0, i0, a1, i1, c.octets[..], c.cp, part, more);
    }
  }

  lemma DropTwice(s: seq<byte>, i: nat, j: nat)
    requires i + j <= |s|
    ensures s[i..][j..] == s[i + j..]
  {
  }

  /** Reading at the first of these places takes the number n, and the octets t are left. */
  predicate Takes(ps: seq<Place>, s: seq<byte>, n: u16, t: seq<byte>) {
    ps != [] &&
    var r, more := ReadRecord(ps, s), ReadRecord(ps[1..], t);
    r.Some? && more.Some? && r.value == ([n] + more.value.0, more.value.1)
  }

  /** A record can be read here. */
  ghost predicate Ahead(c: Cursor, ps: seq<Place>)
    reads c`cp, c`octets, c.octets
  {
    c.cp <= c.octets.Length && ReadRecord(ps, c.octets[c.cp..]).Some?
  }

  /** The urgent pointer, when it is flagged. */
  method ReadU(form: Form, c: Cursor, flagged: bool, f: u16, ghost ps: seq<Place>) returns (g: u16, ghost n: u16)
    requires Ahead(c, ps) && ps != [] && ps[0].flagged == flagged
    modifies c`cp
    ensures Ahead(c, ps[1..]) && Takes(ps, old(c.octets[c.cp..]), n, c.octets[c.cp..])
    ensures g == if flagged then Swap16(form, n) else f
  {
    g, n := f, 0;
    ghost var s := c.octets[c.cp..];
    assert s[0..] == s;
    if flagged {
      n := Number(s).0;
      g := c.DecodeU(form);
    }
  }

  /** A 16-bit field, when it is flagged. */
  method ReadS(form: Form, c: Cursor, flagged: bool, f: u16, ghost ps: seq<Place>) returns (g: u16, ghost n: u16)
    requires Ahead(c, ps) && ps != [] && ps[0].flagged == flagged
    modifies c`cp
    ensures Ahead(c, ps[1..]) && Takes(ps, old(c.octets[c.cp..]), n, c.octets[c.cp..])
    ensures g == Update16(form, flagged, f, n)
  {
    g, n := f, 0;
    ghost var s := c.octets[c.cp..];
    assert s[0..] == s;
    if flagged {
      n := Number(s).0;
      g := c.DecodeS(form, f);
    }
  }

  /** A 32-bit field, when it is flagged. */
  method ReadL(form: Form, c: Cursor, flagged: bool, f: u32, ghost ps: seq<Place>) returns (g: u32, ghost n: u16)
    requires Ahead(c, ps) && ps != [] && ps[0].flagged == flagged
    modifies c`cp
    ensures Ahead(c, ps[1..]) && Takes(ps, old(c.octets[c.cp..]), n, c.octets[c.cp..])
    ensures g == Update32(form, flagged, f, n)
  {
    g, n := f, 0;
    ghost var s := c.octets[c.cp..];
    assert s[0..] == s;
    if flagged {
      n := Number(s).0;
      g := c.DecodeL(form, f);
    }
  }

  lemma TakesMore(ps: seq<Place>, s: seq<byte>, t: seq<byte>, ns: seq<u16>, rest: seq<byte>)
    requires ns != [] && Takes(ps, s, ns[0], t) && ReadRecord(ps[1..], t) == Some((ns[1..], rest))
    ensures ReadRecord(ps, s) == Some((ns, rest))
  {
    assert [ns[0]] + ns[1..] == ns;
  }

  /** A record is read into the stored header. */
  method ReadFields(form: Form, c: Cursor, mask: Mask, f: Stored) returns (g: Stored)
    requires Ahead(c, Places(mask))
    modifies c`cp
    ensures c.cp <= c.octets.Length
    ensures var r := ReadRecord(Places(mask), old(c.octets[c.cp..])).value;
            g == Update(form, mask, f, r.0) && c.octets[c.cp..] == r.1
  {
    ghost var ps, s0 := Places(mask), c.octets[c.cp..];
    ghost var n0, n1, n2, n3, n4, s1, s2;
    var u, w, a, s, i;
    u, w, a, n0, n1, n2, s1, s2 := ReadThree(form, c, mask, f, ps);
    ghost var s3 := c.octets[c.cp..];
    s, n3 := ReadL(form, c, mask.s, f.s, ps[3..]);
    ghost var s4 := c.octets[c.cp..];
    i, n4 := ReadS(form, c, mask.i, f.i, ps[4..]);
    g := Stored(u, w, a, s, i);
    FiveTaken(ps, s0, s1, s2, s3, s4, c.octets[c.cp..], n0, n1, n2, n3, n4);
  }

  /** The first three fields of a record. */
  method ReadThree(form: Form, c: Cursor, mask: Mask, f: Stored, ghost ps: seq<Place>)
      returns (u: u16, w: u16, a: u32, ghost n0: u16, ghost n1: u16, ghost n2: u16,
               ghost s1: seq<byte>, ghost s2: seq<byte>)
    requires ps == Places(mask) && Ahead(c, ps)
    modifies c`cp
    ensures Ahead(c, ps[3..])
    ensures Takes(ps, old(c.octets[c.cp..]), n0, s1) && Takes(ps[1..], s1, n1, s2)
    ensures Takes(ps[2..], s2, n2, c.octets[c.cp..])
    ensures u == (if mask.u then Swap16(form, n0) else f.u)
    ensures w == Update16(form, mask.w, f.w, n1) && a == Update32(form, mask.a, f.a, n2)
  {
    u, n0 := ReadU(form, c, mask.u, f.u, ps);
    s1 := c.octets[c.cp..];
    w, n1 := ReadS(form, c, mask.w, f.w, ps[1..]);
    s2 := c.octets[c.cp..];
    a, n2 := ReadL(form, c, mask.a, f.a, ps[2..]);
  }

  lemma FiveTaken(ps: seq<Place>,
                  s0: seq<byte>, s1: seq<byte>, s2: seq<byte>, s3: seq<byte>, s4: seq<byte>, s5: seq<byte>,
                  n0: u16, n1: u16, n2: u16, n3: u16, n4: u16)
    requires |ps| == 5 && Takes(ps, s0, n0, s1) && Takes(ps[1..], s1, n1, s2) && Takes(ps[2..], s2, n2, s3)
    requires Takes(ps[3..], s3, n3, s4) && Takes(ps[4..], s4, n4, s5)
    ensures ReadRecord(ps, s0) == Some(([n0, n1, n2, n3, n4], s5))
  {
    assert ps[1..][1..] == ps[2..] && ps[2..][1..] == ps[3..] && ps[3..][1..] == ps[4..] && ps[4..][1..] == [];
    var ns := [n0, n1, n2, n3, n4];
    assert ns[1..][1..] == ns[2..] && ns[2..][1..] == ns[3..] && ns[3..][1..] == ns[4..] && ns[4..][1..] == [];
    TakesMore(ps[4..], s4, s5, ns[4..], s5);
    TakesMore(ps[3..], s3, s4, ns[3..], s5);
    TakesMore(ps[2..], s2, s3, ns[2..], s5);
    TakesMore(ps[1..], s1, s2, ns[1..], s5);
    TakesMore(ps, s0, s1, ns, s5);
  }

  /** A record that is written into an array and read back from it takes the receiver from the sender's
      last header to its next one: repaired, always; as written, exactly when the bytes of the flagged fields
      allow it.  What follows it in the array is as it was. */
  method ThroughArray(form: Form, octets: array<byte>, x: Header, y: Header, mask: Mask, f: Stored)
      returns (g: Stored, n: nat)
    requires f == Store(form, x) && Sendable(x, y, mask) && octets.Length >= 15
    modifies octets
    ensures g == Store(form, y) <==> Kept(form, x, y, mask)
    ensures n == |Record(Places(mask), Changes(x, y))| <= 15
    ensures octets[n..] == old(octets[n..])
  {
    n := PutHeader(octets, x, y, mask);
    g := GetHeader(form, octets, f, mask, x, y, n);
  }

  method PutHeader(octets: array<byte>, x: Header, y: Header, mask: Mask) returns (n: nat)
    requires Sendable(x, y, mask) && octets.Length >= 15
    modifies octets
    ensures n == |Record(Places(mask), Changes(x, y))| <= 15
    ensures octets[..n] == Record(Places(mask), Changes(x, y)) && octets[n..] == old(octets[n..])
  {
    SendableIsWritable(x, y, mask);
    RecordRoundTrip(mask, Changes(x, y), []);
    var c := new Cursor(octets);
    WritePlaces(c, Places(mask), Changes(x, y));
    n := c.cp;
  }

  method GetHeader(form: Form, octets: array<byte>, f: Stored, mask: Mask,
                   ghost x: Header, ghost y: Header, ghost n: nat)
      returns (g: Stored)
    requires f == Store(form, x) && Sendable(x, y, mask)
    requires n <= octets.Length && octets[..n] == Record(Places(mask), Changes(x, y))
    ensures g == Store(form, y) <==> Kept(form, x, y, mask)
  {
    OneRecord(form, x, y, mask, octets[n..]);
    var c := new Cursor(octets);
    assert octets[0..] == octets[..n] + octets[n..];
    g := ReadFields(form, c, mask, f);
  }
}
