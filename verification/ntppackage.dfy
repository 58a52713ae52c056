/** The NTP wire codec: big-endian field access, the 64-bit timestamp format
    (whole seconds since 1900, then a 32-bit binary fraction of a second, as in
    section 6 of RFC 5905), the 48-byte request and response layout of section
    7.3 of RFC 5905, and the four-timestamp clock offset of section 8. */
module NtpPackage {
  import opened Common

  /** Milliseconds from the NTP epoch (1900-01-01) to the Unix epoch (1970-01-01). */
  const MS_JAN_1970: int := 0x20251FE2400

  /** Size in bytes of every packet the client sends or accepts. */
  const PACKET_SIZE: int := 48

  // ---------------------------------------------------------------------
  // Big-endian integers

  /** The reference reading of bytes as a big-endian unsigned number:
      the sum of `s[i] * 256^(|s| - 1 - i)`. */
  function BigEndian(s: seq<byte>): nat
  {
    if |s| == 0 then 0 else BigEndian(s[..|s| - 1]) * 0x100 + s[|s| - 1]
  }

  /** Four bytes, most significant first, as one number. */
  function Word(b0: int, b1: int, b2: int, b3: int): int
  {
    ((b0 * 0x100 + b1) * 0x100 + b2) * 0x100 + b3
  }

  lemma BigEndian4(s: seq<byte>)
    requires |s| == 4
    ensures BigEndian(s) == Word(s[0], s[1], s[2], s[3])
    ensures BigEndian(s) < 0x1_0000_0000
  {
    assert s[..3][..2] == s[..2] && s[..2][..1] == s[..1] && s[..1][..0] == [];
    assert BigEndian(s[..1]) == s[0] as int;
    assert BigEndian(s[..2]) == (s[0] as int) * 0x100 + s[1];
    assert BigEndian(s[..3]) == ((s[0] as int) * 0x100 + s[1]) * 0x100 + s[2];
  }

  /** `s_byteToUInt32`: the first four bytes of `bt` as a big-endian 32-bit
      number. The accumulator is a `quint32`; each shift is reduced modulo
      2^32 as the C++ does, and the invariant shows no reduction ever bites. */
  method ByteToUInt32(bt: seq<byte>) returns (value: uint32)
    requires |bt| >= 4
    ensures value == BigEndian(bt[..4])
    ensures value == Word(bt[0], bt[1], bt[2], bt[3])
  {
    value := 0;
    var i := 0;
    while i < 4
      invariant 0 <= i <= 4
      invariant value == BigEndian(bt[..i])
      invariant value < [1, 0x100, 0x1_0000, 0x100_0000, 0x1_0000_0000][i]
    {
      assert bt[..i + 1][..i] == bt[..i];
      value := ((value * 0x100) % 0x1_0000_0000 + bt[i]) % 0x1_0000_0000;
      i := i + 1;
    }
    BigEndian4(bt[..4]);
  }

  /** The value `s_byteToUInt32` reads from the four bytes of `bt` at offset
      `k` (`bt.mid(k, 4)`). */
  function UInt32At(bt: seq<byte>, k: nat): (v: uint32)
    requires k + 4 <= |bt|
  {
    Word(bt[k], bt[k + 1], bt[k + 2], bt[k + 3])
  }

  /** The word at offset `k` is the reference big-endian reading of the four
      bytes there. */
  lemma UInt32AtIsBigEndian(bt: seq<byte>, k: nat)
    requires k + 4 <= |bt|
    ensures UInt32At(bt, k) == BigEndian(bt[k..k + 4])
  {
    BigEndian4(bt[k..k + 4]);
  }

  /** The low `n` bytes of `x`, most significant first: the last byte is
      `x & 0xff` and the rest are those of `x >> 8`, the shift being
      arithmetic as on a signed 64-bit value. */
  function BigEndianBytes(x: int, n: nat): (r: seq<byte>)
    ensures |r| == n
    decreases n
  {
    if n == 0 then [] else BigEndianBytes(x / 0x100, n - 1) + [x % 0x100]
  }

  /** The four bytes `x >> 24 & 0xff`, `x >> 16 & 0xff`, `x >> 8 & 0xff`,
      `x & 0xff` of a signed 64-bit `x`. */
  function BE32(x: int): (r: seq<byte>)
    ensures |r| == 4
    ensures UInt32At(r, 0) == x % 0x1_0000_0000
  {
    BE32Value(x);
    BigEndianBytes(x, 4)
  }

  /** Byte `k` from the end of `BigEndianBytes(x, 4)` is `x >> 8k & 0xff`,
      and the four read back as `x` modulo 2^32. */
  lemma BE32Value(x: int)
    ensures BigEndianBytes(x, 4)
            == [(x / 0x100_0000) % 0x100, (x / 0x1_0000) % 0x100, (x / 0x100) % 0x100, x % 0x100]
    ensures UInt32At(BigEndianBytes(x, 4), 0) == x % 0x1_0000_0000
  {
    BE32Bytes(x);
    WordOfLowBytes(x);
  }

  /** The four bytes `BigEndianBytes` produces for a 32-bit field. */
  lemma BE32Bytes(x: int)
    ensures BigEndianBytes(x, 4)
            == [(x / 0x100_0000) % 0x100, (x / 0x1_0000) % 0x100, (x / 0x100) % 0x100, x % 0x100]
  {
    var a := x / 0x100;
    var b := a / 0x100;
    var c := b / 0x100;
    assert BigEndianBytes(x, 4) == [c % 0x100, b % 0x100, a % 0x100, x % 0x100] by {
      assert BigEndianBytes(c, 1) == [c % 0x100] by {
        assert BigEndianBytes(c / 0x100, 0) == [];
      }
      assert BigEndianBytes(b, 2) == [c % 0x100, b % 0x100];
      assert BigEndianBytes(a, 3) == [c % 0x100, b % 0x100, a % 0x100];
    }
    assert x / 0x1_0000 == b;
    assert x / 0x100_0000 == c;
  }

  /** The low four bytes of `x` read big-endian are `x` modulo 2^32. */
  lemma WordOfLowBytes(x: int)
    ensures Word((x / 0x100_0000) % 0x100, (x / 0x1_0000) % 0x100, (x / 0x100) % 0x100, x % 0x100)
            == x % 0x1_0000_0000
  {
    var a := x / 0x100;
    var b := a / 0x100;
    var c := b / 0x100;
    assert x / 0x1_0000 == b;
    assert x / 0x100_0000 == c;
    var w := Word(c % 0x100, b % 0x100, a % 0x100, x % 0x100);
    assert x == (c / 0x100) * 0x1_0000_0000 + w;
    assert 0 <= w < 0x1_0000_0000;
  }

  // ---------------------------------------------------------------------
  // 64-bit timestamps

  /** `s_millionSecondToByte64`: milliseconds since 1900 to the 8-byte NTP
      timestamp; whole seconds first, then the millisecond remainder as a
      32-bit binary fraction of a second. C++ `/` and `%` truncate. */
  function MsToByte64(ms: int): (r: seq<byte>)
    ensures |r| == 8
    ensures UInt32At(r, 0) == TruncDiv(ms, 1000) % 0x1_0000_0000
    ensures ms >= 0 ==>
              UInt32At(r, 4) * 1000 <= (ms % 1000) * 0x1_0000_0000 < UInt32At(r, 4) * 1000 + 1000
  {
    var f := FractionField(ms);
    assert ms >= 0 ==> f % 0x1_0000_0000 == f;
    Pack(TruncDiv(ms, 1000), f)
  }

  /** The fraction `s_millionSecondToByte64` computes: the millisecond
      remainder scaled by 2^32 / 1000 and truncated. */
  function FractionField(ms: int): (f: int)
    ensures ms >= 0 ==> 0 <= f < 0x1_0000_0000
    ensures ms >= 0 ==> f * 1000 <= (ms % 1000) * 0x1_0000_0000 < f * 1000 + 1000
  {
    var f := TruncDiv(TruncRem(ms, 1000) * 1000 * 0x1_0000_0000, 1_000_000);
    assert ms >= 0 ==> 0 <= f < 0x1_0000_0000 && f * 1000 <= (ms % 1000) * 0x1_0000_0000 < f * 1000 + 1000 by {
      if ms >= 0 {
        assert TruncRem(ms, 1000) == ms % 1000;
        FractionScale(ms % 1000, f);
      }
    }
    f
  }

  /** Two 32-bit fields side by side, each truncated to its low 32 bits. */
  function Pack(second: int, fraction: int): (r: seq<byte>)
    ensures |r| == 8
    ensures UInt32At(r, 0) == second % 0x1_0000_0000
    ensures UInt32At(r, 4) == fraction % 0x1_0000_0000
  {
    SplitWords(BE32(second), BE32(fraction));
    BE32(second) + BE32(fraction)
  }

  /** The two words of eight concatenated bytes are the words of the halves. */
  lemma SplitWords(hi: seq<byte>, lo: seq<byte>)
    requires |hi| == 4 && |lo| == 4
    ensures UInt32At(hi + lo, 0) == UInt32At(hi, 0)
    ensures UInt32At(hi + lo, 4) == UInt32At(lo, 0)
  {
    var r := hi + lo;
    assert r[0] == hi[0] && r[1] == hi[1] && r[2] == hi[2] && r[3] == hi[3];
    assert r[4] == lo[0] && r[5] == lo[1] && r[6] == lo[2] && r[7] == lo[3];
  }

  lemma FractionScale(r: int, fraction: int)
    requires 0 <= r < 1000
    requires fraction == TruncDiv(r * 1000 * 0x1_0000_0000, 1_000_000)
    ensures 0 <= fraction < 0x1_0000_0000
    ensures fraction * 1000 <= r * 0x1_0000_0000 < fraction * 1000 + 1000
  {
  }

  /** `s_byte64ToMillionSecond`: an 8-byte NTP timestamp to milliseconds
      since 1900; the fraction is scaled to milliseconds and floored. */
  function Byte64ToMs(bt: seq<byte>): (ms: int)
    requires |bt| >= 8
    ensures 0 <= ms < 1000 * 0x1_0000_0000
  {
    var second := UInt32At(bt, 0);
    var fraction := UInt32At(bt, 4);
    second * 1000 + fraction * 1000 / 0x1_0000_0000
  }

  /** The decoded milliseconds split back into the seconds field and the
      fraction field floored to whole milliseconds. */
  lemma Byte64ToMsFields(bt: seq<byte>)
    requires |bt| >= 8
    ensures Byte64ToMs(bt) / 1000 == UInt32At(bt, 0)
    ensures var ms := Byte64ToMs(bt) % 1000;
      ms * 0x1_0000_0000 <= UInt32At(bt, 4) * 1000 < (ms + 1) * 0x1_0000_0000
  {
  }

  /** 2^32 * t is a multiple of 1000 only when t is a multiple of 125, since
      125 is odd; below 125 that leaves t = 0. Modulo 125, 2^32 is 46 and
      106 is the inverse of 46. */
  lemma OddFactor(t: int, m: int)
    requires 0 <= t < 125
    requires t * 0x1_0000_0000 == 1000 * m
    ensures t == 0
  {
    var w := 8 * m - 34359738 * t;
    assert 46 * t == 125 * w;
    assert t == 125 * (106 * w - 39 * t);
  }

  /** The fraction field loses exactly one millisecond unless the millisecond
      remainder is a multiple of 125 (1000 * 2^32 / 10^6 is then whole). */
  lemma FractionRoundTrip(r: int, fraction: int)
    requires 0 <= r < 1000
    requires fraction * 1000 <= r * 0x1_0000_0000 < fraction * 1000 + 1000
    ensures fraction * 1000 / 0x1_0000_0000 == if r % 125 == 0 then r else r - 1
  {
    var e := r * 0x1_0000_0000 - fraction * 1000;
    assert 0 <= e < 1000;
    if r % 125 == 0 {
      var k := r / 125;
      assert r * 0x1_0000_0000 == 1000 * (k * 0x2000_0000);
      assert e % 1000 == 0;
      assert e == 0;
    } else {
      var t, q := r % 125, r / 125;
      if e == 0 {
        OddFactor(t, fraction - q * 0x2000_0000);
      }
      assert e != 0;
    }
  }

  lemma SecondsField(ms: int)
    requires 0 <= ms < 1000 * 0x1_0000_0000
    ensures TruncDiv(ms, 1000) % 0x1_0000_0000 == ms / 1000
  {
  }

  /** Encoding a millisecond timestamp and decoding it again returns it
      exactly when its millisecond part is a multiple of 125, and one
      millisecond early otherwise: the floored fraction is the only loss. */
  lemma TimestampRoundTrip(ms: int)
    requires 0 <= ms < 1000 * 0x1_0000_0000
    ensures Byte64ToMs(MsToByte64(ms)) == if (ms % 1000) % 125 == 0 then ms else ms - 1
    ensures ms - 1 <= Byte64ToMs(MsToByte64(ms)) <= ms
  {
    var bt := MsToByte64(ms);
    var second: int, fraction: int := UInt32At(bt, 0), UInt32At(bt, 4);
    SecondsField(ms);
    assert second == ms / 1000;
    FractionRoundTrip(ms % 1000, fraction);
    assert Byte64ToMs(bt) == second * 1000 + fraction * 1000 / 0x1_0000_0000;
  }

  // ---------------------------------------------------------------------
  // Packets

  /** One NTP packet, as the fields of `NTPPackage`. Timestamps are
      milliseconds since 1900. `echoBytes` is the raw 8-byte timestamp kept for
      correlation: the transmit field of a request, the origin field of a
      response. `localTimestamp` is the local clock when the packet was built
      (t0) or parsed (t3). */
  datatype Packet = Packet(
    li: uint8, vn: uint8, mode: uint8,
    stratum: uint8, poll: uint8, precision: int8,
    rootDelay: int32, rootDispersion: int32, referenceId: uint32,
    referenceTimestamp: int, originTimestamp: int,
    receiveTimestamp: int, transmitTimestamp: int,
    echoBytes: seq<byte>, localTimestamp: int)

  /** The packet the default constructor makes: leap 0, version 3, client
      mode 3, stratum 0, poll 4, precision -6, everything else zero. */
  const DEFAULT_PACKAGE: Packet :=
    Packet(0, 3, 3, 0, 4, -6, 0, 0, 0, 0, 0, 0, 0, [], 0)

  /** The local clock as an NTP millisecond count (`CURRENT_NTP_MILLION_SECOND`). */
  function NtpNow(unixNow: int): (ntp: int)
    ensures ntp == unixNow + (70 * 365 + 17) * 24 * 60 * 60 * 1000
  {
    MS_JAN_1970 + unixNow
  }

  /** Bitwise OR of two non-negative integers, bit by bit from the least
      significant. */
  function Or(a: nat, b: nat): nat
    decreases a + b
  {
    if a == 0 then b
    else if b == 0 then a
    else 2 * Or(a / 2, b / 2) + (if a % 2 == 1 || b % 2 == 1 then 1 else 0)
  }

  /** Byte 0 of a packet: `char((li << 6) | (vn << 3) | mode)`. The shifts
      happen on `int`, so nothing is lost before the cast keeps the low
      eight bits. */
  function HeaderByte(li: uint8, vn: uint8, mode: uint8): (b: byte)
    ensures li < 4 && vn < 8 && mode < 8 ==> b == li * 64 + vn * 8 + mode
  {
    var fields := Or(Or(li * 64, vn * 8), mode);
    if li < 4 && vn < 8 && mode < 8 then
      FieldsOr(li, vn, mode);
      LowByte(fields, li * 64 + vn * 8 + mode);
      fields % 0x100
    else
      fields % 0x100
  }

  /** The leap indicator field of a header byte, `b >> 6 & 0x3`. */
  function LeapOf(b: byte): (li: uint8)
    ensures li < 4
  {
    (b / 64) % 4
  }

  /** The version field of a header byte, `b >> 3 & 0x7`. */
  function VersionOf(b: byte): (vn: uint8)
    ensures vn < 8
  {
    (b / 8) % 8
  }

  /** The mode field of a header byte, `b & 0x7`. */
  function ModeOf(b: byte): (mode: uint8)
    ensures mode < 8
  {
    b % 8
  }

  /** Doubling both operands doubles their OR. */
  lemma OrDouble(a: nat, b: nat)
    ensures Or(2 * a, 2 * b) == 2 * Or(a, b)
  {
    if a != 0 && b != 0 {
      assert (2 * a) / 2 == a && (2 * b) / 2 == b;
    }
  }

  /** OR-ing a multiple of 8 with a number below 8 is addition: the bits do
      not overlap. */
  lemma {:induction false} OrLowBits(x: nat, m: nat)
    requires m < 8
    ensures Or(8 * x, m) == 8 * x + m
  {
    if x != 0 && m != 0 {
      assert Or(8 * x, m) == 2 * Or(4 * x, m / 2) + m % 2 by {
        assert (8 * x) / 2 == 4 * x && (8 * x) % 2 == 0;
      }
      if m / 2 != 0 {
        assert Or(4 * x, m / 2) == 2 * Or(2 * x, m / 4) + (m / 2) % 2 by {
          assert (4 * x) / 2 == 2 * x && (4 * x) % 2 == 0 && (m / 2) / 2 == m / 4;
        }
        if m / 4 != 0 {
          assert Or(2 * x, m / 4) == 2 * Or(x, 0) + 1 by {
            assert (2 * x) / 2 == x && (2 * x) % 2 == 0 && m / 4 == 1;
          }
        }
      }
    }
  }

  /** Multiplying both operands by 8 multiplies their OR by 8. */
  lemma OrTimesEight(a: nat, b: nat)
    ensures Or(8 * a, 8 * b) == 8 * Or(a, b)
  {
    OrDouble(a, b);
    OrDouble(2 * a, 2 * b);
    OrDouble(4 * a, 4 * b);
    assert 2 * (2 * a) == 4 * a && 2 * (2 * b) == 4 * b;
    assert 2 * (4 * a) == 8 * a && 2 * (4 * b) == 8 * b;
  }

  /** The leap and version fields shifted into place do not overlap. */
  lemma HighFields(li: nat, vn: nat)
    requires li < 4 && vn < 8
    ensures Or(li * 64, vn * 8) == li * 64 + vn * 8
  {
    var high := li * 8;
    OrTimesEight(high, vn);
    OrLowBits(li, vn);
    assert li * 64 == 8 * high;
  }

  /** A value known to fit in a byte survives the cast to `char`. */
  lemma LowByte(x: int, v: int)
    requires x == v && 0 <= v < 0x100
    ensures x % 0x100 == v
  {
  }

  /** The three fields shifted into place and OR-ed together add up. */
  lemma FieldsOr(li: nat, vn: nat, mode: nat)
    requires li < 4 && vn < 8 && mode < 8
    ensures Or(Or(li * 64, vn * 8), mode) == li * 64 + vn * 8 + mode
  {
    var high := li * 8 + vn;
    var fields := Or(li * 64, vn * 8);
    assert fields == 8 * high by {
      HighFields(li, vn);
    }
    OrLowBits(high, mode);
  }

  /** A byte is its three header fields laid side by side. */
  lemma FieldsSum(b: byte)
    ensures LeapOf(b) * 64 + VersionOf(b) * 8 + ModeOf(b) == b
  {
    var hi, lo := b / 8, b % 8;
    assert b == 8 * hi + lo;
    assert hi == 8 * (hi / 8) + hi % 8;
    assert b / 64 == hi / 8;
  }

  /** Every header byte is the encoding of the fields read back from it. */
  lemma HeaderFieldsCover(b: byte)
    ensures HeaderByte(LeapOf(b), VersionOf(b), ModeOf(b)) == b
  {
    FieldsSum(b);
  }

  /** The fields of a byte laid out from in-range fields are those fields. */
  lemma FieldsOfSum(li: nat, vn: nat, mode: nat)
    requires li < 4 && vn < 8 && mode < 8
    ensures LeapOf(li * 64 + vn * 8 + mode) == li
    ensures VersionOf(li * 64 + vn * 8 + mode) == vn
    ensures ModeOf(li * 64 + vn * 8 + mode) == mode
  {
    var b := li * 64 + vn * 8 + mode;
    assert b / 8 == li * 8 + vn;
    assert b / 64 == li;
  }

  /** Reading the header back recovers leap, version and mode when each fits its field. */
  lemma HeaderRoundTrip(li: uint8, vn: uint8, mode: uint8)
    requires li < 4 && vn < 8 && mode < 8
    ensures LeapOf(HeaderByte(li, vn, mode)) == li
    ensures VersionOf(HeaderByte(li, vn, mode)) == vn
    ensures ModeOf(HeaderByte(li, vn, mode)) == mode
  {
    FieldsOfSum(li, vn, mode);
  }

  /** The result of `toByteArray`: the wire bytes and the packet with its
      send time and transmit-timestamp bytes filled in. */
  datatype Encoded = Encoded(wire: seq<byte>, sent: Packet)

  // ---------------------------------------------------------------------
  // Copying a byte array as a C string

  /** The number of bytes before the first zero byte of `s`, or `|s|` when
      there is none: how much `QByteArray::replace(int, int, const char*)`
      copies, since it measures its argument with `qstrlen`. */
  function CStrLen(s: seq<byte>): (n: nat)
    ensures n <= |s|
    ensures forall i :: 0 <= i < n ==> s[i] != 0
    ensures n < |s| ==> s[n] == 0
    decreases |s|
  {
    if |s| == 0 || s[0] == 0 then 0 else 1 + CStrLen(s[1..])
  }

  /** What a C-string copy of `s` leaves in a zero-filled buffer of the same
      length: the bytes of `s` before its first zero byte, then zeros. */
  function Terminated(s: seq<byte>): (t: seq<byte>)
    ensures |t| == |s|
    ensures forall i :: 0 <= i < |s| ==> t[i] == (if i < CStrLen(s) then s[i] else 0)
  {
    s[..CStrLen(s)] + seq(|s| - CStrLen(s), _ => 0)
  }

  /** A byte sequence survives a C-string copy when nothing but zeros follows
      its first zero byte. */
  predicate SurvivesCopy(s: seq<byte>)
  {
    forall i :: CStrLen(s) <= i < |s| ==> s[i] == 0
  }

  /** The copy is exact precisely for the sequences that survive it, and in
      particular for every sequence without a zero byte. */
  lemma TerminatedExact(s: seq<byte>)
    ensures Terminated(s) == s <==> SurvivesCopy(s)
    ensures (forall i :: 0 <= i < |s| ==> s[i] != 0) ==> Terminated(s) == s
  {
    var t := Terminated(s);
    if SurvivesCopy(s) {
      assert forall i :: 0 <= i < |s| ==> t[i] == s[i];
    }
    if t == s {
      forall i | CStrLen(s) <= i < |s|
        ensures s[i] == 0
      {
        assert t[i] == 0;
      }
    }
  }

  /** A time one millisecond past a whole second has the fraction field
      0x418937: its first byte is zero and the three after it are not, so
      its encoding does not survive a C-string copy. */
  lemma OneMsPastSecond(ms: int)
    requires ms >= 0 && ms % 1000 == 1
    ensures var s := MsToByte64(ms);
      s[4] == 0 && s[5] == 0x41 && s[6] == 0x89 && s[7] == 0x37
    ensures !SurvivesCopy(MsToByte64(ms))
  {
    var s := MsToByte64(ms);
    assert UInt32At(s, 4) == 0x418937;
    WordBytes(s[4], s[5], s[6], s[7], 0, 0x41, 0x89, 0x37);
    assert CStrLen(s) <= 4;
  }

  /** A word determines its four bytes. */
  lemma WordBytes(a0: byte, a1: byte, a2: byte, a3: byte, b0: byte, b1: byte, b2: byte, b3: byte)
    requires Word(a0, a1, a2, a3) == Word(b0, b1, b2, b3)
    ensures a0 == b0 && a1 == b1 && a2 == b2 && a3 == b3
  {
    assert a3 == Word(a0, a1, a2, a3) % 0x100 == Word(b0, b1, b2, b3) % 0x100 == b3;
    assert (a0 * 0x100 + a1) * 0x100 + a2 == (b0 * 0x100 + b1) * 0x100 + b2;
    assert a2 == b2;
    assert a0 * 0x100 + a1 == b0 * 0x100 + b1;
  }

  // ---------------------------------------------------------------------
  // Building the request

  /** The request with the whole transmit timestamp in bytes 40..47: the
      header bytes, 36 zero bytes, then the eight bytes of the send time,
      which are also kept as `echoBytes`. This is the layout the request is
      meant to have; `ToByteArray` is what the source's copy produces. */
  function ToByteArrayFullStamp(p: Packet, unixNow: int): (e: Encoded)
    ensures |e.wire| == PACKET_SIZE
    ensures e.wire[0] == HeaderByte(p.li, p.vn, p.mode)
    ensures e.wire[1] == p.stratum && e.wire[2] == p.poll
    ensures AsInt8(e.wire[3]) == p.precision
    ensures forall i :: 4 <= i < 40 ==> e.wire[i] == 0
    ensures e.sent.localTimestamp == NtpNow(unixNow)
    ensures e.wire[40..] == e.sent.echoBytes == MsToByte64(e.sent.localTimestamp)
    ensures e.sent == p.(echoBytes := e.sent.echoBytes, localTimestamp := e.sent.localTimestamp)
  {
    var local := NtpNow(unixNow);
    var stamp := MsToByte64(local);
    var precisionByte := p.precision % 0x100;
    Int8RoundTrip(p.precision);
    var head := [HeaderByte(p.li, p.vn, p.mode), p.stratum, p.poll, precisionByte];
    var wire := head + seq(36, _ => 0) + stamp;
    assert wire[40..] == stamp;
    Encoded(wire, p.(echoBytes := stamp, localTimestamp := local))
  }

  /** `toByteArray`, with the local clock reading passed in. The header bytes
      go into a 48-byte zero array, and the transmit timestamp is written with
      `replace(40, 8, tTs.data())`, which copies it only up to its first zero
      byte and drops the rest of the array: the result is 48 bytes long only
      when the timestamp has no zero byte. The whole eight timestamp bytes
      are kept as `echoBytes`. */
  function ToByteArray(p: Packet, unixNow: int): (e: Encoded)
    ensures |e.wire| == 40 + CStrLen(e.sent.echoBytes)
    ensures |e.wire| == PACKET_SIZE <==> 0 !in e.sent.echoBytes
    ensures e.wire[0] == HeaderByte(p.li, p.vn, p.mode)
    ensures e.wire[1] == p.stratum && e.wire[2] == p.poll
    ensures AsInt8(e.wire[3]) == p.precision
    ensures forall i :: 4 <= i < 40 ==> e.wire[i] == 0
    ensures e.wire[40..] == e.sent.echoBytes[..CStrLen(e.sent.echoBytes)]
    ensures e.sent.localTimestamp == NtpNow(unixNow)
    ensures e.sent.echoBytes == MsToByte64(e.sent.localTimestamp)
    ensures e.sent == p.(echoBytes := e.sent.echoBytes, localTimestamp := e.sent.localTimestamp)
  {
    var full := ToByteArrayFullStamp(p, unixNow);
    var stamp := full.sent.echoBytes;
    var n := CStrLen(stamp);
    ShortenedStamp(full.wire, stamp, n);
    assert n == 8 <==> 0 !in stamp by {
      if n < 8 {
        assert stamp[n] in stamp;
      }
    }
    Encoded(full.wire[..40 + n], full.sent)
  }

  /** Cutting a 48-byte request after `n` bytes of its stamp keeps the first
      40 bytes and the stamp's first `n` bytes. */
  lemma ShortenedStamp(full: seq<byte>, stamp: seq<byte>, n: nat)
    requires |full| == PACKET_SIZE && full[40..] == stamp && n <= |stamp|
    ensures |full[..40 + n]| == 40 + n
    ensures full[..40 + n][40..] == stamp[..n]
    ensures forall i :: 0 <= i < 40 ==> full[..40 + n][i] == full[i]
  {
    assert full[..40 + n][40..] == full[40..][..n];
  }

  /** `write(bytes, 48)` of an encoded request: 48 bytes from the start of
      the array, where the bytes past a shortened array are the untouched
      zeros of the 48-byte buffer `toByteArray` allocated. */
  function Datagram(wire: seq<byte>): (d: seq<byte>)
    requires |wire| <= PACKET_SIZE
    ensures |d| == PACKET_SIZE
    ensures forall i :: 0 <= i < |wire| ==> d[i] == wire[i]
    ensures forall i :: |wire| <= i < PACKET_SIZE ==> d[i] == 0
  {
    wire + seq(PACKET_SIZE - |wire|, _ => 0)
  }

  /** The datagram a request puts on the wire is the full-stamp request
      with its timestamp bytes replaced by their C-string copy; it equals the
      full-stamp request exactly when the timestamp survives the copy. */
  lemma RequestDatagram(p: Packet, unixNow: int)
    ensures var e := ToByteArray(p, unixNow);
      var full := ToByteArrayFullStamp(p, unixNow);
      && Datagram(e.wire)[..40] == full.wire[..40]
      && Datagram(e.wire)[40..] == Terminated(e.sent.echoBytes)
      && (Datagram(e.wire) == full.wire <==> SurvivesCopy(e.sent.echoBytes))
  {
    var e := ToByteArray(p, unixNow);
    var full := ToByteArrayFullStamp(p, unixNow);
    var d := Datagram(e.wire);
    var stamp := e.sent.echoBytes;
    assert full.wire[40..] == stamp && e.wire[..40] == full.wire[..40];
    PaddedHead(e.wire, full.wire);
    PaddedCopy(e.wire, stamp);
    TerminatedExact(stamp);
    SplitAt40(d, full.wire);
  }

  /** Two 48-byte sequences are equal exactly when their first 40 bytes and
      their last 8 bytes are. */
  lemma SplitAt40(a: seq<byte>, b: seq<byte>)
    requires |a| == PACKET_SIZE && |b| == PACKET_SIZE
    ensures a == b <==> a[..40] == b[..40] && a[40..] == b[40..]
  {
    assert a == a[..40] + a[40..];
    assert b == b[..40] + b[40..];
  }

  /** Padding a request whose first 40 bytes are those of `full` keeps them. */
  lemma PaddedHead(w: seq<byte>, full: seq<byte>)
    requires 40 <= |w| <= PACKET_SIZE && 40 <= |full|
    requires w[..40] == full[..40]
    ensures Datagram(w)[..40] == full[..40]
  {
    var d := Datagram(w);
    forall i | 0 <= i < 40
      ensures d[..40][i] == full[..40][i]
    {
      assert d[i] == w[i] == w[..40][i];
    }
  }

  /** Padding a request whose bytes from 40 on are the C-string copy of `s`
      leaves `Terminated(s)` in bytes 40..47. */
  lemma PaddedCopy(w: seq<byte>, s: seq<byte>)
    requires |s| == 8 && |w| == 40 + CStrLen(s)
    requires w[40..] == s[..CStrLen(s)]
    ensures Datagram(w)[40..] == Terminated(s)
  {
    var d := Datagram(w);
    var n := CStrLen(s);
    forall i | 0 <= i < 8
      ensures d[40..][i] == Terminated(s)[i]
    {
      if i < n {
        assert d[40 + i] == w[40 + i] == w[40..][i];
      }
    }
  }

  /** The datagram sent for a request, as one sequence: the intended first
      40 bytes, then the copied transmit stamp. */
  lemma SentRequest(p: Packet, unixNow: int)
    ensures var e := ToByteArray(p, unixNow);
      && |Datagram(e.wire)| == PACKET_SIZE
      && Datagram(e.wire)[40..] == Terminated(e.sent.echoBytes)
      && Datagram(e.wire) == ToByteArrayFullStamp(p, unixNow).wire[..40] + Terminated(e.sent.echoBytes)
  {
    var e := ToByteArray(p, unixNow);
    RequestDatagram(p, unixNow);
    JoinAt(Datagram(e.wire), ToByteArrayFullStamp(p, unixNow).wire[..40], Terminated(e.sent.echoBytes));
  }

  /** A sequence is its head followed by its tail. */
  lemma JoinAt(d: seq<byte>, head: seq<byte>, tail: seq<byte>)
    requires |head| <= |d| && d[..|head|] == head && d[|head|..] == tail
    ensures d == head + tail
  {
    assert d == d[..|head|] + d[|head|..];
  }

  /** The default request starts 0x1B (leap 0, version 3, mode 3), then
      stratum 0, poll 4 and precision -6 as the byte 0xFA. */
  lemma DefaultRequestHeader(unixNow: int)
    ensures ToByteArray(DEFAULT_PACKAGE, unixNow).wire[..4] == [0x1B, 0, 4, 0xFA]
  {
    var w := ToByteArray(DEFAULT_PACKAGE, unixNow).wire;
    assert w[3] == 0xFA by {
      assert AsInt8(w[3]) == -6;
    }
  }

  /** The corrected encoder writes the same default header. */
  lemma DefaultRequestHeaderFull(unixNow: int)
    ensures ToByteArrayFullStamp(DEFAULT_PACKAGE, unixNow).wire[..4] == [0x1B, 0, 4, 0xFA]
  {
    var w := ToByteArrayFullStamp(DEFAULT_PACKAGE, unixNow).wire;
    assert w[3] == 0xFA by {
      assert AsInt8(w[3]) == -6;
    }
  }

  /** `parseByByteArray`, with the local clock reading passed in: unpacks the
      header, the three 32-bit fields and the four timestamps, and keeps the
      origin-timestamp bytes 24..31 verbatim for correlation. */
  function Parse(bytes: seq<byte>, unixNow: int): (p: Packet)
    requires |bytes| >= PACKET_SIZE
    ensures p.li < 4 && p.vn < 8 && p.mode < 8
    ensures p.stratum == bytes[1] && p.poll == bytes[2]
    ensures p.precision % 0x100 == bytes[3]
    ensures p.rootDelay % 0x1_0000_0000 == UInt32At(bytes, 4)
    ensures p.rootDispersion % 0x1_0000_0000 == UInt32At(bytes, 8)
    ensures p.referenceId == UInt32At(bytes, 12)
    ensures p.referenceTimestamp == Byte64ToMs(bytes[16..24])
    ensures p.originTimestamp == Byte64ToMs(bytes[24..32])
    ensures p.receiveTimestamp == Byte64ToMs(bytes[32..40])
    ensures p.transmitTimestamp == Byte64ToMs(bytes[40..48])
    ensures p.echoBytes == bytes[24..32]
    ensures p.localTimestamp == NtpNow(unixNow)
  {
    Packet(
      LeapOf(bytes[0]), VersionOf(bytes[0]), ModeOf(bytes[0]),
      bytes[1], bytes[2], AsInt8(bytes[3]),
      AsInt32(UInt32At(bytes, 4)), AsInt32(UInt32At(bytes, 8)), UInt32At(bytes, 12),
      Byte64ToMs(bytes[16..24]), Byte64ToMs(bytes[24..32]),
      Byte64ToMs(bytes[32..40]), Byte64ToMs(bytes[40..48]),
      bytes[24..32], NtpNow(unixNow))
  }

  /** The offset computed from a parsed reply uses the origin bytes 24..31 as
      the client's send time t0, bytes 32..39 as the server's receive time
      t1, bytes 40..47 as the server's send time t2, and the clock reading at
      parse time as t3. */
  lemma ParseOffset(bytes: seq<byte>, unixNow: int)
    requires |bytes| >= PACKET_SIZE
    ensures var s := Byte64ToMs(bytes[32..40]) - Byte64ToMs(bytes[24..32])
                   + Byte64ToMs(bytes[40..48]) - NtpNow(unixNow);
      var offset := CalcOffset(Parse(bytes, unixNow));
      && (s >= 0 ==> 2 * offset <= s <= 2 * offset + 1)
      && (s < 0 ==> 2 * offset - 1 <= s <= 2 * offset)
  {
  }

  /** The leap, version and mode `parseByByteArray` reads re-encode to the
      header byte it read them from: no header byte is misread. */
  lemma ParseHeader(bytes: seq<byte>, unixNow: int)
    requires |bytes| >= PACKET_SIZE
    ensures var p := Parse(bytes, unixNow);
      HeaderByte(p.li, p.vn, p.mode) == bytes[0]
  {
    HeaderFieldsCover(bytes[0]);
  }

  /** `q` carries the leap, version, mode, stratum, poll and precision of `p`. */
  predicate SameHeader(q: Packet, p: Packet)
  {
    && q.li == p.li && q.vn == p.vn && q.mode == p.mode
    && q.stratum == p.stratum && q.poll == p.poll && q.precision == p.precision
  }

  /** Every field a request leaves unset reads as zero: delay, dispersion,
      reference id, the reference, origin and receive times, and the eight
      origin bytes. */
  predicate UnsetFieldsZero(q: Packet)
  {
    && q.rootDelay == 0 && q.rootDispersion == 0 && q.referenceId == 0
    && q.referenceTimestamp == 0 && q.originTimestamp == 0 && q.receiveTimestamp == 0
    && q.echoBytes == [0, 0, 0, 0, 0, 0, 0, 0]
  }

  /** When the send time's bytes `stamp` survive the copy, the parsed
      transmit time is the send time `ms`, at most one millisecond early. */
  predicate SendTimeRecovered(q: Packet, stamp: seq<byte>, ms: int)
  {
    SurvivesCopy(stamp) ==> ms - 1 <= q.transmitTimestamp <= ms
  }

  /** Parsing the datagram a request puts on the wire recovers its header
      fields when each fits its bit field. */
  lemma RequestHeaderRoundTrip(p: Packet, unixNow: int, laterNow: int)
    requires p.li < 4 && p.vn < 8 && p.mode < 8
    ensures SameHeader(Parse(Datagram(ToByteArray(p, unixNow).wire), laterNow), p)
  {
    var w := ToByteArray(p, unixNow).wire;
    var d := Datagram(w);
    assert d[0] == w[0] && d[1] == w[1] && d[2] == w[2] && d[3] == w[3];
    var q := Parse(d, laterNow);
    assert q.li == p.li && q.vn == p.vn && q.mode == p.mode by {
      HeaderRoundTrip(p.li, p.vn, p.mode);
    }
    assert q.precision == AsInt8(w[3]);
  }

  /** Eight zero bytes from offset `a` decode as timestamp 0. */
  lemma ZeroStampAt(w: seq<byte>, a: nat)
    requires a + 8 <= |w|
    requires forall i :: a <= i < a + 8 ==> w[i] == 0
    ensures Byte64ToMs(w[a..a + 8]) == 0
  {
    var t := w[a..a + 8];
    assert t[0] == w[a] && t[1] == w[a + 1] && t[2] == w[a + 2] && t[3] == w[a + 3];
    assert t[4] == w[a + 4] && t[5] == w[a + 5] && t[6] == w[a + 6] && t[7] == w[a + 7];
  }

  /** A packet whose bytes 4..39 are zero parses with zero delay,
      dispersion, reference id and reference, origin and receive timestamps,
      and with eight zero echo bytes. */
  lemma ParseZeroFields(w: seq<byte>, unixNow: int)
    requires |w| >= PACKET_SIZE
    requires forall i :: 4 <= i < 40 ==> w[i] == 0
    ensures UnsetFieldsZero(Parse(w, unixNow))
  {
    assert w[4] == w[5] == w[6] == w[7] == w[8] == w[9] == w[10] == w[11] == 0;
    assert w[12] == w[13] == w[14] == w[15] == 0;
    ZeroStampAt(w, 16);
    ZeroStampAt(w, 24);
    ZeroStampAt(w, 32);
    ZeroBytesAt(w, 24);
  }

  /** Eight zero bytes starting at `a`. */
  lemma ZeroBytesAt(w: seq<byte>, a: nat)
    requires a + 8 <= |w|
    requires forall i :: a <= i < a + 8 ==> w[i] == 0
    ensures w[a..a + 8] == [0, 0, 0, 0, 0, 0, 0, 0]
  {
    var t := w[a..a + 8];
    assert t[0] == w[a] && t[1] == w[a + 1] && t[2] == w[a + 2] && t[3] == w[a + 3];
    assert t[4] == w[a + 4] && t[5] == w[a + 5] && t[6] == w[a + 6] && t[7] == w[a + 7];
  }

  /** The transmit timestamp parsed from the datagram a request puts on the
      wire is the C-string copy of the send time's bytes decoded; when those
      bytes survive the copy it is the send time, at most one millisecond
      early. */
  lemma RequestTransmitRoundTrip(p: Packet, unixNow: int, laterNow: int)
    requires 0 <= NtpNow(unixNow) < 1000 * 0x1_0000_0000
    ensures var e := ToByteArray(p, unixNow);
      var q := Parse(Datagram(e.wire), laterNow);
      && q.transmitTimestamp == Byte64ToMs(Terminated(e.sent.echoBytes))
      && SendTimeRecovered(q, e.sent.echoBytes, NtpNow(unixNow))
  {
    var e := ToByteArray(p, unixNow);
    RequestDatagram(p, unixNow);
    CopiedStampDecodes(NtpNow(unixNow), Datagram(e.wire));
  }

  /** Bytes 40..47 holding the C-string copy of the encoding of `ms` decode
      as that copy does, and as `ms` or one millisecond less when the
      encoding survives the copy. */
  lemma CopiedStampDecodes(ms: int, d: seq<byte>)
    requires 0 <= ms < 1000 * 0x1_0000_0000
    requires |d| == PACKET_SIZE && d[40..] == Terminated(MsToByte64(ms))
    ensures Byte64ToMs(d[40..48]) == Byte64ToMs(Terminated(MsToByte64(ms)))
    ensures SurvivesCopy(MsToByte64(ms)) ==> ms - 1 <= Byte64ToMs(d[40..48]) <= ms
  {
    assert d[40..48] == d[40..];
    if SurvivesCopy(MsToByte64(ms)) {
      TerminatedExact(MsToByte64(ms));
      TimestampRoundTrip(ms);
    }
  }

  /** Parsing the datagram a request puts on the wire recovers its header
      fields, sees zero in every field the request leaves unset, and, when the
      send time's bytes survive the copy, recovers the send time to within
      one millisecond. */
  lemma RequestParseRoundTrip(p: Packet, unixNow: int, laterNow: int)
    requires p.li < 4 && p.vn < 8 && p.mode < 8
    requires 0 <= NtpNow(unixNow) < 1000 * 0x1_0000_0000
    ensures var e := ToByteArray(p, unixNow);
      var q := Parse(Datagram(e.wire), laterNow);
      && SameHeader(q, p)
      && UnsetFieldsZero(q)
      && SendTimeRecovered(q, e.sent.echoBytes, NtpNow(unixNow))
  {
    var e := ToByteArray(p, unixNow);
    var q := Parse(Datagram(e.wire), laterNow);
    assert SameHeader(q, p) && UnsetFieldsZero(q) by {
      RequestHeaderRoundTrip(p, unixNow, laterNow);
      RequestUnsetFields(p, unixNow, laterNow);
    }
    RequestTransmitRoundTrip(p, unixNow, laterNow);
  }

  /** Parsing the datagram of a request reads zero in every field the
      request leaves unset. */
  lemma RequestUnsetFields(p: Packet, unixNow: int, laterNow: int)
    ensures UnsetFieldsZero(Parse(Datagram(ToByteArray(p, unixNow).wire), laterNow))
  {
    ParseZeroFields(Datagram(ToByteArray(p, unixNow).wire), laterNow);
  }

  /** `calcOffset`: `(t1 - t0 + t2 - t3) / 2` with C++ truncating division,
      where t0 is the echoed send time, t1 the server's receive time, t2 the
      server's transmit time and t3 the local receive time. */
  function CalcOffset(p: Packet): (offset: int)
    ensures var s := p.receiveTimestamp - p.originTimestamp + p.transmitTimestamp - p.localTimestamp;
      && (s >= 0 ==> 2 * offset <= s <= 2 * offset + 1)
      && (s < 0 ==> 2 * offset - 1 <= s <= 2 * offset)
  {
    TruncDiv(p.receiveTimestamp - p.originTimestamp + p.transmitTimestamp - p.localTimestamp, 2)
  }

  /** With the same network delay each way (t1 = t0 + offset + delay and
      t3 = t2 - offset + delay), `calcOffset` recovers the clock offset exactly. */
  lemma CalcOffsetSymmetricDelay(p: Packet, offset: int, delay: int)
    requires p.receiveTimestamp == p.originTimestamp + offset + delay
    requires p.localTimestamp == p.transmitTimestamp - offset + delay
    ensures CalcOffset(p) == offset
  {
  }

  /** t0 = 1000, t1 = 1050, t2 = 1060, t3 = 1010 gives an offset of 50; a
      difference sum of -3 truncates to -1, not -2. */
  lemma CalcOffsetExamples()
    ensures CalcOffset(DEFAULT_PACKAGE.(originTimestamp := 1000, receiveTimestamp := 1050,
                                        transmitTimestamp := 1060, localTimestamp := 1010)) == 50
    ensures CalcOffset(DEFAULT_PACKAGE.(receiveTimestamp := -3)) == -1
  {
  }

  /** `checkByOriginTimestamp`: the echoed bytes equal `ots` byte for byte. */
  function CheckByOriginTimestamp(p: Packet, ots: seq<byte>): (ok: bool)
    ensures ok <==> |p.echoBytes| == |ots| && forall i :: 0 <= i < |ots| ==> p.echoBytes[i] == ots[i]
  {
    p.echoBytes == ots
  }
}
