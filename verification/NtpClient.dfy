/** Timestamps of the time protocol: 32-bit seconds and 32-bit fractions of a second, in eight bytes. */
module NtpClient {
  newtype ulong = x: int | 0 <= x < 0x1_0000_0000_0000_0000
  newtype byte = x: int | 0 <= x < 0x100

  const SECOND: int := 0x1_0000_0000

  function Power256(n: nat): (r: nat)
    ensures r > 0
  {
    if n == 0 then 1 else 256 * Power256(n - 1)
  }

  /** The number that bytes stand for, the most significant first. */
  function Number(bytes: seq<byte>): (r: nat)
    ensures r < Power256(|bytes|)
  {
    if bytes == [] then 0 else 256 * Number(bytes[..|bytes| - 1]) + bytes[|bytes| - 1] as int
  }

  /** A number as `n` bytes. */
  function Bytes(v: nat, n: nat): (r: seq<byte>)
    ensures |r| == n
  {
    if n == 0 then [] else Bytes(v / 256, n - 1) + [(v % 256) as byte]
  }

  lemma {:induction false} NumberOfBytes(v: nat, n: nat)
    requires v < Power256(n)
    ensures Number(Bytes(v, n)) == v
  {
    if n > 0 {
      var b := Bytes(v, n);
      var high := v / 256;
      assert v == 256 * high + v % 256;
      assert high < Power256(n - 1);
      assert b[..n - 1] == Bytes(high, n - 1);
      NumberOfBytes(high, n - 1);
    }
  }

  /** The milliseconds that seconds and a fraction stand for; what is less than a millisecond is dropped. */
  function Milliseconds(seconds: nat, fraction: nat): nat {
    seconds * 1000 + fraction * 1000 / SECOND
  }

  function Fraction(milliseconds: nat): nat {
    milliseconds % 1000 * SECOND / 1000
  }

  class NtpClient {
    const NTPData: array<byte>

    constructor ()
      ensures fresh(NTPData) && NTPData.Length == 48
    {
      NTPData := new byte[48];
    }

    /** Writes four bytes from the last one on. */
    method SetNumber(from: nat, v: ulong)
      requires from + 4 <= NTPData.Length && v as int < SECOND
      modifies NTPData
      ensures NTPData[from..from + 4] == Bytes(v as int, 4)
      ensures NTPData[..from] == old(NTPData[..from]) && NTPData[from + 4..] == old(NTPData[from + 4..])
    {
      var temp := v;
      var i := 4;
      while i > 0
        invariant 0 <= i <= 4
        invariant NTPData[..from] == old(NTPData[..from]) && NTPData[from + 4..] == old(NTPData[from + 4..])
        invariant Bytes(v as int, 4) == Bytes(temp as int, i) + NTPData[from + i..from + 4]
      {
        i := i - 1;
        ghost var after := NTPData[from + i + 1..from + 4];
        NTPData[from + i] := (temp % 256) as byte;
        assert NTPData[from + i..from + 4] == [(temp % 256) as byte] + after;
        temp := temp / 256;
      }
    }

    method GetNumber(from: nat) returns (v: ulong)
      requires from + 4 <= NTPData.Length
      ensures v as int == Number(NTPData[from..from + 4]) < SECOND
    {
      v := 0;
      for i := 0 to 4
        invariant v as int == Number(NTPData[from..from + i]) < Power256(i)
      {
        assert NTPData[from..from + i + 1][..i] == NTPData[from..from + i];
        v := 256 * v + NTPData[from + i] as ulong;
      }
    }

    /** Writes a date, given in milliseconds since 1900; no intermediate result exceeds 64 bits. */
    method SetDate(offset: nat, milliseconds: ulong)
      requires offset + 8 <= NTPData.Length && milliseconds as int / 1000 < SECOND
      modifies NTPData
      ensures Number(NTPData[offset..offset + 4]) == milliseconds as int / 1000
      ensures Number(NTPData[offset + 4..offset + 8]) == Fraction(milliseconds as int)
      ensures NTPData[..offset] == old(NTPData[..offset]) && NTPData[offset + 8..] == old(NTPData[offset + 8..])
    {
      var intpart := milliseconds / 1000;
      var fractpart := milliseconds % 1000 * 0x1_0000_0000 / 1000;
      SetNumber(offset, intpart);
      assert NTPData[offset + 8..] == NTPData[offset + 4..][4..];
      ghost var seconds := NTPData[offset..offset + 4];
      SetNumber(offset + 4, fractpart);
      assert NTPData[offset..offset + 4] == NTPData[..offset + 4][offset..];
      assert NTPData[..offset] == NTPData[..offset + 4][..offset];
      NumberOfBytes(intpart as int, 4);
      NumberOfBytes(fractpart as int, 4);
    }

    method GetMilliSeconds(offset: nat) returns (milliseconds: ulong)
      requires offset + 8 <= NTPData.Length
      ensures milliseconds as int == Milliseconds(Number(NTPData[offset..offset + 4]),
              Number(NTPData[offset + 4..offset + 8]))
    {
      var intpart := GetNumber(offset);
      var fractpart := GetNumber(offset + 4);
      return intpart * 1000 + fractpart * 1000 / 0x1_0000_0000;
    }
  }

  /** What is read back after a date has been written. */
  function Trip(m: nat): nat {
    Milliseconds(m / 1000, Fraction(m))
  }

  /** 37 and 125 have no common factor. */
  lemma Divides37(r: nat)
    ensures r * 37 % 125 == 0 <==> r % 125 == 0
  {
    var k, l := r * 37 / 125, r / 125;
    if r * 37 % 125 == 0 {
      assert r == 98 * (r * 37) - 29 * 125 * r == 125 * (98 * k - 29 * r);
    }
    if r % 125 == 0 {
      assert r * 37 == 125 * (37 * l);
    }
  }

  lemma DividesFraction(r: nat)
    ensures r * SECOND % 1000 == 0 <==> r % 125 == 0
  {
    Divides37(r);
    EightTimes(r * 4294967, r * 37);
  }

  lemma EightTimes(a: nat, x: nat)
    ensures (1000 * a + 8 * x) % 1000 == 0 <==> x % 125 == 0
  {
    var k, l := x / 125, x % 125;
    assert x == 125 * k + l;
    assert 1000 * a + 8 * x == 1000 * (a + k) + 8 * l;
  }

  /** A date loses a millisecond when it is written and read, unless it is a multiple of an eighth of a second. */
  lemma TripLosesOne(m: nat)
    ensures Trip(m) == if m % 125 == 0 then m else m - 1
  {
    var r := m % 1000;
    var q, s := r * SECOND / 1000, r * SECOND % 1000;
    DividesFraction(r);
    assert q * 1000 == r * SECOND - s;
    if s == 0 {
      assert q * 1000 / SECOND == r;
    } else {
      assert q * 1000 == (r - 1) * SECOND + (SECOND - s);
      assert q * 1000 / SECOND == r - 1;
    }
    assert m % 125 == r % 125;
  }

  function Trips(m: nat, k: nat): nat {
    if k == 0 then m else Trips(Trip(m), k - 1)
  }

  /** However often a date is written and read, it loses no more than what it is past an eighth of a second. */
  lemma {:induction false} TripsLose(m: nat, k: nat)
    ensures Trips(m, k) == if m - k >= m / 125 * 125 then m - k else m / 125 * 125
  {
    if k > 0 {
      var l, next := m / 125, Trip(m);
      TripLosesOne(m);
      TripsLose(next, k - 1);
      assert m == 125 * l + m % 125;
      assert next / 125 == l;
    }
  }

  /** Reading back a date gives the milliseconds after one trip. */
  method WriteThenRead(client: NtpClient, offset: nat, milliseconds: ulong) returns (read: ulong)
    requires offset + 8 <= client.NTPData.Length && milliseconds as int / 1000 < SECOND
    modifies client.NTPData
    ensures read as int == if milliseconds as int % 125 == 0 then milliseconds as int else milliseconds as int - 1
  {
    client.SetDate(offset, milliseconds);
    read := client.GetMilliSeconds(offset);
    TripLosesOne(milliseconds as int);
  }

  /** Four times in milliseconds: sent and received back by the client, received and sent back by the server. */
  datatype Exchange = Exchange(originate: real, receive: real, transmit: real, reception: real)

  function RoundtripDelay(x: Exchange): real {
    (x.receive - x.originate) + (x.reception - x.transmit)
  }

  function LocalClockOffset(x: Exchange): real {
    ((x.receive - x.originate) - (x.reception - x.transmit)) / 2.0
  }

  /** What is read of a server's timestamp. */
  function Decoded(seconds: nat, fraction: nat): real {
    Milliseconds(seconds, fraction) as real
  }

  /** The time that a timestamp stands for, in milliseconds. */
  function Exact(seconds: nat, fraction: nat): real {
    seconds as real * 1000.0 + fraction as real * 1000.0 / SECOND as real
  }

  lemma DecodedIsNear(seconds: nat, fraction: nat)
    ensures Decoded(seconds, fraction) <= Exact(seconds, fraction) < Decoded(seconds, fraction) + 1.0
  {
    var x := fraction * 1000;
    var q, r := x / SECOND, x % SECOND;
    assert x == SECOND * q + r;
    assert fraction as real * 1000.0 == x as real == SECOND as real * q as real + r as real;
    assert fraction as real * 1000.0 / SECOND as real == q as real + r as real / SECOND as real;
  }

  /**
   * The offset found differs from the server's lead `t` by at most half the delay found, and one millisecond more
   * below. The client's time of sending is truncated to milliseconds and read back; the server's times are decoded.
   */
  lemma OffsetIsNear(sent: real, received: (nat, nat), replied: (nat, nat), reception: real, t: real)
    requires sent >= 0.0
    requires Exact(received.0, received.1) - sent >= t
    requires reception - Exact(replied.0, replied.1) >= -t
    ensures var x := Exchange(Trip(sent.Floor) as real, Decoded(received.0, received.1),
            Decoded(replied.0, replied.1), reception);
            t - RoundtripDelay(x) / 2.0 - 1.0 <= LocalClockOffset(x) <= t + RoundtripDelay(x) / 2.0
  {
    DecodedIsNear(received.0, received.1);
    DecodedIsNear(replied.0, replied.1);
    TripLosesOne(sent.Floor);
  }
}
