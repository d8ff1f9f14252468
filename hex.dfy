/**
 * `buf2hex` from src/routes/upload.ts: every byte of a buffer becomes
 * `x.toString(16).padStart(2, "0")`, and the pieces are joined in order.
 * The decoder `HexDecode` is the inverse the upload code relies on
 * implicitly: it shows that the encoding loses nothing.
 */
module Hex {
  import opened Wrappers

  /** One element of a `Uint8Array`. */
  type Byte = b: int | 0 <= b < 256

  /** The lower-case digits `Number.prototype.toString(16)` produces. */
  predicate IsHexDigit(c: char) {
    '0' <= c <= '9' || 'a' <= c <= 'f'
  }

  function DigitChar(d: int): (c: char)
    requires 0 <= d < 16
    ensures IsHexDigit(c)
  {
    if d < 10 then ('0' as int + d) as char else ('a' as int + d - 10) as char
  }

  /** The value of one lower-case hexadecimal digit, or None for any other character. */
  function DigitValue(c: char): (r: Option<int>)
    ensures r.Some? <==> IsHexDigit(c)
    ensures r.Some? ==> 0 <= r.value < 16 && DigitChar(r.value) == c
  {
    if '0' <= c <= '9' then Some(c as int - '0' as int)
    else if 'a' <= c <= 'f' then Some(c as int - 'a' as int + 10)
    else None
  }

  lemma DigitValueOfChar(d: int)
    requires 0 <= d < 16
    ensures DigitValue(DigitChar(d)) == Some(d)
  {
  }

  /**
   * `n.toString(16)` for a non-negative integer: its base-16 digits, most
   * significant first, without leading zeros.
   */
  function ToRadix16(n: nat): (s: string)
    ensures 1 <= |s|
    ensures |s| == 1 <==> n < 16
    decreases n
  {
    if n < 16 then [DigitChar(n)] else ToRadix16(n / 16) + [DigitChar(n % 16)]
  }

  /** Every digit `toString(16)` writes is a lower-case hexadecimal digit. */
  lemma {:induction false} ToRadix16Digits(n: nat)
    ensures forall i :: 0 <= i < |ToRadix16(n)| ==> IsHexDigit(ToRadix16(n)[i])
    decreases n
  {
    if n >= 16 {
      ToRadix16Digits(n / 16);
      var high, low := ToRadix16(n / 16), [DigitChar(n % 16)];
      assert ToRadix16(n) == high + low;
      assert forall i :: 0 <= i < |high + low| ==> (high + low)[i] == if i < |high| then high[i] else low[i - |high|];
    }
  }

  /** `s.padStart(width, fill)` with a one-character fill string. */
  function PadStart(s: string, width: nat, fill: char): (r: string)
    ensures |r| == if |s| < width then width else |s|
    ensures r[|r| - |s|..] == s
  {
    if |s| < width then seq(width - |s|, _ => fill) + s else s
  }

  /** The characters `padStart` adds in front are all the fill character. */
  lemma PadStartFill(s: string, width: nat, fill: char)
    ensures var r := PadStart(s, width, fill);
      forall i :: 0 <= i < |r| - |s| ==> r[i] == fill
  {
  }

  /** One byte as `buf2hex` formats it: `x.toString(16).padStart(2, "0")`. */
  function FormatByte(b: Byte): (r: string)
    ensures |r| == 2
  {
    PadStart(ToRadix16(b), 2, '0')
  }

  /** The two-digit lower-case form of a byte, high nibble first. */
  function ByteToHex(b: Byte): (r: string)
    ensures |r| == 2 && IsHexDigit(r[0]) && IsHexDigit(r[1])
  {
    [DigitChar(b / 16), DigitChar(b % 16)]
  }

  /** `toString(16)` padded to two characters is exactly the two-digit form, for every byte. */
  lemma FormatByteIsTwoDigits(b: Byte)
    ensures FormatByte(b) == ByteToHex(b)
  {
    if b < 16 {
      assert ToRadix16(b) == [DigitChar(b)];
      assert FormatByte(b) == ['0'] + [DigitChar(b)];
    } else {
      assert ToRadix16(b) == ToRadix16(b / 16) + [DigitChar(b % 16)];
      assert ToRadix16(b / 16) == [DigitChar(b / 16)];
    }
  }

  /** The byte with high nibble `hi` and low nibble `lo`. */
  lemma NibblesOfByte(hi: int, lo: int)
    requires 0 <= hi < 16 && 0 <= lo < 16
    ensures 0 <= hi * 16 + lo < 256
    ensures (hi * 16 + lo) / 16 == hi && (hi * 16 + lo) % 16 == lo
  {
  }

  /**
   * `buf2hex`: each byte's formatted form, joined in order. The join is over
   * `ByteToHex`, which FormatByteIsTwoDigits shows equal to the source's
   * per-byte expression `FormatByte`.
   */
  function Buf2Hex(buffer: seq<Byte>): (hex: string)
    ensures |hex| == 2 * |buffer|
  {
    if buffer == [] then "" else ByteToHex(buffer[0]) + Buf2Hex(buffer[1..])
  }

  /** `buf2hex` of a concatenation is the concatenation of the parts' encodings. */
  lemma {:induction false} Buf2HexAppend(a: seq<Byte>, b: seq<Byte>)
    ensures Buf2Hex(a + b) == Buf2Hex(a) + Buf2Hex(b)
  {
    if a != [] {
      assert (a + b)[1..] == a[1..] + b;
      Buf2HexAppend(a[1..], b);
    } else {
      assert a + b == b;
    }
  }

  /** Every character of the output is a lower-case hexadecimal digit. */
  lemma {:induction false} Buf2HexDigits(buffer: seq<Byte>)
    ensures forall i :: 0 <= i < |Buf2Hex(buffer)| ==> IsHexDigit(Buf2Hex(buffer)[i])
  {
    if buffer != [] {
      Buf2HexDigits(buffer[1..]);
      var pair, tail := ByteToHex(buffer[0]), Buf2Hex(buffer[1..]);
      assert Buf2Hex(buffer) == pair + tail;
      assert forall i :: 0 <= i < |pair + tail| ==> (pair + tail)[i] == if i < 2 then pair[i] else tail[i - 2];
    }
  }

  /** The two characters at positions 2i and 2i+1 are the digits of byte i. */
  lemma Buf2HexAt(buffer: seq<Byte>, i: int)
    requires 0 <= i < |buffer|
    ensures Buf2Hex(buffer)[2 * i] == DigitChar(buffer[i] / 16)
    ensures Buf2Hex(buffer)[2 * i + 1] == DigitChar(buffer[i] % 16)
  {
    var before, after := buffer[..i], buffer[i + 1..];
    assert buffer == before + ([buffer[i]] + after);
    Buf2HexAppend(before, [buffer[i]] + after);
    Buf2HexAppend([buffer[i]], after);
    assert Buf2Hex([buffer[i]]) == ByteToHex(buffer[i]) + Buf2Hex([]);
    var p, q, r := Buf2Hex(before), ByteToHex(buffer[i]), Buf2Hex(after);
    assert Buf2Hex(buffer) == p + (q + r);
    assert |p| == 2 * i;
    assert (p + (q + r))[|p|] == q[0] && (p + (q + r))[|p| + 1] == q[1];
  }

  /** The byte written by two hex digits, high nibble first; None unless both are lower-case hex digits. */
  function DecodePair(high: char, low: char): (r: Option<Byte>)
    ensures r.Some? <==> IsHexDigit(high) && IsHexDigit(low)
    ensures r.Some? ==> ByteToHex(r.value) == [high, low]
  {
    match (DigitValue(high), DigitValue(low))
    case (Some(hi), Some(lo)) =>
      NibblesOfByte(hi, lo);
      Some(hi * 16 + lo)
    case _ => None
  }

  /** The two digits of a byte decode back to that byte. */
  lemma DecodePairOfByte(b: Byte)
    ensures DecodePair(DigitChar(b / 16), DigitChar(b % 16)) == Some(b)
  {
    DigitValueOfChar(b / 16);
    DigitValueOfChar(b % 16);
    assert b / 16 * 16 + b % 16 == b;
  }

  /** Reads a hexadecimal string two digits at a time; None unless every digit is lower-case hex and the length is even. */
  function HexDecode(hex: string): (r: Option<seq<Byte>>)
    ensures r.Some? ==> 2 * |r.value| == |hex|
    decreases |hex|
  {
    if |hex| < 2 then (if hex == [] then Some([]) else None)
    else
      match DecodePair(hex[0], hex[1])
      case None => None
      case Some(b) =>
        match HexDecode(hex[2..])
        case None => None
        case Some(rest) => Some([b] + rest)
  }

  /** Decoding the output of `buf2hex` gives back the original bytes. */
  lemma {:induction false} HexRoundTrip(buffer: seq<Byte>)
    ensures HexDecode(Buf2Hex(buffer)) == Some(buffer)
  {
    if buffer != [] {
      var b, rest := buffer[0], buffer[1..];
      var pair, tail := ByteToHex(b), Buf2Hex(rest);
      assert Buf2Hex(buffer) == pair + tail;
      var hex := pair + tail;
      assert hex[0] == pair[0] && hex[1] == pair[1] && hex[2..] == tail;
      DecodePairOfByte(b);
      HexRoundTrip(rest);
      assert HexDecode(hex) == Some([b] + rest);
      assert [b] + rest == buffer;
    }
  }

  /** Conversely, whatever the decoder accepts is exactly `buf2hex` of what it returns. */
  lemma {:induction false} HexDecodeSound(hex: string, buffer: seq<Byte>)
    requires HexDecode(hex) == Some(buffer)
    ensures Buf2Hex(buffer) == hex
    decreases |hex|
  {
    if hex != [] {
      var b := DecodePair(hex[0], hex[1]).value;
      var rest := HexDecode(hex[2..]).value;
      assert buffer == [b] + rest;
      HexDecodeSound(hex[2..], rest);
      assert buffer[1..] == rest;
      assert Buf2Hex(buffer) == ByteToHex(b) + Buf2Hex(rest);
      assert hex == [hex[0], hex[1]] + hex[2..];
    }
  }

  /** Distinct buffers never share a hexadecimal form. */
  lemma Buf2HexInjective(a: seq<Byte>, b: seq<Byte>)
    requires Buf2Hex(a) == Buf2Hex(b)
    ensures a == b
  {
    HexRoundTrip(a);
    HexRoundTrip(b);
  }
}
