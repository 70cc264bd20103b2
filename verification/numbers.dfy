/** How numbers become text in the adapters: `byte.ToString("X2")`, the
    upper-case hexadecimal rendering of a hash that `Bittrex.byteToString`
    concatenates, and `long.ToString()`, the decimal rendering of a tick
    count used as the Bittrex nonce. Each rendering comes with the parser
    that reads it back. */
module Numbers {
  import opened Outcomes

  newtype byte = b: int | 0 <= b < 256

  // ---------------------------------------------------------------------------
  // Upper-case hexadecimal
  // ---------------------------------------------------------------------------

  /** `0`-`9` and `A`-`F`: the digits `X2` writes. */
  predicate IsHexDigit(c: char) {
    '0' <= c <= '9' || 'A' <= c <= 'F'
  }

  /** The digit for a value below sixteen. */
  function HexDigit(d: nat): (c: char)
    requires d < 16
    ensures IsHexDigit(c)
  {
    if d < 10 then '0' + d as char else 'A' + (d - 10) as char
  }

  /** The value of an upper-case hexadecimal digit, or `None` for any other
      character (in particular for the lower-case letters). */
  function HexValue(c: char): (v: Option<nat>)
    ensures v.Some? <==> IsHexDigit(c)
    ensures v.Some? ==> v.value < 16 && HexDigit(v.value) == c
  {
    if '0' <= c <= '9' then Some((c - '0') as nat)
    else if 'A' <= c <= 'F' then Some((c - 'A') as nat + 10)
    else None
  }

  /** `b.ToString("X2")`: always two digits, high nibble first. */
  function ByteHex(b: byte): (s: string)
    ensures |s| == 2 && IsHexDigit(s[0]) && IsHexDigit(s[1])
    ensures HexValue(s[0]) == Some(b as nat / 16) && HexValue(s[1]) == Some(b as nat % 16)
  {
    [HexDigit(b as nat / 16), HexDigit(b as nat % 16)]
  }

  /** Every byte rendered in order, two digits each. */
  function UpperHex(bs: seq<byte>): (s: string)
    ensures |s| == 2 * |bs|
    ensures forall i :: 0 <= i < |s| ==> IsHexDigit(s[i])
  {
    if |bs| == 0 then "" else ByteHex(bs[0]) + UpperHex(bs[1..])
  }

  /** Byte `i` of the input is the digit pair at `2i`. */
  lemma {:induction false} UpperHexAt(bs: seq<byte>, i: nat)
    requires i < |bs|
    ensures UpperHex(bs)[2 * i..2 * i + 2] == ByteHex(bs[i])
    decreases i
  {
    if i > 0 {
      UpperHexAt(bs[1..], i - 1);
      assert UpperHex(bs)[2 * i..2 * i + 2] == UpperHex(bs[1..])[2 * (i - 1)..2 * (i - 1) + 2];
    }
  }

  /** Reads a digit string two characters per byte, or fails on an odd
      length or a character that is not an upper-case hexadecimal digit. */
  function HexDecode(s: string): (r: Option<seq<byte>>)
    ensures r.Some? ==> 2 * |r.value| == |s|
    decreases |s|
  {
    if |s| == 0 then Some([])
    else if |s| == 1 then None
    else
      match (HexValue(s[0]), HexValue(s[1]), HexDecode(s[2..]))
      case (Some(hi), Some(lo), Some(rest)) => Some([(hi * 16 + lo) as byte] + rest)
      case _ => None
  }

  /** Reading the rendering gives the bytes back. */
  lemma {:induction false} HexDecodeUpperHex(bs: seq<byte>)
    ensures HexDecode(UpperHex(bs)) == Some(bs)
  {
    if |bs| > 0 {
      var s := UpperHex(bs);
      assert s[2..] == UpperHex(bs[1..]);
      HexDecodeUpperHex(bs[1..]);
      assert [bs[0]] + bs[1..] == bs;
    }
  }

  /** Rendering what was read gives the text back: the upper-case rendering
      is the only one the reader accepts. */
  lemma {:induction false} UpperHexHexDecode(s: string)
    requires HexDecode(s).Some?
    ensures UpperHex(HexDecode(s).value) == s
    decreases |s|
  {
    if |s| > 0 {
      UpperHexHexDecode(s[2..]);
      assert s == s[..2] + s[2..];
    }
  }

  /** Distinct hashes never share a signature. */
  lemma UpperHexInjective(a: seq<byte>, b: seq<byte>)
    ensures UpperHex(a) == UpperHex(b) <==> a == b
  {
    HexDecodeUpperHex(a);
    HexDecodeUpperHex(b);
  }

  /** `Bittrex.byteToString`: appends each byte's two digits in a loop. */
  method ByteToString(buff: seq<byte>) returns (sbinary: string)
    ensures |sbinary| == 2 * |buff|
    ensures HexDecode(sbinary) == Some(buff)
    ensures forall i :: 0 <= i < |buff| ==> sbinary[2 * i..2 * i + 2] == ByteHex(buff[i])
  {
    sbinary := "";
    var i := 0;
    while i < |buff|
      invariant 0 <= i <= |buff|
      invariant sbinary == UpperHex(buff[..i])
    {
      UpperHexSnoc(buff[..i], buff[i]);
      assert buff[..i + 1] == buff[..i] + [buff[i]];
      sbinary := sbinary + ByteHex(buff[i]);
      i := i + 1;
    }
    assert buff[..i] == buff;
    HexDecodeUpperHex(buff);
    forall j | 0 <= j < |buff|
      ensures sbinary[2 * j..2 * j + 2] == ByteHex(buff[j])
    {
      UpperHexAt(buff, j);
    }
  }

  /** Rendering one more byte appends its two digits. */
  lemma {:induction false} UpperHexSnoc(bs: seq<byte>, b: byte)
    ensures UpperHex(bs + [b]) == UpperHex(bs) + ByteHex(b)
    decreases |bs|
  {
    if |bs| > 0 {
      assert (bs + [b])[1..] == bs[1..] + [b];
      UpperHexSnoc(bs[1..], b);
    }
  }

  // ---------------------------------------------------------------------------
  // Decimal
  // ---------------------------------------------------------------------------

  predicate IsDecimalDigit(c: char) {
    '0' <= c <= '9'
  }

  /** `ToString()` of a non-negative integer: its decimal digits, most
      significant first, with no leading zero. */
  function DecimalString(n: nat): (s: string)
    ensures |s| > 0
    ensures forall i :: 0 <= i < |s| ==> IsDecimalDigit(s[i])
    ensures s[0] == '0' ==> n == 0
    decreases n
  {
    if n < 10 then ['0' + n as char]
    else DecimalString(n / 10) + ['0' + (n % 10) as char]
  }

  /** The value of a string of decimal digits, or `None` when it is empty or
      holds anything else. */
  function ParseDecimal(s: string): (r: Option<nat>)
    ensures r.Some? <==> |s| > 0 && forall i :: 0 <= i < |s| ==> IsDecimalDigit(s[i])
    decreases |s|
  {
    if |s| == 0 || !IsDecimalDigit(s[|s| - 1]) then None
    else if |s| == 1 then Some((s[0] - '0') as nat)
    else
      match ParseDecimal(s[..|s| - 1])
      case Some(high) => Some(high * 10 + (s[|s| - 1] - '0') as nat)
      case None => None
  }

  /** Parsing the rendering gives the number back. */
  lemma {:induction false} ParseDecimalString(n: nat)
    ensures ParseDecimal(DecimalString(n)) == Some(n)
    decreases n
  {
    if n >= 10 {
      var s := DecimalString(n);
      assert s[..|s| - 1] == DecimalString(n / 10);
      ParseDecimalString(n / 10);
    }
  }

  /** Distinct tick counts give distinct nonces. */
  lemma DecimalStringInjective(a: nat, b: nat)
    ensures DecimalString(a) == DecimalString(b) <==> a == b
  {
    ParseDecimalString(a);
    ParseDecimalString(b);
  }

  /** `ToString()` of a signed integer: a minus sign before the digits of a
      negative value. */
  function IntString(n: int): (s: string)
    ensures |s| > 0 && (s[0] == '-' <==> n < 0)
    ensures forall i :: 0 < i < |s| ==> IsDecimalDigit(s[i])
  {
    if n < 0 then "-" + DecimalString(-n) else DecimalString(n)
  }

  /** Reads back what `IntString` writes. */
  function ParseInt(s: string): (r: Option<int>)
  {
    if |s| > 0 && s[0] == '-' then
      match ParseDecimal(s[1..])
      case Some(m) => if m > 0 then Some(0 - m) else None
      case None => None
    else
      match ParseDecimal(s)
      case Some(m) => Some(m as int)
      case None => None
  }

  lemma ParseIntString(n: int)
    ensures ParseInt(IntString(n)) == Some(n)
  {
    if n < 0 {
      assert IntString(n)[1..] == DecimalString(-n);
      ParseDecimalString(-n);
    } else {
      ParseDecimalString(n);
    }
  }
}
