/**
 * Rendering of a digest as text: every byte becomes two lower-case hexadecimal
 * digits, high nibble first and zero-padded, as `String.format("%02x", b)` does
 * for a `Byte`. `Unhex` is the inverse used to state that nothing is lost.
 */
module HexFormat {
  import opened JavaIo

  /** The value `%x` prints for a `Byte`: a negative byte has 256 added to it. */
  function Unsigned(b: JByte): (u: nat)
    ensures u < 256
    ensures (u - b as int) % 256 == 0
  {
    if b < 0 then b as int + 256 else b as int
  }

  /** The byte whose unsigned value is `u`, as the cast `(byte) u` gives it. */
  function Signed(u: nat): (b: JByte)
    requires u < 256
    ensures Unsigned(b) == u
  {
    if u < 128 then u as JByte else (u - 256) as JByte
  }

  /** A lower-case hexadecimal digit. */
  predicate IsHexDigit(c: char) {
    '0' <= c <= '9' || 'a' <= c <= 'f'
  }

  /** Lower-case hexadecimal text of even length: what `Hex` can produce. */
  predicate IsLowerHex(s: string) {
    |s| % 2 == 0 && forall i :: 0 <= i < |s| ==> IsHexDigit(s[i])
  }

  function HexDigit(v: nat): (c: char)
    requires v < 16
    ensures IsHexDigit(c) && DigitValue(c) == Some(v)
  {
    if v < 10 then ('0' as int + v) as char else ('a' as int + v - 10) as char
  }

  function DigitValue(c: char): (r: Option<nat>)
    ensures r.Some? <==> IsHexDigit(c)
    ensures r.Some? ==> r.value < 16
  {
    if '0' <= c <= '9' then Some(c as int - '0' as int)
    else if 'a' <= c <= 'f' then Some(c as int - 'a' as int + 10)
    else None
  }

  /** Reading a digit and writing its value again gives the same digit. */
  lemma DigitRoundTrip(c: char)
    requires IsHexDigit(c)
    ensures HexDigit(DigitValue(c).value) == c
  {
  }

  /** `String.format("%02x", b)` */
  function ByteToHex(b: JByte): (s: string)
    ensures |s| == 2 && IsHexDigit(s[0]) && IsHexDigit(s[1])
    ensures DigitValue(s[0]).value * 16 + DigitValue(s[1]).value == Unsigned(b)
  {
    [HexDigit(Unsigned(b) / 16), HexDigit(Unsigned(b) % 16)]
  }

  /** The text the digest loop builds: the bytes' renderings, in order. */
  function Hex(bytes: seq<JByte>): (s: string)
    ensures |s| == 2 * |bytes|
  {
    if bytes == [] then ""
    else Hex(bytes[..|bytes| - 1]) + ByteToHex(bytes[|bytes| - 1])
  }

  /** Reads lower-case hexadecimal text back into bytes, two digits per byte. */
  function Unhex(s: string): (r: Option<seq<JByte>>)
    decreases |s|
  {
    if s == [] then Some([])
    else if |s| == 1 then None
    else
      match (Unhex(s[..|s| - 2]), DigitValue(s[|s| - 2]), DigitValue(s[|s| - 1]))
      case (Some(prefix), Some(hi), Some(lo)) => Some(prefix + [Signed(hi * 16 + lo)])
      case _ => None
  }

  /** Character `2i` holds the high nibble of byte `i`, character `2i + 1` the low one. */
  lemma {:induction false} HexAt(bytes: seq<JByte>, i: nat)
    requires i < |bytes|
    ensures DigitValue(Hex(bytes)[2 * i]) == Some(Unsigned(bytes[i]) / 16)
    ensures DigitValue(Hex(bytes)[2 * i + 1]) == Some(Unsigned(bytes[i]) % 16)
  {
    var n := |bytes| - 1;
    var prefix := bytes[..n];
    assert Hex(bytes) == Hex(prefix) + ByteToHex(bytes[n]);
    if i < n {
      HexAt(prefix, i);
      assert Hex(bytes)[2 * i] == Hex(prefix)[2 * i];
      assert Hex(bytes)[2 * i + 1] == Hex(prefix)[2 * i + 1];
    } else {
      assert Hex(bytes)[2 * i] == ByteToHex(bytes[n])[0];
      assert Hex(bytes)[2 * i + 1] == ByteToHex(bytes[n])[1];
    }
  }

  /** Decoding the rendering gives back the bytes. */
  lemma {:induction false} UnhexHex(bytes: seq<JByte>)
    ensures Unhex(Hex(bytes)) == Some(bytes)
  {
    if bytes != [] {
      var n := |bytes| - 1;
      var prefix := bytes[..n];
      var s := Hex(bytes);
      var pair := ByteToHex(bytes[n]);
      assert s == Hex(prefix) + pair;
      assert s[..|s| - 2] == Hex(prefix);
      assert s[|s| - 2] == pair[0] && s[|s| - 1] == pair[1];
      UnhexHex(prefix);
      assert prefix + [bytes[n]] == bytes;
    }
  }

  /** The byte built from two digit values renders as those two digits. */
  lemma ByteToHexOfDigits(hi: nat, lo: nat)
    requires hi < 16 && lo < 16
    ensures ByteToHex(Signed(hi * 16 + lo)) == [HexDigit(hi), HexDigit(lo)]
  {
    assert Unsigned(Signed(hi * 16 + lo)) == hi * 16 + lo;
  }

  /** Rendering one more byte appends its two digits. */
  lemma HexSnoc(prefix: seq<JByte>, b: JByte)
    ensures Hex(prefix + [b]) == Hex(prefix) + ByteToHex(b)
  {
    assert (prefix + [b])[..|prefix|] == prefix;
  }

  /** Text that decodes is exactly the rendering of what it decodes to. */
  lemma {:induction false} HexUnhex(s: string)
    requires Unhex(s).Some?
    ensures Hex(Unhex(s).value) == s
  {
    if s != [] {
      var n := |s|;
      var front := s[..n - 2];
      var prefix := Unhex(front).value;
      var hi, lo := DigitValue(s[n - 2]).value, DigitValue(s[n - 1]).value;
      var b := Signed(hi * 16 + lo);
      assert Unhex(s).value == prefix + [b];
      HexUnhex(front);
      HexSnoc(prefix, b);
      ByteToHexOfDigits(hi, lo);
      DigitRoundTrip(s[n - 2]);
      DigitRoundTrip(s[n - 1]);
      assert s == front + [s[n - 2], s[n - 1]];
    }
  }

  /** Exactly the lower-case hexadecimal texts of even length decode. */
  lemma {:induction false} UnhexDefined(s: string)
    ensures Unhex(s).Some? <==> IsLowerHex(s)
    decreases |s|
  {
    if |s| >= 2 {
      var front := s[..|s| - 2];
      UnhexDefined(front);
      assert forall i :: 0 <= i < |front| ==> front[i] == s[i];
      if IsLowerHex(s) {
        assert IsHexDigit(s[|s| - 2]) && IsHexDigit(s[|s| - 1]);
      }
    }
  }

  /** The rendering is lower-case hexadecimal, two digits per byte. */
  lemma HexIsLowerHex(bytes: seq<JByte>)
    ensures IsLowerHex(Hex(bytes))
  {
    UnhexHex(bytes);
    UnhexDefined(Hex(bytes));
  }

  /** Distinct digests render as distinct text. */
  lemma HexInjective(a: seq<JByte>, b: seq<JByte>)
    requires Hex(a) == Hex(b)
    ensures a == b
  {
    UnhexHex(a);
    UnhexHex(b);
  }

  /** The `StringBuilder` loop over the digest bytes. */
  method HexString(digest: seq<JByte>) returns (result: string)
    ensures result == Hex(digest)
  {
    result := "";
    for i := 0 to |digest|
      invariant result == Hex(digest[..i])
    {
      assert digest[..i + 1][..i] == digest[..i];
      result := result + ByteToHex(digest[i]);
    }
    assert digest[..|digest|] == digest;
  }
}
