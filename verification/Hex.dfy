/** Lower-case hexadecimal text, as `toHex` prints a digest. */
module Hex {
  import opened Fips180

  predicate IsLowerHex(c: char) {
    '0' <= c <= '9' || 'a' <= c <= 'f'
  }

  predicate IsHex(c: char) {
    IsLowerHex(c) || 'A' <= c <= 'F'
  }

  function DigitChar(d: nat): (c: char)
    requires d < 16
    ensures IsLowerHex(c) && DigitValue(c) == d
  {
    if d < 10 then '0' + d as char else 'a' + (d - 10) as char
  }

  function DigitValue(c: char): nat
    requires IsLowerHex(c)
  {
    if c <= '9' then (c - '0') as nat else (c - 'a') as nat + 10
  }

  /** Larger digits have larger characters: the sixteen lower-case digits stand in their order. */
  lemma DigitsAscend(d: nat, e: nat)
    requires d < e < 16
    ensures IsLowerHex(DigitChar(d)) && DigitChar(d) < DigitChar(e)
  {
  }

  /** `toString(16).padStart(2, "0")` of one byte. */
  function ByteText(b: Byte): (s: string)
    ensures |s| == 2 && IsLowerHex(s[0]) && IsLowerHex(s[1])
    ensures DigitValue(s[0]) * 16 + DigitValue(s[1]) == b
  {
    [DigitChar(b / 16), DigitChar(b % 16)]
  }

  function Text(bytes: seq<Byte>): (s: string)
    ensures |s| == 2 * |bytes| && forall i :: 0 <= i < |s| ==> IsLowerHex(s[i])
  {
    if bytes == [] then "" else ByteText(bytes[0]) + Text(bytes[1..])
  }

  function Bytes(s: string): seq<Byte>
    requires |s| % 2 == 0 && forall i :: 0 <= i < |s| ==> IsLowerHex(s[i])
  {
    if s == [] then [] else [DigitValue(s[0]) * 16 + DigitValue(s[1])] + Bytes(s[2..])
  }

  /** Nothing is lost: the printed bytes can be read back. */
  lemma {:induction false} TextInverts(bytes: seq<Byte>)
    ensures Bytes(Text(bytes)) == bytes
  {
    if bytes != [] {
      TextInverts(bytes[1..]);
      assert Text(bytes)[2..] == Text(bytes[1..]);
    }
  }

  lemma {:induction false} TextAppends(front: seq<Byte>, b: Byte)
    ensures Text(front + [b]) == Text(front) + ByteText(b)
  {
    if front == [] {
      assert front + [b] == [b];
    } else {
      TextAppends(front[1..], b);
      assert (front + [b])[1..] == front[1..] + [b];
    }
  }

  method ToHex(bytes: seq<Byte>) returns (hex: string)
    ensures hex == Text(bytes)
  {
    hex := "";
    for i := 0 to |bytes|
      invariant hex == Text(bytes[..i])
    {
      TextAppends(bytes[..i], bytes[i]);
      assert bytes[..i + 1] == bytes[..i] + [bytes[i]];
      hex := hex + ByteText(bytes[i]);
    }
    assert bytes[..|bytes|] == bytes;
  }
}
