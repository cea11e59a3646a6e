/** RGBA pixels and the `#RRGGBB` colour notation the checker decodes with
    Python's `int(s, 16)`, with an encoder as its inverse. */
module Colour {
  import opened Wrappers
  import opened Strings

  newtype byte = x: int | 0 <= x < 256

  /** A pixel of an "RGBA" image as PIL returns it: four channels in 0..255. */
  datatype Pixel = Pixel(r: byte, g: byte, b: byte, a: byte)

  const Transparent := Pixel(0, 0, 0, 0)
  const OpaqueWhite := Pixel(255, 255, 255, 255)

  function Pow16(n: nat): (p: nat)
    ensures p > 0
  {
    if n == 0 then 1 else 16 * Pow16(n - 1)
  }

  predicate IsHexDigit(c: char)
  {
    '0' <= c <= '9' || 'a' <= c <= 'f' || 'A' <= c <= 'F'
  }

  predicate AllHexDigits(s: string)
  {
    forall k :: 0 <= k < |s| ==> IsHexDigit(s[k])
  }

  function DigitValue(c: char): (d: nat)
    requires IsHexDigit(c)
    ensures d < 16
  {
    if '0' <= c <= '9' then c as int - '0' as int
    else if 'a' <= c <= 'f' then c as int - 'a' as int + 10
    else c as int - 'A' as int + 10
  }

  /** Python `int(s, 16)` on a string of hex digits (either case), read most
      significant digit first; None where Python raises ValueError. */
  function HexValue(s: string): (r: Option<nat>)
    ensures r.Some? <==> |s| > 0 && AllHexDigits(s)
    ensures r.Some? ==> r.value < Pow16(|s|)
  {
    if |s| == 0 || !IsHexDigit(s[|s| - 1]) then None
    else if |s| == 1 then Some(DigitValue(s[0]))
    else
      match HexValue(s[..|s| - 1])
      case None => None
      case Some(v) => Some(16 * v + DigitValue(s[|s| - 1]))
  }

  /** `int(hex[i:i+2], 16)`: one colour channel, at most two digits wide. */
  function ParseChannel(hex: string, i: nat): (r: Option<byte>)
    ensures r.Some? <==> HexValue(Slice(hex, i, i + 2)).Some?
    ensures r.Some? ==> r.value as nat == HexValue(Slice(hex, i, i + 2)).value
  {
    var digits := Slice(hex, i, i + 2);
    var v := HexValue(digits);
    if v.Some? then
      assert Pow16(|digits|) <= 256 by {
        if |digits| == 2 { assert Pow16(1) == 16; }
      }
      Some(v.value as byte)
    else None
  }

  /** `tuple(int(hex[i:i+2], 16) for i in (1, 3, 5)) + (255,)`: the leading
      character is skipped unread and anything after the sixth digit ignored. */
  function ParseColour(hex: string): (r: Option<Pixel>)
    ensures r.Some? <==> ParseChannel(hex, 1).Some? && ParseChannel(hex, 3).Some? && ParseChannel(hex, 5).Some?
    ensures r.Some? ==> r.value.a == 255
  {
    match (ParseChannel(hex, 1), ParseChannel(hex, 3), ParseChannel(hex, 5))
    case (Some(red), Some(green), Some(blue)) => Some(Pixel(red, green, blue, 255))
    case _ => None
  }

  function HexDigitChar(d: nat): (c: char)
    requires d < 16
    ensures IsHexDigit(c) && DigitValue(c) == d
  {
    if d < 10 then ('0' as int + d) as char else ('A' as int + d - 10) as char
  }

  /** A channel as two upper-case hex digits. */
  function HexPair(v: byte): (s: string)
    ensures |s| == 2
  {
    [HexDigitChar(v as nat / 16), HexDigitChar(v as nat % 16)]
  }

  /** An opaque colour in `#RRGGBB` notation. */
  function FormatColour(p: Pixel): (s: string)
    ensures |s| == 7 && s[0] == '#'
  {
    "#" + HexPair(p.r) + HexPair(p.g) + HexPair(p.b)
  }

  lemma {:induction false} HexPairValue(v: byte)
    ensures HexValue(HexPair(v)) == Some(v as nat)
  {
    var s := HexPair(v);
    assert s[..1] == [s[0]];
    assert HexValue(s[..1]) == Some(v as nat / 16);
  }

  /** Decoding undoes encoding for every opaque colour. */
  lemma {:induction false} ParseFormatColour(p: Pixel)
    requires p.a == 255
    ensures ParseColour(FormatColour(p)) == Some(p)
  {
    var s := FormatColour(p);
    assert Slice(s, 1, 3) == HexPair(p.r);
    assert Slice(s, 3, 5) == HexPair(p.g);
    assert Slice(s, 5, 7) == HexPair(p.b);
    HexPairValue(p.r);
    HexPairValue(p.g);
    HexPairValue(p.b);
  }
}
