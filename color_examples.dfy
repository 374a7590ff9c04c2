/** Worked examples of the color conversions on concrete inputs. */
module ColorExamples {
  import opened Prims
  import opened ColorModel

  lemma FromHexDodgerBlue(s: string)
    requires s == "#1E90FF"
    ensures FromHex(s).Some?
    ensures var c := FromHex(s).value; c.r == 30 && c.g == 144 && c.b == 255 && c.hex == s
  {
    Bytes(s, '1', 'E', '9', '0', 'F', 'F');
    Pair('1', 'E', 1, 14);
    Pair('9', '0', 9, 0);
    Pair('F', 'F', 15, 15);
  }

  /** Six digits after `#` read as three bytes, two digits each. */
  lemma Bytes(s: string, a: char, b: char, c: char, d: char, e: char, f: char)
    requires s == ['#', a, b, c, d, e, f]
    requires HexDigitValue(a).Some? && HexDigitValue(b).Some? && HexDigitValue(c).Some?
    requires HexDigitValue(d).Some? && HexDigitValue(e).Some? && HexDigitValue(f).Some?
    ensures FromHex(s).Some?
    ensures FromHex(s).value.r == ParseHexDigits([a, b]).value
    ensures FromHex(s).value.g == ParseHexDigits([c, d]).value
    ensures FromHex(s).value.b == ParseHexDigits([e, f]).value
  {
    assert s == "#" + [a, b] + [c, d] + [e, f];
    FromHexBytes([a, b], [c, d], [e, f]);
  }
  /** Text that is too short, or lacks the `#`, is rejected. */
  lemma FromHexRejects()
    ensures FromHex("bad").None? && FromHex("#12345").None? && FromHex("1234567").None?
  {
    FromHexAccepts("bad");
    FromHexAccepts("#12345");
    FromHexAccepts("1234567");
  }

  /** `#+12345` is accepted through the sign `from_str_radix` allows, and
      reads as the 24-bit value 0x012345. */
  lemma FromHexPlusSign(p: string)
    requires p == "#+12345"
    ensures FromHex(p).Some?
    ensures var c := FromHex(p).value; c.r == 1 && c.g == 0x23 && c.b == 0x45
  {
    FiveDigits(p[2..]);
    assert 0x12345 == (1 * 256 + 0x23) * 256 + 0x45;
    Signed(p, 1, 0x23, 0x45);
  }

  /** `#+` followed by five digits reads them as one number, split into bytes. */
  lemma Signed(s: string, r: nat, g: nat, b: nat)
    requires |s| == 7 && s[0] == '#' && s[1] == '+' && AllHexDigits(s[2..])
    requires r < 16 && g < 256 && b < 256 && ParseHexDigits(s[2..]) == Some((r * 256 + g) * 256 + b)
    ensures FromHex(s).Some?
    ensures var c := FromHex(s).value; c.r == r && c.g == g && c.b == b
  {
    FromHexSigned(s);
    LowBytes(r, g, b, ParseHexDigits(s[2..]).value);
  }

  lemma FiveDigits(d: string)
    requires d == "12345"
    ensures AllHexDigits(d) && ParseHexDigits(d) == Some(0x12345)
  {
    Pair('1', '2', 1, 2);
    ParseHexAppend("12", '3', 0x12, 3);
    assert "12" + ['3'] == "123";
    ParseHexAppend("123", '4', 0x123, 4);
    assert "123" + ['4'] == "1234";
    ParseHexAppend("1234", '5', 0x1234, 5);
    assert "1234" + ['5'] == d;
  }

  /** Two digits read as one byte, high digit first. */
  lemma Pair(hi: char, lo: char, dh: nat, dl: nat)
    requires HexDigitValue(hi) == Some(dh) && HexDigitValue(lo) == Some(dl)
    ensures ParseHexDigits([hi, lo]) == Some(dh * 16 + dl)
  {
    ParseHexAppend([], hi, 0, dh);
    assert [] + [hi] == [hi];
    ParseHexAppend([hi], lo, dh, dl);
    assert [hi] + [lo] == [hi, lo];
  }

  /** Black is written `#000`: without zero padding its text is too short
      for `from_hex` to read back. */
  lemma BlackHexIsShort()
    ensures GetHex(0, 0, 0) == "#000"
    ensures FromHex(GetHex(0, 0, 0)).None?
  {
    HexRoundTrip(0, 0, 0);
  }

  /** HSV to RGB and back does not keep saturation: (0, 50, 2) becomes the
      RGB (5, 2, 2), whose saturation reads as 60. */
  lemma HsvSaturationDrift()
    ensures HsvToRgb(0, 50, 2) == (5, 2, 2)
    ensures RgbToHsv(5, 2, 2).1 == 60
  {
    RgbToHsvReference(5, 2, 2);
  }
}
