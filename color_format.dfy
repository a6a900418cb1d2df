/**
 * Colour values and their two textual forms used by the icon analyser:
 * the histogram key `r,g,b` (decimal, comma separated) and the display form
 * `#rrggbb` (lower-case hexadecimal, two digits per channel).
 */
module ColorFormat {
  import opened Wrappers

  /** One channel value of a decoded 8-bit RGBA buffer. */
  type byte = x: int | 0 <= x < 256

  /** An exact (R,G,B) triple; alpha is not part of it. */
  datatype Color = Color(r: byte, g: byte, b: byte)

  // ---------------------------------------------------------------------
  // Decimal histogram key: `${r},${g},${b}` and `key.split(',').map(Number)`
  // ---------------------------------------------------------------------

  const DecimalDigits: string := "0123456789"

  function DecimalDigit(d: nat): (c: char)
    requires d < 10
    ensures '0' <= c <= '9' && c as int - '0' as int == d
  {
    DecimalDigits[d]
  }

  /** The shortest decimal rendering of `x`, as a template literal prints a number. */
  function Decimal(x: nat): (s: string)
    ensures |s| >= 1
    ensures forall k :: 0 <= k < |s| ==> '0' <= s[k] <= '9'
    ensures ',' !in s
    decreases x
  {
    if x < 10 then [DecimalDigit(x)] else Decimal(x / 10) + [DecimalDigit(x % 10)]
  }

  /** The value of a non-empty string of decimal digits; `None` for anything else. */
  function ParseDecimal(s: string): (r: Option<nat>)
    decreases |s|
  {
    if s == [] || !('0' <= s[|s| - 1] <= '9') then None
    else
      var d := s[|s| - 1] as int - '0' as int;
      if |s| == 1 then Some(d)
      else match ParseDecimal(s[..|s| - 1])
        case None => None
        case Some(v) => Some(10 * v + d)
  }

  lemma {:induction false} DecimalRoundTrip(x: nat)
    ensures ParseDecimal(Decimal(x)) == Some(x)
    decreases x
  {
    if x >= 10 {
      DecimalRoundTrip(x / 10);
      var s := Decimal(x);
      assert s[..|s| - 1] == Decimal(x / 10);
    }
  }

  /** `s.split(sep)`: the pieces between occurrences of `sep`, always at least one. */
  function Split(s: string, sep: char): (parts: seq<string>)
    ensures |parts| >= 1
    decreases |s|
  {
    if s == [] then [""]
    else
      var rest := Split(s[1..], sep);
      if s[0] == sep then [""] + rest else [[s[0]] + rest[0]] + rest[1..]
  }

  lemma {:induction false} SplitWithoutSeparator(a: string, sep: char, rest: string)
    requires sep !in a
    ensures Split(a, sep) == [a]
    ensures Split(a + [sep] + rest, sep) == [a] + Split(rest, sep)
    decreases |a|
  {
    if a != [] {
      SplitWithoutSeparator(a[1..], sep, rest);
      assert (a + [sep] + rest)[1..] == a[1..] + [sep] + rest;
      assert [a[0]] + a[1..] == a;
    } else {
      assert a + [sep] + rest == [sep] + rest;
      assert ([sep] + rest)[1..] == rest;
    }
  }

  /** The histogram key of a colour, `${r},${g},${b}`. */
  function ColorKey(c: Color): string
  {
    Decimal(c.r) + "," + Decimal(c.g) + "," + Decimal(c.b)
  }

  function ParseChannel(s: string): Option<byte>
  {
    match ParseDecimal(s)
    case Some(v) => if v < 256 then Some(v) else None
    case None => None
  }

  /** Reading a key back: split at the commas and convert each of the three pieces. */
  function ParseColorKey(key: string): Option<Color>
  {
    var parts := Split(key, ',');
    if |parts| != 3 then None
    else match (ParseChannel(parts[0]), ParseChannel(parts[1]), ParseChannel(parts[2]))
      case (Some(r), Some(g), Some(b)) => Some(Color(r, g, b))
      case _ => None
  }

  /**
   * Reading the key of a colour back yields that colour, so two different
   * colours never share a histogram entry.
   */
  lemma ColorKeyRoundTrip(c: Color)
    ensures ParseColorKey(ColorKey(c)) == Some(c)
  {
    var dr, dg, db := Decimal(c.r), Decimal(c.g), Decimal(c.b);
    var key := ColorKey(c);
    assert Split(key, ',') == [dr, dg, db] by {
      SplitWithoutSeparator(db, ',', "");
      SplitWithoutSeparator(dg, ',', db);
      SplitWithoutSeparator(dr, ',', dg + "," + db);
      assert key == dr + [','] + (dg + [','] + db);
    }
    assert ParseChannel(dr) == Some(c.r) by { DecimalRoundTrip(c.r); }
    assert ParseChannel(dg) == Some(c.g) by { DecimalRoundTrip(c.g); }
    assert ParseChannel(db) == Some(c.b) by { DecimalRoundTrip(c.b); }
  }

  lemma ColorKeyInjective(c: Color, d: Color)
    requires ColorKey(c) == ColorKey(d)
    ensures c == d
  {
    ColorKeyRoundTrip(c);
    ColorKeyRoundTrip(d);
  }

  // ---------------------------------------------------------------------
  // Display form: `#${r.toString(16).padStart(2,'0')}...`
  // ---------------------------------------------------------------------

  const HexDigits: string := "0123456789abcdef"

  function HexDigit(d: nat): (c: char)
    requires d < 16
    ensures c in HexDigits
  {
    HexDigits[d]
  }

  /** The value of one lower-case hexadecimal digit. */
  function HexValue(c: char): (r: Option<nat>)
    ensures r.Some? <==> c in HexDigits
    ensures r.Some? ==> r.value < 16 && HexDigits[r.value] == c
  {
    if '0' <= c <= '9' then Some(c as int - '0' as int)
    else if 'a' <= c <= 'f' then Some(c as int - 'a' as int + 10)
    else None
  }

  lemma HexValueOfDigit(d: nat)
    requires d < 16
    ensures HexValue(HexDigit(d)) == Some(d)
  {
  }

  /** `x.toString(16)`: the shortest lower-case hexadecimal rendering of `x`. */
  function ToHex(x: nat): (s: string)
    ensures |s| >= 1
    ensures forall k :: 0 <= k < |s| ==> s[k] in HexDigits
    decreases x
  {
    if x < 16 then [HexDigit(x)] else ToHex(x / 16) + [HexDigit(x % 16)]
  }

  /** `s.padStart(width, fill)`. */
  function PadStart(s: string, width: nat, fill: char): (p: string)
    ensures |p| == if |s| >= width then |s| else width
    ensures p[|p| - |s|..] == s
    ensures forall k :: 0 <= k < |p| - |s| ==> p[k] == fill
  {
    if |s| >= width then s else seq(width - |s|, _ => fill) + s
  }

  /** One channel as exactly two hexadecimal digits, high one first. */
  function HexByte(x: byte): string
  {
    [HexDigit(x / 16), HexDigit(x % 16)]
  }

  /**
   * The two-digit form is what `x.toString(16).padStart(2, '0')` produces for
   * every channel value: one digit padded with a `0` below 16, two digits otherwise.
   */
  lemma PaddedToHexIsHexByte(x: byte)
    ensures PadStart(ToHex(x), 2, '0') == HexByte(x)
  {
    if x < 16 {
      assert ToHex(x) == [HexDigit(x)];
      assert PadStart([HexDigit(x)], 2, '0') == ['0', HexDigit(x)];
      assert x / 16 == 0 && x % 16 == x;
    } else {
      var hi, lo := x / 16, x % 16;
      assert hi < 16;
      assert ToHex(hi) == [HexDigit(hi)];
      assert ToHex(x) == [HexDigit(hi), HexDigit(lo)];
    }
  }

  /** The `#rrggbb` rendering of a colour. */
  function HexColor(c: Color): string
  {
    "#" + HexByte(c.r) + HexByte(c.g) + HexByte(c.b)
  }

  /** A `#` followed by exactly six lower-case hexadecimal digits. */
  predicate IsHexColorString(h: string)
  {
    |h| == 7 && h[0] == '#' && forall k :: 1 <= k < 7 ==> h[k] in HexDigits
  }

  function ParseHexByte(hi: char, lo: char): Option<byte>
  {
    match (HexValue(hi), HexValue(lo))
    case (Some(a), Some(b)) => Some(16 * a + b)
    case _ => None
  }

  /** Reading a `#rrggbb` string back; `None` for anything that is not of that form. */
  function ParseHexColor(h: string): Option<Color>
  {
    if |h| != 7 || h[0] != '#' then None
    else match (ParseHexByte(h[1], h[2]), ParseHexByte(h[3], h[4]), ParseHexByte(h[5], h[6]))
      case (Some(r), Some(g), Some(b)) => Some(Color(r, g, b))
      case _ => None
  }

  lemma SevenChars(h: string)
    requires |h| == 7
    ensures h == [h[0], h[1], h[2], h[3], h[4], h[5], h[6]]
  {
  }

  lemma ConcatSeven(a: string, x: string, y: string, z: string)
    requires |a| == 1 && |x| == 2 && |y| == 2 && |z| == 2
    ensures a + x + y + z == [a[0], x[0], x[1], y[0], y[1], z[0], z[1]]
  {
  }

  lemma HexColorShape(c: Color)
    ensures IsHexColorString(HexColor(c))
  {
    var x, y, z := HexByte(c.r), HexByte(c.g), HexByte(c.b);
    ConcatSeven("#", x, y, z);
  }

  lemma HexByteRoundTrip(x: byte)
    ensures ParseHexByte(HexByte(x)[0], HexByte(x)[1]) == Some(x)
  {
    var hi, lo := x / 16, x % 16;
    assert HexByte(x)[0] == HexDigit(hi) && HexByte(x)[1] == HexDigit(lo);
    HexValueOfDigit(hi);
    HexValueOfDigit(lo);
    assert 16 * hi + lo == x;
  }

  /** A `#` followed by three digit pairs that parse to the channels of `c` parses to `c`. */
  lemma ParseHexColorOfBytes(h: string, c: Color)
    requires |h| == 7 && h[0] == '#'
    requires ParseHexByte(h[1], h[2]) == Some(c.r)
    requires ParseHexByte(h[3], h[4]) == Some(c.g)
    requires ParseHexByte(h[5], h[6]) == Some(c.b)
    ensures ParseHexColor(h) == Some(c)
  {
  }

  /** Parsing the rendering of any colour gives that colour back. */
  lemma HexColorRoundTrip(c: Color)
    ensures ParseHexColor(HexColor(c)) == Some(c)
  {
    var x, y, z := HexByte(c.r), HexByte(c.g), HexByte(c.b);
    var h := HexColor(c);
    ConcatSeven("#", x, y, z);
    HexByteRoundTrip(c.r);
    HexByteRoundTrip(c.g);
    HexByteRoundTrip(c.b);
    ParseHexColorOfBytes(h, c);
  }

  lemma ParseHexByteInverse(hi: char, lo: char, x: byte)
    requires ParseHexByte(hi, lo) == Some(x)
    ensures HexByte(x) == [hi, lo]
  {
    var a, b := HexValue(hi).value, HexValue(lo).value;
    assert x == 16 * a + b;
    assert x / 16 == a && x % 16 == b;
  }

  /** Conversely, every string the parser accepts is the rendering of what it returns. */
  lemma ParseHexColorInverse(h: string, c: Color)
    requires ParseHexColor(h) == Some(c)
    ensures HexColor(c) == h
  {
    assert |h| == 7 && h[0] == '#';
    assert ParseHexByte(h[1], h[2]) == Some(c.r);
    assert ParseHexByte(h[3], h[4]) == Some(c.g);
    assert ParseHexByte(h[5], h[6]) == Some(c.b);
    ParseHexByteInverse(h[1], h[2], c.r);
    ParseHexByteInverse(h[3], h[4], c.g);
    ParseHexByteInverse(h[5], h[6], c.b);
    ConcatSeven("#", [h[1], h[2]], [h[3], h[4]], [h[5], h[6]]);
    SevenChars(h);
  }

  /** Pure red renders as `#ff0000`. */
  lemma RedHexColor()
    ensures HexColor(Color(255, 0, 0)) == "#ff0000"
  {
    assert HexByte(255) == "ff" by {
      assert 255 / 16 == 15 && 255 % 16 == 15;
      assert HexDigits[15] == 'f';
    }
    assert HexByte(0) == "00" by {
      assert HexDigits[0] == '0';
    }
    ConcatSeven("#", "ff", "00", "00");
  }
}
