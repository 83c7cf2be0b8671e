/** `hex_to_rgba`: the profile pages turn the colour picker's `#rrggbb` value
    into the red, green and blue components of a CSS `rgba(...)` colour. Each
    component is Python's `int(pair, 16)` of a two-character slice, so the
    model carries Python's grammar for base-16 integer literals. */
module Color {
  import opened Options

  datatype Rgb = Rgb(red: int, green: int, blue: int)

  /** `s.lstrip('#')`: drops every leading `#`. */
  function LStripHash(s: string): (r: string)
    ensures |r| <= |s|
    ensures r == [] || r[0] != '#'
  {
    if s != [] && s[0] == '#' then LStripHash(s[1..]) else s
  }

  /** What is stripped is a run of `#` at the front; the rest is kept as is. */
  lemma {:induction false} StrippedAreHashes(s: string)
    ensures LStripHash(s) == s[|s| - |LStripHash(s)|..]
    ensures forall k :: 0 <= k < |s| - |LStripHash(s)| ==> s[k] == '#'
  {
    if s != [] && s[0] == '#' {
      StrippedAreHashes(s[1..]);
      assert s[1..][|s[1..]| - |LStripHash(s)|..] == s[|s| - |LStripHash(s)|..];
      forall k | 0 <= k < |s| - |LStripHash(s)| ensures s[k] == '#' {
        if k > 0 {
          assert s[k] == s[1..][k - 1];
        }
      }
    }
  }

  /** Python's slice `s[i:i+2]` for `i >= 0`: clipped to the end of `s`. */
  function Pair(s: string, i: nat): (r: string)
    ensures |r| <= 2
    ensures i + 2 <= |s| ==> r == s[i..i + 2]
  {
    var lo := if i <= |s| then i else |s|;
    var hi := if i + 2 <= |s| then i + 2 else |s|;
    s[lo..hi]
  }

  // ---------------------------------------------------------------------------
  // int(t, 16): optional surrounding whitespace, an optional sign, an optional
  // `0x`/`0X` prefix that may be followed by one underscore, then hex digits in
  // which single underscores may separate digits.

  /** The ASCII characters `int()` skips around a numeral: space and the
      control characters from tab to carriage return. */
  predicate IsSpace(c: char)
  {
    c == ' ' || 9 <= c as int <= 13
  }

  function TrimStart(s: string): (r: string)
    ensures |r| <= |s|
    ensures r == [] || !IsSpace(r[0])
    ensures (forall k :: 0 <= k < |s| ==> IsSpace(s[k])) ==> r == []
  {
    if s != [] && IsSpace(s[0]) then TrimStart(s[1..]) else s
  }

  function TrimEnd(s: string): (r: string)
    ensures |r| <= |s|
    ensures r == [] || !IsSpace(r[|r| - 1])
  {
    if s != [] && IsSpace(s[|s| - 1]) then TrimEnd(s[..|s| - 1]) else s
  }

  predicate IsHexDigit(c: char)
  {
    '0' <= c <= '9' || 'a' <= c <= 'f' || 'A' <= c <= 'F'
  }

  function DigitValue(c: char): (v: nat)
    requires IsHexDigit(c)
    ensures v < 16
  {
    if '0' <= c <= '9' then c as int - '0' as int
    else if 'a' <= c <= 'f' then c as int - 'a' as int + 10
    else c as int - 'A' as int + 10
  }

  predicate HexOrUnderscore(d: string)
  {
    forall k :: 0 <= k < |d| ==> IsHexDigit(d[k]) || d[k] == '_'
  }

  /** Digits with single underscores between them, none at either end. */
  predicate WellFormedDigits(d: string)
  {
    d != [] && IsHexDigit(d[0]) && HexOrUnderscore(d)
    && forall k :: 0 <= k < |d| && d[k] == '_' ==> k + 1 < |d| && IsHexDigit(d[k + 1])
  }

  /** The base-16 value of the digits, underscores skipped. */
  function DigitsValue(d: string): nat
    requires HexOrUnderscore(d)
  {
    if d == [] then 0
    else
      var n := |d| - 1;
      if d[n] == '_' then DigitsValue(d[..n]) else DigitsValue(d[..n]) * 16 + DigitValue(d[n])
  }

  /** The digits that follow the sign: a `0x`/`0X` prefix and one underscore
      after it are skipped. */
  function AfterPrefix(body: string): (r: string)
    ensures |r| <= |body|
  {
    if |body| >= 2 && body[0] == '0' && (body[1] == 'x' || body[1] == 'X') then
      if |body| >= 3 && body[2] == '_' then body[3..] else body[2..]
    else body
  }

  /** `int(t, 16)`; `None` where Python raises `ValueError`, as it does for an
      empty or blank string. */
  function ParseHex(t: string): (r: Option<int>)
    ensures (forall k :: 0 <= k < |t| ==> IsSpace(t[k])) ==> r == None
  {
    var u := TrimEnd(TrimStart(t));
    if u == [] then None
    else
      var body := if u[0] == '-' || u[0] == '+' then u[1..] else u;
      var digits := AfterPrefix(body);
      if !WellFormedDigits(digits) then None
      else
        var magnitude: int := DigitsValue(digits);
        Some(if u[0] == '-' then -magnitude else magnitude)
  }

  /** `hex_to_rgba` without the alpha part: the components it formats, or
      `None` where it raises. Every component lies in -15..255, and a code of
      fewer than five characters after its `#`s raises. */
  function HexToRgb(hexCode: string): (r: Option<Rgb>)
    ensures r.Some? ==> -15 <= r.value.red <= 255 && -15 <= r.value.green <= 255 && -15 <= r.value.blue <= 255
    ensures |LStripHash(hexCode)| <= 4 ==> r == None
  {
    PairsToRgb(LStripHash(hexCode))
  }

  /** The three pairs at offsets 0, 2 and 4 of the stripped code. */
  function PairsToRgb(h: string): (r: Option<Rgb>)
    ensures r.Some? ==> -15 <= r.value.red <= 255 && -15 <= r.value.green <= 255 && -15 <= r.value.blue <= 255
    ensures |h| <= 4 ==> r == None
  {
    var red, green, blue := ParseHex(Pair(h, 0)), ParseHex(Pair(h, 2)), ParseHex(Pair(h, 4));
    if red.Some? && green.Some? && blue.Some? then
      ParseHexPairBound(Pair(h, 0), red.value);
      ParseHexPairBound(Pair(h, 2), green.value);
      ParseHexPairBound(Pair(h, 4), blue.value);
      Some(Rgb(red.value, green.value, blue.value))
    else None
  }

  // ---------------------------------------------------------------------------
  // Bounds

  function Pow16(n: nat): (p: nat)
    ensures p >= 1
  {
    if n == 0 then 1 else 16 * Pow16(n - 1)
  }

  lemma {:induction false} DigitsValueBound(d: string)
    requires HexOrUnderscore(d)
    ensures DigitsValue(d) < Pow16(|d|)
  {
    if d != [] {
      var n := |d| - 1;
      DigitsValueBound(d[..n]);
      if d[n] != '_' {
        assert DigitsValue(d[..n]) * 16 + DigitValue(d[n]) < (DigitsValue(d[..n]) + 1) * 16;
      }
    }
  }

  /** A slice of at most two characters parses to a value in -15..255: two hex
      digits give at most 255, and a sign leaves room for one digit only. */
  lemma ParseHexPairBound(t: string, v: int)
    requires |t| <= 2 && ParseHex(t) == Some(v)
    ensures -15 <= v <= 255
  {
    var u := TrimEnd(TrimStart(t));
    var body := if u[0] == '-' || u[0] == '+' then u[1..] else u;
    var digits := AfterPrefix(body);
    DigitsValueBound(digits);
    assert Pow16(1) == 16 && Pow16(2) == 256;
    if |digits| == 2 {
      assert DigitsValue(digits) < 256;
    }
  }

  /** A sign followed by one digit parses, so the bound -15 is reached, by
      `-f` in `#-f0000` for one. */
  lemma ParseSignedDigit(c: char)
    requires IsHexDigit(c)
    ensures ParseHex(['-', c]) == Some(-(DigitValue(c) as int))
  {
    var t := ['-', c];
    assert TrimStart(t) == t;
    assert TrimEnd(t) == t;
    assert t[1..] == [c];
    assert AfterPrefix([c]) == [c];
    assert [c][..0] == [];
    assert DigitsValue([c]) == DigitValue(c);
  }

  // ---------------------------------------------------------------------------
  // Which slices parse

  /** The slices of at most two characters that `int(t, 16)` accepts: one hex
      digit, alone or after a hex digit, a space or a sign, or before a space. */
  predicate PairAccepted(t: string)
  {
    (|t| == 1 && IsHexDigit(t[0]))
    || (|t| == 2 && IsHexDigit(t[1]) && (IsHexDigit(t[0]) || IsSpace(t[0]) || t[0] == '+' || t[0] == '-'))
    || (|t| == 2 && IsHexDigit(t[0]) && IsSpace(t[1]))
  }

  /** A slice of at most two characters parses exactly when it is accepted;
      every other slice, `zz`, `0x`, `f_` or a lone sign among them, raises. */
  lemma PairParses(t: string)
    requires |t| <= 2
    ensures ParseHex(t).Some? <==> PairAccepted(t)
  {
    if |t| == 2 {
      TwoParse(t[0], t[1]);
      assert t == [t[0], t[1]];
    } else if |t| == 1 {
      OneParse(t[0]);
      assert t == [t[0]];
    }
  }

  /** A single character, once trimmed, parses exactly when it is a hex digit. */
  lemma OneParse(c: char)
    ensures !IsSpace(c) ==> TrimEnd(TrimStart([c])) == [c]
    ensures ParseHex([c]).Some? <==> IsHexDigit(c)
  {
    assert [c][1..] == [] && [c][..0] == [];
    if c == '-' || c == '+' {
      assert AfterPrefix([]) == [];
    } else if !IsSpace(c) {
      assert AfterPrefix([c]) == [c];
    }
  }

  lemma TwoParse(a: char, b: char)
    ensures ParseHex([a, b]).Some? <==> PairAccepted([a, b])
  {
    var t := [a, b];
    assert t[1..] == [b] && t[..1] == [a];
    if IsSpace(a) {
      assert TrimStart(t) == TrimStart([b]);
      OneParse(b);
      if !IsSpace(b) {
        assert ParseHex(t) == ParseHex([b]);
      }
    } else if IsSpace(b) {
      assert TrimStart(t) == t;
      assert TrimEnd(t) == TrimEnd([a]);
      OneParse(a);
      assert ParseHex(t) == ParseHex([a]);
    } else {
      assert TrimStart(t) == t && TrimEnd(t) == t;
      if a == '-' || a == '+' {
        assert AfterPrefix([b]) == [b];
      } else if a == '0' && (b == 'x' || b == 'X') {
        assert AfterPrefix(t) == [];
      } else {
        assert AfterPrefix(t) == t;
      }
    }
  }

  /** `hex_to_rgba` returns exactly when each of its three slices is accepted,
      so `#zz0000` raises, as does any code with a character out of place. */
  lemma HexToRgbAccepts(hexCode: string)
    ensures var h := LStripHash(hexCode);
            HexToRgb(hexCode).Some? <==>
              PairAccepted(Pair(h, 0)) && PairAccepted(Pair(h, 2)) && PairAccepted(Pair(h, 4))
  {
    var h := LStripHash(hexCode);
    PairParses(Pair(h, 0));
    PairParses(Pair(h, 2));
    PairParses(Pair(h, 4));
  }

  // ---------------------------------------------------------------------------
  // Well-formed colours

  /** Two hex digits parse to their base-16 value. */
  lemma ParseTwoDigits(t: string)
    requires |t| == 2 && IsHexDigit(t[0]) && IsHexDigit(t[1])
    ensures ParseHex(t) == Some(16 * DigitValue(t[0]) + DigitValue(t[1]))
  {
    assert TrimStart(t) == t;
    assert TrimEnd(t) == t;
    assert t[0] != '-' && t[0] != '+';
    assert AfterPrefix(t) == t by {
      if t[0] == '0' {
        assert t[1] != 'x' && t[1] != 'X';
      }
    }
    assert WellFormedDigits(t);
    assert t[..1][..0] == [];
    assert DigitsValue(t[..1]) == DigitValue(t[0]);
    assert DigitsValue(t) == DigitsValue(t[..1]) * 16 + DigitValue(t[1]);
  }

  /** The base-16 value of the two hex digits at offset `i`. */
  function ByteAt(h: string, i: nat): (v: int)
    requires i + 2 <= |h| && IsHexDigit(h[i]) && IsHexDigit(h[i + 1])
    ensures 0 <= v <= 255
  {
    16 * DigitValue(h[i]) + DigitValue(h[i + 1])
  }

  /** A pair of hex digits at offset `i` parses to its base-16 value. */
  lemma ParsePairAt(h: string, i: nat)
    requires i + 2 <= |h| && IsHexDigit(h[i]) && IsHexDigit(h[i + 1])
    ensures ParseHex(Pair(h, i)) == Some(ByteAt(h, i))
  {
    var t := Pair(h, i);
    assert t[0] == h[i] && t[1] == h[i + 1];
    ParseTwoDigits(t);
  }

  /** The colour is assembled from the three pairs once each has parsed. */
  lemma PairsAssemble(h: string, red: int, green: int, blue: int)
    requires ParseHex(Pair(h, 0)) == Some(red)
    requires ParseHex(Pair(h, 2)) == Some(green)
    requires ParseHex(Pair(h, 4)) == Some(blue)
    ensures PairsToRgb(h) == Some(Rgb(red, green, blue))
  {
  }

  /** The stripped code starts with six hex digits, as `#rrggbb` does. */
  predicate SixHexDigits(h: string)
  {
    |h| >= 6 && IsHexDigit(h[0]) && IsHexDigit(h[1]) && IsHexDigit(h[2])
    && IsHexDigit(h[3]) && IsHexDigit(h[4]) && IsHexDigit(h[5])
  }

  /** Six hex digits at the front give the three pairs' base-16 values. */
  lemma PairsOfSixDigits(h: string)
    requires SixHexDigits(h)
    ensures PairsToRgb(h) == Some(Rgb(ByteAt(h, 0), ByteAt(h, 2), ByteAt(h, 4)))
  {
    ParsePairAt(h, 0);
    ParsePairAt(h, 2);
    ParsePairAt(h, 4);
    PairsAssemble(h, ByteAt(h, 0), ByteAt(h, 2), ByteAt(h, 4));
  }

  /** A code that, after its leading `#`s, starts with six hex digits yields
      the three pairs' base-16 values, each in 0..255. */
  lemma HexToRgbWellFormed(hexCode: string)
    requires SixHexDigits(LStripHash(hexCode))
    ensures var h := LStripHash(hexCode);
            HexToRgb(hexCode) == Some(Rgb(ByteAt(h, 0), ByteAt(h, 2), ByteAt(h, 4)))
    ensures var c := HexToRgb(hexCode).value;
            0 <= c.red <= 255 && 0 <= c.green <= 255 && 0 <= c.blue <= 255
  {
    PairsOfSixDigits(LStripHash(hexCode));
  }

  /** The lower-case hex digit of a value below 16. */
  function HexChar(n: nat): (c: char)
    requires n < 16
    ensures IsHexDigit(c) && DigitValue(c) == n
  {
    if n < 10 then ('0' as int + n) as char else ('a' as int + n - 10) as char
  }

  /** The `#rrggbb` form the colour picker produces. */
  function FormatHex(c: Rgb): (s: string)
    requires 0 <= c.red <= 255 && 0 <= c.green <= 255 && 0 <= c.blue <= 255
    ensures |s| == 7 && s[0] == '#'
  {
    ['#', HexChar(c.red / 16), HexChar(c.red % 16),
     HexChar(c.green / 16), HexChar(c.green % 16),
     HexChar(c.blue / 16), HexChar(c.blue % 16)]
  }

  /** Parsing a picked colour gives back its components. */
  lemma FormatHexRoundTrip(c: Rgb)
    requires 0 <= c.red <= 255 && 0 <= c.green <= 255 && 0 <= c.blue <= 255
    ensures HexToRgb(FormatHex(c)) == Some(c)
  {
    var s := FormatHex(c);
    var h := s[1..];
    assert h[0] != '#';
    assert LStripHash(s) == h;
    ByteDigits(c.red);
    ByteDigits(c.green);
    ByteDigits(c.blue);
    assert ByteAt(h, 0) == c.red && ByteAt(h, 2) == c.green && ByteAt(h, 4) == c.blue;
    PairsOfSixDigits(h);
  }

  lemma ByteDigits(v: int)
    requires 0 <= v <= 255
    ensures 0 <= v / 16 < 16 && 0 <= v % 16 < 16 && 16 * (v / 16) + v % 16 == v
  {
  }
}
