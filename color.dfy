/** The `HexColor` value type: a colour held as `#` followed by six (RGB) or
    eight (RGBA) upper-case hex digits. The pure part (parsing, component
    reads, the integer form, equality and its hash key, channel arithmetic)
    is written as functions of the stored string; the class `HexColor` holds
    that string in its field `color` and owns the operations that allocate a
    colour or overwrite the field in place. */
module Color {
  import opened Hex

  datatype ColorError = InvalidFormat | InvalidCharacter | InvalidComponent

  datatype Result<T> = Ok(value: T) | Err(error: ColorError)

  datatype Outcome = Done | Failed(error: ColorError)

  /** What the constructor can be handed: text, or a number (which it refuses). */
  datatype Input = Text(s: string) | Integer(n: int)

  // ---------------------------------------------------------------------
  // Parsing, validation and normalisation

  /** The stored form: `#` followed by exactly 6 or 8 characters of `0-9A-F`. */
  predicate IsNormalized(c: string) {
    (|c| == 7 || |c| == 9) && c[0] == '#' && IsHexString(c[1..])
  }

  /** A component argument after upper-casing: exactly two hex digits. */
  predicate IsComponent(h: string) {
    |h| == 2 && IsHexString(h)
  }

  /** The first steps of construction: upper-case the text, then put a `#`
      in front unless it already starts with one. */
  function Prefixed(s: string): (c: string)
    ensures |c| >= 1 && c[0] == '#'
    ensures |s| > 0 && s[0] == '#' ==> c == Upper(s)
    ensures !(|s| > 0 && s[0] == '#') ==> c == "#" + Upper(s)
  {
    var u := Upper(s);
    if |u| > 0 && u[0] == '#' then u else "#" + u
  }

  /** The hex portion that validation looks at. */
  function HexPart(s: string): string {
    Prefixed(s)[1..]
  }

  /** `_validate_color`: the length of everything after the first character
      must be 3, 4, 6 or 8, and only then is every such character checked. */
  function Validate(color: string): (r: Outcome)
    ensures r == Failed(InvalidFormat) <==> |color| - 1 !in {3, 4, 6, 8}
    ensures r == Failed(InvalidCharacter) <==>
      |color| - 1 in {3, 4, 6, 8} && exists i :: 1 <= i < |color| && !IsHexDigit(color[i])
    ensures r == Done <==> |color| - 1 in {3, 4, 6, 8} && IsHexString(color[1..])
  {
    if |color| - 1 !in {3, 4, 6, 8} then Failed(InvalidFormat)
    else if !IsHexString(color[1..]) then
      assert exists i :: 1 <= i < |color| && !IsHexDigit(color[i]);
      Failed(InvalidCharacter)
    else Done
  }

  /** Every digit written twice: `abc` becomes `aabbcc`. */
  function Doubled(h: string): (d: string)
    ensures |d| == 2 * |h|
    ensures forall i :: 0 <= i < |d| ==> d[i] == h[i / 2]
  {
    seq(2 * |h|, i requires 0 <= i < 2 * |h| => h[i / 2])
  }

  /** `_normalize_color`: a 3- or 4-digit form has each digit doubled; a
      6- or 8-digit form is kept as it is. */
  function Normalize(color: string): (c: string)
    requires |color| >= 1 && color[0] == '#' && Validate(color) == Done
    ensures IsNormalized(c)
    ensures |color| == 4 || |color| == 5 ==> c == "#" + Doubled(color[1..])
    ensures |color| == 7 || |color| == 9 ==> c == color
  {
    var h := color[1..];
    if |h| == 3 then
      var c := "#" + [h[0], h[0]] + [h[1], h[1]] + [h[2], h[2]];
      assert c == "#" + Doubled(h);
      c
    else if |h| == 4 then
      var c := "#" + [h[0], h[0]] + [h[1], h[1]] + [h[2], h[2]] + [h[3], h[3]];
      assert c == "#" + Doubled(h);
      c
    else
      color
  }

  /** `HexColor(x)`: the normalised string, or the error that construction raises.
      A number is refused outright. */
  function Parse(input: Input): (r: Result<string>)
    ensures r.Ok? ==> IsNormalized(r.value)
  {
    match input
    case Integer(_) => Err(InvalidFormat)
    case Text(s) =>
      var c := Prefixed(s);
      match Validate(c)
      case Failed(e) => Err(e)
      case Done => Ok(Normalize(c))
  }

  /** The three ways construction fails, and that it succeeds otherwise. */
  lemma ParseOutcomes(input: Input)
    ensures input.Integer? ==> Parse(input) == Err(InvalidFormat)
    ensures input.Text? ==> var h := HexPart(input.s);
      && (Parse(input) == Err(InvalidFormat) <==> |h| !in {3, 4, 6, 8})
      && (Parse(input) == Err(InvalidCharacter) <==>
            |h| in {3, 4, 6, 8} && exists i :: 0 <= i < |h| && !IsHexDigit(h[i]))
      && (Parse(input).Ok? <==> |h| in {3, 4, 6, 8} && IsHexString(h))
      && (Parse(input).Err? ==> Parse(input).error != InvalidComponent)
  {
    if input.Text? {
      var c := Prefixed(input.s);
      var h := HexPart(input.s);
      assert h == c[1..];
      if |h| in {3, 4, 6, 8} && (exists i :: 1 <= i < |c| && !IsHexDigit(c[i])) {
        var i :| 1 <= i < |c| && !IsHexDigit(c[i]);
        assert h[i - 1] == c[i];
      }
      if |h| in {3, 4, 6, 8} && (exists i :: 0 <= i < |h| && !IsHexDigit(h[i])) {
        var i :| 0 <= i < |h| && !IsHexDigit(h[i]);
        assert c[i + 1] == h[i];
      }
    }
  }

  /** Upper-casing leaves a stored colour unchanged (`#` is not a letter). */
  lemma UpperOfNormalized(c: string)
    requires IsNormalized(c)
    ensures Upper(c) == c
  {
    forall i | 0 <= i < |c| ensures Upper(c)[i] == c[i] {
      if i > 0 { assert IsHexDigit(c[1..][i - 1]); }
    }
  }

  /** Constructing from a stored colour, with or without its `#`,
      gives back that same colour: `HexColor(str(c)).color == c.color`. */
  lemma ParseRoundTrip(c: string)
    requires IsNormalized(c)
    ensures Parse(Text(c)) == Ok(c)
    ensures Parse(Text(c[1..])) == Ok(c)
  {
    UpperOfNormalized(c);
    assert Prefixed(c) == c;
    UpperOfHex(c[1..]);
    assert Prefixed(c[1..]) == "#" + c[1..] == c;
  }

  /** Construction does not depend on letter case. */
  lemma ParseIgnoresCase(s: string)
    ensures Parse(Text(Upper(s))) == Parse(Text(s))
  {
    assert Upper(Upper(s)) == Upper(s);
    assert Prefixed(Upper(s)) == Prefixed(s);
  }

  /** A 3-digit form `#abc` is stored as `#aabbcc`, a 4-digit form `#abcd` as
      `#aabbccdd` (digits upper-cased). */
  lemma ParseShortForm(s: string)
    requires |HexPart(s)| in {3, 4} && IsHexString(HexPart(s))
    ensures Parse(Text(s)) == Ok("#" + Doubled(HexPart(s)))
  {
    ParseOutcomes(Text(s));
  }

  /** A 6- or 8-digit form is stored as given, after upper-casing and the `#`. */
  lemma ParseLongForm(s: string)
    requires |HexPart(s)| in {6, 8} && IsHexString(HexPart(s))
    ensures Parse(Text(s)) == Ok("#" + HexPart(s))
  {
    ParseOutcomes(Text(s));
    assert Prefixed(s) == "#" + HexPart(s);
  }

  // ---------------------------------------------------------------------
  // Component reads and the integer form

  lemma HexSlice(c: string, i: nat, j: nat)
    requires IsNormalized(c) && 1 <= i <= j <= |c|
    ensures IsHexString(c[i..j])
  {
    forall k | 0 <= k < j - i ensures IsHexDigit(c[i..j][k]) {
      assert c[i..j][k] == c[1..][i - 1 + k];
    }
  }

  /** `red`: digits 1-2. */
  function Red(c: string): (v: nat)
    requires IsNormalized(c)
    ensures v < 256
  {
    HexSlice(c, 1, 3);
    ParseHex(c[1..3])
  }

  /** `green`: digits 3-4. */
  function Green(c: string): (v: nat)
    requires IsNormalized(c)
    ensures v < 256
  {
    HexSlice(c, 3, 5);
    ParseHex(c[3..5])
  }

  /** `blue`: digits 5-6. */
  function Blue(c: string): (v: nat)
    requires IsNormalized(c)
    ensures v < 256
  {
    HexSlice(c, 5, 7);
    ParseHex(c[5..7])
  }

  /** `alpha`: digits 7-8 when stored, otherwise fully opaque. */
  function Alpha(c: string): (v: nat)
    requires IsNormalized(c)
    ensures v < 256
    ensures |c| == 7 ==> v == 255
  {
    if |c| == 9 then
      HexSlice(c, 7, 9);
      ParseHex(c[7..9])
    else 255
  }

  /** `rgb`: the three colour channels read from the hex portion. */
  function Rgb(c: string): (t: (nat, nat, nat))
    requires IsNormalized(c)
    ensures t == (Red(c), Green(c), Blue(c))
  {
    var h := c[1..];
    assert h[0..2] == c[1..3] && h[2..4] == c[3..5] && h[4..6] == c[5..7];
    HexSlice(c, 1, 3);
    HexSlice(c, 3, 5);
    HexSlice(c, 5, 7);
    (ParseHex(h[0..2]), ParseHex(h[2..4]), ParseHex(h[4..6]))
  }

  /** `rgba`: the four channels, alpha 255 when none is stored. */
  function Rgba(c: string): (t: (nat, nat, nat, nat))
    requires IsNormalized(c)
    ensures t == (Red(c), Green(c), Blue(c), Alpha(c))
    ensures t.0 < 256 && t.1 < 256 && t.2 < 256 && t.3 < 256
  {
    var h := c[1..];
    assert h[0..2] == c[1..3] && h[2..4] == c[3..5] && h[4..6] == c[5..7];
    HexSlice(c, 1, 3);
    HexSlice(c, 3, 5);
    HexSlice(c, 5, 7);
    if |h| == 8 then
      assert h[6..8] == c[7..9];
      HexSlice(c, 7, 9);
      (ParseHex(h[0..2]), ParseHex(h[2..4]), ParseHex(h[4..6]), ParseHex(h[6..8]))
    else
      (ParseHex(h[0..2]), ParseHex(h[2..4]), ParseHex(h[4..6]), 255)
  }

  /** `int(c)`: the hex portion read as one base-16 number. */
  function ToInt(c: string): (n: nat)
    requires IsNormalized(c)
    ensures n < Pow16(|c| - 1)
  {
    ParseHex(c[1..])
  }

  /** Reading the hex portion up to position j + 2 shifts the reading up to j
      by one byte and adds the two digits at j. */
  lemma ExtendByByte(c: string, j: nat)
    requires IsNormalized(c) && 1 <= j && j + 2 <= |c|
    ensures IsHexString(c[1..j]) && IsHexString(c[j..j + 2]) && IsHexString(c[1..j + 2])
    ensures ParseHex(c[1..j + 2]) == ParseHex(c[1..j]) * 256 + ParseHex(c[j..j + 2])
  {
    HexSlice(c, 1, j);
    HexSlice(c, j, j + 2);
    HexSlice(c, 1, j + 2);
    assert Pow16(2) == 256 by { assert Pow16(1) == 16; }
    assert c[1..j + 2] == c[1..j] + c[j..j + 2];
    ParseHexAppend(c[1..j], c[j..j + 2]);
  }

  /** The integer packs the channels most significant first; for an 8-digit
      colour the alpha byte is the lowest one, for a 6-digit colour it is absent. */
  lemma ToIntPacksChannels(c: string)
    requires IsNormalized(c)
    ensures |c| == 7 ==> ToInt(c) == Red(c) * 65536 + Green(c) * 256 + Blue(c)
    ensures |c| == 9 ==> ToInt(c) == Red(c) * 16777216 + Green(c) * 65536 + Blue(c) * 256 + Alpha(c)
  {
    ExtendByByte(c, 3);
    ExtendByByte(c, 5);
    assert c[1..3] == c[1..1 + 2];
    var rg := ParseHex(c[1..5]);
    assert rg == Red(c) * 256 + Green(c);
    var rgb := ParseHex(c[1..7]);
    assert rgb == rg * 256 + Blue(c);
    if |c| == 7 {
      assert c[1..] == c[1..7];
    } else {
      ExtendByByte(c, 7);
      assert c[1..] == c[1..9];
    }
  }

  // ---------------------------------------------------------------------
  // Equality and the hash key

  /** `_rgb2rgba`: a 6-digit colour gets an explicit `FF` alpha. */
  function ToRgba(c: string): (e: string)
    requires IsNormalized(c)
    ensures IsNormalized(e) && |e| == 9
    ensures Red(e) == Red(c) && Green(e) == Green(c) && Blue(e) == Blue(c) && Alpha(e) == Alpha(c)
  {
    if |c| == 7 then
      var e := c + "FF";
      assert e[1..] == c[1..] + "FF";
      assert e[1..3] == c[1..3] && e[3..5] == c[3..5] && e[5..7] == c[5..7];
      assert e[7..9] == "FF";
      ParseHex2("FF");
      e
    else c
  }

  /** `==`: the RGBA-expanded strings agree. */
  predicate Equal(a: string, b: string)
    requires IsNormalized(a) && IsNormalized(b)
  {
    ToRgba(a) == ToRgba(b)
  }

  /** The string that `hash` is taken of: the same expansion as equality. */
  function HashKey(c: string): (k: string)
    requires IsNormalized(c)
    ensures IsNormalized(k) && |k| == 9
    ensures Red(k) == Red(c) && Green(k) == Green(c) && Blue(k) == Blue(c) && Alpha(k) == Alpha(c)
  {
    ToRgba(c)
  }

  /** A string of four two-digit parts behind `#` is a stored 8-digit colour,
      each part holding one channel. */
  lemma Join4(x: string, y: string, z: string, w: string)
    requires IsComponent(x) && IsComponent(y) && IsComponent(z) && IsComponent(w)
    ensures var s := "#" + x + y + z + w;
      && IsNormalized(s) && |s| == 9
      && s[1..3] == x && s[3..5] == y && s[5..7] == z && s[7..9] == w
      && Red(s) == ParseHex(x) && Green(s) == ParseHex(y)
      && Blue(s) == ParseHex(z) && Alpha(s) == ParseHex(w)
  {
    var s := "#" + x + y + z + w;
    assert s[1..] == x + y + z + w;
    assert s[1..3] == x && s[3..5] == y && s[5..7] == z && s[7..9] == w;
  }

  /** The 6-digit counterpart of Join4. */
  lemma Join3(x: string, y: string, z: string)
    requires IsComponent(x) && IsComponent(y) && IsComponent(z)
    ensures var s := "#" + x + y + z;
      && IsNormalized(s) && |s| == 7
      && s[1..3] == x && s[3..5] == y && s[5..7] == z
      && Red(s) == ParseHex(x) && Green(s) == ParseHex(y)
      && Blue(s) == ParseHex(z) && Alpha(s) == 255
  {
    var s := "#" + x + y + z;
    assert s[1..] == x + y + z;
    assert s[1..3] == x && s[3..5] == y && s[5..7] == z;
  }

  /** The two-digit parts of a stored colour are hex digit pairs. */
  lemma Parts(c: string)
    requires IsNormalized(c)
    ensures IsComponent(c[1..3]) && IsComponent(c[3..5]) && IsComponent(c[5..7])
    ensures |c| == 9 ==> IsComponent(c[7..9])
  {
    HexSlice(c, 1, 3);
    HexSlice(c, 3, 5);
    HexSlice(c, 5, 7);
    if |c| == 9 {
      HexSlice(c, 7, 9);
    }
  }

  /** A stored colour is its `#` followed by its two-digit parts. */
  lemma Split(c: string)
    requires IsNormalized(c)
    ensures IsComponent(c[1..3]) && IsComponent(c[3..5]) && IsComponent(c[5..7])
    ensures |c| == 7 ==> c == "#" + c[1..3] + c[3..5] + c[5..7]
    ensures |c| == 9 ==> IsComponent(c[7..9]) && c == "#" + c[1..3] + c[3..5] + c[5..7] + c[7..9]
  {
    Parts(c);
  }

  /** The hash key is the channels written back as two digits each, so it
      depends on the four channel values and nothing else. */
  lemma HashKeyOfChannels(c: string)
    requires IsNormalized(c)
    ensures HashKey(c) == "#" + ByteHex(Red(c)) + ByteHex(Green(c)) + ByteHex(Blue(c)) + ByteHex(Alpha(c))
  {
    var e := ToRgba(c);
    Split(e);
    ByteHexOfParse(e[1..3]);
    ByteHexOfParse(e[3..5]);
    ByteHexOfParse(e[5..7]);
    ByteHexOfParse(e[7..9]);
    assert Rgba(e) == Rgba(c);
  }

  /** Two colours are equal exactly when all four channels agree, alpha read
      as 255 where none is stored. */
  lemma EqualIffRgba(a: string, b: string)
    requires IsNormalized(a) && IsNormalized(b)
    ensures Equal(a, b) <==> Rgba(a) == Rgba(b)
  {
    HashKeyOfChannels(a);
    HashKeyOfChannels(b);
    if Rgba(a) == Rgba(b) {
      assert HashKey(a) == HashKey(b);
    }
    if Equal(a, b) {
      assert Rgba(ToRgba(a)) == Rgba(ToRgba(b));
    }
  }

  /** Equal colours have equal hash keys, and equality is an equivalence. */
  lemma EqualHashAgrees(a: string, b: string, c: string)
    requires IsNormalized(a) && IsNormalized(b) && IsNormalized(c)
    ensures Equal(a, b) ==> HashKey(a) == HashKey(b)
    ensures Equal(a, a)
    ensures Equal(a, b) ==> Equal(b, a)
    ensures Equal(a, b) && Equal(b, c) ==> Equal(a, c)
  {
  }

  /** `#000000` equals `#000000FF` but not `#00000000`. */
  lemma EqualExamples()
    ensures IsNormalized("#000000") && IsNormalized("#000000FF") && IsNormalized("#00000000")
    ensures Equal("#000000", "#000000FF")
    ensures !Equal("#000000", "#00000000")
  {
    assert IsNormalized("#000000") by { assert "#000000"[1..] == "000000"; }
    assert IsNormalized("#000000FF") by { assert "#000000FF"[1..] == "000000FF"; }
    assert IsNormalized("#00000000") by { assert "#00000000"[1..] == "00000000"; }
    assert ToRgba("#000000") == "#000000FF";
    assert ToRgba("#00000000")[7] == '0';
  }

  // ---------------------------------------------------------------------
  // Channel arithmetic

  function Min(x: int, y: int): int {
    if x <= y then x else y
  }

  /** Python 3's `round(sum / 2)` for a natural `sum`: the nearest integer,
      a tie going to the even neighbour. Written by steps of 4, on which the
      pattern repeats (0, 1, 2, 3 give 0, 0, 1, 2); RoundHalfEvenSpec states
      the rounding rule it implements. */
  function RoundHalfEven(sum: nat): nat
  {
    if sum < 4 then (if sum == 3 then 2 else if sum == 2 then 1 else 0)
    else 2 + RoundHalfEven(sum - 4)
  }

  /** RoundHalfEven(sum) is within one half of sum / 2, is exactly sum / 2
      when sum is even, and is even when sum / 2 ends in .5; these three
      facts determine it. */
  lemma {:induction false} RoundHalfEvenSpec(sum: nat)
    ensures var r := RoundHalfEven(sum);
      && 2 * r - 1 <= sum <= 2 * r + 1
      && (sum % 2 == 0 ==> 2 * r == sum)
      && (sum % 2 == 1 ==> r % 2 == 0)
  {
    if sum >= 4 {
      RoundHalfEvenSpec(sum - 4);
    }
  }

  /** The rounding rule leaves no choice: any value meeting it is RoundHalfEven. */
  lemma RoundHalfEvenUnique(sum: nat, r: int)
    requires 2 * r - 1 <= sum <= 2 * r + 1
    requires sum % 2 == 0 ==> 2 * r == sum
    requires sum % 2 == 1 ==> r % 2 == 0
    ensures r == RoundHalfEven(sum)
  {
    RoundHalfEvenSpec(sum);
  }

  /** `round((u + v) / 2)`: the rounded mean of two channel values. */
  function Average(u: nat, v: nat): nat {
    RoundHalfEven(u + v)
  }

  /** The mean of two channel values needs no cap: it is at most 255. */
  lemma AverageBound(u: nat, v: nat)
    requires u < 256 && v < 256
    ensures Average(u, v) <= 255
  {
    RoundHalfEvenSpec(u + v);
  }

  /** A value averaged with itself (or with an equal value) is that value. */
  lemma AverageSelf(u: nat, v: nat)
    requires u == v
    ensures Average(u, v) == v
  {
    RoundHalfEvenSpec(u + v);
  }

  /** `_passage_add` on two two-digit channel strings: the rounded average,
      capped at 255, written as two upper-case digits. */
  function ChannelAdd(c1: string, c2: string): (r: string)
    requires IsComponent(c1) && IsComponent(c2)
    ensures IsComponent(r)
    ensures ParseHex(r) == Average(ParseHex(c1), ParseHex(c2))
  {
    AverageBound(ParseHex(c1), ParseHex(c2));
    ByteHex(Min(Average(ParseHex(c1), ParseHex(c2)), 255))
  }

  /** `max(u - v, 0)`: the difference of two channel values, floored at 0. */
  function Difference(u: nat, v: nat): nat {
    if u >= v then u - v else 0
  }

  /** `_passage_sub` on two two-digit channel strings: the difference,
      floored at 0, written as two upper-case digits. */
  function ChannelSub(c1: string, c2: string): (r: string)
    requires IsComponent(c1) && IsComponent(c2)
    ensures IsComponent(r)
    ensures ParseHex(r) == Difference(ParseHex(c1), ParseHex(c2))
    ensures ParseHex(c1) <= ParseHex(c2) ==> r == "00"
  {
    var v := Difference(ParseHex(c1), ParseHex(c2));
    if v == 0 then
      assert ToHex(0) == "0";
      ByteHex(v)
    else
      ByteHex(v)
  }

  /** True when the channel arithmetic works on four channels. */
  predicate HasAlpha(a: string, b: string) {
    |a| == 9 || |b| == 9
  }

  /** `HexColor(f"#{x}{y}{z}{w}")` on four two-digit parts: construction
      succeeds and stores exactly that string. */
  function Rebuild4(x: string, y: string, z: string, w: string): (r: string)
    requires IsComponent(x) && IsComponent(y) && IsComponent(z) && IsComponent(w)
    ensures IsNormalized(r) && |r| == 9
    ensures Red(r) == ParseHex(x) && Green(r) == ParseHex(y)
      && Blue(r) == ParseHex(z) && Alpha(r) == ParseHex(w)
  {
    var s := "#" + x + y + z + w;
    Join4(x, y, z, w);
    ParseRoundTrip(s);
    Parse(Text(s)).value
  }

  /** `HexColor(f"#{x}{y}{z}")` on three two-digit parts. */
  function Rebuild3(x: string, y: string, z: string): (r: string)
    requires IsComponent(x) && IsComponent(y) && IsComponent(z)
    ensures IsNormalized(r) && |r| == 7
    ensures Red(r) == ParseHex(x) && Green(r) == ParseHex(y)
      && Blue(r) == ParseHex(z) && Alpha(r) == 255
  {
    var s := "#" + x + y + z;
    Join3(x, y, z);
    ParseRoundTrip(s);
    Parse(Text(s)).value
  }

  /** The four-channel branch of `+`, on two 8-digit operands. */
  function AddRgba(x: string, y: string): (r: string)
    requires IsNormalized(x) && IsNormalized(y) && |x| == 9 && |y| == 9
    ensures IsNormalized(r) && |r| == 9
    ensures Red(r) == Average(Red(x), Red(y))
    ensures Green(r) == Average(Green(x), Green(y))
    ensures Blue(r) == Average(Blue(x), Blue(y))
    ensures Alpha(r) == Average(Alpha(x), Alpha(y))
  {
    Parts(x);
    Parts(y);
    Rebuild4(ChannelAdd(x[1..3], y[1..3]), ChannelAdd(x[3..5], y[3..5]),
             ChannelAdd(x[5..7], y[5..7]), ChannelAdd(x[7..9], y[7..9]))
  }

  /** The three-channel branch of `+`, on two 6-digit operands. */
  function AddRgb(a: string, b: string): (r: string)
    requires IsNormalized(a) && IsNormalized(b) && |a| == 7 && |b| == 7
    ensures IsNormalized(r) && |r| == 7
    ensures Red(r) == Average(Red(a), Red(b))
    ensures Green(r) == Average(Green(a), Green(b))
    ensures Blue(r) == Average(Blue(a), Blue(b))
  {
    Parts(a);
    Parts(b);
    Rebuild3(ChannelAdd(a[1..3], b[1..3]), ChannelAdd(a[3..5], b[3..5]), ChannelAdd(a[5..7], b[5..7]))
  }

  /** `+`: the per-channel rounded average. Four channels (a 6-digit operand
      counting as alpha `FF`) when either operand stores alpha, three
      otherwise; the digits are handed back to the constructor. Each channel
      of the result is the rounded average of the operands' channels; where
      neither operand stores alpha, neither does the result. */
  function AddColors(a: string, b: string): (r: string)
    requires IsNormalized(a) && IsNormalized(b)
    ensures IsNormalized(r)
    ensures |r| == if HasAlpha(a, b) then 9 else 7
    ensures Red(r) == Average(Red(a), Red(b))
    ensures Green(r) == Average(Green(a), Green(b))
    ensures Blue(r) == Average(Blue(a), Blue(b))
    ensures Alpha(r) == if HasAlpha(a, b) then Average(Alpha(a), Alpha(b)) else 255
  {
    if HasAlpha(a, b) then AddRgba(ToRgba(a), ToRgba(b)) else AddRgb(a, b)
  }

  /** The four-channel branch of `-`, on two 8-digit operands. */
  function SubRgba(x: string, y: string): (r: string)
    requires IsNormalized(x) && IsNormalized(y) && |x| == 9 && |y| == 9
    ensures IsNormalized(r) && |r| == 9
    ensures Red(r) == Difference(Red(x), Red(y))
    ensures Green(r) == Difference(Green(x), Green(y))
    ensures Blue(r) == Difference(Blue(x), Blue(y))
    ensures Alpha(r) == Difference(Alpha(x), Alpha(y))
  {
    Parts(x);
    Parts(y);
    Rebuild4(ChannelSub(x[1..3], y[1..3]), ChannelSub(x[3..5], y[3..5]),
             ChannelSub(x[5..7], y[5..7]), ChannelSub(x[7..9], y[7..9]))
  }

  /** The three-channel branch of `-`, on two 6-digit operands. */
  function SubRgb(a: string, b: string): (r: string)
    requires IsNormalized(a) && IsNormalized(b) && |a| == 7 && |b| == 7
    ensures IsNormalized(r) && |r| == 7
    ensures Red(r) == Difference(Red(a), Red(b))
    ensures Green(r) == Difference(Green(a), Green(b))
    ensures Blue(r) == Difference(Blue(a), Blue(b))
  {
    Parts(a);
    Parts(b);
    Rebuild3(ChannelSub(a[1..3], b[1..3]), ChannelSub(a[3..5], b[3..5]), ChannelSub(a[5..7], b[5..7]))
  }

  /** `-`: the per-channel difference floored at 0, with the same choice of
      three or four channels as `+`. With alpha on either side the alpha
      channel is subtracted too (a 6-digit operand counting as 255);
      otherwise the result stores no alpha and reads as 255. */
  function SubColors(a: string, b: string): (r: string)
    requires IsNormalized(a) && IsNormalized(b)
    ensures IsNormalized(r)
    ensures |r| == if HasAlpha(a, b) then 9 else 7
    ensures Red(r) == Difference(Red(a), Red(b))
    ensures Green(r) == Difference(Green(a), Green(b))
    ensures Blue(r) == Difference(Blue(a), Blue(b))
    ensures Alpha(r) == if HasAlpha(a, b) then Difference(Alpha(a), Alpha(b)) else 255
  {
    if HasAlpha(a, b) then SubRgba(ToRgba(a), ToRgba(b)) else SubRgb(a, b)
  }

  /** `a + b == b + a`, as strings. */
  lemma AddCommutative(a: string, b: string)
    requires IsNormalized(a) && IsNormalized(b)
    ensures AddColors(a, b) == AddColors(b, a)
  {
  }

  /** Averaging a channel string with itself gives it back. */
  lemma ChannelAddSelf(x: string)
    requires IsComponent(x)
    ensures ChannelAdd(x, x) == x
  {
    ByteHexOfParse(x);
    AverageSelf(ParseHex(x), ParseHex(x));
  }

  /** A stored colour is determined by its width and its four channels. */
  lemma ChannelsDetermine(a: string, b: string)
    requires IsNormalized(a) && IsNormalized(b) && |a| == |b|
    requires Red(a) == Red(b) && Green(a) == Green(b) && Blue(a) == Blue(b) && Alpha(a) == Alpha(b)
    ensures a == b
  {
    HashKeyOfChannels(a);
    HashKeyOfChannels(b);
    if |a| == 7 {
      assert a == ToRgba(a)[..7];
      assert b == ToRgba(b)[..7];
    }
  }

  /** A colour added to itself is that same colour, as a string. */
  lemma AddSelf(c: string)
    requires IsNormalized(c)
    ensures AddColors(c, c) == c
  {
    var r := AddColors(c, c);
    assert Red(r) == Red(c) by { AverageSelf(Red(c), Red(c)); }
    assert Green(r) == Green(c) by { AverageSelf(Green(c), Green(c)); }
    assert Blue(r) == Blue(c) by { AverageSelf(Blue(c), Blue(c)); }
    assert Alpha(r) == Alpha(c) by { AverageSelf(Alpha(c), Alpha(c)); }
    ChannelsDetermine(r, c);
  }

  /** `#` followed by one channel string three or four times. */
  lemma Grey(h: string)
    requires IsComponent(h)
    ensures var g := "#" + h + h + h;
      && IsNormalized(g) && |g| == 7
      && Red(g) == ParseHex(h) && Green(g) == ParseHex(h) && Blue(g) == ParseHex(h) && Alpha(g) == 255
    ensures var g := "#" + h + h + h + h;
      && IsNormalized(g) && |g| == 9
      && Red(g) == ParseHex(h) && Green(g) == ParseHex(h) && Blue(g) == ParseHex(h) && Alpha(g) == ParseHex(h)
  {
    Join3(h, h, h);
    Join4(h, h, h, h);
  }

  /** Black, with and without a stored alpha of 0. */
  lemma Black()
    ensures IsNormalized("#000000") && |"#000000"| == 7
    ensures Red("#000000") == 0 && Green("#000000") == 0 && Blue("#000000") == 0
    ensures IsNormalized("#00000000") && |"#00000000"| == 9
    ensures Red("#00000000") == 0 && Green("#00000000") == 0 && Blue("#00000000") == 0
      && Alpha("#00000000") == 0
  {
    ParseHex2("00");
    Grey("00");
    assert "#000000" == "#" + "00" + "00" + "00";
    assert "#00000000" == "#" + "00" + "00" + "00" + "00";
  }

  /** A colour minus itself is black, with alpha `00` when alpha is stored. */
  lemma SubSelf(c: string)
    requires IsNormalized(c)
    ensures SubColors(c, c) == if |c| == 9 then "#00000000" else "#000000"
  {
    Black();
    ChannelsDetermine(SubColors(c, c), if |c| == 9 then "#00000000" else "#000000");
  }

  /** The sum respects equality: replacing an operand by an equal colour
      gives an equal sum. */
  lemma AddRespectsEqual(a: string, a': string, b: string)
    requires IsNormalized(a) && IsNormalized(a') && IsNormalized(b)
    requires Equal(a, a')
    ensures Equal(AddColors(a, b), AddColors(a', b))
  {
    EqualIffRgba(a, a');
    var r, r' := AddColors(a, b), AddColors(a', b);
    assert Red(r) == Red(r') && Green(r) == Green(r') && Blue(r) == Blue(r');
    assert Alpha(a) == Alpha(a');
    if HasAlpha(a, b) != HasAlpha(a', b) {
      // Only one of a, a' stores alpha, so b stores none and all three read 255.
      assert |b| == 7;
      assert |a| == 7 || |a'| == 7;
      assert Alpha(b) == 255 && Alpha(a) == 255;
      AverageSelf(Alpha(a), Alpha(b));
    }
    assert Alpha(r) == Alpha(r');
    EqualIffRgba(r, r');
  }

  /** The difference does not respect equality: `#101010` equals
      `#101010FF`, yet subtracting `#101010` from them gives `#000000` and
      `#00000000`, which are not equal because only the second stores alpha 0. */
  lemma SubIgnoresEquality()
    ensures IsNormalized("#101010") && IsNormalized("#101010FF")
    ensures Equal("#101010", "#101010FF")
    ensures !Equal(SubColors("#101010", "#101010"), SubColors("#101010FF", "#101010"))
  {
    assert IsNormalized("#101010") by { assert "#101010"[1..] == "101010"; }
    assert IsNormalized("#101010FF") by { assert "#101010FF"[1..] == "101010FF"; }
    assert ToRgba("#101010") == "#101010FF";
    SubSelf("#101010");
    Black();
    EqualIffRgba("#000000", SubColors("#101010FF", "#101010"));
  }

  /** The sum of two greys `#hhhhhh` and `#kkkkkk` is the grey of the
      averaged channel string. */
  lemma AddGreys(h: string, k: string)
    requires IsComponent(h) && IsComponent(k)
    ensures IsNormalized("#" + h + h + h) && IsNormalized("#" + k + k + k)
    ensures var m := ChannelAdd(h, k);
      AddColors("#" + h + h + h, "#" + k + k + k) == "#" + m + m + m
  {
    var m := ChannelAdd(h, k);
    Grey(h);
    Grey(k);
    Grey(m);
    ChannelsDetermine(AddColors("#" + h + h + h, "#" + k + k + k), "#" + m + m + m);
  }

  /** The difference of two greys is the grey of the channel difference. */
  lemma SubGreys(h: string, k: string)
    requires IsComponent(h) && IsComponent(k)
    ensures IsNormalized("#" + h + h + h) && IsNormalized("#" + k + k + k)
    ensures var m := ChannelSub(h, k);
      SubColors("#" + h + h + h, "#" + k + k + k) == "#" + m + m + m
  {
    var m := ChannelSub(h, k);
    Grey(h);
    Grey(k);
    Grey(m);
    ChannelsDetermine(SubColors("#" + h + h + h, "#" + k + k + k), "#" + m + m + m);
  }

  /** `FF` and `00` average to `80`: 127.5 rounds to the even 128. */
  lemma ChannelAddTie()
    ensures IsComponent("FF") && IsComponent("00")
    ensures ChannelAdd("FF", "00") == "80"
  {
    assert ParseHex("FF") == 255 by { ParseHex2("FF"); }
    assert ParseHex("00") == 0 by { ParseHex2("00"); }
    assert ParseHex("80") == 128 by { ParseHex2("80"); }
    assert Average(ParseHex("FF"), ParseHex("00")) == 128 by { RoundHalfEvenUnique(255, 128); }
    ParseHexInjective2(ChannelAdd("FF", "00"), "80");
  }

  /** `10` minus `20` is floored at `00`. */
  lemma ChannelSubFloor()
    ensures IsComponent("10") && IsComponent("20")
    ensures ChannelSub("10", "20") == "00"
  {
    ParseHex2("10");
    ParseHex2("20");
  }

  /** `#FFFFFF + #000000` is `#808080`, and `#101010 - #202020` is `#000000`. */
  lemma ArithmeticExamples()
    ensures IsNormalized("#FFFFFF") && IsNormalized("#000000")
      && IsNormalized("#101010") && IsNormalized("#202020")
    ensures AddColors("#FFFFFF", "#000000") == "#808080"
    ensures SubColors("#101010", "#202020") == "#000000"
  {
    assert "#FFFFFF" == "#" + "FF" + "FF" + "FF";
    assert "#000000" == "#" + "00" + "00" + "00";
    assert "#808080" == "#" + "80" + "80" + "80";
    assert "#101010" == "#" + "10" + "10" + "10";
    assert "#202020" == "#" + "20" + "20" + "20";
    ChannelAddTie();
    ChannelSubFloor();
    AddGreys("FF", "00");
    SubGreys("10", "20");
  }

  // ---------------------------------------------------------------------
  // Reads of the short forms

  /** After construction from `#abc` or `#abcd` each channel is the digit's
      value times 17 (`a` read as `aa`); without a fourth digit alpha is 255. */
  lemma ShortFormChannels(h: string)
    requires |h| in {3, 4} && IsHexString(h)
    ensures IsNormalized("#" + Doubled(h))
    ensures var c := "#" + Doubled(h);
      && Red(c) == 17 * DigitValue(h[0])
      && Green(c) == 17 * DigitValue(h[1])
      && Blue(c) == 17 * DigitValue(h[2])
      && Alpha(c) == if |h| == 4 then 17 * DigitValue(h[3]) else 255
  {
    var c := "#" + Doubled(h);
    assert (c)[1..] == Doubled(h);
    assert IsNormalized(c);
    Split(c);
    ParseHex2(c[1..3]);
    ParseHex2(c[3..5]);
    ParseHex2(c[5..7]);
    if |h| == 4 {
      ParseHex2(c[7..9]);
    }
  }

  // ---------------------------------------------------------------------
  // Component edits, on the stored string

  /** Splicing two digits in at positions 1-2 changes red to their value
      and keeps the other channels and the width. */
  lemma SpliceRed(c: string, h: string)
    requires IsNormalized(c) && IsComponent(h)
    ensures var d := "#" + h + c[3..];
      && IsNormalized(d) && |d| == |c|
      && Red(d) == ParseHex(h) && Green(d) == Green(c) && Blue(d) == Blue(c) && Alpha(d) == Alpha(c)
  {
    var d := "#" + h + c[3..];
    Split(c);
    if |c| == 7 {
      assert d == "#" + h + c[3..5] + c[5..7];
      Join3(h, c[3..5], c[5..7]);
    } else {
      assert d == "#" + h + c[3..5] + c[5..7] + c[7..9];
      Join4(h, c[3..5], c[5..7], c[7..9]);
    }
  }

  /** The same for green, at positions 3-4. */
  lemma SpliceGreen(c: string, h: string)
    requires IsNormalized(c) && IsComponent(h)
    ensures var d := c[..3] + h + c[5..];
      && IsNormalized(d) && |d| == |c|
      && Red(d) == Red(c) && Green(d) == ParseHex(h) && Blue(d) == Blue(c) && Alpha(d) == Alpha(c)
  {
    var d := c[..3] + h + c[5..];
    Split(c);
    if |c| == 7 {
      assert d == "#" + c[1..3] + h + c[5..7];
      Join3(c[1..3], h, c[5..7]);
    } else {
      assert d == "#" + c[1..3] + h + c[5..7] + c[7..9];
      Join4(c[1..3], h, c[5..7], c[7..9]);
    }
  }

  /** The same for blue, at positions 5-6. */
  lemma SpliceBlue(c: string, h: string)
    requires IsNormalized(c) && IsComponent(h)
    ensures var d := c[..5] + h + c[7..];
      && IsNormalized(d) && |d| == |c|
      && Red(d) == Red(c) && Green(d) == Green(c) && Blue(d) == ParseHex(h) && Alpha(d) == Alpha(c)
  {
    var d := c[..5] + h + c[7..];
    Split(c);
    if |c| == 7 {
      assert d == "#" + c[1..3] + c[3..5] + h;
      Join3(c[1..3], c[3..5], h);
    } else {
      assert d == "#" + c[1..3] + c[3..5] + h + c[7..9];
      Join4(c[1..3], c[3..5], h, c[7..9]);
    }
  }

  /** Setting alpha appends it to a 6-digit colour and replaces it in an
      8-digit one: either way the result has 8 digits, the new alpha, and
      the old colour channels. */
  lemma SpliceAlpha(c: string, h: string)
    requires IsNormalized(c) && IsComponent(h)
    ensures var d := if |c| == 9 then c[..7] + h else c + h;
      && IsNormalized(d) && |d| == 9
      && Red(d) == Red(c) && Green(d) == Green(c) && Blue(d) == Blue(c) && Alpha(d) == ParseHex(h)
  {
    Split(c);
    if |c| == 7 {
      assert c + h == "#" + c[1..3] + c[3..5] + c[5..7] + h;
    } else {
      assert c[..7] + h == "#" + c[1..3] + c[3..5] + c[5..7] + h;
    }
    Join4(c[1..3], c[3..5], c[5..7], h);
  }

  /** Giving a 6-digit colour an explicit `FF` alpha keeps it equal to what
      it was, though its string grows to 8 digits. */
  lemma OpaqueAlphaKeepsEqual(c: string)
    requires IsNormalized(c) && |c| == 7
    ensures IsNormalized(c + "FF") && Equal(c + "FF", c) && c + "FF" != c
  {
    SpliceAlpha(c, "FF");
  }

  // ---------------------------------------------------------------------
  // The object

  /** A colour object. Its one field `color` always holds a stored form;
      arithmetic builds new objects, and only the `Edit` methods overwrite
      the field. */
  class HexColor {
    var color: string

    ghost predicate Valid()
      reads this
    {
      IsNormalized(color)
    }

    /** Wraps a string that is already in stored form. */
    constructor FromNormalized(c: string)
      requires IsNormalized(c)
      ensures Valid() && color == c
    {
      color := c;
    }

    /** `HexColor(x)`: refuses a number, upper-cases the text, supplies the
        missing `#`, validates, and stores the normalised form. */
    static method Create(input: Input) returns (r: Result<HexColor>)
      ensures r.Err? ==> Parse(input) == Err(r.error)
      ensures r.Ok? ==> fresh(r.value) && r.value.Valid() && Parse(input) == Ok(r.value.color)
    {
      if input.Integer? {
        return Err(InvalidFormat);
      }
      var c := Prefixed(input.s);
      var v := Validate(c);
      if v.Failed? {
        return Err(v.error);
      }
      var h := new HexColor.FromNormalized(Normalize(c));
      return Ok(h);
    }

    /** `self + other`: a new colour; neither operand changes. */
    method Add(other: HexColor) returns (r: HexColor)
      requires Valid() && other.Valid()
      ensures fresh(r) && r.Valid()
      ensures r.color == AddColors(color, other.color)
    {
      r := new HexColor.FromNormalized(AddColors(color, other.color));
    }

    /** `self - other`: a new colour; neither operand changes. */
    method Sub(other: HexColor) returns (r: HexColor)
      requires Valid() && other.Valid()
      ensures fresh(r) && r.Valid()
      ensures r.color == SubColors(color, other.color)
    {
      r := new HexColor.FromNormalized(SubColors(color, other.color));
    }

    /** `edit_red`: two hex digits (any case) replace red; anything else is
        refused and the colour is left as it was. */
    method EditRed(hexRed: string) returns (r: Outcome)
      requires Valid()
      modifies this
      ensures Valid()
      ensures r == if IsComponent(Upper(hexRed)) then Done else Failed(InvalidComponent)
      ensures r.Failed? ==> color == old(color)
      ensures r.Done? ==> color == "#" + Upper(hexRed) + old(color)[3..]
      ensures r.Done? ==> (|color| == |old(color)| && Red(color) == ParseHex(Upper(hexRed))
        && Green(color) == old(Green(color)) && Blue(color) == old(Blue(color))
        && Alpha(color) == old(Alpha(color)))
    {
      var h := Upper(hexRed);
      if !IsComponent(h) {
        return Failed(InvalidComponent);
      }
      SpliceRed(color, h);
      color := "#" + h + color[3..];
      r := Done;
    }

    /** `edit_green`: as EditRed, at positions 3-4. */
    method EditGreen(hexGreen: string) returns (r: Outcome)
      requires Valid()
      modifies this
      ensures Valid()
      ensures r == if IsComponent(Upper(hexGreen)) then Done else Failed(InvalidComponent)
      ensures r.Failed? ==> color == old(color)
      ensures r.Done? ==> color == old(color)[..3] + Upper(hexGreen) + old(color)[5..]
      ensures r.Done? ==> (|color| == |old(color)| && Green(color) == ParseHex(Upper(hexGreen))
        && Red(color) == old(Red(color)) && Blue(color) == old(Blue(color))
        && Alpha(color) == old(Alpha(color)))
    {
      var h := Upper(hexGreen);
      if !IsComponent(h) {
        return Failed(InvalidComponent);
      }
      SpliceGreen(color, h);
      color := color[..3] + h + color[5..];
      r := Done;
    }

    /** `edit_blue`: as EditRed, at positions 5-6. */
    method EditBlue(hexBlue: string) returns (r: Outcome)
      requires Valid()
      modifies this
      ensures Valid()
      ensures r == if IsComponent(Upper(hexBlue)) then Done else Failed(InvalidComponent)
      ensures r.Failed? ==> color == old(color)
      ensures r.Done? ==> color == old(color)[..5] + Upper(hexBlue) + old(color)[7..]
      ensures r.Done? ==> (|color| == |old(color)| && Blue(color) == ParseHex(Upper(hexBlue))
        && Red(color) == old(Red(color)) && Green(color) == old(Green(color))
        && Alpha(color) == old(Alpha(color)))
    {
      var h := Upper(hexBlue);
      if !IsComponent(h) {
        return Failed(InvalidComponent);
      }
      SpliceBlue(color, h);
      color := color[..5] + h + color[7..];
      r := Done;
    }

    /** `edit_alpha`: replaces a stored alpha, or appends one to a 6-digit
        colour, which then has 8 digits; refused arguments change nothing. */
    method EditAlpha(hexAlpha: string) returns (r: Outcome)
      requires Valid()
      modifies this
      ensures Valid()
      ensures r == if IsComponent(Upper(hexAlpha)) then Done else Failed(InvalidComponent)
      ensures r.Failed? ==> color == old(color)
      ensures r.Done? && |old(color)| == 9 ==> color == old(color)[..7] + Upper(hexAlpha)
      ensures r.Done? && |old(color)| == 7 ==> color == old(color) + Upper(hexAlpha)
      ensures r.Done? ==> (|color| == 9 && Alpha(color) == ParseHex(Upper(hexAlpha))
        && Red(color) == old(Red(color)) && Green(color) == old(Green(color))
        && Blue(color) == old(Blue(color)))
    {
      var h := Upper(hexAlpha);
      if !IsComponent(h) {
        return Failed(InvalidComponent);
      }
      SpliceAlpha(color, h);
      if |color| == 9 {
        color := color[..7] + h;
      } else {
        color := color + h;
      }
      r := Done;
    }
  }
}
