# HexColor in Dafny

A model of the Python class `HexColor`, a colour value written in hexadecimal
notation, with proofs about it.

The class accepts `#RGB`, `#RGBA`, `#RRGGBB` and `#RRGGBBAA`, with or without
the `#` and in any letter case. It stores the colour in one field, `color`,
as `#` followed by 6 or 8 upper-case hex digits. It offers:

- component reads: `red`, `green`, `blue`, `alpha`, `rgb`, `rgba`;
- the integer form `int(c)`;
- equality, and a hash consistent with it;
- per-channel `+` (the rounded average) and `-` (the difference floored at 0);
- in-place component edits: `edit_red`, `edit_green`, `edit_blue`, `edit_alpha`.

The project has two modules.

- `Hex` (`hex.dfy`) covers hexadecimal digits:
  - ASCII upper-casing;
  - `int(s, 16)` on a digit string (`ParseHex`);
  - `hex(n)[2:].upper()` (`ToHex`);
  - the padding helper `_1to2` (`PadTo2`);
  - their combination, a channel byte written as exactly two digits (`ByteHex`).
- `Color` (`color.dfy`) holds the colour type.
  - Everything the class computes without changing state is a function. Validation, normalisation and construction (`Prefixed`, `Validate`, `Normalize`, `Parse`) take the text handed to the constructor (or the `Input`). The reads, `int`, the RGBA expansion, equality, the hash key and the arithmetic take the stored string `color`.
  - The class `HexColor` has the field `color`. Its methods either allocate a colour or overwrite `color`: `Create` (the constructor), `Add`, `Sub`, and the four `Edit` methods.
  - The class invariant `Valid()` says that `color` is always in stored form.

Construction errors are values, not exceptions. `Parse` and `Create` return
`Err(kind)`, and the edit methods return `Failed(kind)` and leave `color` as it
was. The code raises a plain `ValueError` in every case. The model tells the
raise sites apart with three kinds:

- `InvalidFormat`: an integer argument, or a wrong length;
- `InvalidCharacter`: a character outside `0-9A-F`;
- `InvalidComponent`: a bad argument to an edit method.

The main results:

- **Construction.** `Parse` always produces a stored form. Short forms double every digit. 6- and 8-digit forms are kept. Constructing from a stored colour, with or without its `#`, gives that colour back. Construction ignores letter case. It fails in exactly three cases (an integer, a bad length, a bad character); the first two share `InvalidFormat`.
- **Reads.** Every channel is below 256, and alpha defaults to 255. `rgb` and `rgba` agree with the single-channel reads. `int` packs the channels most significant first.
- **Equality.** Two colours are equal exactly when their four channels agree, with alpha read as 255 where none is stored. So `#000000 == #000000FF`, while `#000000 != #00000000`. Equal colours have the same hash key.
- **Addition.**
  - Every channel of `a + b` is Python's `round((x + y) / 2)` of the operands' channels: half-to-even, as `RoundHalfEvenSpec` proves.
  - The result carries alpha exactly when an operand does.
  - Addition is commutative, `c + c == c`, and it respects equality.
  - `#FFFFFF + #000000 == #808080`, because 127.5 rounds to the even 128.
- **Subtraction.**
  - Every channel is the difference floored at 0, and `c - c` is black.
  - It does not respect equality: `#101010 == #101010FF`, but subtracting `#101010` from each gives `#000000` and `#00000000`, which are not equal.
- **Edits.** Each edit replaces exactly its two digits and keeps every other channel. `edit_alpha` appends alpha to a 6-digit colour. A refused argument changes nothing.

## Model

| member | source | states |
|---|---|---|
| Hex.IsHexDigit | HexColor/__init__.py:60 | `c in '0123456789ABCDEF'`, the membership test of lines 60, 178, 185, 192 and 199 (a predicate) |
| Hex.IsHexString | HexColor/__init__.py:60 | `all(c in '0123456789ABCDEF' for c in s)`: every character is a hex digit (a predicate) |
| Hex.UpperChar | HexColor/__init__.py:22 | `str.upper()` on one character: a lower-case ASCII letter becomes its upper-case letter, every other character is kept |
| Hex.Upper | HexColor/__init__.py:22 | `str.upper()`: same length, and every character is upper-cased (ASCII letters only) |
| Hex.UpperOfHex | HexColor/__init__.py:22 | upper-casing leaves an upper-case hex string unchanged |
| Hex.ParseHex | HexColor/__init__.py:156 | `int(s, 16)` on upper-case digits: the value is below 16^len |
| Hex.ParseHex2 | HexColor/__init__.py:156 | a two-digit string reads as 16·high + low |
| Hex.ParseHexAppend | HexColor/__init__.py:81 | reading a concatenation shifts the left part by 16^len(right) and adds the right part |
| Hex.ToHex | HexColor/__init__.py:37 | `hex(n)[2:].upper()`: upper-case digits that read back as n, with no leading zero; one digit iff n < 16; at most two digits below 256 |
| Hex.PadTo2 | HexColor/__init__.py:29-33 | `_1to2`: a 1-character string gets a leading `0`; any other string is returned unchanged |
| Hex.ByteHex | HexColor/__init__.py:29-37 | `_1to2(hex(n)[2:].upper())` for n < 256: exactly two upper-case digits that read back as n |
| Hex.ByteHexOfParse | HexColor/__init__.py:37 | formatting inverts reading on two-digit strings |
| Hex.ParseHexInjective2 | HexColor/__init__.py:156 | two-digit strings are equal iff their values are |
| Color.IsNormalized | HexColor/__init__.py:22-27 | the stored form that construction leaves in `color`: `#` and then 6 or 8 characters of `0-9A-F` (a predicate; Normalize, Parse and ParseOutcomes prove construction produces exactly these) |
| Color.IsComponent | HexColor/__init__.py:178 | the edit-argument test, the negation of `len(h) != 2 or not all(...)` at lines 178, 185, 192 and 199: exactly two hex digits (a predicate) |
| Color.HexPart | HexColor/__init__.py:59 | `hex_part = color[1:]` taken after upper-casing and prefixing, as at lines 59 and 68 (no contract of its own; ParseOutcomes, ParseShortForm and ParseLongForm state construction in its terms) |
| Color.Prefixed | HexColor/__init__.py:22-24 | upper-cases, then prepends `#` exactly when the string does not already start with one |
| Color.Validate | HexColor/__init__.py:49-64 | length error iff the length after the first character is not 3, 4, 6 or 8; character error iff the length is allowed and some later character is outside `0-9A-F`; success iff neither |
| Color.Doubled | HexColor/__init__.py:71-73 | `hex_part[i]*2` for every digit: twice the length, and position i holds digit i / 2 |
| Color.Normalize | HexColor/__init__.py:66-75 | the result is a stored form; a 3- or 4-digit form has every digit doubled; a 6- or 8-digit form is kept |
| Color.Parse | HexColor/__init__.py:8-27 | when construction succeeds, the stored string is in stored form |
| Color.ParseOutcomes | HexColor/__init__.py:8-27 | an integer is refused with a format error; text fails with a format error iff its hex part has a bad length, with a character error iff the length is allowed and some digit is bad, and succeeds otherwise; no other kind of error arises |
| Color.ParseRoundTrip | HexColor/__init__.py:22-27 | constructing from a stored colour, with or without its `#`, stores that same colour (`HexColor(str(c)).color == c.color`) |
| Color.ParseIgnoresCase | HexColor/__init__.py:22 | constructing from the upper-cased text gives the same outcome as from the text |
| Color.ParseShortForm | HexColor/__init__.py:70-73 | a valid 3- or 4-digit input is stored with every digit doubled |
| Color.ParseLongForm | HexColor/__init__.py:75 | a valid 6- or 8-digit input is stored as `#` followed by its upper-cased digits |
| Color.Red | HexColor/__init__.py:153-156 | `red` (digits 1-2) is below 256; ShortFormChannels, Rgb and ToIntPacksChannels relate it to the digits |
| Color.Green | HexColor/__init__.py:158-161 | `green` (digits 3-4) is below 256 |
| Color.Blue | HexColor/__init__.py:163-166 | `blue` (digits 5-6) is below 256 |
| Color.Alpha | HexColor/__init__.py:168-173 | `alpha` is below 256, and is 255 when no alpha is stored |
| Color.Rgb | HexColor/__init__.py:124-132 | `rgb` is the triple of the red, green and blue reads |
| Color.Rgba | HexColor/__init__.py:134-151 | `rgba` is the quadruple of the four reads (alpha 255 when none is stored), each below 256 |
| Color.ToInt | HexColor/__init__.py:80-81 | `int(c)` is below 16^(number of digits) |
| Color.ToIntPacksChannels | HexColor/__init__.py:80-81 | `int(c)` is red·65536 + green·256 + blue for 6 digits, and red·2^24 + green·65536 + blue·256 + alpha for 8 |
| Color.ToRgba | HexColor/__init__.py:43-47 | `_rgb2rgba` gives an 8-digit stored form with the same four channel reads |
| Color.HashKeyOfChannels | HexColor/__init__.py:89-90 | the hashed string is `#` followed by the four channels, each as two digits |
| Color.Equal | HexColor/__init__.py:116-119 | `__eq__`: the `_rgb2rgba` expansions of the two strings are equal (a predicate; its meaning, agreement of all four channels, is proved in EqualIffRgba) |
| Color.HashKey | HexColor/__init__.py:89-90 | the string `__hash__` hashes, `_rgb2rgba(color)`: an 8-digit stored form with the same four channels |
| Color.EqualIffRgba | HexColor/__init__.py:116-119 | `==` holds iff the two `rgba` quadruples agree |
| Color.EqualHashAgrees | HexColor/__init__.py:89-90 | equal colours have the same hash key |
| Color.EqualExamples | HexColor/__init__.py:116-119 | `#000000 == #000000FF`, and `#000000 != #00000000` |
| Color.RoundHalfEven | HexColor/__init__.py:37 | `round(sum / 2)`, defined by steps of 4 (no contract of its own; RoundHalfEvenSpec and RoundHalfEvenUnique prove it is half-to-even rounding) |
| Color.RoundHalfEvenSpec | HexColor/__init__.py:37 | Python's `round(sum / 2)`: within one half of sum/2, exact for even sums, even on a tie |
| Color.RoundHalfEvenUnique | HexColor/__init__.py:37 | the rounding rule determines the rounded value uniquely |
| Color.Average | HexColor/__init__.py:37 | `round((int(color1, 16) + int(color2, 16)) / 2)` on the two values (no contract of its own; AverageBound and AverageSelf state its properties) |
| Color.Min | HexColor/__init__.py:37 | the `min(…, 255)` cap (no contract of its own; AverageBound shows that the cap never binds) |
| Color.AverageBound | HexColor/__init__.py:37 | the rounded mean of two bytes is at most 255, so the `min(…, 255)` cap never binds |
| Color.AverageSelf | HexColor/__init__.py:37 | the rounded mean of a value with itself is that value |
| Color.ChannelAdd | HexColor/__init__.py:35-37 | `_passage_add`: two upper-case digits that read as the rounded mean of the operands |
| Color.Difference | HexColor/__init__.py:41 | `max(x - y, 0)` on the two values (no contract of its own; ChannelSub and SubColors state it as the floored difference) |
| Color.ChannelSub | HexColor/__init__.py:39-41 | `_passage_sub`: two upper-case digits that read as the difference floored at 0, and exactly `00` when the first operand is not larger |
| Color.HasAlpha | HexColor/__init__.py:95 | the test `len(self.color) == 9 or len(other.color) == 9` that chooses four channels, shared with line 107 (a predicate) |
| Color.Rebuild4 | HexColor/__init__.py:96-99 | rebuilding through the constructor from four two-digit parts succeeds, with 8 digits whose channels are the parts' values |
| Color.Rebuild3 | HexColor/__init__.py:100-102 | the same for three parts, with 6 digits and alpha 255 |
| Color.AddRgba | HexColor/__init__.py:95-99 | the 4-channel branch of `+`: every channel is the rounded mean |
| Color.AddRgb | HexColor/__init__.py:100-102 | the 3-channel branch of `+`: every channel is the rounded mean, 6 digits |
| Color.AddColors | HexColor/__init__.py:92-102 | `a + b` is a stored form with 8 digits iff an operand has 8; red, green and blue are the rounded means; alpha is the rounded mean of the alphas (missing ones read as 255) when an operand stores alpha, else 255 |
| Color.SubRgba | HexColor/__init__.py:107-111 | the 4-channel branch of `-`: every channel is the floored difference |
| Color.SubRgb | HexColor/__init__.py:112-114 | the 3-channel branch of `-`: every channel is the floored difference, 6 digits |
| Color.SubColors | HexColor/__init__.py:104-114 | `a - b` has the same width rule as `+`; every channel is the difference floored at 0; alpha is subtracted when an operand stores alpha, else it reads 255 |
| Color.AddCommutative | HexColor/__init__.py:92-102 | `a + b == b + a`, as strings |
| Color.ChannelAddSelf | HexColor/__init__.py:35-37 | averaging a channel string with itself returns it |
| Color.AddSelf | HexColor/__init__.py:92-102 | `c + c` stores exactly `c` |
| Color.SubSelf | HexColor/__init__.py:104-114 | `c - c` is `#000000`, or `#00000000` when alpha is stored |
| Color.AddRespectsEqual | HexColor/__init__.py:92-119 | replacing an operand of `+` by an equal colour gives an equal sum |
| Color.SubIgnoresEquality | HexColor/__init__.py:104-119 | `-` does not respect equality: `#101010 == #101010FF`, yet subtracting `#101010` from them gives unequal results |
| Color.AddGreys | HexColor/__init__.py:92-102 | the sum of the greys `#hhhhhh` and `#kkkkkk` is the grey of the averaged channel |
| Color.SubGreys | HexColor/__init__.py:104-114 | the difference of two greys is the grey of the channel difference |
| Color.ChannelAddTie | HexColor/__init__.py:35-37 | `FF` and `00` average to `80`: 127.5 rounds to the even 128 |
| Color.ChannelSubFloor | HexColor/__init__.py:39-41 | `10` minus `20` floors at `00` |
| Color.ArithmeticExamples | HexColor/__init__.py:92-114 | `#FFFFFF + #000000 == #808080` and `#101010 - #202020 == #000000` |
| Color.ShortFormChannels | HexColor/__init__.py:66-75 | after construction from `#abc` or `#abcd`, each channel is 17 times its digit, and alpha is 255 without a fourth digit |
| Color.SpliceRed | HexColor/__init__.py:180 | splicing two digits in at positions 1-2 sets red and keeps width and the other channels |
| Color.SpliceGreen | HexColor/__init__.py:187 | the same at positions 3-4 for green |
| Color.SpliceBlue | HexColor/__init__.py:194 | the same at positions 5-6 for blue |
| Color.SpliceAlpha | HexColor/__init__.py:201-204 | replacing or appending alpha gives 8 digits, the new alpha, and the old colour channels |
| Color.OpaqueAlphaKeepsEqual | HexColor/__init__.py:196-204 | giving a 6-digit colour the alpha `FF` keeps it equal, though the string changes |
| Color.HexColor.Valid | HexColor/__init__.py:22-27 | the class invariant: `color` is in stored form; Create and FromNormalized establish it, and Add, Sub and every Edit method require it of their operands and keep or establish it |
| Color.HexColor.FromNormalized | HexColor/__init__.py:27 | wraps an already normalised string; the invariant holds |
| Color.HexColor.Create | HexColor/__init__.py:8-27 | `HexColor(x)`: fails with exactly `Parse`'s error, or yields a fresh valid object whose `color` is `Parse`'s result |
| Color.HexColor.Add | HexColor/__init__.py:92-102 | `self + other` is a fresh valid object holding `AddColors` of the two colours |
| Color.HexColor.Sub | HexColor/__init__.py:104-114 | `self - other` is a fresh valid object holding `SubColors` of the two colours |
| Color.HexColor.EditRed | HexColor/__init__.py:175-180 | accepted iff the upper-cased argument is two hex digits; a refusal leaves `color` unchanged; acceptance stores `#`, the digits, then the old `color[3:]`, and the other channels and width are kept |
| Color.HexColor.EditGreen | HexColor/__init__.py:182-187 | as `edit_red`, replacing positions 3-4 |
| Color.HexColor.EditBlue | HexColor/__init__.py:189-194 | as `edit_red`, replacing positions 5-6 |
| Color.HexColor.EditAlpha | HexColor/__init__.py:196-204 | accepted iff two hex digits; an 8-digit colour has positions 7-8 replaced and a 6-digit one has the digits appended; the result has 8 digits, the new alpha and the old colour channels |

## Left out

- `__float__` (`float(int(c))`) is left out, because floating point is not modelled.
- `__repr__`, `__bool__` and `__version__` are left out. They compute nothing about the colour.
- `__str__` has no member of its own. It returns the field `color`, which is the string every function here takes.
- `hash()` itself is left out: Python's string hash is foreign code. `HashKey` models the string that `__hash__` hashes.
- The `isinstance` checks in `__add__`, `__sub__` and `__eq__` are not modelled. Those methods return `NotImplemented` for a non-`HexColor` operand; the Dafny types admit only colours.
- The constructor's behaviour for arguments other than text and integers is not modelled. Such arguments fail with `AttributeError` (no `upper()`) or `TypeError` (`bytes` and `bytearray` have `upper()`, but `startswith('#')` rejects a `str` prefix) before validation; the `Input` type admits only the two cases the code distinguishes.
- Upper-casing is ASCII only. Python's `str.upper()` also maps non-ASCII letters, and some of them, such as `ß`, expand to two characters. Such inputs can never pass validation unless upper-casing turns them into `A`-`F`, and those cases are not modelled. An expanding letter also changes the length that validation checks, and so which error is raised: for `#ß12345` Python checks `#SS12345` (7 digits) and reports a length error, while `ParseOutcomes` gives `InvalidCharacter` (6 digits, `ß` not a digit).
- The exception messages of `ValueError` are not modelled. The model keeps only the kind of error, and it names three kinds where the code raises one type.
- `round((x + y) / 2)` uses float division in Python. The model works on exact integers. This does not change the result: the sum of two bytes is exactly representable, and its half is too.
- Direct assignment to the public field `color` from outside the class is not modelled. The class invariant assumes only the class's own methods write it.
