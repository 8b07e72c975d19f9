# lecklider.com: string colours and page titles

This project models the two pieces of logic in the source of the lecklider.com
Middleman site, and proves properties of the models in Dafny.

- `stringToColour` (source/scripts/bundle.js) turns a label into a stable CSS
  background colour.
  - It folds `hash = c + ((hash << 5) - hash)` over the label's UTF-16 code units.
  - It then writes the low, middle and high byte of the hash as two lowercase,
    zero-padded radix-16 digits each, after a `#`.
- The `title` helper (config.rb) builds a page's `<title>`.
  - It takes the current blog article's title, else the page's front-matter
    title, else nothing.
  - A chosen title is followed by `" | Evan Lecklider"`; with none, the title is
    `"Evan Lecklider"` alone.

Files:

- `js_number.dfy`, module `JsNumber`: the JavaScript number semantics the hash
  uses.
  - ToInt32.
  - `<<` and `>>` with their masked shift counts.
  - `& 0xFF`.
  - Numbers are unbounded integers. `+` and `-` stay exact, as the source's doubles do below 2^53.
- `hex_format.dfy`, module `HexFormat`: two string operations and the padding
  idiom built from them with `+`.
  - `Number.prototype.toString(16)`.
  - One-argument `String.prototype.substr` (section B.2.2.1 of ECMA-262).
  - The idiom `('00' + v.toString(16)).substr(-2)`.
- `string_to_colour.dfy`, module `StringToColour`: the hash, the colour, and the
  source's two loops as methods.
  - The methods are proved against the functions `Hash` and `Colour`.
  - Reference definitions check them: the per-step 32-bit hash `Hash32`, the
    polynomial `Poly` and the read-back `ColourValue`.
- `page_title.dfy`, module `PageTitle`: the `title` helper as a pure function of
  the optional article and the optional front-matter title.

In the source the hash accumulator is not a 32-bit value, because only `<<`
wraps and the surrounding `+` and `-` do not. A port that wraps the accumulator
to 32 bits after every step is therefore not what the code does. The model
follows the code (`Hash`). It proves that the colour is the same as with a
per-step wrapped accumulator (`Hash32`) or with the plain polynomial
`c + 31 * hash` (`Poly`). The input is modelled as a sequence of UTF-16 code
units, as `charCodeAt` returns them, rather than as code points.

## Model

| member | source | states |
|---|---|---|
| JsNumber.ShiftLeft | source/scripts/bundle.js:6 | `x << n`: ToInt32 of x doubled n mod 32 times, wrapped again to a signed 32-bit result |
| JsNumber.SignedShiftRight | source/scripts/bundle.js:10 | `x >> n`: ToInt32 of x halved, rounding towards minus infinity, n mod 32 times |
| JsNumber.AndLowByte | source/scripts/bundle.js:10 | `x & 0xFF`: the low byte of ToInt32(x) in two's complement, in 0..255 |
| JsNumber.ToInt32 | source/scripts/bundle.js:6 | the operand conversion of `<<`: a signed 32-bit result congruent to the argument modulo 2^32 |
| JsNumber.ToInt32Congruent | source/scripts/bundle.js:6 | ToInt32 depends only on its argument modulo 2^32 |
| JsNumber.ShiftLeftCongruent | source/scripts/bundle.js:6 | modulo 2^32, `x << n` is x times 2^(n mod 32) |
| JsNumber.ShiftRightBytes | source/scripts/bundle.js:10 | `x >> 0`, `x >> 8` and `x >> 16` are floor divisions of ToInt32(x) by 1, 256 and 65536 |
| JsNumber.DivPow2IsDivision | source/scripts/bundle.js:10 | the sign-propagating shift by k halves k times, which is one floor division by 2^k |
| JsNumber.AndLowByteIsMod | source/scripts/bundle.js:10 | `x & 0xFF` is x modulo 256, whatever the sign of x |
| HexFormat.ToHexString | source/scripts/bundle.js:11 | `v.toString(16)` for a non-negative integer: the lowercase radix-16 numeral without leading zeros, most significant digit first |
| HexFormat.Substr | source/scripts/bundle.js:11 | one-argument `substr`: a negative start counts from the end and is clamped at 0, a start past the end gives the empty string |
| HexFormat.PadHex2 | source/scripts/bundle.js:11 | `('00' + v.toString(16)).substr(-2)`: the last two characters of the numeral with two zeros in front |
| HexFormat.HexDigit | source/scripts/bundle.js:11 | a digit below 16 is written as a lowercase radix-16 digit that reads back as itself |
| HexFormat.ToHexStringShape | source/scripts/bundle.js:11 | `toString(16)` is non-empty and all lowercase digits; it has one digit exactly below 16 and never a leading zero otherwise; its last two digits are those of the value |
| HexFormat.HexValueOfToHexString | source/scripts/bundle.js:11 | reading back the numeral `toString(16)` wrote gives the original number |
| HexFormat.SubstrLast | source/scripts/bundle.js:11 | `substr(-n)` keeps exactly the last n characters when the string has at least n |
| HexFormat.PadHex2Digits | source/scripts/bundle.js:11 | the padding idiom gives the two low radix-16 digits of v; a v below 16 gets a leading '0', and a v below 256 is written in full and reads back as v |
| StringToColour.Step | source/scripts/bundle.js:6 | one iteration of the first loop, `c + ((hash << 5) - hash)`, with `+` and `-` exact |
| StringToColour.Hash | source/scripts/bundle.js:3-7 | the accumulator after the first loop: Step folded over the code units from the left, starting at 0 |
| StringToColour.Hash32 | source/scripts/bundle.js:5-7 | reference fold that wraps the accumulator to a signed 32-bit integer after every step; its result is in the int32 range |
| StringToColour.Poly | source/scripts/bundle.js:5-7 | reference polynomial hash `c + 31 * hash` over unbounded integers |
| StringToColour.StepCongruent | source/scripts/bundle.js:6 | modulo 2^32 one step is `hash' = c + 31 * hash` |
| StringToColour.HashCongruentPoly | source/scripts/bundle.js:5-7 | the final accumulator is the polynomial hash modulo 2^32 |
| StringToColour.Hash32IsWrappedPoly | source/scripts/bundle.js:5-7 | the accumulator wrapped to 32 bits after every step is ToInt32 of the polynomial hash |
| StringToColour.HashWrapsToHash32 | source/scripts/bundle.js:5-7 | ToInt32 of the unwrapped accumulator is the per-step wrapped 32-bit hash |
| StringToColour.HashBound | source/scripts/bundle.js:5-7 | after n code units the accumulator's magnitude is at most n * (2^31 + 2^16), so it is an exact double below 2^21 code units |
| StringToColour.HashCodeUnits | source/scripts/bundle.js:3-7 | the first loop computes the hash of the whole input; its ToInt32 is the 32-bit hash and the wrapped polynomial |
| StringToColour.Channels | source/scripts/bundle.js:9-11 | what the second loop appends in its first n iterations: the padded channel values 0 to n - 1, in order |
| StringToColour.Colour | source/scripts/bundle.js:8-12 | the string returned for a final accumulator: `#` followed by the three padded channels |
| StringToColour.Byte | source/scripts/bundle.js:10 | each extracted channel value lies in 0..255 |
| StringToColour.ByteValues | source/scripts/bundle.js:9-10 | channel i is byte i (bits 8i to 8i + 7) of the hash modulo 2^24, least significant first |
| StringToColour.LowBits | source/scripts/bundle.js:10 | bytes 0 to 2 of numbers congruent modulo 2^32 are those of their remainder modulo 2^24 |
| StringToColour.ColourValue | source/scripts/bundle.js:8-12 | the number a `#rrggbb` string denotes, first channel least significant, is below 2^24 |
| StringToColour.ColourDigits | source/scripts/bundle.js:8-12 | the colour is `#` and, per channel in order, the high then low radix-16 digit of its byte |
| StringToColour.ColourFormat | source/scripts/bundle.js:8-12 | every colour has length 7, starts with `#` and has lowercase radix-16 digits; characters 2i + 1 and 2i + 2 encode byte i |
| StringToColour.ColourLeadingZero | source/scripts/bundle.js:10-11 | a channel whose byte is below 16 is written with a leading '0' |
| StringToColour.ColourRoundTrip | source/scripts/bundle.js:8-12 | reading a colour back gives the hash modulo 2^24 |
| StringToColour.ColourEqualIff | source/scripts/bundle.js:9-11 | two hashes give the same colour if and only if they agree modulo 2^24 |
| StringToColour.ColourMod32 | source/scripts/bundle.js:9-11 | hashes congruent modulo 2^32 give the same colour |
| StringToColour.ColourIgnoresWrapping | source/scripts/bundle.js:5-11 | the colour of the unwrapped accumulator equals that of the per-step 32-bit accumulator and that of the polynomial hash |
| StringToColour.SameColourIff | source/scripts/bundle.js:5-11 | two strings share a colour if and only if their 32-bit hashes agree modulo 2^24 |
| StringToColour.FormatColour | source/scripts/bundle.js:8-12 | the second loop builds the colour of the hash; it is a CSS colour denoting the hash modulo 2^24 |
| StringToColour.StringToColourOf | source/scripts/bundle.js:2-15 | `stringToColour` returns the colour of the string's hash; it is a CSS colour denoting the 32-bit hash modulo 2^24 |
| StringToColour.ColourSpellsLow24 | source/scripts/bundle.js:9-11 | a colour is spelled from the three bytes of the hash modulo 2^24 |
| StringToColour.ColourOfBytes | source/scripts/bundle.js:8-12 | the hash b0 + 256 * b1 + 65536 * b2 is spelled from b0, b1 and b2 in that order |
| StringToColour.EmptyIsBlack | source/scripts/bundle.js:3-12 | the empty string leaves the hash at 0 and gives `#000000` |
| StringToColour.HashOfOne | source/scripts/bundle.js:3-7 | a single code unit c hashes to c |
| StringToColour.ReferenceColours | source/scripts/bundle.js:3-12 | "a" gives `#610000` and "b" gives `#620000` |
| StringToColour.SingleUnitsDiffer | source/scripts/bundle.js:3-12 | two different one-code-unit strings never share a colour |
| PageTitle.PresentArticle | config.rb:8 | `current_article.present?`: there is a current article |
| PageTitle.PresentText | config.rb:10 | `current_page.data.title.present?`: the title is not nil and not blank |
| PageTitle.Text | config.rb:9 | how `Array#join` prints an element: a string as itself, nil as the empty string |
| PageTitle.Join | config.rb:9 | `Array#join(sep)` on a flat array of strings and nils: the printed elements with sep between neighbours |
| PageTitle.Blank | config.rb:10 | a string is blank exactly when all its characters are Unicode White_Space |
| PageTitle.JoinPair | config.rb:9 | joining two elements puts the joiner between them once, nil printing as empty |
| PageTitle.Title | config.rb:5-15 | every title ends with "Evan Lecklider" |
| PageTitle.ArticleBranch | config.rb:8-9 | on a blog article the title is the article's title, the joiner and the suffix |
| PageTitle.ArticlePrecedence | config.rb:8-11 | with an article present, the page's front-matter title does not affect the title |
| PageTitle.PageBranch | config.rb:10-11 | without an article, a present front-matter title is followed by the joiner and the suffix |
| PageTitle.BareSuffix | config.rb:12-13 | with neither an article nor a present page title, the title is exactly "Evan Lecklider" |
| PageTitle.TitleShape | config.rb:5-15 | every title is the chosen heading, the joiner and the suffix, and dropping that tail recovers the heading; with no heading it is the suffix alone |
| PageTitle.BareExactly | config.rb:8-14 | the title is the bare suffix if and only if neither an article nor a present page title exists |

## Left out

- The `DOMContentLoaded` listener (source/scripts/bundle.js:17-24) is not modelled: it is browser DOM input and output. It finds the `[data-pattern]` elements and assigns `style.backgroundColor`.
- The Middleman configuration (config.rb:1, 19-61) is not modelled: it is declarative settings for external plugins, with no logic visible in this source. It covers the time zone, markdown, directories, blog, pages, livereload, assets and deploy.
- The conversion of a JavaScript string to its code units is not modelled; the input is given as code units.
- JsNumber.ToInt32: only integer arguments are modelled, since the source only feeds it integers. NaN, infinities and fractions never arise.
- IEEE-754 doubles are not modelled: the accumulator is an exact integer. HashBound shows this is exact for inputs below 2^21 code units. Longer inputs, where the source's doubles may round, are not modelled.
- StringToColour.StringToColourOf: the source's single function appears as its two loops, HashCodeUnits and FormatColour, called in order. The loop bodies are the source's.
- PageTitle.PresentArticle: `present?` on the framework's article object counts only nil as absent. The framework's `current_article` and `current_page.data` objects are not modelled.
- PageTitle.PresentText: `present?` is modelled only for a String or nil front-matter title, as "not nil and not all Unicode White_Space". Other value types are not modelled.
- PageTitle.Join: `Array#join` is modelled only on flat arrays of strings and nil. The `to_s` of other values and the flattening of nested arrays are not modelled.
