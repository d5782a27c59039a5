# parseAlternativesFromContent, in Dafny

A model of the parser that turns the markdown reply of a deal-finding agent into a
list of `ProductAlternative` records (a title, an address, an optional price and an
optional retailer), with proofs of what it returns.

The parser tries two strategies in turn:

* **Structured.** The reply is split on "newline, optional spaces, `*`, spaces, bold
  title". The empty pieces are dropped. The pieces at odd indices are then read as
  titles, each followed by the next piece as its body. A pair becomes a record when its
  trimmed title is not empty and its body holds a `Link:`/`URL:` address. The price and
  retailer come from the body's first `Price:` and `Source:` labels.
* **Fallback.** Used when there are fewer than two pieces or no pair yields a record.
  Every bold span, every address, every price and every retailer of the whole reply is
  collected, and the four lists are zipped by index. There is one record per address.
  The first bold span is skipped when there are more spans than addresses and it is
  shorter than 40 UTF-16 code units. A missing title becomes `Product <n>`.

Files:

* `text.dfy` (module `Text`) holds the JavaScript string primitives the parser relies
  on: the `\s` / `trim` whitespace set, ASCII case folding, `trim`, UTF-16 length and
  the decimal rendering of a number.
* `patterns.dfy` (module `Patterns`) holds the five regular expressions:
  * a scanner per expression, proved to return exactly the match a backtracking
    engine reports against a declarative description of the expression (`IsMatch`,
    `Prefers`);
  * `match` (`FirstMatch`), the global `exec` loop (`AllMatches`, `Captures`);
  * `split` with a capture group, and `filter(Boolean)`.
* `parse_alternatives.dfy` (module `ParseAlternatives`) holds the record type
  `ProductAlternative` of `src/lib/base44.ts:23-28` (title and url strings, optional
  price and source), the
  reference functions `Structured`, `Fallback` and `Parse`, and the parser itself
  as methods with loops. Each method is proved to compute its reference function.
  The structured `for` loop, the four `exec` loops and the zip loop are separate
  methods called from `ParseAlternativesFromContent`, in the order the source runs
  them.
* `properties.dfy` (module `AlternativesProperties`) holds what the parser promises,
  proved about the reference functions.
* `wrappers.dfy` (module `Wrappers`) holds `Option`, where `None` is `undefined`.

Strings are sequences of Unicode scalar values. The `i` flag is ASCII case folding,
which is all the `i` flag without `u` does for these ASCII literals. `length` is
modelled as the UTF-16 length.

The model follows the code literally where the code's behaviour is surprising:

* `filter(Boolean)` runs before the pairing, so every empty piece moves the later
  pieces down one place (`EmptyPieceShiftsPairing`). A reply that starts with
  "\n*   **Title**" has an empty first piece (`EmptyPreambleShiftsPairing`). A title
  directly followed by the next delimiter has an empty body. In both cases the loop
  then reads a body as a title and the next title as its body.
* The delimiter needs a newline before the bullet. A reply that opens directly with
  `*   **Title**`, as the sample in the parser's doc comment does, keeps its first item
  in the first piece. The loop never reads that piece (`FirstPieceUnread`), so the
  first item is lost whenever a later pair yields a record.
* A fallback title may be empty: a bold span of spaces trims to "" and `??` keeps "".

## Model

| member | source | states |
|---|---|---|
| ParseAlternatives.ParseAlternativesFromContent | src/lib/parseAlternatives.ts:11-69 | The parser returns `Parse(content)`. `Parse` (:11-69) gives nothing for an absent or empty reply (:12), the structured records when there are any (:35), and the fallback otherwise (:38-68). |
| ParseAlternatives.ExtractBlocks | src/lib/parseAlternatives.ts:18-34 | The structured loop returns `EveryOther(BlockRecords(blocks), 1)`: in order, the records of the pairs at indices 1, 3, 5, ... that have a non-empty trimmed title and an address. `BlockRecord` (:20-33) reads pair i: the title `Trim(blocks[i])`, the body `BlockBody` (:21, the `?? ""`), and `FirstCapture` of the Link, Price and Source rules in the body. |
| ParseAlternatives.CollectCaptures | src/lib/parseAlternatives.ts:39-54 | Each `exec` loop, resuming at the end of the previous match, collects the trimmed captures of all the matches of the global expression. |
| ParseAlternatives.ZipFields | src/lib/parseAlternatives.ts:56-66 | The zip loop returns `Zip`: one record per address. Record i takes title start+i, or `PlaceholderTitle(i)` = "Product " + `NatToString(i + 1)` (:59), and price i and retailer i when they exist (:63-64). The start is 1 when `SkipFirstTitle` (:56) holds. |
| ParseAlternatives.ExecAdvance | src/lib/parseAlternatives.ts:42 | One turn of an `exec` loop moves lastIndex strictly forward and keeps "collected + still to come = all captures". |
| Patterns.MatchAtIsRegexChoice | src/lib/parseAlternatives.ts:17 | At each position, the scanner finds a match exactly when the expression admits one. It returns the match the backtracking engine prefers, and no other match is preferred as much. |
| Patterns.BoldAtIsRegexChoice | src/lib/parseAlternatives.ts:41 | The `\*\*([^*]+)\*\*` scanner returns exactly the admitted match at a position: greedy, with no `*` in it. |
| Patterns.DelimiterAtIsRegexChoice | src/lib/parseAlternatives.ts:17 | The split separator's scanner returns exactly the admitted match: newline, spaces, `*`, at least one space, then a bold title. |
| Patterns.LinkAtIsRegexChoice | src/lib/parseAlternatives.ts:45 | The Link/URL scanner tries `Link:` and `URL:` in any case. It returns the admitted match with the longest `https?://` address of non-space, non-`*` characters. |
| Patterns.UrlAfterLabelIsRegexChoice | src/lib/parseAlternatives.ts:22 | After a label, the address is found exactly when one is admitted. The scheme is whichever of `https://` and `http://` is there, and the longest run after it is taken. |
| Patterns.LabelledAtIsRegexChoice | src/lib/parseAlternatives.ts:49-54 | The Price/Source scanner returns exactly the admitted match: the greedy spaces after the label, then the longest run without newline or `*`. |
| Patterns.FirstMatchIsLeftmost | src/lib/parseAlternatives.ts:22 | `match` reports an admitted match. No admitted match starts before it, and it is the preferred one at its position. |
| Patterns.AllMatchesResume | src/lib/parseAlternatives.ts:41-42 | The first reported match is the first from lastIndex 0, and each further one is the first found from the previous match's end. |
| Patterns.AllMatchesExhaust | src/lib/parseAlternatives.ts:45-46 | After the last reported match the search finds nothing: the loop ends only when no match is left. |
| Patterns.AllMatchesAreMatches | src/lib/parseAlternatives.ts:49-50 | Every match the global loop reports is admitted by the expression, and it is the preferred one at its start. |
| Patterns.CapturesOfMatches | src/lib/parseAlternatives.ts:53-54 | `Captures` (:42, :46, :50, :54) collects as many captures as `AllMatches` reports matches, and capture k is the trimmed capture group of match k. |
| Patterns.SplitFrom | src/lib/parseAlternatives.ts:17 | `split` with a capture group yields an odd number of pieces. Every captured title, at the odd indices, is non-empty and holds no `*`. |
| Patterns.SplitFromSearch | src/lib/parseAlternatives.ts:17 | Each piece of `split` runs up to the leftmost delimiter match from where the previous match ended, followed by that match's title; with no match left, the rest of the text is the last piece. |
| AlternativesProperties.SplitWhole | src/lib/parseAlternatives.ts:17 | The split leaves the reply whole iff the delimiter expression matches nowhere in it. |
| AlternativesProperties.NoDelimiterFallsBack | src/lib/parseAlternatives.ts:17-38 | A non-empty reply with no delimiter match is answered by the fallback. |
| Patterns.Split | src/lib/parseAlternatives.ts:17 | `split` with the delimiter yields an odd number of pieces: text, title, text, ..., text. |
| Patterns.DelimiterAt | src/lib/parseAlternatives.ts:17 | The separator scanner: a match it returns starts at the position tried and lies within the text. `DelimiterAtIsRegexChoice` ties it to the expression. |
| Patterns.BoldAt | src/lib/parseAlternatives.ts:41 | The bold scanner: a match it returns lies within the text, and it ends two characters after its capture (the closing `**`). `BoldAtIsRegexChoice` ties it to the expression. |
| Patterns.LinkAt | src/lib/parseAlternatives.ts:22 | The Link/URL scanner of :22 and :45: a match it returns starts at the position tried and lies within the text. `LinkAtIsRegexChoice` ties it to the expression. |
| Patterns.LabelledAt | src/lib/parseAlternatives.ts:25-27 | The Price/Source scanner of :25-27 and :49-54: a match it returns starts at the position tried and lies within the text. `LabelledAtIsRegexChoice` ties it to the expression. |
| Patterns.FirstMatch | src/lib/parseAlternatives.ts:22 | The search of `match` and `exec` reports the scanner's match at the first position, from lastIndex on, where there is one. No earlier position has one. |
| Patterns.AllMatches | src/lib/parseAlternatives.ts:41-54 | The matches of a global `exec` loop lie within the text, start from lastIndex on, and come in text order without overlapping. |
| AlternativesProperties.EmptyPieceShiftsPairing | src/lib/parseAlternatives.ts:17-21 | When exactly one piece of the split is empty, the pieces read are the split without it: every later piece moves down one place. |
| AlternativesProperties.FirstPieceUnread | src/lib/parseAlternatives.ts:19-21 | Pieces that differ only in the first one give the same structured records: the loop never reads the first piece. |
| Text.NatToString | src/lib/parseAlternatives.ts:59 | The rendering of `${i + 1}`: at least one character, all decimal digits, no leading zero for a positive number. |
| Text.Span | src/lib/parseAlternatives.ts:22 | Where a greedy quantifier over a character class stops: every character before it is in the class, and the next one is not (or the text ends). |
| Text.Utf16LengthConcat | src/lib/parseAlternatives.ts:56 | The UTF-16 `length` of a concatenation is the sum of the lengths of its parts. |
| Text.Utf16LengthOfBmp | src/lib/parseAlternatives.ts:56 | A string of Basic Multilingual Plane characters has one code unit per character. |
| Patterns.FilterNonEmpty | src/lib/parseAlternatives.ts:17 | `filter(Boolean)` keeps exactly the non-empty strings, and never lengthens the list. |
| Patterns.FilterNonEmptyAppend | src/lib/parseAlternatives.ts:17 | `filter(Boolean)` keeps the order: it distributes over concatenation. |
| Text.TrimSpec | src/lib/parseAlternatives.ts:20 | `Trim`, over the `IsSpace` set of WhiteSpace and LineTerminator code points, is `String.prototype.trim` (:20). It cuts only spaces, and all of them at both ends. The result is an infix of the input, and it is empty iff the input is all spaces. |
| Text.SpanAt | src/lib/parseAlternatives.ts:22 | A run of one character class that ends before a character outside the class is where a greedy quantifier stops. |
| Text.DecimalRoundTrip | src/lib/parseAlternatives.ts:59 | The decimal rendering of a number in the template literal reads back as that number. |
| Text.NatToStringInjective | src/lib/parseAlternatives.ts:59 | Distinct numbers render differently. |
| Text.Utf16Length | src/lib/parseAlternatives.ts:56 | `length` counts UTF-16 code units, at least one and at most two per character. |
| AlternativesProperties.FirstCaptureIsLeftmost | src/lib/parseAlternatives.ts:22-23 | `FirstCapture` (:22-23, :25-27, :31-32) models `match(...)?.[1]?.trim()`. Only the first match of a block counts: the result is the trimmed capture of the leftmost, preferred match. |
| AlternativesProperties.LinkFirstCapture | src/lib/parseAlternatives.ts:22-23 | A block has an address iff the Link/URL expression matches in it. The address starts with `http://` or `https://` in any case, and has no space or `*`. |
| AlternativesProperties.LabelFirstCapture | src/lib/parseAlternatives.ts:25-27 | A price (retailer) is present iff `Price:` (`Source:`) matches. It is then a trimmed capture with no newline or `*`. |
| AlternativesProperties.LinkCaptureWellFormed | src/lib/parseAlternatives.ts:22-23 | The capture of a Link/URL match is a well-formed address, and `trim` leaves it unchanged. |
| AlternativesProperties.LabelCaptureClean | src/lib/parseAlternatives.ts:31-32 | The trimmed capture of a Price/Source match has no outer space, no newline and no `*`. |
| AlternativesProperties.BlockRecordPresence | src/lib/parseAlternatives.ts:20-24 | A pair yields a record iff its trimmed title is non-empty and its body (the next piece, or "" past the end) holds a Link/URL match. |
| AlternativesProperties.BlockRecordWellFormed | src/lib/parseAlternatives.ts:28-33 | A structured record has the trimmed title of its pair (non-empty), a well-formed address, and clean optional price and retailer. |
| AlternativesProperties.StructuredRecords | src/lib/parseAlternatives.ts:17-34 | `Structured` (:17-36) runs over `Blocks`, the split with the empty pieces dropped (:17). Its records are the records of the odd-indexed pairs that yield one: all of them, one for one, in increasing index order. With fewer than two pieces there are none (:18). |
| AlternativesProperties.StructuredWellFormed | src/lib/parseAlternatives.ts:19-34 | Every structured record is well formed. |
| AlternativesProperties.StructuredEmpty | src/lib/parseAlternatives.ts:18-35 | The structured strategy yields nothing iff there are fewer than two pieces or no odd-indexed pair has both a title and an address. |
| AlternativesProperties.ParseChoosesStrategy | src/lib/parseAlternatives.ts:35-38 | The structured result takes precedence and is then non-empty. The fallback runs exactly when there are fewer than two pieces or no pair yields a record. |
| AlternativesProperties.FallbackAddresses | src/lib/parseAlternatives.ts:44-46 | `Fallback` (:39-66) zips the four `Captures` lists. It makes one record per Link/URL match of the whole reply, in order. Each address is that match's capture, a well-formed address. |
| AlternativesProperties.FallbackPricesAndSources | src/lib/parseAlternatives.ts:48-54 | Fallback record i has the trimmed capture of Price (Source) match i, clean, or none when there are no more than i matches. |
| AlternativesProperties.FallbackSkip | src/lib/parseAlternatives.ts:56-57 | `SkipFirstTitle` (:56) holds iff there are more bold matches than Link/URL matches and the first trimmed span is shorter than 40 UTF-16 units. |
| AlternativesProperties.FallbackTitles | src/lib/parseAlternatives.ts:56-59 | Fallback title i is bold span start+i, trimmed, or `Product <i+1>` past the last span. It has no outer space and no `*`. |
| AlternativesProperties.PlaceholderTitleClean | src/lib/parseAlternatives.ts:59 | A placeholder title has no outer space and no `*`. |
| AlternativesProperties.PlaceholderTitlesDistinct | src/lib/parseAlternatives.ts:59 | Two `PlaceholderTitle`s (:59, "Product " + the decimal rendering of i + 1) are equal iff they belong to the same index. |
| AlternativesProperties.ParseFieldsClean | src/lib/parseAlternatives.ts:11-69 | Whichever strategy answers, every record has a well-formed address, a title without outer space, and clean optional fields. |
| AlternativesProperties.AlignedPairing | src/lib/parseAlternatives.ts:17-20 | When no piece of the split is empty, the pieces are kept as they are, and every piece read as a title is a captured bold title. |
| AlternativesProperties.EmptyPreambleShiftsPairing | src/lib/parseAlternatives.ts:17-21 | When only the text before the first delimiter is empty, dropping it moves every piece down one place, so titles and bodies swap roles. |
| AlternativesProperties.EveryOtherEmpty | src/lib/parseAlternatives.ts:19 | A walk over indices i, i+2, ... collects nothing iff none of those indices holds a value. |

## Left out

- The `typeof content !== "string"` guard: the parameter is typed `Option<string>`, so a value of another type cannot be passed.
- The limit argument of `split` and the engine's maximum string length: strings are unbounded.
- Lone surrogates: a Dafny `char` is a Unicode scalar value, so strings with unpaired UTF-16 surrogates are not modelled.
- The `lastIndex` property left on the global regular-expression objects: they are created afresh on each call and never seen by the caller.
- Case folding beyond ASCII: the literals (`link:`, `url:`, `https://`, `price:`, `source:`) are ASCII. Without the `u` flag, no non-ASCII character folds onto an ASCII one.
- The UI, SDK and entity files of the repository (`src/lib/base44.ts` apart from `ProductAlternative`): they are not part of the parser.
