# parseArrayString, verified

A Dafny model of `parseArrayString` from `src/utils/index.ts`, the one piece of
self-contained logic in the job-distribution backend. The function reads a
bracketed, comma-separated textual list such as `['a', "b", c]` into a list of
strings. In order, it:

1. drops the first and last characters, whatever they are (`str.slice(1, -1)`);
2. splits the rest on `,`;
3. trims each piece (JavaScript `trim`);
4. removes one leading and one trailing quote, `'` or `"`, from each trimmed
   piece (`replace(/^['"]|['"]$/g, '')`);
5. discards the pieces that are now empty.

The model is pure, like the source: recursive functions over `string`
(`seq<char>`) and lemmas about them.

- `js_string.dfy` (module `JsString`): the JavaScript built-ins the function is
  made of: `slice` with JavaScript's negative-index and clamping rules, `split`
  on one character, `trimStart`/`trimEnd`/`trim` over ECMAScript's WhiteSpace and
  LineTerminator code points, and `join` (used to render a list for the round
  trip).
- `utils.dfy` (module `Utils`): the quote-removing regular expression, modelled
  twice (as the left-to-right scan a global replace performs, and as "drop one
  leading quote, then one trailing quote") and proved equal; the per-piece
  cleaning, the `map`, the `filter`, and `ParseArrayString` with its contract.
- `utils_properties.dfy` (module `UtilsProperties`): which piece each item comes
  from and in which order, how quotes and whitespace are treated, independence
  from the two outer characters, and the round trip: a list written with each
  item bare or between quotes, joined with `", "` and put in brackets, parses
  back to its items.

## Model

| member | source | states |
|---|---|---|
| `JsString.Slice` | src/utils/index.ts:2 | `slice` returns the characters from the resolved start to the resolved end (negative indices count from the end, indices are clamped), and nothing when the end is not after the start |
| `JsString.SliceInner` | src/utils/index.ts:2 | `slice(1, -1)` is everything but the first and last character, and empty for inputs shorter than two |
| `JsString.Split` | src/utils/index.ts:4 | `split(',')` yields one more piece than there are commas (so at least one, also for the empty string) and no piece holds a comma |
| `JsString.JoinSplit` | src/utils/index.ts:4 | joining the pieces of a split back with the separator gives the original string: splitting loses and adds no character and keeps the order |
| `JsString.SplitJoin` | src/utils/index.ts:4 | splitting separator-free pieces joined by the separator gives the pieces back |
| `JsString.TrimStart` | src/utils/index.ts:5 | what is left after removing leading whitespace does not start with whitespace |
| `JsString.TrimEnd` | src/utils/index.ts:5 | what is left after removing trailing whitespace keeps the first character and does not end with whitespace |
| `JsString.TrimStartSuffix` | src/utils/index.ts:5 | `trimStart` removes a prefix made only of whitespace |
| `JsString.TrimEndPrefix` | src/utils/index.ts:5 | `trimEnd` removes a suffix made only of whitespace |
| `JsString.Trim` | src/utils/index.ts:5 | the trimmed piece is no longer than the piece and neither starts nor ends with whitespace |
| `JsString.TrimSurrounds` | src/utils/index.ts:5 | the piece is its trimmed form with only whitespace before and after it |
| `JsString.TrimExact` | src/utils/index.ts:5 | `trim` removes exactly the whitespace around a string whose ends are not whitespace; a whitespace-only piece trims to nothing |
| `Utils.QuoteRegexReplace` | src/utils/index.ts:5 | the global replace of the two anchored quote alternatives, scanned from the start, removes the first character exactly when it is a quote and the last exactly when it is a quote, and keeps everything between them (a one-character string is taken by the first alternative); scanned from any later position it keeps everything up to the last character and drops that one only if it is a quote |
| `Utils.StripQuotes` | src/utils/index.ts:5 | the result is the input without its first character exactly when that is a quote, and then without its last remaining character exactly when that is a quote; nothing else is removed, reordered or added |
| `Utils.StripLeadingQuoteOnly` | src/utils/index.ts:5 | a leading quote with no trailing quote goes alone (`'abc` gives `abc`) |
| `Utils.StripTrailingQuoteOnly` | src/utils/index.ts:5 | a trailing quote with no leading quote goes alone (`abc"` gives `abc`) |
| `Utils.StripQuotesIsRegexReplace` | src/utils/index.ts:5 | "remove one leading quote, then one trailing quote of the rest" equals the regex replace on every string, so a lone quote goes to the leading alternative and mismatched quotes are both removed |
| `Utils.CleanItem` | src/utils/index.ts:5 | a cleaned piece is never longer than the piece |
| `Utils.CleanItemFromPiece` | src/utils/index.ts:5 | every character of a cleaned piece comes from the piece |
| `Utils.CleanItemEmpty` | src/utils/index.ts:5-6 | a piece cleans to the empty string exactly when its trimmed form is empty, one quote, or two quotes (whitespace only, `'`, `''`, `""`, `'"`, `"'`) |
| `Utils.CleanAll` | src/utils/index.ts:4-5 | the `map` keeps the number of pieces and cleans each piece in place |
| `Utils.KeepNonEmpty` | src/utils/index.ts:6 | the `filter` returns only non-empty strings, never more than it was given, and everything when nothing is empty |
| `Utils.KeepNonEmptyAvoids` | src/utils/index.ts:6 | a character held by no input string is held by no kept string |
| `Utils.Pieces` | src/utils/index.ts:2-4 | the pieces of an input of at most two characters are one empty piece; otherwise there is one piece more than commas strictly between the first and last characters, no piece holds a comma, and joined with commas the pieces are exactly that inner text |
| `Utils.ParseArrayString` | src/utils/index.ts:1-7 | no item is empty, no item holds a comma, an input of at most two characters gives no items, and there are at most one more items than commas strictly between the first and last characters |
| `UtilsProperties.KeepNonEmptyPositions` | src/utils/index.ts:6 | the filter picks its inputs at the non-empty positions: its k-th string is the input at the k-th non-empty position, and there are as many strings as such positions |
| `UtilsProperties.NonEmptyPositionsComplete` | src/utils/index.ts:6 | the non-empty positions are strictly increasing and include every non-empty input |
| `UtilsProperties.ParsedItemsInOrder` | src/utils/index.ts:2-6 | the items are the cleaned pieces at the non-empty positions, which increase strictly (order of the pieces is kept) and include every piece that does not clean to the empty string (none is lost) |
| `UtilsProperties.StripEnclosingQuotes` | src/utils/index.ts:5 | two enclosing quotes, matching or not, are removed and everything between them, inner quotes included, is kept |
| `UtilsProperties.CleanQuotedItem` | src/utils/index.ts:5 | whitespace around a quoted item is removed, then the quotes; whitespace inside the quotes survives because trimming comes first |
| `UtilsProperties.CleanBareItem` | src/utils/index.ts:5 | an item with neither whitespace nor a quote at its ends cleans to itself whatever whitespace surrounds it |
| `UtilsProperties.OuterCharactersIgnored` | src/utils/index.ts:2 | the result does not depend on the first and last characters of the input |
| `UtilsProperties.ParseRendered` | src/utils/index.ts:1-7 | round trip: for items that are non-empty, comma-free and neither start nor end with whitespace or a quote, parsing `"[" + join(items, ", ") + "]"` gives exactly the items (the empty list included) |
| `UtilsProperties.SplitJoined` | src/utils/index.ts:4 | the comma-separated pieces of texts joined with `", "` are the first text and then each later text behind one space |
| `UtilsProperties.CleanWrittenPieces` | src/utils/index.ts:4-5 | cleaning those pieces gives back the items when each text is a written form of its item, first or behind a space |
| `UtilsProperties.ParseWritten` | src/utils/index.ts:1-7 | round trip: any list of non-empty items, each written in a comma-free form that cleans back to it, joined with `", "` and put in brackets, parses to exactly those items; the empty list is written `[]` and parses to nothing |
| `UtilsProperties.PlainWritten` | src/utils/index.ts:5 | an item that is non-empty, comma-free and has neither whitespace nor a quote at its ends can be written bare |
| `UtilsProperties.QuotedWritten` | src/utils/index.ts:5 | any non-empty comma-free item can be written between two quotes, matching or not, whatever whitespace or quotes it holds inside |
| `UtilsProperties.ParseQuotedRendered` | src/utils/index.ts:1-7 | a list written like `['a', "b c", 'd"]`, each item between its own two quotes, parses to the items without their quotes, inner spaces and quotes kept |

## Left out

- The argument `str` is untyped in the source; the model covers a string argument only. What `slice` and `split` do to arrays or other values is not modelled.
- JavaScript strings are sequences of UTF-16 code units, the model's strings are sequences of Unicode scalar values. Outside the Basic Multilingual Plane, `slice(1, -1)` can cut a surrogate pair in the source; the model drops whole characters.
- `JsString.Split` models `split` with a one-character string separator only, which is the only form the function uses; regular-expression separators and the `limit` argument are not modelled.
- `JsString.Join` has no contract of its own; it is specified by `JoinSplit` and `SplitJoin` with respect to `split`.
- Everything else in the repository (ORM-backed services, HTTP controllers, queue and parameter-store clients, bootstrap and DTOs) is not part of this model: it only forwards to a database, the network or a framework. The job matching, auto-assignment, dispatch and execution-result operations that the job controller routes to have no implementation in the repository's job service, so there is nothing to model for them.
