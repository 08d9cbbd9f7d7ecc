# Confidential secure metrics: ingestion, aggregation and submission

This project is a Dafny model of the core of `confidential-secure-metrics`. That is a demo in which a browser client turns an uploaded receipt or table into one number (Σ quantity × price). The client scales the number to a fixed-point integer, encrypts it under a Paillier public key and posts it. The server stores the ciphertexts and multiplies them modulo n². The auditor decrypts the product, and it is the sum of the submitted metrics.

The model covers two source files:

- `server/server.js`:
  - the tolerant number parse `maybeNumber`;
  - the column classifier `normalizeColumns`;
  - the free-text heuristic `parsePlainText`;
  - the `bigintToBase64` / `base64ToBigint` pair;
  - the classification of an OCR result in `POST /api/ocr`;
  - the key pair and the ciphertext store (`/api/paillier/pub`, `/api/submit`, `/api/clear`);
  - the product loop of `/api/aggregate` and `/api/decrypt`.
- `src/pages/Platform.tsx`:
  - the same parsers;
  - the CSV filter `parseCsvText` and the JSON row loop;
  - the dispatch in `handleFileUpload`;
  - `computeDemoMetric` and the ×100 fixed-point scaling;
  - the guards and the request of `handleEncryptAndSubmit`;
  - the display of the decrypted aggregate.

The two copies of `maybeNumber`, `normalizeColumns` and `parsePlainText` are the same text, so the model defines each once and cites both places where it matters. The only difference is that the client's `normalizeColumns` guards `obj || {}`. The server never calls its own `normalizeColumns`.

Modules, leaves first:

- `Wrappers`: `Option` and `Result`.
- `JsText`:
  - JavaScript `trim`, `toLowerCase`, `split`, `join` and the `/\s+/` tokenizer;
  - the `replace(/[$,]/g, "")` of `maybeNumber`;
  - decimal rendering of integers.
- `JsValues`: JavaScript values (undefined, null, booleans, exact numbers, strings, objects as ordered key lists, arrays), truthiness and property access.
- `NumberParse`: `Number(s)` over the JavaScript numeric-literal grammar, and `maybeNumber`.
- `Columns`: `normalizeColumns`, as a loop (method) proved against a fold over the keys (function).
- `Records`: the normalised record, the output row with its defaults, the 200-row preview, and the generic "keep what the step returns" collection used by every parser loop.
- `Tabular`: `parseCsvText` over the CSV parser's output, and the JSON branch's loop.
- `PlainText`: `parsePlainText`.
- `Metric`: `computeDemoMetric`, `Math.round(metric * 100)` and the display's division by the scale.
- `Codec`: hex and base64, and the bigint codec built from them.
- `Aggregation`: the product modulo n² and, for any decryption that is additively homomorphic, the theorem that it decrypts to the sum.
- `OcrRoute`: the server's answer to an OCR request, given what recognition produced.
- `ApiServer`: the routes' answers as functions of the server state. The state is a `class Server` holding the key pair, `n2` and the `ciphertexts` sequence, which `Submit` and `Clear` update and the product loop (`MultiplyAll`) reads.
- `Platform`: `handleFileUpload`, `handleEncryptAndSubmit` and the decrypted display.
- `EndToEnd`: the whole path. Metrics posted by the client and stored by the server are displayed by the auditor as their sum divided by 100.

Paillier is not modelled as arithmetic:

- A key pair comes with a predicate `valid` on ciphertexts and a decryption `nat -> nat`. That decryption is additive on valid ciphertexts is the predicate `Aggregation.Homomorphic`: valid ciphertexts lie below n² and decrypt below n, and the product modulo n² of two valid ciphertexts is valid and decrypts to the sum of their plaintexts modulo n.
- Encryption in `paillier-bigint` draws fresh randomness on every call. So each submission has its own encryption function `int -> nat`. That such a function matches the key is the predicate `Aggregation.EncryptsUnder`: every plaintext m encrypts to a valid ciphertext that decrypts to m mod n. The theorems about a store require of its ciphertexts only that they are valid encryptions, via `Aggregation.EncryptionsOf`.
- These hypotheses can be met with n > 1. `Aggregation.SmallSchemeIsHomomorphic` proves them for the textbook scheme with n = 3, g = n + 1 and randomness 1, where the valid ciphertexts are 1, 4 and 7.

Four behaviours of the code are easy to misread, and the model states them as the code has them:

- **Unlabelled numeric columns.** A column with no item, quantity or price word sets the price only while `!normalized.price` holds (server.js:83). So such a column fills a price that is missing, null or zero, a later zero does not lock the price, and an explicit price column always overwrites it (`Columns.FirstNonZeroNumericIsPrice`, `Columns.LastExplicitPriceWins`).
- **Whitespace item label.** When a price was read, the item is every token but the last (server.js:109), even when the last token holds no digit. So `Widget 4 19.99 each` has price 19.99 and item `Widget 4 19.99` (`PlainText.WhitespaceItemDropsLastToken`).
- **Metric scope.** `computeDemoMetric` sums over the preview, which is the first 200 rows, not over every extracted row (Platform.tsx:163 and 222; `Metric.OnlyPreviewCounts`).
- **Rounding.** `Math.round` rounds halves up, that is floor(x + ½), also for negative values (Platform.tsx:251; `Metric.ScaleMetricNearest`).

## Model

| member | source | states |
|---|---|---|
| JsText.Trim | server/server.js:64 | the result has no white space at either end |
| JsText.TrimIsSlice | server/server.js:64 | trim removes exactly the leading and the trailing white space and keeps the text between them |
| JsText.TrimOfTrimmed | server/server.js:89 | trimming a trimmed line changes nothing |
| JsText.ToLower | src/pages/Platform.tsx:158 | same length; each upper-case ASCII letter becomes its lower-case letter and every other character is kept |
| JsText.StripCurrency | server/server.js:64 | no `$` and no `,` remain and the text does not grow |
| JsText.StripCurrencyAppend | server/server.js:64 | the removal works character by character: it distributes over concatenation |
| JsText.StripCurrencyDrops | server/server.js:64 | inserting a `$` or `,` anywhere does not change the cleaned text |
| JsText.StripCurrencyKeeps | server/server.js:64 | text without `$` and `,` is returned unchanged |
| JsText.IndexOf | server/server.js:94 | the first occurrence of the separator: it is there and not before |
| JsText.Split | server/server.js:94 | `split` always yields at least one piece |
| JsText.SplitPiecesFree | server/server.js:94 | no piece contains the separator |
| JsText.JoinSplit | server/server.js:94 | joining the pieces with the separator gives the text back |
| JsText.SplitJoin | server/server.js:94 | splitting a join of separator-free pieces gives the pieces back |
| JsText.SplitAppend | server/server.js:89 | splitting `a + sep + b` gives the pieces of `a` followed by those of `b` |
| JsText.SplitWs | server/server.js:103 | `/\s+/` splitting yields at least one token and no token holds white space |
| JsText.SplitWsTokensNonEmpty | server/server.js:103 | on a trimmed, non-blank line every token is non-empty |
| JsText.FirstSpace | server/server.js:103 | the first white-space character: it is white space and none comes before it |
| JsText.NatToString | server/server.js:211 | `toString()` of a non-negative integer is a non-empty digit string without a leading zero |
| JsText.NatToStringValue | server/server.js:211 | the decimal text reads back as the integer |
| NumberParse.MaybeNumber | server/server.js:62-68 | null and undefined give null; text that is empty after removing `$`, `,` and surrounding space gives null; other text gives `Number` of the cleaned text |
| NumberParse.ExponentIndex | server/server.js:66 | the position of the exponent mark, or none exactly when there is no `e`/`E` |
| NumberParse.DigitsAreClean | server/server.js:64 | a digit string is unchanged by cleaning |
| NumberParse.DigitsAreUnsignedDecimal | server/server.js:66 | a digit string reads as its decimal value |
| NumberParse.DigitsAreNumber | server/server.js:66 | `Number` of a digit string without a leading zero is its decimal value |
| NumberParse.StringToNumberOfNatString | src/pages/Platform.tsx:302 | `Number(x.toString())` is `x` for every non-negative integer |
| NumberParse.MaybeNumberOfNatString | server/server.js:62-68 | `maybeNumber` of an integer's decimal text is that integer |
| NumberParse.MaybeNumberThroughStrip | server/server.js:64 | texts equal once `$` and `,` are removed parse alike |
| NumberParse.CurrencySignIgnored | server/server.js:64 | a `$` or `,` anywhere in the text does not change the number |
| NumberParse.StringToNumberSpecialValues | server/server.js:66-67 | `Number` of blank text is 0, and `Infinity` with or without a sign is rejected by the finiteness test |
| NumberParse.JsNumber | src/pages/Platform.tsx:302 | `Number(v)` when finite: null 0, booleans 1 and 0, numbers themselves, text by `StringToNumber`, undefined and objects NaN, arrays through their `join(",")` text; its array cases are pinned by the `JsNumberOf*` lemmas |
| NumberParse.JsNumberOfSingleton | src/pages/Platform.tsx:302 | `Number([v])` reads `v`'s text: 0 for null and undefined, NaN for a boolean, otherwise `Number(v)` |
| NumberParse.JsNumberOfNested | src/pages/Platform.tsx:302 | nesting an array in a one-element array keeps its number |
| NumberParse.MaybeNumberIsJsNumber | server/server.js:62-68 | `maybeNumber` and `Number` agree on numbers and on non-blank text without `$` or `,` |
| NumberParse.StringToNumberOfTrim | server/server.js:64-66 | `Number` ignores surrounding white space, so trimming before it changes nothing |
| Columns.CellsOf | server/server.js:72-74 | one cell per key, in key order, each classifying its key and parsing its value |
| Columns.Classify | server/server.js:73-81 | a key is an item key exactly when its lower-cased, trimmed form names an item; a quantity key exactly when it names a quantity and no item; a price key exactly when it names a price and neither of the others |
| Columns.Step | server/server.js:75-84 | an item cell sets only the item, a quantity cell only the quantity, a price cell only the price; an unlabelled number sets the price only while the price is falsy |
| Columns.Fold | server/server.js:72-85 | every field that ends up set comes from some cell: the item from an item cell, the quantity from a quantity cell, the price from some cell's number |
| Columns.Normalize | server/server.js:69-87 | every field that ends up set comes from some key: the item is the value under an item key, the quantity `maybeNumber` of a quantity key's value, the price `maybeNumber` of some key's value |
| Columns.NormalizeColumns | src/pages/Platform.tsx:85-103 | the loop over `Object.keys(obj \|\| {})` yields the fold of the per-key step; null or undefined gives the empty record |
| Columns.NormalizeFields | server/server.js:69-87 | the loop over the keys yields the fold of the per-key step over them |
| Columns.FoldItemLast | server/server.js:75-76 | after the loop, item is the value of the last item cell |
| Columns.FoldNoItem | server/server.js:75-76 | without item cells the item stays unset |
| Columns.FoldQuantityLast | server/server.js:77-78 | quantity is the parsed value of the last quantity cell |
| Columns.FoldNoQuantity | server/server.js:77-78 | without quantity cells the quantity stays unset |
| Columns.FoldTruthyPriceStays | server/server.js:82-83 | once the price is truthy, only an explicit price cell can change it |
| Columns.FoldPriceFalsy | server/server.js:82-83 | without price cells and without truthy unlabelled numbers the price stays falsy |
| Columns.FoldExplicitPriceLast | server/server.js:79-80 | a non-zero value of the last explicit price cell is the price |
| Columns.FoldFirstNonZero | server/server.js:82-83 | without explicit price cells, the first non-zero unlabelled number is the price |
| Columns.ItemIsLastItemKey | server/server.js:75-76 | a key containing item/name/desc (lower-cased, trimmed) sets item before any other test, and the last such key wins |
| Columns.NoItemKey | server/server.js:75-76 | with no item key, item is unset |
| Columns.QuantityIsLastQuantityKey | server/server.js:77-78 | quantity is `maybeNumber` of the last qty/quantity/count key that is not an item key |
| Columns.NoQuantityKey | server/server.js:77-78 | with no quantity key, quantity is unset |
| Columns.LastExplicitPriceWins | server/server.js:79-83 | a non-zero value under the last price/amount/cost key is the price, whatever unlabelled numbers say |
| Columns.FirstNonZeroNumericIsPrice | server/server.js:81-83 | with no price key, the first unlabelled key with a non-zero number sets the price, since `!normalized.price` lets zeros be replaced |
| Records.Preview | src/pages/Platform.tsx:163 | `rows.slice(0, 200)`: the first min(length, 200) rows, in order |
| Records.ItemOrUnknown | src/pages/Platform.tsx:114 | `item \|\| "(unknown)"` is truthy and keeps a truthy item |
| Records.WithDefaults | src/pages/Platform.tsx:114 | the row's item is truthy, and quantity and price are the normalised ones or the defaults 1 and 0 |
| Records.Collect | src/pages/Platform.tsx:110-116 | a loop that pushes at most one row per element yields at most one row per element |
| Records.CollectSnoc | src/pages/Platform.tsx:111-115 | one more iteration appends that element's row, if any, at the end |
| Records.CollectAppend | src/pages/Platform.tsx:111-115 | the rows of a concatenation are the rows of each part, in order |
| Records.CollectMember | src/pages/Platform.tsx:111-115 | every row comes from some element |
| Records.CollectEmpty | src/pages/Platform.tsx:111-115 | no rows exactly when every element was skipped |
| Tabular.JsonElements | src/pages/Platform.tsx:169 | an array is its elements; any other value is a one-element array |
| Tabular.CsvRecord | src/pages/Platform.tsx:111-115 | a data row yields no row exactly when the CSV rule drops its normalised record; a kept row has a truthy item |
| Tabular.JsonRecord | src/pages/Platform.tsx:171-175 | a value that is not `typeof "object"` yields no row; a kept row has a truthy item |
| Tabular.CsvRows | src/pages/Platform.tsx:105-117 | an error exactly when the parser reported one; otherwise at most one row per data row |
| Tabular.JsonRows | src/pages/Platform.tsx:169-176 | at most one row per element |
| Tabular.ParseCsvText | src/pages/Platform.tsx:105-117 | the method (error check, then the loop) returns the CSV rows, including the thrown error |
| Tabular.ParseJsonRows | src/pages/Platform.tsx:169-176 | the JSON loop collects the JSON rows |
| Tabular.CsvErrorAborts | src/pages/Platform.tsx:107-109 | the result is an error exactly when the parser reported one, and it carries the first message |
| Tabular.CsvRowsFromRecords | src/pages/Platform.tsx:111-115 | each row is the defaulted form of a data row that was not dropped, and its item is truthy |
| Tabular.CsvEmptyIffAllDropped | src/pages/Platform.tsx:113 | there are no CSV rows exactly when every data row has null quantity and price and a falsy item |
| Tabular.JsonRowsFromElements | src/pages/Platform.tsx:171-176 | each JSON row is the defaulted form of an object-typed element not skipped, and its item is truthy |
| Tabular.JsonEmptyIffAllSkipped | src/pages/Platform.tsx:171-176 | there are no JSON rows exactly when each element is not an object or has item, quantity and price all null |
| Tabular.NullElementSkipped | src/pages/Platform.tsx:172-174 | `null` passes the `typeof` test but yields no row |
| Tabular.JsonDropIsCsvDrop | src/pages/Platform.tsx:113 | a record the JSON rule skips is also skipped by the CSV rule |
| Tabular.FalsyItemKeptByJsonOnly | src/pages/Platform.tsx:174 | an item like `""` or `0` alone is dropped by the CSV rule but kept by the JSON rule as `(unknown)`, 1, 0 |
| PlainText.ParsePlainText | server/server.js:88-116 | the loop over the lines returns the rows of the text |
| PlainText.Lines | server/server.js:89 | splitting, trimming and filtering keeps only non-empty, trimmed lines |
| PlainText.CommaRow | server/server.js:96-99 | the positional row's item is non-empty text |
| PlainText.TokensRow | server/server.js:104-110 | a row exactly when there are at least three tokens and at least one number; its item is non-empty text |
| PlainText.ParseLine | server/server.js:91-113 | a line with a comma and at least three comma parts always yields a row; every row's item is non-empty text |
| PlainText.PlainRows | server/server.js:88-116 | at most one row per line |
| PlainText.CommaParts | server/server.js:94 | one trimmed part per comma-separated piece |
| PlainText.NumericTokens | server/server.js:105 | one `maybeNumber` per digit-bearing token |
| PlainText.NonBlankTrimmed | server/server.js:89 | every line kept is non-empty and trimmed |
| PlainText.NonBlankAppend | server/server.js:89 | filtering the pieces of two parts gives the lines of each, in order |
| PlainText.LinesAppend | server/server.js:89 | the lines of `a + "\n" + b` are those of `a` followed by those of `b` |
| PlainText.PlainRowsAppend | server/server.js:88-116 | the rows of `a + "\n" + b` are those of `a` followed by those of `b` |
| PlainText.BlankLineNoLines | server/server.js:89 | a blank line yields no line |
| PlainText.BlankLineDropped | server/server.js:89 | inserting a blank line changes no lines |
| PlainText.BlankLineIgnored | server/server.js:89 | inserting a blank line changes no rows |
| PlainText.RowsComeFromLines | server/server.js:91-113 | each row comes from one line, and its item is non-empty text |
| PlainText.ItemText | server/server.js:99 | `text \|\| "(unknown)"` is non-empty text |
| PlainText.CommaLineIsPositional | server/server.js:92-101 | a line with a comma and at least three parts gives part 0 (or `(unknown)`), `maybeNumber` of part 1 or 1, and of part 2 or 0; later parts are ignored |
| PlainText.CommaRowFields | server/server.js:96-99 | the positional row's three fields |
| PlainText.DigitTokensPrefix | server/server.js:105 | trailing tokens without digits do not change the digit-bearing tokens |
| PlainText.DigitTokensSnoc | server/server.js:105 | a digit-bearing token extends them at the end |
| PlainText.DigitTokensNonEmpty | server/server.js:105-106 | one digit-bearing token makes the list non-empty |
| PlainText.LastDigitToken | server/server.js:105-107 | the last digit-bearing token is the last of the list |
| PlainText.WhitespaceRowExists | server/server.js:103-113 | the whitespace path yields a row exactly when there are at least three tokens and one holds a digit |
| PlainText.LastNumber | server/server.js:107 | `pop()` gives `maybeNumber` of the last digit-bearing token |
| PlainText.NumericTokenAt | server/server.js:105 | each number is `maybeNumber` of the matching token |
| PlainText.SecondLastNumber | server/server.js:108 | the second `pop()` gives the second-last digit-bearing token |
| PlainText.TokensRowNumbers | server/server.js:107-110 | price is the last number or 0; quantity is the second-last or 1 |
| PlainText.WhitespacePriceIsLastNumber | server/server.js:107-110 | price is `maybeNumber` of the last digit-bearing token, or 0 |
| PlainText.WhitespaceQuantityIsSecondLastNumber | server/server.js:108-110 | quantity is `maybeNumber` of the second-last digit-bearing token, or 1 |
| PlainText.WhitespaceSingleNumberQuantityOne | server/server.js:108 | with one digit-bearing token the quantity is 1 |
| PlainText.WhitespaceItem | server/server.js:109 | the item joins all tokens but the last when a price was read, else all tokens |
| PlainText.WhitespaceItemDropsLastToken | server/server.js:109 | when the price parses, the item is every token except the final one, even a digit-free final token |
| PlainText.WhitespaceItemKeepsTokens | server/server.js:109 | when the price does not parse, the item is all tokens |
| Metric.Total | src/pages/Platform.tsx:222-226 | the sum is never negative when no quantity or price is negative |
| Metric.DemoMetric | src/pages/Platform.tsx:219-228 | 0 without data; never negative when no previewed quantity or price is negative |
| Metric.ScaleMetric | src/pages/Platform.tsx:251 | a non-negative metric scales to a non-negative integer |
| Metric.Unscale | src/pages/Platform.tsx:302 | the displayed value times the scale, 100 when the scale is zero, is the plaintext |
| Metric.ComputeDemoMetric | src/pages/Platform.tsx:219-228 | the loop returns 0 without data, else the sum of quantity × price over the preview |
| Metric.TotalAppend | src/pages/Platform.tsx:222-226 | the sum over two row lists is the sum of the sums |
| Metric.TotalSwap | src/pages/Platform.tsx:222-226 | swapping two adjacent rows does not change the sum |
| Metric.OnlyPreviewCounts | src/pages/Platform.tsx:163 | past 200 rows, the preview's sum misses exactly the rows from 200 on |
| Metric.ScaleMetricNearest | src/pages/Platform.tsx:251 | `Math.round(metric * 100)` is within ½ of 100 × metric, halves going up |
| Metric.ScaleMetricUnique | src/pages/Platform.tsx:251 | it is the only integer within that bound |
| Metric.ScaleMetricOfCents | src/pages/Platform.tsx:251 | a metric in whole cents scales exactly |
| Metric.UnscaleDefaultScale | src/pages/Platform.tsx:302 | a missing or zero scale divides by 100 |
| Metric.UnscaleScale | src/pages/Platform.tsx:250-251 | scaling to cents and dividing back by 100 is off by at most half a cent |
| Codec.HexChar | server/server.js:38 | each digit value has a hex character |
| Codec.HexDigitValue | server/server.js:40 | a hex character has a digit value below 16 |
| Codec.HexDigitValueOfChar | server/server.js:40 | reading back a hex digit gives its value |
| Codec.ToHex | server/server.js:38 | `toString(16)` is a non-empty hex string, starting with 0 only for 0 |
| Codec.HexValueOfToHex | server/server.js:38 | the hex string reads back as the number |
| Codec.HexValueLeadingZero | server/server.js:39 | a leading zero does not change the value |
| Codec.PadEven | server/server.js:39 | the padded string has even length and the same value |
| Codec.HexPairs | server/server.js:40 | `match(/../g)` with `parseInt(h, 16)` gives one byte per pair |
| Codec.BytesValueOfHexPairs | server/server.js:40-41 | the bytes, read big-endian, have the hex string's value |
| Codec.ByteHex | server/server.js:46 | `padStart(2, "0")` of a byte's hex is two hex characters |
| Codec.ByteHexNibbles | server/server.js:46 | those are its high and low nibble |
| Codec.BytesHex | server/server.js:46 | the joined string is hex, two characters per byte |
| Codec.HexValueAppendByte | server/server.js:46-47 | appending a byte's two digits multiplies by 256 and adds the byte |
| Codec.HexValueOfBytesHex | server/server.js:46-47 | `BigInt("0x" + hex)` of the joined string is the big-endian value of the bytes |
| Codec.Base64Char | server/server.js:42 | an alphabet character is never the padding `=` |
| Codec.SextetOfChar | server/server.js:45 | each base64 character reads back as its digit |
| Codec.GroupBytes | server/server.js:42-45 | the four digits of a three-byte group give the bytes back |
| Codec.Encode | server/server.js:42 | base64 text is four characters per started group of three bytes |
| Codec.Decode | server/server.js:45 | at most three bytes per four characters |
| Codec.Sextets | server/server.js:45 | decoding reads at most one digit per character |
| Codec.SextetBytes | server/server.js:45 | digits give three bytes per full group and one less than the digit count for a partial one |
| Codec.SextetsCons | server/server.js:45 | reading an alphabet character prepends its digit |
| Codec.SextetsPadding | server/server.js:45 | reading stops at padding |
| Codec.SextetsOfPair | server/server.js:45 | a group with two digits and two `=` reads as two digits |
| Codec.SextetsOfTriple | server/server.js:45 | a group with three digits and one `=` reads as three |
| Codec.SextetsOfQuad | server/server.js:45 | a full group reads as its four digits followed by the rest |
| Codec.DecodeEncodeOne | server/server.js:42-45 | one byte survives encoding and decoding |
| Codec.DecodeEncodeTwo | server/server.js:42-45 | two bytes survive encoding and decoding |
| Codec.DecodeEncodeGroup | server/server.js:42-45 | a full group decodes to its bytes and the rest to the rest |
| Codec.DecodeEncode | server/server.js:42-45 | `Buffer.from(buf.toString("base64"), "base64")` is `buf` |
| Codec.Base64ToBigint | server/server.js:44-48 | none (the `BigInt("0x")` throw) exactly when the text holds no bytes |
| Codec.Base64ToBigintValue | server/server.js:44-48 | otherwise the big-endian value of the decoded bytes |
| Codec.Base64RoundTrip | server/server.js:37-48 | `base64ToBigint(bigintToBase64(x))` is `x` for every non-negative `x` |
| Codec.BigintToBase64 | server/server.js:37-43 | the text is a non-empty whole number of four-character groups |
| Codec.BigintToBase64Injective | server/server.js:37-43 | different numbers give different base64 text |
| Aggregation.ProdMod | server/server.js:185-189 | the product of a non-empty list modulo m is below m |
| Aggregation.ProdModIsProductMod | server/server.js:185-189 | reducing after every step gives the whole product modulo m |
| Aggregation.ProductAppend | server/server.js:186-188 | the product of two lists is the product of their products |
| Aggregation.ProductSwap | server/server.js:186-188 | swapping two adjacent factors keeps the product |
| Aggregation.ProdModSwap | server/server.js:186-188 | the reduced product does not depend on submission order |
| Aggregation.Decryptions | server/server.js:209 | one decryption per ciphertext |
| Aggregation.AggregateStep | server/server.js:188 | for valid ciphertexts under an additive decryption, one more factor keeps the product valid and adds its plaintext modulo n |
| Aggregation.AggregateDecryptsToSum | server/server.js:204-209 | under an additive decryption, the reduced product of a non-empty list of valid ciphertexts is valid and decrypts to the sum of their plaintexts modulo n |
| Aggregation.SumMod | server/server.js:209 | reducing each summand modulo n keeps the sum modulo n |
| Aggregation.SmallSchemeIsHomomorphic | server/server.js:51-59 | the textbook scheme with n = 3 meets both key hypotheses, so they do not force n = 1 |
| Aggregation.SmallSchemeAdds | server/server.js:188 | its decryption is additive on its valid ciphertexts |
| Aggregation.SmallProduct | server/server.js:188 | in it, the product modulo 9 of two valid ciphertexts is valid and decrypts to the sum of their plaintexts modulo 3 |
| Aggregation.SmallRoundTrip | server/server.js:51-59 | in it, every plaintext encrypts to a valid ciphertext that decrypts to the plaintext modulo 3 |
| ApiServer.ReadCiphertext | server/server.js:187 | a text ciphertext reads as `base64ToBigint` of the text; any other value fails |
| ApiServer.ReadAll | server/server.js:186-187 | when every item reads, there is one number per item |
| ApiServer.StoreProductDefined | server/server.js:185-189 | the product exists exactly when every ciphertext decodes and, for a non-empty store, n2 is present and non-zero; it is then below n2, and 1 for an empty store |
| ApiServer.SubmissionId | server/server.js:169 | the id starts with `sub_` and has more after it |
| ApiServer.AggregateReply | server/server.js:181-198 | the answer is 200 or 500, and 200 exactly when there are keys and the store is empty or its product exists; the body of each 200 answer is stated by `ApiServer.AggregateReplyBody` |
| ApiServer.DecryptReply | server/server.js:200-216 | 200 exactly when there are keys, the store is non-empty and its product exists; 400 exactly when there are keys and the store is empty; any other answer is 500; the body of each 200 answer is stated by `ApiServer.DecryptReplyBody` |
| ApiServer.MultiplyAll | server/server.js:185-189 | the loop returns 1 for no items, else the product modulo n2, and fails where the loop throws |
| ApiServer.MultiplyDone | server/server.js:185-189 | the finished loop's accumulator is the store product |
| ApiServer.MultiplyStep | server/server.js:187-188 | one iteration multiplies in the next ciphertext |
| ApiServer.MultiplyFails | server/server.js:187 | a ciphertext that does not decode makes the whole product fail |
| ApiServer.StoreProductFails | server/server.js:187 | an undecodable ciphertext anywhere fails the product |
| ApiServer.StoreProductNoModulus | server/server.js:188 | a missing or zero n2 fails the product of any non-empty store |
| ApiServer.StoreProductValue | server/server.js:185-189 | otherwise the product is the reduced product of the decoded values |
| ApiServer.StoreProductInRange | server/server.js:188 | the product of a non-empty store lies in [0, n2) |
| ApiServer.StoreProductSwap | server/server.js:186-188 | the product does not depend on the order of the store |
| ApiServer.Server.constructor | server/server.js:30-34 | no keys and an empty store at start-up |
| ApiServer.Server.InitKeys | server/server.js:51-59 | the keys are set and n2 is n·n |
| ApiServer.Server.PublicKeyRoute | server/server.js:160-163 | 500 "keys not ready" before keys exist, else `n` and `g` in decimal |
| ApiServer.Server.Submit | server/server.js:165-174 | keeps the key invariant; a falsy ciphertext gets 400 "missing ciphertext" and leaves the store unchanged; otherwise exactly one entry is appended, meta defaulting to `{}`, and `{ok: true, id}` is answered |
| ApiServer.Server.Clear | server/server.js:219-223 | keeps the key invariant; the store is empty and `{ok: true}` is answered |
| ApiServer.Server.Aggregate | server/server.js:181-198 | the answer is 500 without keys; for an empty store `aggregate: null, count: 0`; else the base64 product modulo n·n with its CID and count, or 500 "internal" where the loop throws |
| ApiServer.Server.Decrypt | server/server.js:200-216 | the answer is 500 without keys and 400 for an empty store; else the decrypted product modulo n·n in decimal with scale 100 and the count, or 500 "internal" where the loop throws |
| ApiServer.PublicKeyReadBack | server/server.js:162 | the published `n` and `g` read back as the key's numbers |
| ApiServer.DecodeEncryptions | server/server.js:186-187 | a store holding the base64 texts of ciphertexts decodes to those ciphertexts |
| ApiServer.AggregateReplyBody | server/server.js:181-198 | an empty store with keys answers `{aggregate: null, count: 0}`; every 200 answer has `count` equal to the store length, and a non-empty one carries the base64 of the store product and the CID stamped with the time |
| ApiServer.DecryptReplyBody | server/server.js:200-216 | every 200 answer carries the decrypted store product in decimal, `scale: 100` and the store length as `count` |
| ApiServer.AggregateReadsBack | server/server.js:183-193 | for such a store the aggregate answer carries the base64 of the reduced product, with its count, and that text reads back as the product |
| ApiServer.EncryptionsDecryptToSum | server/server.js:204-209 | the reduced product of valid ciphertexts that decrypt to the metrics modulo n is valid and decrypts to the sum of the metrics modulo n |
| ApiServer.DecryptSumsMetrics | server/server.js:202-211 | for a non-empty store of valid encryptions of the metrics, `/api/decrypt` answers the sum of the metrics modulo n, scale 100 and the count |
| ApiServer.StoreOfEncryptions | server/server.js:185-189 | a store holding the base64 texts of ciphertexts has their reduced product as its product |
| OcrRoute.RawText | server/server.js:132 | `data?.text \|\| ""` is the text or empty |
| OcrRoute.OcrResponse | server/server.js:119-157 | 400 "no file uploaded" exactly when no file arrived; with a file every error is 500; rows come only from recognised text, are `parsePlainText` of it, and carry the note exactly when there are none |
| OcrRoute.OcrRowsAreParsed | server/server.js:137-147 | a 200 answer needs a file and recognised non-blank text, carries the rows `parsePlainText` gives, and has the note exactly when there are none |
| OcrRoute.BlankTextFails | server/server.js:137-139 | text that is blank after trimming gives 500 "OCR produced empty text" |
| OcrRoute.ServerErrorsClassified | server/server.js:127-152 | with a file, the answer is an error exactly when recognition failed or the text is blank; that error is always 500 |
| Platform.BranchOf | src/pages/Platform.tsx:158-186 | the CSV branch exactly when the lower-cased name ends in `.csv`; the image branch exactly when the name ends in none of `.csv`, `.json` and `.txt` and the MIME type starts with `image/` |
| Platform.OcrOutcome | src/pages/Platform.tsx:191-201 | a thrown OCR request shows its message; parsed data needs rows in the body, counts them (at least one) and previews the first 200; the no-rows outcome has zero rows, an empty preview and the "no tabular rows" message |
| Platform.UploadOutcome | src/pages/Platform.tsx:149-217 | "no file" exactly when no file was chosen; the no-rows outcome only from the image branch |
| Platform.FromRows | src/pages/Platform.tsx:162-163 | no rows raises the branch's message; otherwise the count and the 200-row preview |
| Platform.HandleFileUpload | src/pages/Platform.tsx:149-217 | the handler's outcome is the outcome of the branch chosen, in order, by `.csv`, `.json` and `.txt` on the lower-cased name, then an `image/` MIME type, then the text fallback |
| Platform.UploadCsv | src/pages/Platform.tsx:159-164 | the CSV branch reports the parser's error or the rows |
| Platform.UploadJson | src/pages/Platform.tsx:165-179 | the JSON branch reports "Invalid JSON" when `JSON.parse` throws, else its rows or "No usable items in JSON" |
| Platform.UploadText | src/pages/Platform.tsx:180-208 | the text branch and the fallback report the plain-text rows or their message |
| Platform.ZeroRowsOnlyFromOcr | src/pages/Platform.tsx:149-217 | extracted data with zero rows comes only from the image branch, and only together with the "no tabular rows" error |
| Platform.BranchZeroRows | src/pages/Platform.tsx:162-206 | the same for each branch given its rows |
| Platform.ExtractedIsPreview | src/pages/Platform.tsx:149-217 | a successful parse has at least one row and a preview of min(rows, 200) |
| Platform.BranchPreview | src/pages/Platform.tsx:162-207 | the same for each branch given its rows |
| Platform.CsvErrorReported | src/pages/Platform.tsx:107-108 | a `.csv` file whose parse reported errors ends with "CSV parse error: " and the first message |
| Platform.ExtensionBeforeMime | src/pages/Platform.tsx:158-186 | a `.csv`, `.json` or `.txt` name decides the branch whatever the MIME type, and never goes to OCR |
| Platform.ImageUsesOnlyOcr | src/pages/Platform.tsx:186-201 | an image's outcome depends only on the OCR answer, not on reading the file as text |
| Platform.CsvExtensionIgnoresCase | src/pages/Platform.tsx:158-159 | `.CSV`, `.Csv` and the like take the CSV branch |
| Platform.EncryptAndSubmit | src/pages/Platform.tsx:238-277 | the handler posts what its guards and the scaled, encrypted metric determine |
| Platform.SubmitRequest | src/pages/Platform.tsx:238-277 | a refusal carries the guard message or the "Only Paillier" message; a posted request has data, algorithm `paillier`, the data's preview and a ciphertext text that reads back as the encryption of the scaled metric; the posted `meta` is stated by `Platform.SubmitMeta` |
| Platform.SubmitMeta | src/pages/Platform.tsx:255-275 | a posted request's `meta` has the file name, `scale: 100` and the decimal text of the very integer whose encryption is the posted ciphertext, which reads back as that integer when it is non-negative |
| Platform.SubmitGuards | src/pages/Platform.tsx:239-246 | a request is posted exactly when algorithm, file and data are present and the algorithm is `paillier`; another algorithm gets the "Only Paillier" error |
| Platform.PostedCiphertextNonEmpty | src/pages/Platform.tsx:230-235 | the posted base64 text has at least four characters |
| Platform.PostedCiphertextReadsBack | src/pages/Platform.tsx:249-261 | the server reads the posted text back as the encryption of `round(metric * 100)` |
| Platform.ImageWithoutRowsSubmitsZero | src/pages/Platform.tsx:199-200 | an image without rows leaves data with an empty preview, so submitting encrypts the metric 0 |
| Platform.DisplayDivisor | src/pages/Platform.tsx:302 | `j.scale \|\| 100`: a falsy scale divides by 100, so a zero divisor only comes from a truthy scale whose `Number` is 0 |
| Platform.NumericScaleDivisor | src/pages/Platform.tsx:302 | a numeric or absent scale divides by itself, and a zero or missing one by 100 |
| Platform.DisplayedAggregate | src/pages/Platform.tsx:302 | a value is shown exactly when `Number(j.plaintext)` is finite and the divisor `j.scale \|\| 100`, coerced by `Number`, is finite and non-zero; the shown value times the divisor is `Number(j.plaintext)` |
| Platform.DisplayCoercesValues | src/pages/Platform.tsx:302 | a numeric plaintext 5 shows 0.05 and a null one 0; a `true` scale divides by 1; the truthy scale `[]` divides by zero and shows nothing |
| Platform.DecryptBodyFields | src/pages/Platform.tsx:302 | the display reads the decryption answer's `plaintext` and `scale` |
| Platform.DisplayedPlaintext | src/pages/Platform.tsx:302 | the displayed aggregate is the decrypted integer divided by 100 |
| EndToEnd.PostedCiphertextAccepted | server/server.js:168 | every request the client posts passes the server's `!ciphertext` check |
| EndToEnd.SubmittedMetrics | src/pages/Platform.tsx:249-251 | one scaled metric per upload |
| EndToEnd.SubmittedCiphertexts | src/pages/Platform.tsx:249-261 | one ciphertext per upload: the k-th submission's encryption of the k-th scaled metric |
| EndToEnd.SubmissionsEncryptMetrics | src/pages/Platform.tsx:249-261 | when each submission's encryption matches the key, the submitted ciphertexts are valid encryptions of the scaled metrics |
| EndToEnd.StoreHoldsSubmittedMetrics | src/pages/Platform.tsx:249-270 | a store filled, in order, by the client's posted requests holds the base64 texts of the submitted ciphertexts |
| EndToEnd.DisplayedDecryptReply | src/pages/Platform.tsx:302 | the display of the decryption answer is the decrypted value divided by 100 |
| EndToEnd.DisplayedAggregateIsSum | src/pages/Platform.tsx:302 | for a non-empty store of valid encryptions of the metrics, the auditor sees (sum of the metrics mod n) / 100, which is the sum / 100 whenever it lies in [0, n) |
| EndToEnd.SubmissionsDisplaySum | src/pages/Platform.tsx:249-302 | whatever randomness each submission drew, a store filled by the client's requests is displayed as (sum of the scaled metrics mod n) / 100 |
| EndToEnd.ClientSubmits | src/pages/Platform.tsx:249-270 | one client submission appends exactly one entry, the base64 of the encryption of the scaled metric, keeps the entries before it and the key invariant |
| EndToEnd.HoldsOneMore | server/server.js:170 | appending the base64 text of one more ciphertext extends what the store holds by that ciphertext |
| EndToEnd.SubmitAll | server/server.js:165-174 | submitting every upload in order leaves the store holding, after what it held, the base64 texts of the submitted ciphertexts, and keeps the key invariant |
| EndToEnd.DemoSession | server/server.js:160-216 | keys, one submission per upload through `/api/submit`, then `/api/decrypt`: the display is (sum of the scaled metrics mod n) / 100 |

## Left out

- Paillier key generation, `encrypt` and `decrypt` belong to the `paillier-bigint` library. They are function parameters, and their laws are the hypotheses `Homomorphic`, `EncryptsUnder` and `EncryptionsOf`. The fresh randomness of each `encrypt` call is one encryption function per submission; the theorems do not relate the randomness of two submissions.
- EndToEnd.DemoSession: only sessions in which every upload extracted data. An upload without data never reaches `/api/submit` (`Platform.SubmitGuards` covers that refusal).
- Express routing, CORS, multer, the `try`/`catch` framing of status codes, and `fs` persistence are not modelled. The writes to `ciphertexts.json`, the `.b64` file and the temp-file unlinking have their errors ignored in the source and change no answer.
- Submission ids and the aggregate CID use `Date.now()` and `Math.random()`. Both are parameters (`now`, `random`).
- OCR recognition (Tesseract) is an input, a `Recognition` value. The outer `catch` of the OCR route ("server OCR error") is not modelled.
- `Papa.parse` and `JSON.parse` are inputs: the parser's errors and data rows, and the parsed value or none when it throws. `file.text()` is the `text` input.
- `apiFetch`, `fetch` and HTTP status framing on the client are not modelled. The OCR request is an input: a thrown message, no body, or the body.
- React state, toasts, `isProcessing`, `handleAnalyze`, `handleFetchAggregate` and the markup are not modelled. The handler's clearing order of `parseError` and `extractedData` is summarised by the final outcome.
- Numbers are exact rationals, not IEEE-754 doubles. `Number(v)` of a one-element array holding a number is that number, where JavaScript goes through the number's decimal text. Rounding of `Number(...)` and of the floating sum in `computeDemoMetric`, and the precision of the `/ scale` division, are not captured. `Infinity` and NaN are "not finite".
- NumberParse.MaybeNumber: returns null for arrays, whereas `String([...])` joins the elements with commas and could parse. CSV cells and JSON objects rarely hold arrays.
- JsText.ToLower: lowers only ASCII letters, not the rest of Unicode.
- JsText.SplitWs: JavaScript `\s` and `trim` are modelled by one white-space set of the usual characters. Unicode normalisation is not part of the model.
- ApiServer.ReadCiphertext: a ciphertext that is not text fails, as `Buffer.from` throws. Array and buffer ciphertexts, which `Buffer.from` would accept, are not modelled. Base64 decoding reads the standard and URL-safe alphabets, skips other characters and stops at the first `=`. Node's finer rules for stray padding are not part of this model.
- Concurrency: handlers run one at a time, as in Node's event loop.
- The wallet and Algorand publishing code, and the presentational pages, are not part of this model.
