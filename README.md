# TXTSanitize, modelled and proved in Dafny

`TXTSanitize` (txtsanitize/txtsanitize.go) prepares the value of a DNS TXT
record. It takes any string and returns it enclosed in double quotes. Every
embedded double quote gets a backslash, unless a pre-escaped sequence already
escapes it, i.e. an odd run of backslashes sits right before it.

The steps:
1. If the input is quoted, meaning at least two bytes with a double quote at
   each end, the sanitizer strips those two quotes.
2. It copies the content into a buffer. It finds each quote with
   `bytes.IndexByte` and counts the backslashes before it with a backward
   walk. It inserts a backslash before the quote when that count is even.
3. It counts the quotes it escaped.
4. It returns the buffer between double quotes. It wraps the buffer in an
   extra pair of escaped quotes, `\"…\"`, when the input was quoted and it
   escaped a positive, even number of quotes. This covers values such as
   `"foo" and other stuff "bar"`.

The project has two modules:
- `TxtSanitize` (txtsanitize.dfy): the model. The specification is pure
  functions over byte sequences:
  - `Contents` strips the outer quotes;
  - `BackslashRun` and `Unescaped` give the run of backslashes before a
    position;
  - `EscapeQuotes` and `NewlyEscaped` give the buffer and the escape count;
  - `Sanitized` gives the result.

  Each step of the Go code is an imperative method:
  - `StripQuotes`, for the outer quotes;
  - `Scan`, the outer loop, with `IndexByte` and the inner loop
    `CountBackslashes`;
  - `Enclose`, for the final quoting.

  Each method is proved to compute its function. The module also proves:
  - the result's shape;
  - that escaping only inserts backslashes;
  - that after a scan every quote is escaped;
  - exactly when the result is a fixed point of `TXTSanitize`.
- `TxtSanitizeTest` (txtsanitize_test.dfy): the table of
  txtsanitize/txtsanitize_test.go. For each entry it states the result
  `TXTSanitize` returns and that this result is a fixed point, as the test
  checks. It ends with a counterexample to the general idempotence promise.

Strings are byte sequences (`seq<byte>`, where `byte` is 0..255), as Go's
`[]byte(in)` treats them. `Quote` is 0x22 and `Backslash` is 0x5C.

## Model

| member | source | states |
|---|---|---|
| TxtSanitize.Contents | txtsanitize/txtsanitize.go:17-23 | A quoted value is its content between two quotes; any other value is its own content |
| TxtSanitize.IsQuoted | txtsanitize/txtsanitize.go:18-19 | The positional check: at least two bytes, a quote first and a quote last (a definition, no ensures; `ContentsOfQuoted` proves every `[Quote] + c + [Quote]` passes it) |
| TxtSanitize.ContentsOfQuoted | txtsanitize/txtsanitize.go:18-23 | Putting quotes around any content gives a quoted value, and stripping them gives that content back |
| TxtSanitize.StripQuotes | txtsanitize/txtsanitize.go:17-23 | The strip computes `quoted` as the positional check (two bytes or more, a quote at each end) and the content as `Contents` |
| TxtSanitize.IndexByte | txtsanitize/txtsanitize.go:28 | Returns -1 exactly when the byte is absent; otherwise the result holds the byte and no earlier position does |
| TxtSanitize.BackslashRun | txtsanitize/txtsanitize.go:37-40 | The value of the backward walk, at most the length of the value; `BackslashRunMaximal` and `BackslashRunIs` characterise it as the maximal trailing run of backslashes |
| TxtSanitize.BackslashRunMaximal | txtsanitize/txtsanitize.go:38 | The counted run is maximal: all of its bytes are backslashes, and the byte before it (if any) is not |
| TxtSanitize.BackslashRunIs | txtsanitize/txtsanitize.go:38 | A maximal run of k backslashes at the end of a value has length k |
| TxtSanitize.BackslashRunAfter | txtsanitize/txtsanitize.go:38 | The backward walk stops at a byte that is not a backslash, so text before that byte does not change the count |
| TxtSanitize.Unescaped | txtsanitize/txtsanitize.go:41 | The parity test: a quote after `p` gets a backslash when the run ending `p` is even (a definition, no ensures; `UnescapedSnoc` gives its flip) |
| TxtSanitize.UnescapedSnoc | txtsanitize/txtsanitize.go:41 | One more backslash flips whether a following quote gets escaped |
| TxtSanitize.CountBackslashes | txtsanitize/txtsanitize.go:37-40 | The inner loop returns the length of the backslash run before `ind` |
| TxtSanitize.EscapeQuotes | txtsanitize/txtsanitize.go:41-46 | The buffer is as long as the content plus the number of escaped quotes |
| TxtSanitize.NewlyEscaped | txtsanitize/txtsanitize.go:41-45 | The `escaped` counter (a definition, no ensures; `EscapeIsInsertion` equates it with the number of positions marked for a backslash, `NewlyEscapedBound` bounds it) |
| TxtSanitize.NewlyEscapedBound | txtsanitize/txtsanitize.go:41-45 | The scan escapes at most as many quotes as the content holds |
| TxtSanitize.EscapeAppendText | txtsanitize/txtsanitize.go:29-33 | Text without a quote is copied unchanged and adds no escape |
| TxtSanitize.EscapeAppendQuote | txtsanitize/txtsanitize.go:41-46 | A quote is written as `\"` and counted when the run before it is even; otherwise it is written as it is |
| TxtSanitize.EscapeIsInsertion | txtsanitize/txtsanitize.go:27-47 | Escaping only inserts backslashes: the buffer is the content with one backslash before each quote that follows an even run, and the count is the number of such quotes. No other byte changes |
| TxtSanitize.RemoveInserted | txtsanitize/txtsanitize.go:41-46 | Taking out the backslashes inserted at the marked positions gives back the original bytes |
| TxtSanitize.EscapeRemovable | txtsanitize/txtsanitize.go:27-47 | Removing from the buffer the backslashes the scan inserted gives back the content: the scan only inserts |
| TxtSanitize.EscapePreservesRun | txtsanitize/txtsanitize.go:36-46 | The buffer ends in the same backslash run as the content |
| TxtSanitize.AllQuotesEscaped | txtsanitize/txtsanitize.go:8-11 | The doc comment's "escaped properly": every quote follows an odd run (a definition, no ensures; `AllQuotesEscapedPointwise` restates it position by position) |
| TxtSanitize.AllQuotesEscapedPointwise | txtsanitize/txtsanitize.go:36-46 | A value has all of its quotes escaped exactly when an odd run of backslashes comes before each of its quotes |
| TxtSanitize.EscapeAllQuotesEscaped | txtsanitize/txtsanitize.go:36-46 | In the buffer, an odd run of backslashes comes before every quote |
| TxtSanitize.EscapeFixesEscaped | txtsanitize/txtsanitize.go:36-46 | A value whose quotes are all escaped gets no new escape and stays unchanged, and only such values get no new escape |
| TxtSanitize.EscapeIdempotent | txtsanitize/txtsanitize.go:27-47 | Scanning a buffer again changes nothing and escapes nothing |
| TxtSanitize.Scan | txtsanitize/txtsanitize.go:24-47 | The outer loop builds `EscapeQuotes(contents)` and counts `NewlyEscaped(contents)` |
| TxtSanitize.Rewraps | txtsanitize/txtsanitize.go:56 | The rewrap condition: quoted input, and a positive, even escape count (a definition, no ensures; `SanitizedQuoted`, `SanitizedUnquoted` and `SanitizedIdempotentIff` state its effect) |
| TxtSanitize.Sanitized | txtsanitize/txtsanitize.go:55-64 | The result has at least two bytes and starts and ends with a quote |
| TxtSanitize.SanitizedQuoted | txtsanitize/txtsanitize.go:21-63 | On a quoted value, the result is the scanned content between quotes, rewrapped in `\"` exactly when the escape count is positive and even |
| TxtSanitize.SanitizedLength | txtsanitize/txtsanitize.go:17-63 | The result's length is the input's, minus 2 when quoted, plus the escapes, plus 2, plus 4 when rewrapped |
| TxtSanitize.SanitizedUnquoted | txtsanitize/txtsanitize.go:18-63 | An unquoted input is scanned whole and quoted without rewrap, and the result is a fixed point |
| TxtSanitize.SanitizedQuotedPlain | txtsanitize/txtsanitize.go:56-62 | A quoted input with no escapes or an odd number of them gives its scanned content between quotes, and the result is a fixed point |
| TxtSanitize.SanitizedQuotedRewrapped | txtsanitize/txtsanitize.go:56-59 | A quoted input with a positive, even number of escapes is rewrapped, and the result is a fixed point exactly when the content ends in an even run of backslashes |
| TxtSanitize.RewrapAllQuotesEscaped | txtsanitize/txtsanitize.go:56-59 | For a buffer whose quotes are all escaped, the rewrapped body `\"` + buffer + `\"` has all its quotes escaped exactly when the buffer ends in an even run of backslashes; on an odd run the closing `\"` reads as unescaped |
| TxtSanitize.RewrapOpen | txtsanitize/txtsanitize.go:57-59 | Inside the rewrap, the closing `\"` follows one backslash more than the buffer's final run |
| TxtSanitize.SanitizedIdempotentIff | txtsanitize/txtsanitize.go:8-15 | The result is a fixed point exactly when there is no rewrap or the buffer ends in an even backslash run |
| TxtSanitize.ResanitizeRewrappedOddRun | txtsanitize/txtsanitize.go:56-59 | When the rewrapped buffer ends in an odd run, a second pass escapes the closing quote once more (`\"` becomes `\\"`) |
| TxtSanitize.RewrapsGuarded | txtsanitize/txtsanitize.go:56 | The corrected rewrap condition: `Rewraps` and, in addition, the buffer ends in an even run (a definition, no ensures; `SanitizedGuardedIdempotent` and `SanitizedGuardedAgrees` state its effect) |
| TxtSanitize.SanitizedGuarded | txtsanitize/txtsanitize.go:55-64 | The corrected result has at least two bytes and starts and ends with a quote |
| TxtSanitize.SanitizedGuardedIdempotent | txtsanitize/txtsanitize.go:8-15 | The corrected sanitizer is idempotent on every input |
| TxtSanitize.SanitizedGuardedAgrees | txtsanitize/txtsanitize.go:56 | The corrected sanitizer agrees with the original exactly on the inputs where the original's result is a fixed point |
| TxtSanitize.ScanRound | txtsanitize/txtsanitize.go:28-46 | One round of the outer loop (chunk, count, optional backslash, quote) extends the scan by the chunk and its quote |
| TxtSanitize.ScanRest | txtsanitize/txtsanitize.go:29-31 | The last round, with no quote left, copies the rest and completes the scan |
| TxtSanitize.Enclose | txtsanitize/txtsanitize.go:55-63 | The output is the buffer between quotes, inside `\"…\"` exactly when asked to rewrap |
| TxtSanitize.Sanitize | txtsanitize/txtsanitize.go:16-65 | TXTSanitize step by step returns `Sanitized(input)` |
| TxtSanitize.SanitizeGuarded | txtsanitize/txtsanitize.go:16-65 | TXTSanitize with the corrected rewrap condition returns `SanitizedGuarded(input)` |
| TxtSanitizeTest.SanitizedQuotedTwoQuotes | txtsanitize/txtsanitize_test.go:31-35 | A quoted value with two bare quotes inside is rewrapped, and it is a fixed point exactly when its last piece ends in an even run |
| TxtSanitizeTest.EmbeddedQuotedVector | txtsanitize/txtsanitize_test.go:11-15 | `asdf " jkl "` gives `"asdf \" jkl \""`, a fixed point |
| TxtSanitizeTest.PreEscapedVector | txtsanitize/txtsanitize_test.go:16-20 | `"i know what i'm doing \" right there"` is returned unchanged, and it is a fixed point |
| TxtSanitizeTest.EscapedSlashVector | txtsanitize/txtsanitize_test.go:21-25 | `\\"` inside a quoted value becomes `\\\"`, and the result is a fixed point |
| TxtSanitizeTest.UnicodeVector | txtsanitize/txtsanitize_test.go:26-30 | The UTF-8 bytes of `รง` and the text `\195\167` come out unchanged, the quotes are escaped, and the result is rewrapped and a fixed point |
| TxtSanitizeTest.QuotedEndsVector | txtsanitize/txtsanitize_test.go:31-35 | `"foo" and other stuff "bar"` gives `"\"foo\" and other stuff \"bar\""`, a fixed point |
| TxtSanitizeTest.EmptyVector | txtsanitize/txtsanitize_test.go:36-40 | The empty string gives `""`, a fixed point |
| TxtSanitizeTest.EscapeceptionVector | txtsanitize/txtsanitize_test.go:41-45 | Runs of 1, 2, 3 and 4 backslashes before a quote give 1, 3, 3 and 5, and the result is a fixed point |
| TxtSanitizeTest.StartsQuotedVector | txtsanitize/txtsanitize_test.go:46-50 | `"this is quoted" but the rest isn't` gives `"\"this is quoted\" but the rest isn't"`, a fixed point |
| TxtSanitizeTest.EndsQuotedVector | txtsanitize/txtsanitize_test.go:51-55 | `only the "end is quoted"` gives `"only the \"end is quoted\""`, a fixed point |
| TxtSanitizeTest.RewrapBreaksIdempotence | txtsanitize/txtsanitize.go:56-59 | On `"a"b"c\"` the result is `"\"a\"b\"c\\""`, and sanitizing that gives `"\"a\"b\"c\\\""`, a different value |

## Left out

- `strings.Builder` and `bytes.IndexByte` are Go library calls. The model
  writes them as sequence concatenation and the function `IndexByte`.
  Allocation and the builder's growth are not modelled.
- Go strings are byte strings. The model works on bytes and leaves out UTF-8
  decoding, which the code never does. The table's Thai letters are written
  as their UTF-8 bytes.
- The scan's `break` on the last chunk is a `return` from `Scan`. Nothing
  follows the break inside the loop, so the two are the same step.
- The escapes of section 5.1 of RFC 1035 (`\DDD` and the like) are not
  interpreted. Neither is the code: it treats `\195` as plain text, and the
  model does the same.
- The code does not document why an odd number of escapes is not rewrapped.
  The model states what the code does and proves its consequences; it makes
  no claim about the intent.
- client_test.go and example/main.go are not part of this model.
  client_test.go is an integration test run against a live PowerDNS HTTP API,
  and example/main.go makes one remote call. Neither has sanitizer logic of its
  own.

## Findings

| source | as written | input that shows it | evidently intended | confidence | as-written member | corrected member |
|---|---|---|---|---|---|---|
| txtsanitize/txtsanitize.go:56 | The rewrap fires on a quoted input with an even, positive escape count, even when the buffer ends in an odd run of backslashes. The closing `\"` then reads as `\\"` on the next pass, which escapes it again, so the result is not a fixed point | `"a"b"c\"` gives `"\"a\"b\"c\\""`; sanitizing that gives `"\"a\"b\"c\\\""` | Sanitizing the result again gives the same result, as the doc comment promises | not executed | TxtSanitizeTest.RewrapBreaksIdempotence | TxtSanitize.SanitizeGuarded |

`SanitizedIdempotentIff` characterises the inputs on which the code keeps its
promise. `ResanitizeRewrappedOddRun` gives the second pass's value on the
others. `SanitizedGuarded` adds the missing condition to the rewrap, and
`SanitizedGuardedIdempotent` proves the promise for every input.
`SanitizedGuardedAgrees` shows that the corrected sanitizer differs from the
original only where the original breaks the promise. The result of every
table entry is a fixed point, so by `SanitizedGuardedAgrees` the two
sanitizers agree on all of them.
