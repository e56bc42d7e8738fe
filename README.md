# URL conformance-fixture reader

This project models the reader at the top of Node's URL conformance test,
`test/simple/test-url-w3c.js`. The test gets the text of a fixture file. Each line of the
fixture holds a URL under test, then space-separated `key:value` annotations that describe
what `url.parse` should return for it. The reader turns every accepted line into a pair: the
URL string and an *expected record*. Then a loop counts how many of those records match the
parser's output.

The model has four modules:

- `Wrappers`: `Option`, standing for a JavaScript string-or-`null`.
- `JsStrings`: the two string built-ins the reader uses, `split` with one separator
  character and `indexOf` with one character. `Join` is the inverse of `split`, and the
  round-trip lemmas tie the two together.
- `UrlFixture`: the expected record (`Expected`), the cases of the key `switch` (`Key`),
  and the specification functions. `ParseAnnotation` splits an annotation at its first
  colon. `Write` is one case of the key `switch`. `JsText` is JavaScript's string form of a
  string-or-`null`. `ApplyAnnotation` and `ApplyAll` fold annotations into the record. `FinishHost`
  derives `host`. `LineEntry` gives what one line yields and `Entries` what a list of lines
  yields. The source's loops are the methods `ParseLine` (the per-line callback, looping over
  the annotations), `ParseFixture` (the line loop, which pushes onto a growing sequence) and
  `Tally` (the pass/fail count). Each method is proved equal to its specification function.
- `UrlFixtureLemmas`: the properties of that reader.

The record is reassigned field by field with datatype updates, just as the callback
assigns to the fields of its fresh `expected` object. The object never escapes before it is
pushed, so no aliasing is lost.

## Model

| member | source | states |
|---|---|---|
| JsStrings.Split | test/simple/test-url-w3c.js:36 | `split` always yields at least one piece, even for the empty string |
| JsStrings.SplitPieces | test/simple/test-url-w3c.js:36 | no piece of a split contains the separator |
| JsStrings.SplitWhole | test/simple/test-url-w3c.js:36-37 | a split has exactly one piece iff the separator does not occur, and that piece is the whole string; so "fewer than two tokens" means "no space in the line" |
| JsStrings.SplitHead | test/simple/test-url-w3c.js:39 | the first piece is a prefix of the string, holds no separator, and is followed by a separator whenever one occurs |
| JsStrings.JoinSplit | test/simple/test-url-w3c.js:36 | joining the pieces of a split with the separator gives back the original string: splitting loses no text |
| JsStrings.SplitJoin | test/simple/test-url-w3c.js:36 | splitting a join of separator-free pieces gives back the pieces (the other direction of the round trip) |
| JsStrings.SplitConcat | test/simple/test-url-w3c.js:34 | splitting `a + sep + b` gives the pieces of `a` followed by the pieces of `b` |
| JsStrings.IndexOf | test/simple/test-url-w3c.js:61 | `indexOf` returns -1 or a valid index of the string |
| JsStrings.IndexOfFirst | test/simple/test-url-w3c.js:61 | `indexOf` is -1 iff the character is absent; otherwise it is at that index and at no earlier one |
| JsStrings.IndexOfAfter | test/simple/test-url-w3c.js:61 | in `k + c + v` with no `c` in `k`, the first `c` is found right after `k` |
| UrlFixture.ParseAnnotation | test/simple/test-url-w3c.js:59-65 | an annotation is split at a colon into a non-empty, colon-free key and a value that together with the colon make up the whole segment |
| UrlFixture.Write | test/simple/test-url-w3c.js:67-76 | one `switch` case never touches `slashes`, `host`, `hash`, `search`, `path`, `href`; `u` and `pass` leave `auth` non-null and the other cases leave it as it was; `default` changes nothing |
| UrlFixture.KeyNames | test/simple/test-url-w3c.js:67-76 | each of the eight case labels selects its own case, and only those eight names select any case |
| UrlFixture.ParseAnnotationSpec | test/simple/test-url-w3c.js:59-65 | a segment is ignored iff it is empty, starts with `#`, has no colon or starts with a colon; otherwise it is key + `:` + value with a non-empty key free of colons (the value may hold colons) |
| UrlFixture.ApplyAnnotation | test/simple/test-url-w3c.js:58-77 | one annotation never changes `slashes`, `host`, `hash`, `search`, `path` or `href`; an ignored segment or an unknown key leaves the record unchanged |
| UrlFixture.ApplyAll | test/simple/test-url-w3c.js:57-78 | applying a line's annotations preserves those six fields |
| UrlFixture.FinishHost | test/simple/test-url-w3c.js:79-82 | only `host` changes, and afterwards `host` is `hostname` when there is no port, else the hostname's string form (`"null"` when absent), `:` and the port |
| UrlFixture.LineEntry | test/simple/test-url-w3c.js:35-84 | a line yields nothing iff it is empty, starts with `#` or has no space; otherwise its URL is a space-free prefix of the line followed by a space, and its record keeps the initial `slashes`/`hash`/`search`/`path`/`href` and has a consistent `host` |
| UrlFixture.Entries | test/simple/test-url-w3c.js:34-85 | at most one entry per line, and every entry's record keeps those initial fields and has a consistent `host` |
| UrlFixture.ParseLine | test/simple/test-url-w3c.js:35-84 | the per-line callback (skip checks, `shift`, the annotation loop with its `switch`, the host derivation) yields exactly `LineEntry` of the line |
| UrlFixture.ParseFixture | test/simple/test-url-w3c.js:32-85 | splitting the text on newlines and pushing each accepted line's entry yields exactly `Entries` of the lines |
| UrlFixture.PassCount | test/simple/test-url-w3c.js:87-107 | the number of matching entries never exceeds the number of entries |
| UrlFixture.Tally | test/simple/test-url-w3c.js:87-107 | `passes` counts the entries the comparison accepts, and `passes + failures` is the number of entries |
| UrlFixtureLemmas.EntriesConcat | test/simple/test-url-w3c.js:34-85 | reading two runs of lines in sequence gives the entries of the first, then those of the second |
| UrlFixtureLemmas.SkippedLine | test/simple/test-url-w3c.js:35-37 | an empty line, a `#` line or a line without a space contributes nothing, wherever it stands |
| UrlFixtureLemmas.AcceptedLine | test/simple/test-url-w3c.js:39-84 | any other line contributes exactly one entry in its own place, whose URL is the line's first space-separated token |
| UrlFixtureLemmas.FixtureConcat | test/simple/test-url-w3c.js:34 | two fixture texts joined by a newline give the entries of the first, then those of the second |
| UrlFixtureLemmas.AnnotationRoundTrip | test/simple/test-url-w3c.js:61-65 | parsing `key:value` (key non-empty, not starting with `#`, free of colons) gives back the key and the whole value, colons included |
| UrlFixtureLemmas.ApplyAllConcat | test/simple/test-url-w3c.js:57-78 | the annotation loop over `a + b` equals the loop over `a`, continued over `b` |
| UrlFixtureLemmas.IgnoredSegment | test/simple/test-url-w3c.js:59-62 | an ignored segment (empty, `#`-prefixed, no colon, leading colon, unknown key) can be removed without effect: later annotations on the line still apply |
| UrlFixtureLemmas.FieldWrite | test/simple/test-url-w3c.js:67-76 | the `s`, `h`, `port`, `p`, `q`, `f` cases each set their own field (`s` with a `:` appended) and no other of those fields; `u`, `pass` and `default` set none of them |
| UrlFixtureLemmas.FieldStep | test/simple/test-url-w3c.js:67-76 | one annotation with an overwriting key (`s`, `h`, `port`, `p`, `q`, `f`) sets that key's field and no other such field |
| UrlFixtureLemmas.FieldUntouched | test/simple/test-url-w3c.js:57-78 | annotations without a given overwriting key leave its field as it was |
| UrlFixtureLemmas.LastWriteWins | test/simple/test-url-w3c.js:67-76 | for `s`, `h`, `port`, `p`, `q`, `f` the last occurrence on the line decides the field; `s` stores value + `:` and `f` writes `fragment`, not `hash` |
| UrlFixtureLemmas.FieldWritten | test/simple/test-url-w3c.js:67-76 | once an overwriting key has occurred, its field is non-null for the rest of the line |
| UrlFixtureLemmas.AuthStep | test/simple/test-url-w3c.js:69-70 | a `u` annotation puts its value before `auth` (null read as empty), a `pass` annotation appends `:` and its value, and any other segment leaves `auth` alone |
| UrlFixtureLemmas.AuthComposition | test/simple/test-url-w3c.js:69-70 | `auth` becomes the `u` values (last first), then its previous value, then `:` + each `pass` value in order; it stays null iff it was null and neither key occurs |
| UrlFixtureLemmas.AuthSwap | test/simple/test-url-w3c.js:69-70 | `u:a pass:b` and `pass:b u:a` give the same record from any starting record |
| UrlFixtureLemmas.AuthOrderInsensitive | test/simple/test-url-w3c.js:69-70 | swapping an adjacent `u` and `pass` annotation anywhere in a line changes nothing |
| UrlFixtureLemmas.AuthExamples | test/simple/test-url-w3c.js:41-54 | from the initial record, `u:a pass:b` and `pass:b u:a` both give `auth == "a:b"`, and a lone `pass:b` gives `":b"` |
| UrlFixtureLemmas.SplitTwo | test/simple/test-url-w3c.js:36 | a space-free URL, a space and a space-free token split into exactly those two tokens |
| UrlFixtureLemmas.BareLine | test/simple/test-url-w3c.js:41-54 | a URL followed by a single space yields that URL with the initial record: every field null except `slashes`, which is true, and no `fragment` |
| UrlFixtureLemmas.PortWithoutHostname | test/simple/test-url-w3c.js:79-82 | a line whose only annotation is `port:<p>` yields the initial record with that port and `host` equal to the text `"null:<p>"`, since `null + ':'` converts the missing hostname to `"null"` |
| UrlFixtureLemmas.HostOfLine | test/simple/test-url-w3c.js:79-82 | an entry has a port iff its line has a `port` annotation; without one `host == hostname` (null included), with one `host` is hostname, `:`, port |

## Left out

- Reading the fixture file (lines 27-30) is I/O. `ParseFixture` takes the file contents as a string.
- `url.parse` and the `_deepEqual`/`objEquiv` comparison (lines 92-99 and 112-203) are left out. One is foreign code; the other relies on JavaScript reflection (Buffer, Date, RegExp and arguments tests, prototypes, loose `==`, `Object.keys` in `try`), and its `pSlice` is not defined in that file. `Tally` takes their combined verdict as a parameter `matches`.
- The `console.log` output of the pass/fail loop (lines 101, 104, 109) is left out.
- Strings are sequences of Dafny characters, not UTF-16 code units. Like the source, the model splits on `'\n'` only, so a carriage return stays at the end of the line's last token.
- `fragment`: the source's initial record has no `fragment` key at all. The model writes `None` for "absent", which is not distinguished from a `null` value.
- A `port` annotation without an `h` annotation is modelled as the source computes it: JavaScript's `null + ':' + port` makes `host` the text `"null:<port>"` (`JsText`, `PortWithoutHostname`).
- `f` adds a `fragment` key that the initial object (lines 41-54) does not have, and no annotation writes `hash`; the model follows the code (`LastWriteWins`, `LineEntry`).
