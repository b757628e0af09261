# reflectsvc in Dafny

reflectsvc is a small Go HTTP service. Besides a few string endpoints (reflect, reverse,
uppercase, count), it has an `xml2json` endpoint. That endpoint turns an Xtracta XML field
list into JSON, forwards it to a configured destination with a filtered set of headers,
and answers the caller with a short success or error body. This project models the
deterministic logic behind those features and proves what it promises:

- `text.dfy` (module `Text`): string helpers the other modules share. These are ASCII case
  mapping, the white-space set of `strings.TrimSpace`, the UTF-8 byte length behind Go's
  `len`, `%d`/`%02d`, joining with a separator, and rune reversal.
- `wrappers.dfy`: the `Option` type. A nil pointer or a nil `error` is `None`.
- `misc.dfy` (module `Misc`): `IsStringSet`, `SafeString`, `Ternary` and `ConcatenateErrors`.
- `reflectsvc.dfy`, `string_service.dfy`, `simple_service.dfy`: the `ErrEmpty` error and the
  string services `Reflect`, `Reverse`, `Uppercase` and `Count`.
- `validate_multipart.dfy`: the debug renderers `duple.String`, `outOfBandData.String` and
  `validateRequest.String`.
- `fieldnames.dfy`: the field-translation loader `loadFieldTranslations`. It covers the
  header row, the type and omit-empty tokens, and the fatal duplicate name.
- `xml2json.dfy`: `xmloutput2jsonoutput`, the verbatim `{"name":"value",...}` builder.
  The adaptive buffer size `bufMemAlloc` is a field of the class `Xml2JsonState`.
- `xml2json_ep.dfy`: the outbound header map of `x2jProxy`, the reply chosen by
  `x2jEncodeResponse`, and `debugMapStringArrayString`.
- `config.dfy`: the `[key][val]` scanner `parseTokens`, the loader `loadRemapMap`, and the
  start-up checks of `initFlags`.

Loops in the source are methods with loop invariants here. Each method is proved equal to a
specification function, and the properties are lemmas about that function. A Go `string` is
the sequence of its runes, so every modelled string is valid UTF-8.

Behaviour of the code worth knowing, all of it modelled as written:

- `xmloutput2jsonoutput` copies each field's name and value verbatim, with no escaping, so
  the output need not be valid JSON.
- `x2jEncodeResponse` answers `{"success":true}` with the downstream code whenever the
  downstream body is non-empty, whatever that code is.
- `loadFieldTranslations` returns an empty table when the file cannot be opened. Only its
  duplicate-name check is fatal.
- The `--fieldNames` help text offers `[[` and `]]` as escapes for brackets, but
  `parseTokens` does not implement them: a `]` always ends a token.
- `parseTokens` on a line whose value is opened but never closed (`[k][v`) reads the rune one
  past the end of the line, which is a Go index panic. The model shows this as the outcome
  `IndexPanic`. It reaches `loadRemapMap` as `Panicked` and `initFlags` as `LoaderPanic`.

## Model

| member | source | states |
|---|---|---|
| Misc.SafeString | misc/misc.go:22-27 | never returns nil; a set string comes back unchanged, anything else becomes the empty string |
| Misc.IsStringSet | misc/misc.go:54-59 | true exactly for a non-nil pointer to a non-empty string |
| Misc.SafeStringKeepsSetness | misc/misc.go:22-27 | the result is set exactly when the argument is; applying it twice changes nothing |
| Misc.Ternary | misc/misc.go:63-68 | the true value when the key holds, the false value otherwise |
| Misc.ConcatenateErrors | misc/misc.go:89-106 | the builder loop with counter `ix` produces exactly `ConcatenatedErrors` of its argument list |
| Misc.ConcatenatedErrorsNilIff | misc/misc.go:90-105 | the result is nil exactly when the list is nil or every error in it is nil |
| Misc.MessagesEmptyIffAllNil | misc/misc.go:95-98 | no message is collected exactly when every error is nil |
| Misc.NumberedEmptyIff | misc/misc.go:99-102 | the text is empty exactly when there is nothing to number |
| Misc.ConcatenatedErrorsNumbering | misc/misc.go:94-101 | a non-nil error is numbered one more than the non-nil errors before it, so nils use no number; its entry is newline, the number in `%02d` form (at least two digits, zero-padded below 10), `.`, tab, message, in argument order |
| Misc.NumberedAppend | misc/misc.go:94-101 | numbering a concatenation numbers the second part on from where the first part stopped |
| Misc.ErrorEntry | misc/misc.go:99 | each entry starts with a newline |
| Text.Pad2 | misc/misc.go:99 | `%02d`: digits only, at least two of them, reading back as the number itself, and exactly the two digits of a number below 100 |
| StringService.Reflect | StringService.go:24-27 | returns the request unchanged, with no error |
| StringService.Reverse | StringService.go:48-58 | empty input gives `""` and `ErrEmpty`; otherwise no error and the runes in reverse order, so rune k of the result is rune n-1-k of the input |
| Text.ReversedInvolutive | StringService.go:53-55 | reversing twice gives the original runes back |
| Text.ReversedUtf8Length | StringService.go:53-55 | reversal keeps the byte length |
| Text.ReversedAt | StringService.go:53-55 | reversal keeps the rune count and mirrors every index |
| StringService.Uppercase | StringService.go:60-66 | the error is `ErrEmpty` exactly for empty input; otherwise the result is `Text.Upper` of the input: same length, every ASCII lower-case letter replaced by its capital, every other rune unchanged |
| StringService.UppercaseIdempotent | StringService.go:60-66 | upper-casing an upper-cased result changes nothing |
| Text.Upper | StringService.go:65 | `strings.ToUpper` on ASCII: same length, every rune through the ASCII upper-case map |
| StringService.Count | StringService.go:68-71 | the UTF-8 byte length: between the rune count and four times it, and equal to the rune count exactly for ASCII text |
| Text.Utf8LengthAppend | StringService.go:68-71 | the byte length of a concatenation is the sum of the byte lengths |
| Text.Utf8Length | StringService.go:70 | `len` of a string: at least one and at most four bytes per rune |
| SimpleService.Reflect | SimpleService.go:28-30 | returns the JSON text unchanged, with no error |
| SimpleService.Reverse | SimpleService.go:58-68 | empty input gives `""` and `ErrEmpty`; otherwise no error and the runes in reverse order |
| ValidateMultipartJson.DupleString | ValidateMultipartJson.go:37-39 | `[`, the key, `][`, the value, `]`, at the stated positions |
| ValidateMultipartJson.OutOfBandString | ValidateMultipartJson.go:14-30 | the builder loop produces exactly `OutOfBandText` of the value |
| ValidateMultipartJson.OutOfBandTextShape | ValidateMultipartJson.go:16-28 | the text begins `oob data: source [ `, the source and ` ] data [ `, and ends with ` ]\n` |
| ValidateMultipartJson.QuotedAppend | ValidateMultipartJson.go:21-27 | the quoted data items keep their order with nothing between them |
| ValidateMultipartJson.QuotedLength | ValidateMultipartJson.go:21-27 | each data item adds its own length plus two quotes |
| ValidateMultipartJson.ValidateRequestString | ValidateMultipartJson.go:66-78 | the builder produces exactly the header line, then every out-of-band block, then every image block |
| ValidateMultipartJson.OutOfBandBeforeImages | ValidateMultipartJson.go:68-74 | every out-of-band item's tab-and-newline block appears in order, after the header line and before all image blocks |
| FieldNames.RemapFieldString | fieldnames.go:31-34 | the JSON name, three spaces, the XML name, three spaces, the decimal number of the type (read back as its ordinal), three spaces, then `true` or `false` as the omit-empty flag says |
| FieldNames.FieldTypeOfNames | fieldnames.go:73-83 | every accepted name of a type (`numeric` or `number`, `decimal` or `integer`, `boolean` or `bool`, `string`, `date`), in any letter case, gives that type, and so does its upper-case form |
| FieldNames.FieldTypeOf | fieldnames.go:73-88 | a token whose lower-case form is a name of some type gives that type; a type other than string is only given for one of its own names |
| FieldNames.FieldTypeOfUnknown | fieldnames.go:84-88 | any other token gives the string type |
| FieldNames.OmitEmptyOfCases | fieldnames.go:89-98 | omit-empty holds exactly when the fourth column lower-cases to `true` |
| FieldNames.OmitEmptyOf | fieldnames.go:89-98 | omit-empty holds exactly for the four runes t, r, u, e, each in either letter case |
| Text.Lower | fieldnames.go:67-89 | `strings.ToLower` on ASCII: same length, every rune through the ASCII lower-case map |
| FieldNames.LoadFieldTranslations | fieldnames.go:45-119 | the read loop produces exactly `FieldTranslations` of the file name, the open result and the read stream |
| FieldNames.UnsetNameGivesEmptyTable | fieldnames.go:45-49 | an empty file name gives the empty table whatever the file holds |
| FieldNames.RecordsBeforeStopShape | fieldnames.go:65 | the loop sees the records before the first read error or end of input, in order |
| FieldNames.StopEndsInput | fieldnames.go:65 | nothing after the first stop is read |
| FieldNames.HeaderRowIgnored | fieldnames.go:66-69 | a record whose first column lower-cases to `xmlname` adds nothing, wherever it appears |
| FieldNames.LoadedTableContents | fieldnames.go:70-101 | a loaded table holds exactly the XML names of the rule records, each with the JSON name, type and omit-empty of its record |
| FieldNames.FoldKeysAreXmlNames | fieldnames.go:99-101 | each entry is stored under its own XML name |
| FieldNames.LoadedIffNoDuplicate | fieldnames.go:99-105 | loading succeeds exactly when no two rule records share an XML name |
| FieldNames.FatalHasDuplicate | fieldnames.go:99-105 | a fatal stop names an XML name that two rule records share |
| FieldNames.FatalIsFinal | fieldnames.go:102-105 | once loading is fatal, later records change nothing |
| Xml2Json.Xml2JsonState.XmlOutputToJsonOutput | xml2json.go:62-79 | the buffer is `{`, the `"name":"value"` entries joined by `,`, then `}`; `bufMemAlloc` becomes 1024 times one plus the byte length modulo 1024 |
| Xml2Json.Xml2JsonState.constructor | xml2json.go:9 | the buffer size starts at 2048, a valid allocation |
| Xml2Json.NextBufMemAlloc | xml2json.go:77 | the next allocation is a multiple of 1024 between 1024 and 1048576 |
| Xml2Json.EmptyFieldList | xml2json.go:65-76 | an empty field list gives exactly `{}` |
| Xml2Json.FieldListJsonBounds | xml2json.go:65-76 | the output starts with `{` and ends with `}`, and with a quote just inside when there are fields, so no comma leads or trails |
| Xml2Json.FieldListJsonAppend | xml2json.go:66-75 | entries appear in input order with exactly one comma between neighbours |
| Xml2Json.NamesAndValuesOnly | xml2json.go:66-74 | lists that agree on names and values give the same output, whatever their other columns hold |
| Xml2Json.Entries | xml2json.go:70-74 | entry i is field i's name and value, quoted, with no escaping |
| Xml2JsonEP.ProxyRequestHeaders | xml2jsonEP.go:123-134 | the two `Set` calls and the two loops build exactly `OutboundHeaders` of the inbound headers |
| Xml2JsonEP.ForwardedEntries | xml2jsonEP.go:129-134 | the copy loop adds exactly the listed names the inbound map has, with their value lists, and leaves every other entry alone |
| Xml2JsonEP.OutboundHeadersPolicy | xml2jsonEP.go:123-134 | JSON `Content-Type` and `Accept` and both standard headers are always present; an allow-listed header is present, verbatim, exactly when sent; no other header, such as `Cookie`, gets through |
| Xml2JsonEP.EncodeResponseOutcome | xml2jsonEP.go:163-187 | the caller gets `{"success":true}` with the downstream code exactly when the value is a proxy response with a non-empty body; otherwise 500 and `{"error":"` status `"}` |
| Xml2JsonEP.EncodeResponse | xml2jsonEP.go:163-187 | the code written is 500 or, for a proxy response with a non-empty body, the downstream code; the body is the success body or the error body with the status text |
| Xml2JsonEP.EncodeResponseIgnoresBodyAndCode | xml2jsonEP.go:178-186 | the downstream body is never echoed, and the code does not influence the body |
| Xml2JsonEP.DebugMapStringArrayString | xml2jsonEP.go:206-229 | the builder with its `first` flag produces exactly `DebugHeaderText` for the given key order |
| Xml2JsonEP.DebugHeaderTextShape | xml2jsonEP.go:209-227 | an empty map renders as `\n no headers \n`; otherwise each key has its own line, in iteration order |
| Xml2JsonEP.HeaderLinesSplit | xml2jsonEP.go:213-227 | the rendering of any key sits between the lines of the keys before and after it |
| Xml2JsonEP.ValueListIsJoin | xml2jsonEP.go:216-225 | the values are joined by a space, a vertical bar and a space, after one leading space |
| Config.ParseTokens | config.go:268-300 | the index scan produces exactly `ParseLine` of the line, including the panic outcome |
| Config.ParseLineLeadingRune | config.go:273-285 | an empty or `#` line gives two empty tokens and no error; any other first rune except `[` is the bad-format error |
| Config.ParsedShape | config.go:287-299 | a pair is only read from a line that is exactly `[`, key, `][`, value, `]`, with no `]` in either token |
| Config.ParseRoundTrip | config.go:287-299 | any two tokens without `]` read back from their bracketed rendering |
| Config.TrailingRunesRejected | config.go:296-298 | runes after the value's closing bracket give the bad-format error |
| Config.MissingSeparatorRejected | config.go:290-292 | an unclosed key, or a closing bracket not followed by `[` and one more rune, gives the bad-format error |
| Config.UnterminatedValuePanics | config.go:293-296 | an opened, non-empty, unclosed value panics; an empty unclosed value is still the bad-format error |
| Config.PanicShape | config.go:293-296 | only such a line panics |
| Config.LoadRemapMap | config.go:241-266 | the scan loop produces exactly `RemapTable` of the open result and the lines |
| Config.RemapPanicsIff | config.go:251-264 | loading panics exactly when one of the lines does, and the lines alone never make it fatal |
| Config.AccumulateSnoc | config.go:254-263 | one more line outcome: a panic ends the load, a pair of non-empty tokens is written under its key, anything else leaves the table as it was |
| Config.PanickedIsFinal | config.go:256 | lines after a panicking line are never read |
| Config.RemapEntriesNonEmpty | config.go:261-263 | no key and no value of the table is empty |
| Config.RemapEntriesFromLines | config.go:252-263 | every entry comes from some trimmed line holding that very pair |
| Config.RemapLastWins | config.go:261-263 | the last line holding a key decides its value |
| Config.DuplicateKeyOverwrites | config.go:261-263 | of two lines holding pairs for one key, the second value is kept: a later pair silently replaces an earlier one |
| Config.LineEntryOfPair | config.go:252-263 | a bracketed pair of non-empty tokens contributes exactly that pair |
| Config.AtoiOfDecimal | config.go:223 | every decimal rendering of a 64-bit value parses as that value, also with `+`, and negated with `-` |
| Config.AtoiOfDigits | config.go:223 | any digit run in the 64-bit range parses as the number it denotes, leading zeros included, also after `+` or negated after `-`; an unsigned or `+` run above the range does not parse |
| Config.AtoiRejects | config.go:223-228 | empty text, a bare sign, or a non-digit rune does not parse as a port |
| Config.Atoi | config.go:223 | a parsed port lies in the 64-bit range, comes from non-empty text, and is negative only after a leading `-` |
| Config.InitFlagsFatalChecks | config.go:163-228 | start-up stops for mismatched header counts, then for `--insecure` without `--debug`, then for a port that is not an integer, each exactly when its condition is the first to fail |
| Config.InitFlags | config.go:144-237 | the help exit only with `--help`; a start only without it, with a port that parses and the `localhost` shorthand resolved; an unopenable remap file only when one is named; a loader panic only when a named file has a panicking line |
| Config.StartedFlags | config.go:144-237 | a start-up that goes on passed every check, has `localhost` rewritten to `https://localhost:` port `/reflect`, keeps every other flag, and has the remap table of the named file, or none |
| Config.DefaultStartup | config.go:62-152 | with default flags the service starts aimed at `https://localhost:9090/reflect` with an empty remap table |
| Text.DigitsValueOfDecimal | config.go:223 | reading the decimal rendering of n back gives n |
| Text.Decimal | fieldnames.go:32-33 | `%d`/`%v` of a non-negative integer: at least one rune, all of them decimal digits |
| Text.TrimSpaceOfTrimmed | config.go:252 | trimming text with no outer white space changes nothing, so trimming is idempotent |
| Text.TrimSpace | config.go:252 | the result has no white space at either end and is no longer than the input |
| Text.TrimSpaceSlice | config.go:252 | the result is a slice of the input with only white space cut from either end |

## Left out

- Network I/O in `x2jProxy` is not modelled: the TLS transport choice, the one-minute timeout, building the request and `httpClient.Do`.
- `Header.Set` canonicalises keys (`DNT` becomes `Dnt`). The model keeps every key literally.
- Xml2JsonEP.ProxyRequestHeaders: Go iterates `standardRequestHeaders` in random order. The model picks the keys in an arbitrary order, with the same result.
- Xml2JsonEP.DebugMapStringArrayString: Go's map order is random, so the key order is a parameter that lists every key once.
- `logHeaders`, the `x2jProxyData` and `xml2JsonRequest` renderers, and every log message are logging only.
- The debug artefact files and their counters and mutex are file I/O, clocks, randomness and concurrency.
- Not modelled: the failures of `w.Write`, `w.WriteHeader` and `os.OpenFile` in `x2jEncodeResponse`.
- `XtractaEvents.Json` and `svc.Xml2Json` are not part of this model. They are called in `xml2jsonEP.go` and `SimpleService.go` but not defined in the modelled files.
- `imageData.String` is not modelled. It depends on how `fmt` renders missing operands. `ValidateRequestString` takes the image rendering as a parameter.
- FieldNames.LoadFieldTranslations: the `encoding/csv` split is a library step. The input is the stream of records it yields, ending at the first error or end of input.
- FieldNames.LoadFieldTranslations: records need at least four columns, as a precondition. The source indexes columns 1 to 3 without a check. A record with fewer columns makes the source panic on the index; that case is excluded, not modelled. The precondition also covers records after a duplicate, which the fatal exit never reaches. This adds no restriction of its own: `encoding/csv` with `FieldsPerRecord` left at 0 turns a record whose column count differs from the first record's into a read error, which is a stop here, so every record the loop sees has the same column count.
- FieldNames.LoadFieldTranslations: opening the file is a boolean parameter.
- Config.LoadRemapMap: opening the file is a boolean parameter. `bufio.Scanner` is given as the lines it yields, and a scanner error ends the input.
- Config.InitFlags: parsing the command line with `pflag` is left out, so the model starts from the parsed flag record. Flag-name lower-casing is part of that parsing.
- Config.InitFlags: `nFlags.Set("destination", …)` on a string flag cannot fail, so its error branch is not modelled.
- Config.InitFlags: left out are the usage, build information, user and host lookups, verbose header listing, and `--quiet` log redirection. They only write output.
- Config.InitFlags: the help exit is the outcome `HelpExit`. The usage text it prints is left out.
- `DeferError`, `UserHostInfo`, `WinSep` and `UsageMessage` depend on the runtime, the OS or an embedded resource.
- `strings.ToLower` and `strings.ToUpper` are modelled on ASCII letters only. Other letters are kept unchanged.
- StringService.Count: the byte length is computed from the runes, which matches Go's `len` for valid UTF-8. A Go string holding invalid UTF-8 cannot be expressed.
- Config.Atoi: models `strconv.Atoi` on a 64-bit platform. The `int` width is fixed at 64 bits.
