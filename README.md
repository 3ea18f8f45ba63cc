# properties codec, modelled in Dafny

This project models the Go package `properties` (`properties.go`). The package reads and writes a line-oriented
`name = value` format to and from a `map[string]string`.

Decoding (`BytesToProperties`) works like this:
- It splits the input at line feeds and trims white space from every line.
- It drops the lines that are then empty.
- It splits each remaining line at every `=`. A line that yields exactly two parts stores its trimmed name and value, and a later line overwrites an earlier one with the same name.
- Every other line is an error. The decoder reports all of these errors together, and always returns the map it has built.

Encoding (`PropertiesToBytes`) works like this:
- It visits the entries in Go's unspecified map order and trims each key and value.
- It stops at the first one that holds a line feed or `=` (`hasReservedCharacters`).
- Otherwise it joins the `key = value` lines with line feeds.

Files:
- `strings.dfy` (module `Strings`) models the parts of Go's `strings` package the codec uses, over ASCII white space:
  - `Split` for a one-character separator, and `Join`;
  - `TrimSpace`, and `ContainsAny`.

  It also proves their laws: Join undoes Split, Split undoes Join on separator-free parts, what TrimSpace keeps, and that TrimSpace is idempotent.
- `properties.dfy` (module `Properties`) holds the codec.
  - Both operations are imperative methods that follow the source loop for loop.
  - `BytesToProperties` has its two loops.
  - `PropertiesToBytes` picks the next key with `:|`, which is Go's free choice of iteration order, and returns early on a reserved character.
  - Each method is proved against a specification function: `Decode` for decoding, and `Encode` together with an existential visiting order for encoding.
- `properties_laws.dfy` (module `PropertiesLaws`) proves the laws of the format:
  - the one-`=` acceptance rule;
  - an error exactly when some non-blank line is malformed, with one report per malformed line;
  - the partial map keeps every well-formed line, and the last line for a name wins;
  - decoded names and values are clean;
  - blank input decodes to the empty map;
  - the shape of the encoded text;
  - the encode/decode round trip.
- `properties_examples.dfy` (module `PropertiesExamples`) covers the two tests of `properties_test.go` and a few concrete inputs.
  - `DecodeTestInput` states the decoder test on its literal input `"foo = bar\nbaz=2\nname = continue"`. `DecodeExample` states it on the same characters written line by line.

## Model

| member | source | states |
|---|---|---|
| Properties.NewProperties | properties.go:19-21 | a new property map has no entries |
| Properties.HasReservedCharacters | properties.go:69-71 | true exactly when the string holds a line feed or `=` |
| Strings.ContainsAny | properties.go:70 | true exactly when some character of the string is one of the given characters |
| Strings.Split | properties.go:30 | splitting at a separator gives one more piece than there are separators, and no piece holds the separator |
| Strings.JoinSplit | properties.go:30 | joining the pieces of a split with the separator gives the original string back |
| Strings.Join | properties.go:103 | the parts with one separator between neighbours, a single part being its own join; SplitJoin and JoinOccurrences show that it writes exactly n-1 separators and that Split gives the parts back |
| Strings.SplitJoin | properties.go:103 | splitting a join of separator-free parts gives those parts back |
| Strings.JoinOccurrences | properties.go:103 | joining n separator-free parts puts exactly n-1 separators in the text |
| Strings.TrimSpace | properties.go:31 | `strings.TrimSpace` over ASCII white space, also used at properties.go:42-43 and properties.go:89-90; TrimSpaceSpec and TrimUnique pin its result down as the unique bare middle between the leading and the trailing white space |
| Strings.TrimSpaceSpec | properties.go:31 | TrimSpace keeps the infix between the leading and trailing white space, and that infix starts and ends with a non-space |
| Strings.TrimUnique | properties.go:31 | any split of a string into white space, a bare middle and white space has TrimSpace's result as its middle |
| Strings.TrimIgnoresPadding | properties.go:42-43 | surrounding white space does not change what TrimSpace returns |
| Strings.TrimmedIffBare | properties.go:31 | a string is its own trim exactly when it is empty or neither starts nor ends with white space |
| Strings.TrimIdempotent | properties.go:42-43 | trimming twice is trimming once |
| Strings.TrimKeepsOccurrences | properties.go:31 | trimming keeps the count of every non-space character, so a line's `=` count is unchanged |
| Strings.TrimBlank | properties.go:33 | a line trims to empty exactly when it is all white space |
| Properties.ParseLine | properties.go:39-41 | a line yields a property exactly when it holds exactly one `=` |
| Properties.ParsedPropertyIsClean | properties.go:39-44 | an accepted line's name and value are trimmed and hold no `=`, nor a line feed when the line has none |
| Properties.Entries | properties.go:38-44 | the map the second loop builds, each accepted line assigning its name; EntriesComplete, EntriesSound and LastWriteWins state what it holds |
| Properties.Malformed | properties.go:45-47 | the reported lines are exactly the input lines that are not accepted |
| Properties.Decode | properties.go:24-55 | the error is absent exactly when every non-blank trimmed line has one `=`, and an error always names at least one line |
| Properties.BytesToProperties | properties.go:24-55 | the two loops return the map of all accepted lines and the list of all rejected lines, the error being present exactly when that list is non-empty |
| Properties.ValidPropertiesFile | properties.go:110-118 | a file is valid exactly when it was read and every non-blank line of it holds exactly one `=` |
| Properties.FormatProperty | properties.go:100 | the `key = value` line written for one entry; FormattedLineParses shows it is never blank and reads back as the trimmed key and value |
| Properties.EncodedLines | properties.go:88-101 | one line per visited key, so as many lines as keys visited; EncodedLinesAt gives each line |
| Properties.Encode | properties.go:88-103 | the encoder's text for one visiting order: its lines joined with line feeds; EncodedShape and RoundTrip state its shape and that it decodes back |
| Properties.EntryEncodable | properties.go:89-98 | the trimmed key and the trimmed value of one entry both pass the reserved-character check |
| Properties.Encodable | properties.go:88-98 | every entry passes both checks; PropertiesToBytes succeeds exactly when this holds |
| Properties.Reports | properties.go:92-98 | the errors the loop can return: a trimmed key holding a reserved character, or the trimmed value of an entry whose key passed |
| Properties.PropertiesToBytes | properties.go:85-107 | encoding succeeds exactly when no trimmed key or value holds a reserved character; on success the text is the entries' lines in some order that visits every key once; on failure the error names an offending trimmed key, or the offending trimmed value of an entry whose key is fine |
| Properties.NonBlankLines | properties.go:30-36 | the first loop: every raw line trimmed and the empty ones dropped, never more lines than it was given; NonBlankLinesAppend and NonBlankLinesOne fix its output line by line, in input order and once per raw line |
| Properties.InputLines | properties.go:30-36 | the lines the second loop reads: the input split at line feeds, then filtered by the first loop; InputLinesSpec states they are non-empty, trimmed and free of line feeds |
| PropertiesLaws.NonBlankLinesSpec | properties.go:30-36 | as sets: every kept line is the non-empty trim of some raw line, and every raw line that does not trim to empty is kept trimmed |
| PropertiesLaws.NonBlankLinesAppend | properties.go:30-36 | the first loop processes its input line by line: what it keeps from `a + b` is what it keeps from `a` followed by what it keeps from `b`, so input order and multiplicity are preserved |
| PropertiesLaws.NonBlankLinesOne | properties.go:31-35 | one raw line contributes its trimmed form when that is non-empty, and nothing otherwise |
| PropertiesLaws.InputLinesSpec | properties.go:30-36 | every line the second loop reads is non-empty, trimmed and free of line feeds |
| PropertiesLaws.DecodeFailsIffMalformedLine | properties.go:38-54 | decoding fails exactly when some input line that is not all white space has zero or several `=` |
| PropertiesLaws.OneErrorPerMalformedLine | properties.go:45-47 | each malformed line is reported once per occurrence, and no accepted line is reported |
| PropertiesLaws.EntriesComplete | properties.go:38-44 | every accepted line's name is in the returned map, even when other lines are malformed |
| PropertiesLaws.EntriesSound | properties.go:38-44 | every entry of the returned map comes from an accepted line with that name and value |
| PropertiesLaws.LastWriteWins | properties.go:38-44 | when no later accepted line has the same name, the map holds that line's value |
| PropertiesLaws.DecodedIsClean | properties.go:30-44 | every decoded name and value is trimmed and holds neither `=` nor a line feed |
| PropertiesLaws.BlankInputDecodesEmpty | properties.go:30-54 | empty or all-white-space input decodes to an empty map with no error |
| PropertiesLaws.ParseTrimmedLine | properties.go:39-43 | a trimmed line `a=b` with one `=` reads as the trimmed `a` and the trimmed `b` |
| PropertiesLaws.FormattedLineParses | properties.go:100 | the `key = value` line the encoder writes is not blank and reads back as the trimmed key and value |
| PropertiesLaws.OrderingSize | properties.go:88 | a visiting order of the map's keys is as long as the map is large |
| PropertiesLaws.EncodedLinesAt | properties.go:88-101 | the i-th encoded line is the i-th visited entry, trimmed, as `key = value` |
| PropertiesLaws.EncodedShape | properties.go:100-106 | the empty map encodes to empty text; otherwise the text splits at line feeds into exactly the entry lines, with \|m\|-1 line feeds and none trailing |
| PropertiesLaws.DecodeEncodedLines | properties.go:38-48 | decoding the lines written for trimmed, reserved-free entries gives those entries back and reports nothing |
| PropertiesLaws.CanonicalIsEncodable | properties.go:92-98 | a map of trimmed, reserved-free keys and values passes the encoder's check |
| PropertiesLaws.RoundTrip | properties.go:85-107 | for trimmed, reserved-free keys and values, encoding succeeds and decoding its text, in whatever order it was written, gives the same map and no error |
| PropertiesExamples.DecodeThreeProperties | properties_test.go:9-35 | three lines `k1 = v1`, `k2=v2`, `k3 = v3` decode to those three properties, with or without spaces around `=` |
| PropertiesExamples.DecodeExample | properties_test.go:8-36 | `foo = bar`, `baz=2`, `name = continue` decode to exactly {foo: bar, baz: 2, name: continue} with no error |
| PropertiesExamples.DecodeTestInput | properties_test.go:8-36 | the test's literal input `"foo = bar\nbaz=2\nname = continue"` decodes to exactly {foo: bar, baz: 2, name: continue} with no error |
| PropertiesExamples.TwoEqualsRejected | properties.go:39-41 | a line holding `=` twice is not accepted |
| PropertiesExamples.DecodeTwoEquals | properties.go:38-54 | a lone line `a=b=c` decodes to an empty map and one error naming it |
| PropertiesExamples.StrictLineExample | properties.go:38-54 | `key=a=b` decodes to an empty map and one error naming that line |
| PropertiesExamples.PartialDecode | properties.go:38-54 | a malformed line between two good ones: both good entries are kept and only the bad line is reported |
| PropertiesExamples.PartialDecodeExample | properties.go:38-54 | `foo = bar`, `badline`, `baz = 2` gives {foo: bar, baz: 2} and an error naming `badline` |
| PropertiesExamples.ReservedKeyRejected | properties.go:92-94 | a one-entry map whose key holds a reserved character is refused, and the only reportable error names that key |
| PropertiesExamples.ReservedValueRejected | properties.go:96-98 | a one-entry map with a clean key and a value holding a reserved character is refused, and the only reportable error names that value |
| PropertiesExamples.RejectionExamples | properties.go:92-98 | a key `k`, line feed, `e1`, and a value `v=1` are each refused |
| PropertiesExamples.EncodeThenDecode | properties_test.go:38-70 | PropertiesToBytes then BytesToProperties on trimmed, reserved-free entries gives the map back with no error |
| PropertiesExamples.EncodeThenDecodeExample | properties_test.go:38-70 | {foo: bar, baz: boo, a: 1} survives encoding and decoding unchanged |

## Left out

- `PropertiesFromFile` and `PropertiesToFile` (properties.go:58-66, properties.go:74-82) only read or write a file through the `pathlib` package. The package is not part of this model.
- `ValidPropertiesFile` receives the outcome of the read as a parameter: `None` for a failed read, otherwise the contents.
- The error text is left out: the "Invalid property: " prefix of each decode error, their joining with "; ", and the messages of the two encode errors.
  - A decode error is the list of offending trimmed lines.
  - An encode error is `InvalidKey` or `InvalidValue` holding the trimmed text.
- `Strings.TrimSpace` trims ASCII white space only: space, tab, line feed, vertical tab, form feed and carriage return. Go also trims U+0085, U+00A0 and the other Unicode spaces.
- The conversions between byte slices and strings (properties.go:25, properties.go:104-106) are identities here. Both are sequences of characters.
- PropertiesToBytes: the order is not modelled. The order in which the lines appear, and which offending entry is reported when there are several, follow Go's randomised map iteration. The contract therefore states them for some order that visits every key once, not for a particular order.
- The `PropertiesExtension` constant (properties.go:13) is not used by the codec.
