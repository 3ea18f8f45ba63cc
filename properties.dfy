/** The properties codec of properties.go: decoding the line-oriented
    `name = value` format into a string-to-string map, and encoding such a map
    back into lines. Decoding is tolerant (every malformed line is reported,
    every good line is kept); encoding is strict (the first key or value
    holding a reserved character aborts it). */
module Properties {
  import opened Strings

  datatype Option<T> = None | Some(value: T)

  datatype Result<T, E> = Success(value: T) | Failure(error: E)

  /** Go's `Properties`, a `map[string]string`. */
  type PropertyMap = map<string, string>

  /** A line the decoder accepts, with its trimmed name and value. */
  datatype Property = Property(name: string, value: string)

  /** The decoder's joined error: the trimmed lines it could not read, in input order. */
  datatype DecodeError = InvalidProperties(lines: seq<string>)

  /** What BytesToProperties returns: the map, which is partial when the error is present. */
  datatype Decoded = Decoded(properties: PropertyMap, err: Option<DecodeError>)

  /** The encoder's error: the trimmed key or value found to hold a reserved character. */
  datatype EncodeError = InvalidKey(key: string) | InvalidValue(value: string)

  /** `NewProperties`: a map with no entries. */
  function NewProperties(): (p: PropertyMap)
    ensures p.Keys == {}
  {
    map[]
  }

  /** The characters the format uses as delimiters: line feed and `=`. */
  const Reserved: string := "\n="

  /** `hasReservedCharacters`. */
  function HasReservedCharacters(s: string): (b: bool)
    ensures b <==> '\n' in s || '=' in s
  {
    ContainsAny(s, Reserved)
  }

  // ---------------------------------------------------------------------------
  // Decoding

  /** The first loop of BytesToProperties: every line trimmed, the blank ones dropped. */
  function NonBlankLines(raw: seq<string>): (lines: seq<string>)
    ensures |lines| <= |raw|
  {
    if raw == [] then []
    else
      var line := TrimSpace(raw[|raw| - 1]);
      NonBlankLines(raw[..|raw| - 1]) + (if |line| > 0 then [line] else [])
  }

  /** The lines the second loop of BytesToProperties reads. */
  function InputLines(input: string): seq<string> {
    NonBlankLines(Split(input, '\n'))
  }

  /** The body of the second loop: a line that splits at `=` into exactly two
      parts is a property with both parts trimmed; any other line is malformed. */
  function ParseLine(line: string): (p: Option<Property>)
    ensures p.Some? <==> Occurrences(line, '=') == 1
  {
    var parts := Split(line, '=');
    if |parts| == 2 then Some(Property(TrimSpace(parts[0]), TrimSpace(parts[1]))) else None
  }

  /** An accepted line yields a trimmed name and value without `=`, and
      without line feeds when the line had none. */
  lemma ParsedPropertyIsClean(line: string)
    requires ParseLine(line).Some?
    ensures var p := ParseLine(line).value;
      && '=' !in p.name && '=' !in p.value
      && TrimSpace(p.name) == p.name && TrimSpace(p.value) == p.value
      && ('\n' !in line ==> '\n' !in p.name && '\n' !in p.value)
  {
    var parts := Split(line, '=');
    assert parts[0] in parts && parts[1] in parts;
    TrimIdempotent(parts[0]);
    TrimIdempotent(parts[1]);
    TrimCharacters(parts[0]);
    TrimCharacters(parts[1]);
    SplitCharacters(line, '=');
  }

  /** The map the second loop builds: each accepted line sets its name, so a
      later line overwrites an earlier one with the same name. */
  function Entries(lines: seq<string>): PropertyMap
  {
    if lines == [] then map[]
    else
      var prior := Entries(lines[..|lines| - 1]);
      match ParseLine(lines[|lines| - 1])
      case Some(p) => prior[p.name := p.value]
      case None => prior
  }

  /** The lines the second loop reports, in order: exactly the malformed ones. */
  function Malformed(lines: seq<string>): (bad: seq<string>)
    ensures forall e :: e in bad ==> e in lines && ParseLine(e).None?
    ensures forall l :: l in lines && ParseLine(l).None? ==> l in bad
  {
    if lines == [] then []
    else
      var last := lines[|lines| - 1];
      assert lines == lines[..|lines| - 1] + [last];
      Malformed(lines[..|lines| - 1]) + (if ParseLine(last).None? then [last] else [])
  }

  /** What BytesToProperties computes: the map of every accepted line, and an
      error exactly when some line is malformed. */
  function Decode(input: string): (d: Decoded)
    ensures d.err.None? <==> forall l :: l in InputLines(input) ==> Occurrences(l, '=') == 1
    ensures d.err.Some? ==> d.err.value.lines != []
  {
    var lines := InputLines(input);
    var bad := Malformed(lines);
    assert bad != [] ==> bad[0] in bad;
    Decoded(Entries(lines), if bad == [] then None else Some(InvalidProperties(bad)))
  }

  /** `BytesToProperties`: the partially built map is always returned, with
      the joined error when some line failed. */
  method BytesToProperties(input: string) returns (properties: PropertyMap, err: Option<DecodeError>)
    ensures Decoded(properties, err) == Decode(input)
  {
    var raw := Split(input, '\n');
    var lines: seq<string> := [];
    properties := NewProperties();
    var errorList: seq<string> := [];

    for i := 0 to |raw|
      invariant lines == NonBlankLines(raw[..i])
    {
      assert raw[..i + 1][..i] == raw[..i];
      var line := TrimSpace(raw[i]);
      if |line| > 0 {
        lines := lines + [line];
      }
    }
    assert raw[..|raw|] == raw;

    for i := 0 to |lines|
      invariant properties == Entries(lines[..i])
      invariant errorList == Malformed(lines[..i])
    {
      assert lines[..i + 1][..i] == lines[..i];
      var parts := Split(lines[i], '=');
      if |parts| == 2 {
        var name := TrimSpace(parts[0]);
        var value := TrimSpace(parts[1]);
        properties := properties[name := value];
      } else {
        errorList := errorList + [lines[i]];
      }
    }
    assert lines[..|lines|] == lines;

    if |errorList| > 0 {
      return properties, Some(InvalidProperties(errorList));
    }
    return properties, None;
  }

  /** `ValidPropertiesFile`, given the outcome of reading the file (None when
      the read failed): valid exactly when the read succeeded and every
      non-blank line holds exactly one `=`. */
  function ValidPropertiesFile(contents: Option<string>): (valid: bool)
    ensures valid <==> contents.Some? && forall l :: l in InputLines(contents.value) ==> Occurrences(l, '=') == 1
  {
    match contents
    case None => false
    case Some(bytes) => Decode(bytes).err.None?
  }

  // ---------------------------------------------------------------------------
  // Encoding

  /** The line PropertiesToBytes writes for one entry. */
  function FormatProperty(key: string, value: string): string {
    key + " = " + value
  }

  /** `order` lists every key of the set once: one possible iteration order of
      a Go map with those keys. */
  predicate IsOrdering(order: seq<string>, keys: set<string>) {
    && (forall i, j :: 0 <= i < j < |order| ==> order[i] != order[j])
    && (forall k :: k in order ==> k in keys)
    && (forall k :: k in keys ==> k in order)
  }

  /** Visiting one more key extends the order. */
  lemma OrderingGrows(order: seq<string>, keys: set<string>, remaining: set<string>, name: string)
    requires remaining <= keys && name in remaining
    requires IsOrdering(order, keys - remaining)
    ensures IsOrdering(order + [name], keys - (remaining - {name}))
  {
  }

  /** The lines the loop of PropertiesToBytes collects when it visits the keys in `order`. */
  function EncodedLines(properties: PropertyMap, order: seq<string>): (lines: seq<string>)
    requires forall k :: k in order ==> k in properties
    ensures |lines| == |order|
  {
    if order == [] then []
    else
      var name := order[|order| - 1];
      EncodedLines(properties, order[..|order| - 1])
        + [FormatProperty(TrimSpace(name), TrimSpace(properties[name]))]
  }

  /** What PropertiesToBytes returns on success when it visits the keys in `order`. */
  function Encode(properties: PropertyMap, order: seq<string>): string
    requires forall k :: k in order ==> k in properties
  {
    Join(EncodedLines(properties, order), '\n')
  }

  /** The entry for `name`, once trimmed, holds no reserved character. */
  predicate EntryEncodable(properties: PropertyMap, name: string)
    requires name in properties
  {
    !HasReservedCharacters(TrimSpace(name)) && !HasReservedCharacters(TrimSpace(properties[name]))
  }

  /** No entry, once trimmed, holds a reserved character. */
  predicate Encodable(properties: PropertyMap) {
    forall name :: name in properties ==> EntryEncodable(properties, name)
  }

  /** `e` names an offending entry of `properties`: a trimmed key with a
      reserved character, or the trimmed value of an entry whose key is fine. */
  ghost predicate Reports(properties: PropertyMap, e: EncodeError) {
    match e
    case InvalidKey(key) =>
      HasReservedCharacters(key) && exists name :: name in properties && TrimSpace(name) == key
    case InvalidValue(value) =>
      && HasReservedCharacters(value)
      && exists name :: name in properties && !HasReservedCharacters(TrimSpace(name)) && TrimSpace(properties[name]) == value
  }

  /** `PropertiesToBytes`: visits the entries in an order it is free to choose,
      trims each key and value, stops at the first one holding a reserved
      character, and otherwise joins the `key = value` lines with line feeds. */
  method PropertiesToBytes(properties: PropertyMap) returns (result: Result<string, EncodeError>)
    ensures result.Success? <==> Encodable(properties)
    ensures result.Success? ==>
      exists order :: IsOrdering(order, properties.Keys) && result.value == Encode(properties, order)
    ensures result.Failure? ==> Reports(properties, result.error)
  {
    var parts: seq<string> := [];
    ghost var order: seq<string> := [];
    var remaining := properties.Keys;
    while remaining != {}
      invariant remaining <= properties.Keys
      invariant IsOrdering(order, properties.Keys - remaining)
      invariant parts == EncodedLines(properties, order)
      invariant forall name :: name in order ==> EntryEncodable(properties, name)
      decreases remaining
    {
      var name :| name in remaining;
      var key := TrimSpace(name);
      var value := TrimSpace(properties[name]);
      if HasReservedCharacters(key) {
        return Failure(InvalidKey(key));
      }
      if HasReservedCharacters(value) {
        return Failure(InvalidValue(value));
      }
      parts := parts + [FormatProperty(key, value)];
      OrderingGrows(order, properties.Keys, remaining, name);
      order := order + [name];
      remaining := remaining - {name};
    }
    assert properties.Keys - remaining == properties.Keys;
    return Success(Join(parts, '\n'));
  }
}
