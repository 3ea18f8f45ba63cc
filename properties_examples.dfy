/** Concrete inputs: the decoder test and the encode-then-decode test of
    properties_test.go, the strict one-`=` rule, a partially failing input,
    and inputs the encoder refuses. */
module PropertiesExamples {
  import opened Strings
  import opened Properties
  import opened PropertiesLaws

  /** Lines that are already trimmed and not blank pass the first loop unchanged. */
  lemma {:induction false} NonBlankLinesOfTrimmed(lines: seq<string>)
    requires forall l :: l in lines ==> l != [] && TrimSpace(l) == l
    ensures NonBlankLines(lines) == lines
  {
    if lines != [] {
      var init := lines[..|lines| - 1];
      assert lines == init + [lines[|lines| - 1]];
      assert forall l :: l in init ==> l in lines;
      NonBlankLinesOfTrimmed(init);
    }
  }

  /** Joining trimmed, non-blank, single lines with line feeds gives text the
      decoder reads as those very lines. */
  lemma InputLinesOfJoin(lines: seq<string>)
    requires |lines| >= 1
    requires forall l :: l in lines ==> l != [] && Bare(l) && '\n' !in l
    ensures InputLines(Join(lines, '\n')) == lines
  {
    forall l | l in lines
      ensures TrimSpace(l) == l
    {
      TrimmedIffBare(l);
    }
    SplitJoin(lines, '\n');
    NonBlankLinesOfTrimmed(lines);
  }

  /** A bare string without `=` is canonical. */
  lemma BareIsCanonical(s: string)
    requires Bare(s) && '=' !in s && '\n' !in s
    ensures Canonical(s)
  {
    TrimmedIffBare(s);
  }

  /** `key = value` with a bare key and value, neither holding a reserved
      character, is a trimmed line that reads as that pair. */
  lemma SpacedLineReads(key: string, value: string)
    requires Bare(key) && Bare(value) && key != [] && value != []
    requires '=' !in key && '\n' !in key && '=' !in value && '\n' !in value
    ensures Bare(FormatProperty(key, value)) && '\n' !in FormatProperty(key, value)
    ensures ParseLine(FormatProperty(key, value)) == Some(Property(key, value))
  {
    var line := FormatProperty(key, value);
    assert line[0] == key[0] && line[|line| - 1] == value[|value| - 1];
    TrimmedIffBare(line);
    TrimmedIffBare(key);
    TrimmedIffBare(value);
    FormattedLineParses(key, value);
  }

  /** `key=value` likewise. */
  lemma TightLineReads(key: string, value: string)
    requires Bare(key) && Bare(value) && key != [] && value != []
    requires '=' !in key && '\n' !in key && '=' !in value && '\n' !in value
    ensures Bare(key + "=" + value) && '\n' !in key + "=" + value
    ensures ParseLine(key + "=" + value) == Some(Property(key, value))
  {
    var line := key + "=" + value;
    assert line[0] == key[0] && line[|line| - 1] == value[|value| - 1];
    TrimmedIffBare(line);
    TrimmedIffBare(key);
    TrimmedIffBare(value);
    ParseTrimmedLine(key, value);
  }

  /** Three trimmed, non-blank, single lines joined by line feeds are read
      as those three lines. */
  lemma ThreeInputLines(l1: string, l2: string, l3: string)
    requires forall l :: l in [l1, l2, l3] ==> l != [] && Bare(l) && '\n' !in l
    ensures InputLines(l1 + "\n" + l2 + "\n" + l3) == [l1, l2, l3]
  {
    var lines := [l1, l2, l3];
    assert lines[1..] == [l2, l3] && lines[1..][1..] == [l3];
    assert Join(lines, '\n') == l1 + "\n" + l2 + "\n" + l3;
    InputLinesOfJoin(lines);
  }

  /** One more well-formed line sets its name and reports nothing. */
  lemma ReadOneMore(lines: seq<string>, l: string, p: Property)
    requires ParseLine(l) == Some(p)
    ensures Entries(lines + [l]) == Entries(lines)[p.name := p.value]
    ensures Malformed(lines + [l]) == Malformed(lines)
  {
    assert (lines + [l])[..|lines|] == lines;
  }

  /** Three well-formed lines set their three names in order. */
  lemma EntriesOfThree(l1: string, l2: string, l3: string, p1: Property, p2: Property, p3: Property)
    requires ParseLine(l1) == Some(p1) && ParseLine(l2) == Some(p2) && ParseLine(l3) == Some(p3)
    ensures Entries([l1, l2, l3]) == map[p1.name := p1.value][p2.name := p2.value][p3.name := p3.value]
    ensures Malformed([l1, l2, l3]) == []
  {
    var first: seq<string> := [l1];
    var two := first + [l2];
    assert [] + [l1] == first && two + [l3] == [l1, l2, l3];
    assert Entries([]) == map[] && Malformed([]) == [];
    ReadOneMore([], l1, p1);
    ReadOneMore(first, l2, p2);
    ReadOneMore(two, l3, p3);
  }

  /** Three trimmed, single, well-formed lines joined by line feeds decode to
      their three properties, a later name overriding an earlier one. */
  lemma DecodeThreeLines(l1: string, l2: string, l3: string, p1: Property, p2: Property, p3: Property)
    requires forall l :: l in [l1, l2, l3] ==> l != [] && Bare(l) && '\n' !in l
    requires ParseLine(l1) == Some(p1) && ParseLine(l2) == Some(p2) && ParseLine(l3) == Some(p3)
    ensures Decode(l1 + "\n" + l2 + "\n" + l3)
      == Decoded(map[p1.name := p1.value][p2.name := p2.value][p3.name := p3.value], None)
  {
    ThreeInputLines(l1, l2, l3);
    EntriesOfThree(l1, l2, l3, p1, p2, p3);
  }

  /** Lines `k1 = v1`, `k2=v2` and `k3 = v3` with bare, non-empty names and
      values free of reserved characters decode to those three properties,
      a later name overriding an earlier one. */
  lemma DecodeThreeProperties(k1: string, v1: string, k2: string, v2: string, k3: string, v3: string)
    requires k1 != [] && Bare(k1) && '=' !in k1 && '\n' !in k1
    requires v1 != [] && Bare(v1) && '=' !in v1 && '\n' !in v1
    requires k2 != [] && Bare(k2) && '=' !in k2 && '\n' !in k2
    requires v2 != [] && Bare(v2) && '=' !in v2 && '\n' !in v2
    requires k3 != [] && Bare(k3) && '=' !in k3 && '\n' !in k3
    requires v3 != [] && Bare(v3) && '=' !in v3 && '\n' !in v3
    ensures Decode(FormatProperty(k1, v1) + "\n" + (k2 + "=" + v2) + "\n" + FormatProperty(k3, v3))
      == Decoded(map[k1 := v1][k2 := v2][k3 := v3], None)
  {
    SpacedLineReads(k1, v1);
    TightLineReads(k2, v2);
    SpacedLineReads(k3, v3);
    DecodeThreeLines(FormatProperty(k1, v1), k2 + "=" + v2, FormatProperty(k3, v3),
      Property(k1, v1), Property(k2, v2), Property(k3, v3));
  }

  /** The decoder test: `foo = bar`, `baz=2` and `name = continue` on three
      lines read as three properties, whether or not `=` is surrounded by spaces. */
  lemma DecodeExample()
    ensures Decode(FormatProperty("foo", "bar") + "\n" + ("baz" + "=" + "2") + "\n" + FormatProperty("name", "continue"))
      == Decoded(map["foo" := "bar", "baz" := "2", "name" := "continue"], None)
  {
    DecodeThreeProperties("foo", "bar", "baz", "2", "name", "continue");
  }

  /** The decoder test's input, written as one literal. */
  lemma DecodeTestInput()
    ensures Decode("foo = bar\nbaz=2\nname = continue")
      == Decoded(map["foo" := "bar", "baz" := "2", "name" := "continue"], None)
  {
    SameTestInput();
    DecodeExample();
  }

  /** The literal and the line-by-line spelling of the decoder test's input
      are the same characters. */
  lemma SameTestInput()
    ensures "foo = bar\nbaz=2\nname = continue"
      == FormatProperty("foo", "bar") + "\n" + ("baz" + "=" + "2") + "\n" + FormatProperty("name", "continue")
  {
  }

  /** A line without `=` is malformed: it is reported, and adds nothing. */
  lemma ReadMalformed(lines: seq<string>, l: string)
    requires ParseLine(l).None?
    ensures Entries(lines + [l]) == Entries(lines)
    ensures Malformed(lines + [l]) == Malformed(lines) + [l]
  {
    assert (lines + [l])[..|lines|] == lines;
  }

  /** A line holding `=` twice is rejected. */
  lemma TwoEqualsRejected(a: string, b: string, c: string)
    requires '=' !in a && '=' !in b && '=' !in c
    ensures ParseLine(a + "=" + b + "=" + c).None?
  {
    var line := a + "=" + b + "=" + c;
    assert multiset(line) == multiset(a) + multiset{'='} + multiset(b) + multiset{'='} + multiset(c) by {
      assert line == a + "=" + b + "=" + c;
    }
  }

  /** Input made of one malformed line gives an empty map and one error naming it. */
  lemma DecodeOneBadLine(line: string)
    requires line != [] && Bare(line) && '\n' !in line && ParseLine(line).None?
    ensures Decode(line) == Decoded(map[], Some(InvalidProperties([line])))
  {
    assert Join([line], '\n') == line;
    InputLinesOfJoin([line]);
    ReadMalformed([], line);
    assert [] + [line] == [line];
  }

  /** A line `a=b=c`, with `a` and `c` not blank at its ends, on its own
      decodes to an empty map and one error naming it. */
  lemma DecodeTwoEquals(a: string, b: string, c: string)
    requires a != [] && c != [] && !IsSpace(a[0]) && !IsSpace(c[|c| - 1])
    requires '=' !in a && '=' !in b && '=' !in c && '\n' !in a && '\n' !in b && '\n' !in c
    ensures Decode(a + "=" + b + "=" + c) == Decoded(map[], Some(InvalidProperties([a + "=" + b + "=" + c])))
  {
    var line := a + "=" + b + "=" + c;
    TwoEqualsRejected(a, b, c);
    assert line[0] == a[0] && line[|line| - 1] == c[|c| - 1];
    DecodeOneBadLine(line);
  }

  /** The strict rule on a single line: `key=a=b` gives an empty map and one
      error naming that line. */
  lemma StrictLineExample()
    ensures Decode("key" + "=" + "a" + "=" + "b") == Decoded(map[], Some(InvalidProperties(["key" + "=" + "a" + "=" + "b"])))
  {
    DecodeTwoEquals("key", "a", "b");
  }

  /** A malformed line between two good ones: the good ones are kept and the
      bad one is reported. */
  lemma PartialDecode(k1: string, v1: string, bad: string, k3: string, v3: string)
    requires k1 != [] && Bare(k1) && '=' !in k1 && '\n' !in k1
    requires v1 != [] && Bare(v1) && '=' !in v1 && '\n' !in v1
    requires bad != [] && Bare(bad) && '=' !in bad && '\n' !in bad
    requires k3 != [] && Bare(k3) && '=' !in k3 && '\n' !in k3
    requires v3 != [] && Bare(v3) && '=' !in v3 && '\n' !in v3
    ensures Decode(FormatProperty(k1, v1) + "\n" + bad + "\n" + FormatProperty(k3, v3))
      == Decoded(map[k1 := v1][k3 := v3], Some(InvalidProperties([bad])))
  {
    var l1, l3 := FormatProperty(k1, v1), FormatProperty(k3, v3);
    SpacedLineReads(k1, v1);
    SpacedLineReads(k3, v3);
    assert Occurrences(bad, '=') == 0;
    BadMiddleLine(l1, bad, l3, Property(k1, v1), Property(k3, v3));
  }

  lemma BadMiddleLine(l1: string, bad: string, l3: string, p1: Property, p3: Property)
    requires forall l :: l in [l1, bad, l3] ==> l != [] && Bare(l) && '\n' !in l
    requires ParseLine(l1) == Some(p1) && ParseLine(bad).None? && ParseLine(l3) == Some(p3)
    ensures Decode(l1 + "\n" + bad + "\n" + l3)
      == Decoded(map[p1.name := p1.value][p3.name := p3.value], Some(InvalidProperties([bad])))
  {
    ThreeInputLines(l1, bad, l3);
    EntriesWithBadMiddle(l1, bad, l3, p1, p3);
  }

  lemma EntriesWithBadMiddle(l1: string, bad: string, l3: string, p1: Property, p3: Property)
    requires ParseLine(l1) == Some(p1) && ParseLine(bad).None? && ParseLine(l3) == Some(p3)
    ensures Entries([l1, bad, l3]) == map[p1.name := p1.value][p3.name := p3.value]
    ensures Malformed([l1, bad, l3]) == [bad]
  {
    var first: seq<string> := [l1];
    var two := first + [bad];
    assert [] + [l1] == first && two + [l3] == [l1, bad, l3];
    assert Entries([]) == map[] && Malformed([]) == [];
    ReadOneMore([], l1, p1);
    ReadMalformed(first, bad);
    ReadOneMore(two, l3, p3);
  }

  /** `foo = bar`, `badline`, `baz = 2`: the map keeps `foo` and `baz`, and the
      error names `badline`. */
  lemma PartialDecodeExample()
    ensures Decode(FormatProperty("foo", "bar") + "\n" + "badline" + "\n" + FormatProperty("baz", "2"))
      == Decoded(map["foo" := "bar", "baz" := "2"], Some(InvalidProperties(["badline"])))
  {
    PartialDecode("foo", "bar", "badline", "baz", "2");
  }

  // ---------------------------------------------------------------------------
  // Encoding

  /** An entry whose trimmed key holds a reserved character is refused, and
      the error names that key. */
  lemma ReservedKeyRejected(key: string, value: string)
    requires Bare(key) && ('\n' in key || '=' in key)
    ensures !Encodable(map[key := value])
    ensures forall e :: Reports(map[key := value], e) ==> e == InvalidKey(key)
  {
    TrimmedIffBare(key);
    assert !EntryEncodable(map[key := value], key);
  }

  /** An entry with a good key whose trimmed value holds a reserved character
      is refused, and the error names that value. */
  lemma ReservedValueRejected(key: string, value: string)
    requires Canonical(key) && Bare(value) && ('\n' in value || '=' in value)
    ensures !Encodable(map[key := value])
    ensures forall e :: Reports(map[key := value], e) ==> e == InvalidValue(value)
  {
    TrimmedIffBare(value);
    assert !EntryEncodable(map[key := value], key);
  }

  /** A key with a line feed inside, and a value with `=` inside, are refused. */
  lemma RejectionExamples()
    ensures !Encodable(map["k" + "\n" + "e1" := "v"])
    ensures !Encodable(map["k" := "v" + "=" + "1"])
  {
    var key, value := "k" + "\n" + "e1", "v" + "=" + "1";
    assert key[0] == 'k' && key[|key| - 1] == '1' && '\n' in key;
    ReservedKeyRejected(key, "v");
    assert value[0] == 'v' && value[|value| - 1] == '1' && '=' in value;
    assert Bare("k") && '=' !in "k" && '\n' !in "k";
    TrimmedIffBare("k");
    ReservedValueRejected("k", value);
  }

  /** What the encode-then-decode test does: PropertiesToBytes succeeds on a
      map of canonical entries, and BytesToProperties gives the map back with
      no error. */
  method EncodeThenDecode(properties: PropertyMap) returns (decoded: PropertyMap, err: Option<DecodeError>)
    requires forall k :: k in properties ==> Canonical(k) && Canonical(properties[k])
    ensures decoded == properties && err == None
  {
    CanonicalIsEncodable(properties);
    var encoded := PropertiesToBytes(properties);
    ghost var order :| IsOrdering(order, properties.Keys) && encoded.value == Encode(properties, order);
    RoundTrip(properties, order);
    decoded, err := BytesToProperties(encoded.value);
  }

  /** The encode-then-decode test: `foo`, `baz` and `a` survive the round trip. */
  method EncodeThenDecodeExample() returns (decoded: PropertyMap, err: Option<DecodeError>)
    ensures decoded == map["foo" := "bar", "baz" := "boo", "a" := "1"] && err == None
  {
    var properties := NewProperties();
    properties := properties["foo" := "bar"];
    properties := properties["baz" := "boo"];
    properties := properties["a" := "1"];
    forall s | s in ["foo", "bar", "baz", "boo", "a", "1"]
      ensures Canonical(s)
    {
      BareIsCanonical(s);
    }
    decoded, err := EncodeThenDecode(properties);
  }
}
