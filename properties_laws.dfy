/** What the properties codec promises: the per-line acceptance rule, error
    reporting, last-write-wins, the encoder's reserved-character check and
    the shape of its output, and the encode/decode round trip. */
module PropertiesLaws {
  import opened Strings
  import opened Properties

  // ---------------------------------------------------------------------------
  // Lines

  /** The first loop keeps exactly the trimmed non-blank lines. */
  lemma {:induction false} NonBlankLinesSpec(raw: seq<string>)
    ensures forall l :: l in NonBlankLines(raw) ==>
      l != [] && TrimSpace(l) == l && exists r :: r in raw && TrimSpace(r) == l
    ensures forall r :: r in raw && TrimSpace(r) != [] ==> TrimSpace(r) in NonBlankLines(raw)
  {
    if raw != [] {
      var init, last := raw[..|raw| - 1], raw[|raw| - 1];
      NonBlankLinesSpec(init);
      TrimIdempotent(last);
      assert raw == init + [last];
      forall l | l in NonBlankLines(raw)
        ensures l != [] && TrimSpace(l) == l && exists r :: r in raw && TrimSpace(r) == l
      {
        if l in NonBlankLines(init) {
          var r :| r in init && TrimSpace(r) == l;
          assert r in raw;
        } else {
          assert l == TrimSpace(last);
        }
      }
    }
  }

  /** The first loop works line by line: the lines kept from `a + b` are
      those kept from `a` followed by those kept from `b`, in order. */
  lemma {:induction false} NonBlankLinesAppend(a: seq<string>, b: seq<string>)
    ensures NonBlankLines(a + b) == NonBlankLines(a) + NonBlankLines(b)
  {
    if b == [] {
      assert a + b == a;
    } else {
      var init, last := b[..|b| - 1], b[|b| - 1];
      var kept := if |TrimSpace(last)| > 0 then [TrimSpace(last)] else [];
      NonBlankLinesAppend(a, init);
      assert (a + b)[..|a + b| - 1] == a + init && (a + b)[|a + b| - 1] == last;
      assert NonBlankLines(a + b) == NonBlankLines(a + init) + kept;
      assert NonBlankLines(b) == NonBlankLines(init) + kept;
    }
  }

  /** A single raw line is kept, trimmed, exactly when it is not blank. */
  lemma NonBlankLinesOne(r: string)
    ensures NonBlankLines([r]) == if TrimSpace(r) != [] then [TrimSpace(r)] else []
  {
    assert [r][..0] == [];
  }

  /** The lines the decoder reads are non-blank, trimmed and free of line feeds. */
  lemma InputLinesSpec(input: string)
    ensures forall l :: l in InputLines(input) ==> l != [] && TrimSpace(l) == l && '\n' !in l
  {
    var raw := Split(input, '\n');
    NonBlankLinesSpec(raw);
    forall l | l in InputLines(input)
      ensures '\n' !in l
    {
      var r :| r in raw && TrimSpace(r) == l;
      TrimCharacters(r);
    }
  }

  // ---------------------------------------------------------------------------
  // Errors

  /** Decoding reports an error exactly when some input line that is not
      blank has zero or several `=`. */
  lemma DecodeFailsIffMalformedLine(input: string)
    ensures Decode(input).err.Some? <==>
      exists r :: r in Split(input, '\n') && !AllSpace(r) && Occurrences(r, '=') != 1
  {
    var raw := Split(input, '\n');
    if Decode(input).err.Some? {
      var l :| l in InputLines(input) && Occurrences(l, '=') != 1;
      MalformedLineSource(raw, l);
    }
    if exists r :: r in raw && !AllSpace(r) && Occurrences(r, '=') != 1 {
      var r :| r in raw && !AllSpace(r) && Occurrences(r, '=') != 1;
      MalformedSourceLine(raw, r);
    }
  }

  /** A malformed line the decoder reads comes from a raw line that is not
      blank and has the same number of `=`. */
  lemma MalformedLineSource(raw: seq<string>, l: string)
    requires l in NonBlankLines(raw) && Occurrences(l, '=') != 1
    ensures exists r :: r in raw && !AllSpace(r) && Occurrences(r, '=') != 1
  {
    NonBlankLinesSpec(raw);
    var r :| r in raw && TrimSpace(r) == l;
    TrimKeepsOccurrences(r, '=');
    TrimBlank(r);
  }

  /** A raw line that is not blank and has zero or several `=` reaches the
      decoder, trimmed, with the same number of `=`. */
  lemma MalformedSourceLine(raw: seq<string>, r: string)
    requires r in raw && !AllSpace(r) && Occurrences(r, '=') != 1
    ensures TrimSpace(r) in NonBlankLines(raw) && Occurrences(TrimSpace(r), '=') != 1
  {
    NonBlankLinesSpec(raw);
    TrimKeepsOccurrences(r, '=');
    TrimBlank(r);
  }

  /** Each malformed line is reported once per occurrence, in the error
      list, and no well-formed line is. */
  lemma {:induction false} OneErrorPerMalformedLine(lines: seq<string>, l: string)
    ensures multiset(Malformed(lines))[l] == if ParseLine(l).None? then multiset(lines)[l] else 0
  {
    if lines != [] {
      var init, last := lines[..|lines| - 1], lines[|lines| - 1];
      OneErrorPerMalformedLine(init, l);
      assert lines == init + [last];
      var reported := if ParseLine(last).None? then [last] else [];
      assert Malformed(lines) == Malformed(init) + reported;
      assert multiset(Malformed(lines)) == multiset(Malformed(init)) + multiset(reported);
      assert multiset(lines) == multiset(init) + multiset{last};
    }
  }

  // ---------------------------------------------------------------------------
  // Entries

  /** Every well-formed line's name is in the map: a malformed line elsewhere
      does not lose it. */
  lemma {:induction false} EntriesComplete(lines: seq<string>, i: nat)
    requires i < |lines| && ParseLine(lines[i]).Some?
    ensures ParseLine(lines[i]).value.name in Entries(lines)
  {
    var n := |lines|;
    if i < n - 1 {
      EntriesComplete(lines[..n - 1], i);
    }
  }

  /** Every entry of the map comes from some well-formed line. */
  lemma {:induction false} EntriesSound(lines: seq<string>, name: string)
    requires name in Entries(lines)
    ensures exists i :: 0 <= i < |lines| && ParseLine(lines[i]) == Some(Property(name, Entries(lines)[name]))
  {
    var n := |lines|;
    var init := lines[..n - 1];
    match ParseLine(lines[n - 1])
    case Some(p) =>
      if p.name != name {
        EntriesSound(init, name);
        var i :| 0 <= i < |init| && ParseLine(init[i]) == Some(Property(name, Entries(init)[name]));
        assert lines[i] == init[i];
      }
    case None =>
      EntriesSound(init, name);
      var i :| 0 <= i < |init| && ParseLine(init[i]) == Some(Property(name, Entries(init)[name]));
      assert lines[i] == init[i];
  }

  /** Among well-formed lines with the same name, the last one's value wins. */
  lemma {:induction false} LastWriteWins(lines: seq<string>, i: nat)
    requires i < |lines| && ParseLine(lines[i]).Some?
    requires forall j :: i < j < |lines| && ParseLine(lines[j]).Some? ==>
      ParseLine(lines[j]).value.name != ParseLine(lines[i]).value.name
    ensures ParseLine(lines[i]).value.name in Entries(lines)
    ensures Entries(lines)[ParseLine(lines[i]).value.name] == ParseLine(lines[i]).value.value
  {
    var n := |lines|;
    if i < n - 1 {
      var init := lines[..n - 1];
      assert init[i] == lines[i];
      forall j | i < j < |init| && ParseLine(init[j]).Some?
        ensures ParseLine(init[j]).value.name != ParseLine(init[i]).value.name
      {
        assert init[j] == lines[j];
      }
      LastWriteWins(init, i);
    }
  }

  /** Every name and value the decoder stores is trimmed and free of `=` and
      line feeds. */
  lemma DecodedIsClean(input: string)
    ensures forall name :: name in Decode(input).properties ==>
      && TrimSpace(name) == name && !HasReservedCharacters(name)
      && TrimSpace(Decode(input).properties[name]) == Decode(input).properties[name]
      && !HasReservedCharacters(Decode(input).properties[name])
  {
    var lines := InputLines(input);
    var m := Decode(input).properties;
    InputLinesSpec(input);
    forall name | name in m
      ensures TrimSpace(name) == name && !HasReservedCharacters(name)
      ensures TrimSpace(m[name]) == m[name] && !HasReservedCharacters(m[name])
    {
      EntriesSound(lines, name);
      var i :| 0 <= i < |lines| && ParseLine(lines[i]) == Some(Property(name, m[name]));
      assert lines[i] in lines;
      ParsedPropertyIsClean(lines[i]);
    }
  }

  /** Input that is empty or only white space decodes to an empty map with no error. */
  lemma BlankInputDecodesEmpty(input: string)
    requires AllSpace(input)
    ensures Decode(input) == Decoded(NewProperties(), None)
  {
    var raw := Split(input, '\n');
    SplitBlank(input, '\n');
    NonBlankLinesSpec(raw);
    if InputLines(input) != [] {
      var l := InputLines(input)[0];
      assert l in InputLines(input);
      var r :| r in raw && TrimSpace(r) == l;
      TrimBlank(r);
      assert false;
    }
  }

  // ---------------------------------------------------------------------------
  // Lines of the form `name = value`

  /** A line with exactly one `=`, once trimmed, yields the trimmed text on
      either side of it. */
  lemma ParseTrimmedLine(a: string, b: string)
    requires '=' !in a && '=' !in b
    ensures ParseLine(TrimSpace(a + "=" + b)) == Some(Property(TrimSpace(a), TrimSpace(b)))
  {
    var w1, p0, p1, w2 := TrimmedSides(a, b);
    assert a == w1 + p0 + [];
    assert b == [] + p1 + w2;
    TrimIgnoresPadding(w1, p0, []);
    TrimIgnoresPadding([], p1, w2);
  }

  /** Trimming `a=b` only removes white space from the front of `a` and the
      back of `b`. */
  lemma TrimmedSides(a: string, b: string) returns (w1: string, p0: string, p1: string, w2: string)
    requires '=' !in a && '=' !in b
    ensures AllSpace(w1) && AllSpace(w2) && a == w1 + p0 && b == p1 + w2
    ensures Split(TrimSpace(a + "=" + b), '=') == [p0, p1]
  {
    var line := a + "=" + b;
    var t := TrimSpace(line);
    w1, w2 := TrimParts(line);
    SplitTwo(a, b);
    TrimKeepsOccurrences(line, '=');
    SplitOne(t);
    p0, p1 := Split(t, '=')[0], Split(t, '=')[1];
    NoneInSpace(w1, '=');
    NoneInSpace(w2, '=');
    SplitPadded(w1, p0, p1, w2);
  }

  /** White space around `p0=p1` joins the two sides of the `=`. */
  lemma SplitPadded(w1: string, p0: string, p1: string, w2: string)
    requires '=' !in w1 + p0 && '=' !in p1 + w2
    ensures Split(w1 + (p0 + "=" + p1) + w2, '=') == [w1 + p0, p1 + w2]
  {
    assert w1 + (p0 + "=" + p1) + w2 == (w1 + p0) + "=" + (p1 + w2);
    SplitTwo(w1 + p0, p1 + w2);
  }

  /** A string with one `=` splits into the two sides of it. */
  lemma SplitTwo(a: string, b: string)
    requires '=' !in a && '=' !in b
    ensures Split(a + "=" + b, '=') == [a, b]
  {
    SplitPrefix(a, '=', b);
    SplitNone(b, '=');
  }

  /** A string with one `=` is the two parts Split gives, around it. */
  lemma SplitOne(t: string)
    requires Occurrences(t, '=') == 1
    ensures var parts := Split(t, '=');
      |parts| == 2 && t == parts[0] + "=" + parts[1] && '=' !in parts[0] && '=' !in parts[1]
  {
    var parts := Split(t, '=');
    JoinSplit(t, '=');
    assert parts[0] in parts && parts[1] in parts;
  }

  /** The line written for an entry is never blank, and it reads back as that
      entry, trimmed. */
  lemma FormattedLineParses(key: string, value: string)
    requires '=' !in key && '=' !in value
    ensures TrimSpace(FormatProperty(key, value)) != []
    ensures ParseLine(TrimSpace(FormatProperty(key, value))) == Some(Property(TrimSpace(key), TrimSpace(value)))
  {
    var a, b := key + " ", " " + value;
    assert FormatProperty(key, value) == a + "=" + b;
    ParseTrimmedLine(a, b);
    TrimIgnoresPadding([], key, " ");
    TrimIgnoresPadding(" ", value, []);
    assert key + " " == [] + key + " " && " " + value == " " + value + [];
  }

  // ---------------------------------------------------------------------------
  // Encoding

  /** An ordering of a key set lists each key once, so it is as long as the set is large. */
  lemma {:induction false} OrderingSize(order: seq<string>, keys: set<string>)
    requires IsOrdering(order, keys)
    ensures |order| == |keys|
  {
    if order != [] {
      var init, last := order[..|order| - 1], order[|order| - 1];
      assert order == init + [last];
      assert IsOrdering(init, keys - {last}) by {
        forall k | k in init ensures k in keys - {last} {
          var i :| 0 <= i < |init| && init[i] == k;
          assert order[i] == k;
        }
      }
      OrderingSize(init, keys - {last});
    }
  }

  /** The i-th line written is the i-th visited entry, trimmed, as `key = value`. */
  lemma {:induction false} EncodedLinesAt(properties: PropertyMap, order: seq<string>, i: nat)
    requires forall k :: k in order ==> k in properties
    requires i < |order|
    ensures EncodedLines(properties, order)[i]
      == FormatProperty(TrimSpace(order[i]), TrimSpace(properties[order[i]]))
  {
    var init := order[..|order| - 1];
    if i < |init| {
      EncodedLinesAt(properties, init, i);
    }
  }

  /** The encoded text of a map with `n` entries is its `n` lines with a line
      feed between neighbours: `n - 1` line feeds, and no text at all for the
      empty map. */
  lemma EncodedShape(properties: PropertyMap, order: seq<string>)
    requires IsOrdering(order, properties.Keys) && Encodable(properties)
    ensures properties == map[] ==> Encode(properties, order) == ""
    ensures properties != map[] ==>
      && Split(Encode(properties, order), '\n') == EncodedLines(properties, order)
      && Occurrences(Encode(properties, order), '\n') == |properties| - 1
    ensures forall i :: 0 <= i < |order| ==>
      EncodedLines(properties, order)[i] == FormatProperty(TrimSpace(order[i]), TrimSpace(properties[order[i]]))
  {
    OrderingSize(order, properties.Keys);
    var lines := EncodedLines(properties, order);
    forall i | 0 <= i < |order|
      ensures lines[i] == FormatProperty(TrimSpace(order[i]), TrimSpace(properties[order[i]]))
      ensures '\n' !in lines[i]
    {
      EncodedLinesAt(properties, order, i);
      assert order[i] in order;
      assert EntryEncodable(properties, order[i]);
    }
    if properties != map[] {
      var k :| k in properties;
      assert |lines| >= 1;
      SplitJoin(lines, '\n');
      JoinOccurrences(lines, '\n');
    }
  }

  // ---------------------------------------------------------------------------
  // Round trip

  /** A key or value the format carries unchanged: already trimmed and free
      of reserved characters. */
  predicate Canonical(s: string) {
    TrimSpace(s) == s && !HasReservedCharacters(s)
  }

  /** The entries of `properties` whose keys `order` lists. */
  function Visited(properties: PropertyMap, order: seq<string>): (m: PropertyMap)
    requires forall k :: k in order ==> k in properties
    ensures forall k :: k in m <==> k in order
  {
    map k | k in order :: properties[k]
  }

  lemma VisitedGrows(properties: PropertyMap, init: seq<string>, name: string)
    requires forall k :: k in init + [name] ==> k in properties
    ensures Visited(properties, init + [name]) == Visited(properties, init)[name := properties[name]]
  {
    assert forall k :: k in init ==> k in init + [name];
  }

  /** The line written for a canonical entry is not blank and reads back as that entry. */
  lemma EncodedLineReads(properties: PropertyMap, name: string)
    requires name in properties && Canonical(name) && Canonical(properties[name])
    ensures var line := FormatProperty(TrimSpace(name), TrimSpace(properties[name]));
      TrimSpace(line) != [] && ParseLine(TrimSpace(line)) == Some(Property(name, properties[name]))
  {
    FormattedLineParses(name, properties[name]);
  }

  /** Decoding the lines written for canonical entries gives those entries
      back and reports nothing. */
  lemma {:induction false} DecodeEncodedLines(properties: PropertyMap, order: seq<string>)
    requires forall k :: k in order ==> k in properties && Canonical(k) && Canonical(properties[k])
    ensures Entries(NonBlankLines(EncodedLines(properties, order))) == Visited(properties, order)
    ensures Malformed(NonBlankLines(EncodedLines(properties, order))) == []
  {
    if order != [] {
      var init, name := order[..|order| - 1], order[|order| - 1];
      assert order == init + [name];
      assert name in order;
      DecodeEncodedLines(properties, init);
      EncodedLineReads(properties, name);
      var lines := EncodedLines(properties, order);
      assert lines[..|lines| - 1] == EncodedLines(properties, init);
      var nb := NonBlankLines(lines);
      assert nb[..|nb| - 1] == NonBlankLines(EncodedLines(properties, init));
      VisitedGrows(properties, init, name);
    }
  }

  /** Encoding a map whose keys and values are canonical, in any order the
      encoder may choose, and decoding the result gives the map back with no
      error. */
  lemma RoundTrip(properties: PropertyMap, order: seq<string>)
    requires IsOrdering(order, properties.Keys)
    requires forall k :: k in properties ==> Canonical(k) && Canonical(properties[k])
    ensures Encodable(properties)
    ensures Decode(Encode(properties, order)) == Decoded(properties, None)
  {
    CanonicalIsEncodable(properties);
    EncodedShape(properties, order);
    if properties == map[] {
      BlankInputDecodesEmpty(Encode(properties, order));
    } else {
      DecodeNonEmpty(properties, order);
    }
  }

  lemma CanonicalIsEncodable(properties: PropertyMap)
    requires forall k :: k in properties ==> Canonical(k) && Canonical(properties[k])
    ensures Encodable(properties)
  {
    forall k | k in properties
      ensures EntryEncodable(properties, k)
    {
      assert Canonical(k) && Canonical(properties[k]);
    }
  }

  lemma DecodeNonEmpty(properties: PropertyMap, order: seq<string>)
    requires IsOrdering(order, properties.Keys) && properties != map[]
    requires forall k :: k in properties ==> Canonical(k) && Canonical(properties[k])
    requires Split(Encode(properties, order), '\n') == EncodedLines(properties, order)
    ensures Decode(Encode(properties, order)) == Decoded(properties, None)
  {
    DecodeEncodedLines(properties, order);
    assert Visited(properties, order) == properties;
  }

}
