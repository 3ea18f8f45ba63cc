/** Models of the functions of Go's `strings` package that the properties codec
    calls (Split, Join, TrimSpace, ContainsAny), over strings as sequences of
    characters, with the facts about them that the codec's proofs rest on. */
module Strings {

  /** The white space that `strings.TrimSpace` removes, restricted to ASCII:
      space, tab, line feed, vertical tab, form feed and carriage return. */
  predicate IsSpace(c: char) {
    c == ' ' || c == '\t' || c == '\n' || c == '\U{000B}' || c == '\U{000C}' || c == '\r'
  }

  /** Every character of `s` from index `lo` up to `hi` is white space. */
  predicate SpaceIn(s: string, lo: nat, hi: nat)
    requires lo <= hi <= |s|
  {
    forall k :: lo <= k < hi ==> IsSpace(s[k])
  }

  /** `s` is empty or white space only. */
  predicate AllSpace(s: string) {
    SpaceIn(s, 0, |s|)
  }

  /** Neither starts nor ends with white space. */
  predicate Bare(s: string) {
    s == [] || (!IsSpace(s[0]) && !IsSpace(s[|s| - 1]))
  }

  /** How many times `c` occurs in `s`. */
  function Occurrences(s: string, c: char): nat {
    multiset(s)[c]
  }

  /** `strings.ContainsAny(s, chars)`: some character of `s` is one of `chars`. */
  function ContainsAny(s: string, chars: string): (b: bool)
    ensures b <==> exists k :: 0 <= k < |s| && s[k] in chars
  {
    if s == [] then false
    else if s[0] in chars then true
    else
      var rest := ContainsAny(s[1..], chars);
      assert forall k :: 1 <= k < |s| ==> s[k] == s[1..][k - 1];
      rest
  }

  // ---------------------------------------------------------------------------
  // TrimSpace

  /** `s[i..j]` is what is left of `s` once its leading and trailing white
      space is removed; a bare string is its own such infix (BareIsTrimmedAt). */
  ghost predicate TrimmedAt(s: string, i: nat, j: nat)
    requires i <= j <= |s|
  {
    SpaceIn(s, 0, i) && SpaceIn(s, j, |s|) && (i < j ==> !IsSpace(s[i]) && !IsSpace(s[j - 1]))
  }

  /** A string is bare exactly when it is its own trimmed infix. */
  lemma BareIsTrimmedAt(s: string)
    ensures Bare(s) <==> TrimmedAt(s, 0, |s|)
  {
  }

  /** `strings.TrimSpace`: drops the leading, then the trailing white space. */
  function TrimSpace(s: string): string
  {
    if s != [] && IsSpace(s[0]) then TrimSpace(s[1..])
    else if s != [] && IsSpace(s[|s| - 1]) then TrimSpace(s[..|s| - 1])
    else s
  }

  /** How much leading white space TrimSpace drops. */
  function TrimStart(s: string): nat
  {
    if s != [] && IsSpace(s[0]) then 1 + TrimStart(s[1..]) else 0
  }

  /** `r` is the infix of `s` starting at `i` that is left once the leading
      and trailing white space is removed. */
  ghost predicate TrimmedTo(s: string, i: nat, r: string) {
    i + |r| <= |s| && TrimmedAt(s, i, i + |r|) && r == s[i..i + |r|]
  }

  /** TrimSpace keeps the infix of `s` between its leading and its trailing
      white space, and that infix is bare. */
  lemma {:induction false} TrimSpaceSpec(s: string)
    ensures TrimmedTo(s, TrimStart(s), TrimSpace(s))
  {
    if s != [] && IsSpace(s[0]) {
      var t := s[1..];
      TrimSpaceSpec(t);
      DropFirst(s, TrimStart(t), TrimSpace(t));
    } else if s != [] && IsSpace(s[|s| - 1]) {
      var t := s[..|s| - 1];
      TrimSpaceSpec(t);
      assert t[0] == s[0];
      DropLast(s, TrimSpace(t));
    } else {
      assert s[..0] == [] && s[|s|..] == [] && s[0..|s|] == s;
    }
  }

  /** Leading white space in front of a trimmed infix shifts it by one. */
  lemma DropFirst(s: string, i: nat, r: string)
    requires s != [] && IsSpace(s[0]) && TrimmedTo(s[1..], i, r)
    ensures TrimmedTo(s, i + 1, r)
  {
    var t, j := s[1..], i + |r|;
    forall k | 1 <= k < |s|
      ensures s[k] == t[k - 1]
    {
    }
    assert s[i + 1..j + 1] == t[i..j];
  }

  /** Trailing white space after a trimmed infix at the start leaves it as it is. */
  lemma DropLast(s: string, r: string)
    requires s != [] && IsSpace(s[|s| - 1]) && TrimmedTo(s[..|s| - 1], 0, r)
    ensures TrimmedTo(s, 0, r)
  {
    var t := s[..|s| - 1];
    assert s[0..|r|] == t[0..|r|];
  }

  /** `s` is TrimSpace(s) with white space before and after it. */
  lemma TrimParts(s: string) returns (before: string, after: string)
    ensures AllSpace(before) && AllSpace(after)
    ensures s == before + TrimSpace(s) + after
  {
    TrimSpaceSpec(s);
    var i, r := TrimStart(s), TrimSpace(s);
    before, after := s[..i], s[i + |r|..];
    assert s == before + r + after;
  }

  /** Any decomposition of `s` into white space, a bare middle and white space
      has TrimSpace(s) as its middle. */
  lemma TrimUnique(s: string, i: nat, j: nat)
    requires i <= j <= |s| && TrimmedAt(s, i, j)
    ensures TrimSpace(s) == s[i..j]
  {
    TrimSpaceSpec(s);
    var a, r := TrimStart(s), TrimSpace(s);
    SameTrim(s, i, j, a, a + |r|);
  }

  /** Two decompositions of `s` into white space, a bare middle and white space
      have the same middle. */
  lemma SameTrim(s: string, i: nat, j: nat, i': nat, j': nat)
    requires i <= j <= |s| && TrimmedAt(s, i, j)
    requires i' <= j' <= |s| && TrimmedAt(s, i', j')
    ensures s[i..j] == s[i'..j']
  {
    if i < j || i' < j' {
      assert i == i' && j == j';
    }
  }

  /** Padding a bare string with white space on either side does not change
      what TrimSpace returns. */
  lemma TrimPadded(left: string, x: string, right: string)
    requires AllSpace(left) && Bare(x) && AllSpace(right)
    ensures TrimSpace(left + x + right) == x
  {
    var s := left + x + right;
    assert s[..|left|] == left;
    assert s[|left| + |x|..] == right;
    assert s[|left|..|left| + |x|] == x;
    TrimUnique(s, |left|, |left| + |x|);
  }

  lemma AllSpaceConcat(a: string, b: string)
    requires AllSpace(a) && AllSpace(b)
    ensures AllSpace(a + b)
  {
    forall k | 0 <= k < |a + b|
      ensures IsSpace((a + b)[k])
    {
      if k >= |a| {
        assert (a + b)[k] == b[k - |a|];
      }
    }
  }

  /** White space around a string does not change what TrimSpace returns. */
  lemma TrimIgnoresPadding(left: string, x: string, right: string)
    requires AllSpace(left) && AllSpace(right)
    ensures TrimSpace(left + x + right) == TrimSpace(x)
  {
    if AllSpace(x) {
      PaddedBlank(left, x, right);
    } else {
      PaddedNonBlank(left, x, right);
    }
  }

  lemma PaddedBlank(left: string, x: string, right: string)
    requires AllSpace(left) && AllSpace(x) && AllSpace(right)
    ensures TrimSpace(left + x + right) == TrimSpace(x) == []
  {
    TrimBlank(x);
    AllSpaceConcat(left, x);
    AllSpaceConcat(left + x, right);
    TrimBlank(left + x + right);
  }

  lemma PaddedNonBlank(left: string, x: string, right: string)
    requires AllSpace(left) && AllSpace(right)
    ensures TrimSpace(left + x + right) == TrimSpace(x)
  {
    TrimSpaceSpec(x);
    var r := TrimSpace(x);
    var i := TrimStart(x);
    var before, after := x[..i], x[i + |r|..];
    assert x == before + r + after;
    assert left + x + right == (left + before) + r + (after + right);
    AllSpaceConcat(left, before);
    AllSpaceConcat(after, right);
    TrimPadded(left + before, r, after + right);
  }

  /** A string is its own trim exactly when it is bare. */
  lemma TrimmedIffBare(s: string)
    ensures TrimSpace(s) == s <==> Bare(s)
  {
    if Bare(s) {
      assert s == [] + s + [];
      TrimPadded([], s, []);
    }
    if TrimSpace(s) == s {
      TrimSpaceSpec(s);
      assert s[TrimStart(s)..TrimStart(s) + |s|] == s;
    }
  }

  /** TrimSpace is idempotent. */
  lemma TrimIdempotent(s: string)
    ensures TrimSpace(TrimSpace(s)) == TrimSpace(s)
  {
    TrimmedIffBare(TrimSpace(s));
  }

  /** TrimSpace only removes white space: every other character keeps its count. */
  lemma TrimKeepsOccurrences(s: string, c: char)
    requires !IsSpace(c)
    ensures Occurrences(TrimSpace(s), c) == Occurrences(s, c)
  {
    TrimSpaceSpec(s);
    var r := TrimSpace(s);
    var i := TrimStart(s);
    assert s == s[..i] + r + s[i + |r|..];
    assert multiset(s) == multiset(s[..i]) + multiset(r) + multiset(s[i + |r|..]);
    NoneInSpace(s[..i], c);
    NoneInSpace(s[i + |r|..], c);
  }

  lemma NoneInSpace(w: string, c: char)
    requires AllSpace(w) && !IsSpace(c)
    ensures Occurrences(w, c) == 0
  {
    assert c !in w;
  }

  /** Every character TrimSpace keeps comes from its input. */
  lemma TrimCharacters(s: string)
    ensures forall c :: c in TrimSpace(s) ==> c in s
  {
    TrimSpaceSpec(s);
    var i := TrimStart(s);
    forall c | c in TrimSpace(s)
      ensures c in s
    {
      var k :| 0 <= k < |TrimSpace(s)| && TrimSpace(s)[k] == c;
      assert s[i + k] == c;
    }
  }

  /** TrimSpace yields the empty string exactly for all-white-space input. */
  lemma TrimBlank(s: string)
    ensures TrimSpace(s) == [] <==> AllSpace(s)
  {
    if AllSpace(s) {
      assert s == s + [] + [];
      TrimPadded(s, [], []);
    } else if TrimSpace(s) == [] {
      TrimSpaceSpec(s);
    }
  }

  // ---------------------------------------------------------------------------
  // Split and Join

  /** `strings.Split(s, sep)` for a one-character separator: the pieces of `s`
      between consecutive occurrences of `sep`; always one more piece than
      there are separators, none of them containing `sep`. */
  function Split(s: string, sep: char): (parts: seq<string>)
    ensures |parts| == Occurrences(s, sep) + 1
    ensures forall p :: p in parts ==> sep !in p
  {
    if s == [] then [[]]
    else
      assert s == [s[0]] + s[1..];
      assert multiset(s) == multiset([s[0]]) + multiset(s[1..]);
      var rest := Split(s[1..], sep);
      if s[0] == sep then [[]] + rest
      else [[s[0]] + rest[0]] + rest[1..]
  }

  /** `strings.Join(parts, sep)`: the parts with `sep` between neighbours;
      no parts give the empty string. */
  function Join(parts: seq<string>, sep: char): (s: string)
    ensures |parts| == 1 ==> s == parts[0]
  {
    if |parts| == 0 then []
    else if |parts| == 1 then parts[0]
    else parts[0] + [sep] + Join(parts[1..], sep)
  }

  /** Splitting at the first separator. */
  lemma {:induction false} SplitPrefix(a: string, sep: char, rest: string)
    requires sep !in a
    ensures Split(a + [sep] + rest, sep) == [a] + Split(rest, sep)
  {
    var s := a + [sep] + rest;
    if a == [] {
      assert s[0] == sep && s[1..] == rest;
      SplitCons(s, sep);
    } else {
      assert s[0] == a[0] && s[1..] == a[1..] + [sep] + rest;
      assert [a[0]] + a[1..] == a;
      SplitPrefix(a[1..], sep, rest);
      SplitConsPart(s, sep, a[1..], Split(rest, sep));
    }
  }

  /** A first character other than the separator joins the first part. */
  lemma SplitConsPart(s: string, sep: char, first: string, tail: seq<string>)
    requires s != [] && s[0] != sep && Split(s[1..], sep) == [first] + tail
    ensures Split(s, sep) == [[s[0]] + first] + tail
  {
    SplitCons(s, sep);
    assert ([first] + tail)[1..] == tail;
  }

  /** A string without the separator splits into itself alone. */
  lemma SplitNone(a: string, sep: char)
    requires sep !in a
    ensures Split(a, sep) == [a]
  {
    JoinSplit(a, sep);
  }

  /** Split undoes Join when no part contains the separator. */
  lemma {:induction false} SplitJoin(parts: seq<string>, sep: char)
    requires |parts| >= 1
    requires forall p :: p in parts ==> sep !in p
    ensures Split(Join(parts, sep), sep) == parts
  {
    if |parts| == 1 {
      SplitNone(parts[0], sep);
    } else {
      SplitJoin(parts[1..], sep);
      SplitPrefix(parts[0], sep, Join(parts[1..], sep));
      assert [parts[0]] + parts[1..] == parts;
    }
  }

  /** Join undoes Split. */
  lemma {:induction false} JoinSplit(s: string, sep: char)
    ensures Join(Split(s, sep), sep) == s
  {
    if s != [] {
      JoinSplit(s[1..], sep);
      JoinSplitStep(s, sep);
    }
  }

  /** One step of JoinSplit: the first character is restored in front of the
      rest of the string. */
  lemma JoinSplitStep(s: string, sep: char)
    requires s != [] && Join(Split(s[1..], sep), sep) == s[1..]
    ensures Join(Split(s, sep), sep) == s
  {
    var rest := Split(s[1..], sep);
    SplitCons(s, sep);
    if s[0] == sep {
      JoinSep(rest, sep);
    } else {
      JoinCons(s[0], rest, sep);
    }
    assert [s[0]] + s[1..] == s;
  }

  /** An empty first part puts a separator at the start of the join. */
  lemma JoinSep(parts: seq<string>, sep: char)
    requires |parts| >= 1
    ensures Join([[]] + parts, sep) == [sep] + Join(parts, sep)
  {
    assert ([[]] + parts)[1..] == parts;
  }

  /** How Split treats the first character. */
  lemma SplitCons(s: string, sep: char)
    requires s != []
    ensures var rest := Split(s[1..], sep);
      Split(s, sep) == if s[0] == sep then [[]] + rest else [[s[0]] + rest[0]] + rest[1..]
  {
  }

  /** Prepending a character to the first part prepends it to the join. */
  lemma JoinCons(c: char, parts: seq<string>, sep: char)
    requires |parts| >= 1
    ensures Join([[c] + parts[0]] + parts[1..], sep) == [c] + Join(parts, sep)
  {
    var cons := [[c] + parts[0]] + parts[1..];
    if |parts| > 1 {
      assert cons[1..] == parts[1..];
    }
  }

  /** Joining separator-free parts puts exactly one separator between each
      pair of neighbours. */
  lemma {:induction false} JoinOccurrences(parts: seq<string>, sep: char)
    requires |parts| >= 1
    requires forall p :: p in parts ==> sep !in p
    ensures Occurrences(Join(parts, sep), sep) == |parts| - 1
  {
    if |parts| > 1 {
      JoinOccurrences(parts[1..], sep);
      assert parts[0] in parts;
      assert forall p :: p in parts[1..] ==> p in parts;
      assert Join(parts, sep) == parts[0] + [sep] + Join(parts[1..], sep);
      assert sep !in multiset(parts[0]);
      assert multiset(parts[0] + [sep] + Join(parts[1..], sep))
        == multiset(parts[0]) + multiset([sep]) + multiset(Join(parts[1..], sep));
    } else {
      assert parts[0] in parts && sep !in multiset(parts[0]);
    }
  }

  /** Every character of every piece of a split comes from the input. */
  lemma {:induction false} SplitCharacters(s: string, sep: char)
    ensures forall p, c :: p in Split(s, sep) && c in p ==> c in s
  {
    if s != [] {
      SplitCharacters(s[1..], sep);
    }
  }

  /** The pieces of an all-white-space string are all white space. */
  lemma SplitBlank(s: string, sep: char)
    requires AllSpace(s)
    ensures forall p :: p in Split(s, sep) ==> AllSpace(p)
  {
    SplitCharacters(s, sep);
    forall p, k | p in Split(s, sep) && 0 <= k < |p|
      ensures IsSpace(p[k])
    {
      assert p[k] in p;
      var m :| 0 <= m < |s| && s[m] == p[k];
    }
  }
}
