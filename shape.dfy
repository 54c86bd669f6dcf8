/**
 * The binomial shape filter `re.match(r"^[A-Z][a-z]+ [a-z\-]+(?: [a-z\-]+)?$", name)`
 * that two of the scrapers apply before a name enters the raw list.
 * The pattern is anchored at both ends and its character classes exclude
 * the space, so it is decided by cutting the string at its spaces.
 */
module Shape {
  import opened Text
  import opened Powo

  predicate IsUpper(c: char) { 'A' <= c <= 'Z' }
  predicate IsLower(c: char) { 'a' <= c <= 'z' }
  predicate IsEpithetChar(c: char) { IsLower(c) || c == '-' }

  /** `[A-Z][a-z]+` */
  predicate IsGenus(g: string) {
    |g| >= 2 && IsUpper(g[0]) && forall k :: 1 <= k < |g| ==> IsLower(g[k])
  }

  /** `[a-z\-]+` */
  predicate IsEpithet(e: string) {
    |e| >= 1 && forall k :: 0 <= k < |e| ==> IsEpithetChar(e[k])
  }

  /** The longest prefix of `s` without a space. */
  function Chunk(s: string): (w: string)
    ensures w <= s && ' ' !in w
    ensures |w| < |s| ==> s[|w|] == ' '
  {
    if s == [] || s[0] == ' ' then [] else [s[0]] + Chunk(s[1..])
  }

  /** `s.split(" ")`: the pieces between single spaces, empty ones included. */
  function Fields(s: string): (fs: seq<string>)
    ensures |fs| >= 1
    ensures forall i :: 0 <= i < |fs| ==> ' ' !in fs[i]
    decreases |s|
  {
    var w := Chunk(s);
    if |w| == |s| then [s] else [w] + Fields(s[|w| + 1..])
  }

  /** Joining the pieces with single spaces gives `s` back. */
  lemma {:induction false} JoinFields(s: string)
    ensures Join(Fields(s), ' ') == s
    decreases |s|
  {
    var w := Chunk(s);
    if |w| < |s| {
      var rest := s[|w| + 1..];
      var fr := Fields(rest);
      assert Fields(s) == [w] + fr;
      assert ([w] + fr)[1..] == fr;
      assert Join([w] + fr, ' ') == w + [' '] + Join(fr, ' ');
      JoinFields(rest);
      assert s == w + [' '] + rest;
    } else {
      assert Fields(s) == [s];
    }
  }

  lemma {:induction false} ChunkOfPrefix(w: string, rest: string)
    requires ' ' !in w
    requires rest == [] || rest[0] == ' '
    ensures Chunk(w + rest) == w
    decreases |w|
  {
    if w != [] {
      assert (w + rest)[1..] == w[1..] + rest;
      ChunkOfPrefix(w[1..], rest);
    }
  }

  /** Cutting at the spaces undoes joining with spaces. */
  lemma {:induction false} FieldsJoin(fs: seq<string>)
    requires |fs| >= 1
    requires forall i :: 0 <= i < |fs| ==> ' ' !in fs[i]
    ensures Fields(Join(fs, ' ')) == fs
    decreases |fs|
  {
    if |fs| == 1 {
      ChunkOfPrefix(fs[0], []);
      assert fs[0] + [] == fs[0];
    } else {
      var w, rest := fs[0], Join(fs[1..], ' ');
      var s := w + [' '] + rest;
      assert s == w + ([' '] + rest);
      ChunkOfPrefix(w, [' '] + rest);
      assert s[|w| + 1..] == rest;
      FieldsJoin(fs[1..]);
      assert [w] + fs[1..] == fs;
    }
  }

  /** The pattern without its `$` newline allowance: a genus and one or two epithets. */
  predicate FullMatch(s: string) {
    var fs := Fields(s);
    (|fs| == 2 || |fs| == 3) && IsGenus(fs[0]) &&
    forall i :: 1 <= i < |fs| ==> IsEpithet(fs[i])
  }

  /** The filter as Python evaluates it: `$` also matches just before a
      final newline. */
  predicate MatchesBinomial(s: string) {
    FullMatch(s) || (|s| >= 1 && s[|s| - 1] == '\n' && FullMatch(s[..|s| - 1]))
  }

  /** The pattern read literally: genus, space, epithet, and optionally
      space, epithet, with nothing else. */
  ghost predicate BinomialParts(s: string) {
    (exists i :: 0 < i < |s| && IsGenus(s[..i]) && s[i] == ' ' && IsEpithet(s[i + 1..])) ||
    (exists i, j :: 0 < i < j < |s| && IsGenus(s[..i]) && s[i] == ' ' &&
                    IsEpithet(s[i + 1..j]) && s[j] == ' ' && IsEpithet(s[j + 1..]))
  }

  lemma NoSpaceInGenus(g: string)
    requires IsGenus(g)
    ensures ' ' !in g && NoSpace(g)
  {
  }

  lemma NoSpaceInEpithet(e: string)
    requires IsEpithet(e)
    ensures ' ' !in e && NoSpace(e)
  {
  }

  lemma JoinedTwo(s: string, a: string, b: string)
    requires s == a + [' '] + b && IsGenus(a) && IsEpithet(b)
    ensures BinomialParts(s)
  {
    var i := |a|;
    assert s[..i] == a && s[i] == ' ' && s[i + 1..] == b;
  }

  lemma JoinedThree(s: string, a: string, b: string, c: string)
    requires s == a + [' '] + (b + [' '] + c) && IsGenus(a) && IsEpithet(b) && IsEpithet(c)
    ensures BinomialParts(s)
  {
    var i := |a|;
    var j := i + 1 + |b|;
    assert s[..i] == a && s[i] == ' ';
    assert s[i + 1..j] == b && s[j] == ' ' && s[j + 1..] == c;
    assert 0 < i < j < |s| && IsGenus(s[..i]) && s[i] == ' ' &&
           IsEpithet(s[i + 1..j]) && s[j] == ' ' && IsEpithet(s[j + 1..]);
  }

  lemma FullMatchHasParts(s: string)
    requires FullMatch(s)
    ensures BinomialParts(s)
  {
    var fs := Fields(s);
    JoinFields(s);
    if |fs| == 2 {
      assert s == fs[0] + [' '] + fs[1];
      JoinedTwo(s, fs[0], fs[1]);
    } else {
      assert fs[1..][1..] == [fs[2]];
      assert Join(fs[1..], ' ') == fs[1] + [' '] + fs[2];
      JoinedThree(s, fs[0], fs[1], fs[2]);
    }
  }

  lemma TwoPartsFullMatch(s: string, i: int)
    requires 0 < i < |s| && IsGenus(s[..i]) && s[i] == ' ' && IsEpithet(s[i + 1..])
    ensures FullMatch(s)
  {
    var fs := [s[..i], s[i + 1..]];
    NoSpaceInGenus(fs[0]);
    NoSpaceInEpithet(fs[1]);
    assert s == s[..i] + [' '] + s[i + 1..];
    FieldsJoin(fs);
  }

  lemma ThreePartsFullMatch(s: string, i: int, j: int)
    requires 0 < i < j < |s| && IsGenus(s[..i]) && s[i] == ' ' &&
             IsEpithet(s[i + 1..j]) && s[j] == ' ' && IsEpithet(s[j + 1..])
    ensures FullMatch(s)
  {
    var fs := [s[..i], s[i + 1..j], s[j + 1..]];
    NoSpaceInGenus(fs[0]);
    NoSpaceInEpithet(fs[1]);
    NoSpaceInEpithet(fs[2]);
    assert s[i + 1..] == s[i + 1..j] + [' '] + s[j + 1..];
    assert s == s[..i] + [' '] + s[i + 1..];
    assert Join(fs[1..], ' ') == s[i + 1..];
    FieldsJoin(fs);
  }

  /** Cutting at spaces decides exactly the strings the pattern describes. */
  lemma FullMatchIsBinomialParts(s: string)
    ensures FullMatch(s) <==> BinomialParts(s)
  {
    if FullMatch(s) {
      FullMatchHasParts(s);
    }
    if BinomialParts(s) {
      if exists i :: 0 < i < |s| && IsGenus(s[..i]) && s[i] == ' ' && IsEpithet(s[i + 1..]) {
        var i :| 0 < i < |s| && IsGenus(s[..i]) && s[i] == ' ' && IsEpithet(s[i + 1..]);
        TwoPartsFullMatch(s, i);
      } else {
        var i, j :| 0 < i < j < |s| && IsGenus(s[..i]) && s[i] == ' ' &&
                    IsEpithet(s[i + 1..j]) && s[j] == ' ' && IsEpithet(s[j + 1..]);
        ThreePartsFullMatch(s, i, j);
      }
    }
  }

  lemma FullMatchSplit(s: string)
    requires FullMatch(s)
    ensures Split(s) == Fields(s)
  {
    var fs := Fields(s);
    forall i | 0 <= i < |fs| ensures fs[i] != [] && NoSpace(fs[i]) {
      if i == 0 { NoSpaceInGenus(fs[0]); } else { NoSpaceInEpithet(fs[i]); }
    }
    SplitJoin(fs);
    JoinFields(s);
  }

  /** A name that passes the shape filter is never skipped as malformed:
      the authority is asked for its genus and first epithet. */
  lemma ShapedNameIsQueried(s: string)
    requires MatchesBinomial(s)
    ensures 2 <= |Split(s)| <= 3
    ensures QueryFor(s).Some?
    ensures IsGenus(QueryFor(s).value.0) && IsEpithet(QueryFor(s).value.1)
  {
    if FullMatch(s) {
      FullMatchSplit(s);
    } else {
      var t := s[..|s| - 1];
      assert s == t + ['\n'];
      SplitAppendSpace(t, '\n');
      FullMatchSplit(t);
    }
    QueryIsFirstTwoTokens(s);
  }
}
