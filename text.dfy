/**
 * Python's whitespace handling on `str`: `str.isspace` on one character,
 * `str.strip()` and `str.split()` with no arguments. `validate_species_name`
 * applies `name.strip().split()` to every candidate before querying the
 * nomenclature authority.
 */
module Text {

  /** Python's `str.isspace` for one character: the code points with
      bidirectional class WS, B or S, or general category Zs. */
  predicate IsSpace(c: char) {
    var k := c as int;
    (9 <= k <= 13) || (28 <= k <= 32) || k == 0x85 || k == 0xA0 || k == 0x1680 ||
    (0x2000 <= k <= 0x200A) || k == 0x2028 || k == 0x2029 || k == 0x202F ||
    k == 0x205F || k == 0x3000
  }

  predicate NoSpace(s: string) {
    forall k :: 0 <= k < |s| ==> !IsSpace(s[k])
  }

  predicate AllSpace(s: string) {
    forall k :: 0 <= k < |s| ==> IsSpace(s[k])
  }

  /** The longest prefix of `s` that holds no whitespace. */
  function Word(s: string): (w: string)
    ensures w <= s && NoSpace(w)
    ensures |w| < |s| ==> IsSpace(s[|w|])
  {
    if s == [] || IsSpace(s[0]) then [] else [s[0]] + Word(s[1..])
  }

  /** `s.split()`: the maximal runs of non-whitespace characters, in order. */
  function Split(s: string): (parts: seq<string>)
    ensures forall i :: 0 <= i < |parts| ==> parts[i] != [] && NoSpace(parts[i])
    decreases |s|
  {
    if s == [] then []
    else if IsSpace(s[0]) then Split(s[1..])
    else
      var w := Word(s);
      [w] + Split(s[|w|..])
  }

  /** `s.lstrip()`: drop leading whitespace. */
  function LStrip(s: string): (r: string)
    ensures |r| <= |s| && r == s[|s| - |r|..]
    ensures AllSpace(s[..|s| - |r|])
    ensures r == [] || !IsSpace(r[0])
  {
    if s != [] && IsSpace(s[0]) then LStrip(s[1..]) else s
  }

  /** `s.rstrip()`: drop trailing whitespace. */
  function RStrip(s: string): (r: string)
    ensures |r| <= |s| && r == s[..|r|]
    ensures AllSpace(s[|r|..])
    ensures r == [] || !IsSpace(r[|r| - 1])
  {
    if s != [] && IsSpace(s[|s| - 1]) then
      var r := RStrip(s[..|s| - 1]);
      assert s[|r|..] == s[..|s| - 1][|r|..] + [s[|s| - 1]];
      r
    else s
  }

  /** `s.strip()`. */
  function Strip(s: string): (r: string)
  {
    RStrip(LStrip(s))
  }

  /** What `strip()` produces: a slice of `s` with only whitespace cut from
      either end, and no whitespace left at either end of it. */
  lemma StripSlice(s: string)
    ensures exists i, j :: 0 <= i <= j <= |s| && Strip(s) == s[i..j] &&
                           AllSpace(s[..i]) && AllSpace(s[j..])
    ensures Strip(s) == [] || (!IsSpace(Strip(s)[0]) && !IsSpace(Strip(s)[|Strip(s)| - 1]))
  {
    var l := LStrip(s);
    var i := |s| - |l|;
    var r := RStrip(l);
    var j := i + |r|;
    assert l == s[i..];
    assert r == l[..|r|];
    assert s[i..j] == r;
    assert s[j..] == l[|r|..];
    assert r != [] ==> r[0] == l[0];
    assert Strip(s) == r;
  }

  /** The characters `split()` keeps: every non-whitespace character of `s`, in order. */
  function NonSpace(s: string): (r: string)
    ensures NoSpace(r)
  {
    if s == [] then [] else (if IsSpace(s[0]) then [] else [s[0]]) + NonSpace(s[1..])
  }

  /** Concatenation of a sequence of strings. */
  function Concat(parts: seq<string>): string
  {
    if parts == [] then [] else parts[0] + Concat(parts[1..])
  }

  /** The parts joined by one separator character, as Python's `sep.join(parts)`. */
  function Join(parts: seq<string>, sep: char): string
  {
    if parts == [] then []
    else if |parts| == 1 then parts[0]
    else parts[0] + [sep] + Join(parts[1..], sep)
  }

  lemma {:induction false} NonSpaceAppend(a: string, b: string)
    ensures NonSpace(a + b) == NonSpace(a) + NonSpace(b)
    decreases |a|
  {
    if a == [] {
      assert a + b == b;
    } else {
      assert (a + b)[1..] == a[1..] + b;
      NonSpaceAppend(a[1..], b);
    }
  }

  lemma {:induction false} NonSpaceOfWord(w: string)
    requires NoSpace(w)
    ensures NonSpace(w) == w
    decreases |w|
  {
    if w != [] { NonSpaceOfWord(w[1..]); }
  }

  /** `split()` loses exactly the whitespace: the parts, concatenated, are the
      non-whitespace characters of `s`. */
  lemma {:induction false} SplitKeepsNonSpace(s: string)
    ensures Concat(Split(s)) == NonSpace(s)
    decreases |s|
  {
    if s == [] {
    } else if IsSpace(s[0]) {
      SplitKeepsNonSpace(s[1..]);
    } else {
      var w := Word(s);
      assert s == w + s[|w|..];
      SplitKeepsNonSpace(s[|w|..]);
      NonSpaceAppend(w, s[|w|..]);
      NonSpaceOfWord(w);
    }
  }

  lemma {:induction false} WordOfPrefix(w: string, rest: string)
    requires NoSpace(w)
    requires rest == [] || IsSpace(rest[0])
    ensures Word(w + rest) == w
    decreases |w|
  {
    if w == [] {
    } else {
      assert (w + rest)[1..] == w[1..] + rest;
      WordOfPrefix(w[1..], rest);
    }
  }

  lemma SplitWord(w: string)
    requires w != [] && NoSpace(w)
    ensures Split(w) == [w]
  {
    WordOfPrefix(w, []);
    assert w + [] == w;
    assert w[|w|..] == [];
  }

  lemma SplitWordThenSpace(w: string, rest: string)
    requires w != [] && NoSpace(w)
    ensures Split(w + [' '] + rest) == [w] + Split(rest)
  {
    var s := w + [' '] + rest;
    assert s == w + ([' '] + rest);
    WordOfPrefix(w, [' '] + rest);
    assert s[|w|..] == [' '] + rest;
    assert s[|w|..][1..] == rest;
  }

  /** `split()` inverts joining with a space: non-empty parts free of
      whitespace come back exactly. */
  lemma {:induction false} SplitJoin(parts: seq<string>)
    requires forall i :: 0 <= i < |parts| ==> parts[i] != [] && NoSpace(parts[i])
    ensures Split(Join(parts, ' ')) == parts
    decreases |parts|
  {
    if parts == [] {
    } else if |parts| == 1 {
      SplitWord(parts[0]);
    } else {
      SplitWordThenSpace(parts[0], Join(parts[1..], ' '));
      SplitJoin(parts[1..]);
      assert [parts[0]] + parts[1..] == parts;
    }
  }

  lemma {:induction false} WordAppendSpace(x: string, c: char)
    requires IsSpace(c)
    ensures Word(x + [c]) == Word(x)
    decreases |x|
  {
    if x != [] && !IsSpace(x[0]) {
      assert (x + [c])[1..] == x[1..] + [c];
      WordAppendSpace(x[1..], c);
    }
  }

  /** Trailing whitespace does not change what `split()` returns. */
  lemma {:induction false} SplitAppendSpace(x: string, c: char)
    requires IsSpace(c)
    ensures Split(x + [c]) == Split(x)
    decreases |x|
  {
    if x == [] {
      assert [c][1..] == [];
    } else if IsSpace(x[0]) {
      assert (x + [c])[1..] == x[1..] + [c];
      SplitAppendSpace(x[1..], c);
    } else {
      WordAppendSpace(x, c);
      var w := Word(x);
      assert (x + [c])[|w|..] == x[|w|..] + [c];
      SplitAppendSpace(x[|w|..], c);
    }
  }

  lemma {:induction false} SplitLStrip(s: string)
    ensures Split(LStrip(s)) == Split(s)
    decreases |s|
  {
    if s != [] && IsSpace(s[0]) { SplitLStrip(s[1..]); }
  }

  lemma {:induction false} SplitRStrip(s: string)
    ensures Split(RStrip(s)) == Split(s)
    decreases |s|
  {
    if s != [] && IsSpace(s[|s| - 1]) {
      var x := s[..|s| - 1];
      assert s == x + [s[|s| - 1]];
      SplitAppendSpace(x, s[|s| - 1]);
      SplitRStrip(x);
    }
  }

  /** `name.strip().split()` is `name.split()`: the `strip()` before
      `split()` changes nothing. */
  lemma SplitIgnoresStrip(s: string)
    ensures Split(Strip(s)) == Split(s)
  {
    SplitRStrip(LStrip(s));
    SplitLStrip(s);
  }
}
