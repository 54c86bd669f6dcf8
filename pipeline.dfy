/**
 * The main block of `scrape_species.py` after the scrapers have run: the
 * raw names are deduplicated and sorted, each one is validated, every
 * result is added to a set, and the set is emitted sorted.
 */
module Pipeline {
  import opened Wrappers
  import opened Ordering
  import opened Powo

  /** The accepted names the authority gives for a set of candidates. */
  ghost function AcceptedNames(names: set<string>, lookup: Lookup): set<string>
  {
    set n | n in names && Validate(n, lookup).Some? :: Validate(n, lookup).value
  }

  /** The output for `allSpecies`: ascending, no repeats, and exactly the
      validation results of its distinct names. */
  ghost predicate IsAcceptedList(allSpecies: seq<string>, lookup: Lookup, r: seq<string>)
  {
    StrictlySorted(r) && Elements(r) == AcceptedNames(Elements(allSpecies), lookup)
  }

  /** The list written to `accepted_species.json`. */
  method AcceptedSpecies(allSpecies: seq<string>, lookup: Lookup) returns (accepted: seq<string>)
    ensures IsAcceptedList(allSpecies, lookup, accepted)
    ensures |accepted| <= |Elements(allSpecies)|
  {
    var rawNames := Sorted(set n | n in allSpecies);
    var acceptedSet: set<string> := {};
    for i := 0 to |rawNames|
      invariant acceptedSet == AcceptedNames(Elements(rawNames[..i]), lookup)
    {
      var validated := ValidateSpeciesName(rawNames[i], lookup);
      AcceptedNamesAdd(rawNames, i, lookup);
      if validated.Some? && validated.value != "" {
        acceptedSet := acceptedSet + {validated.value};
      }
    }
    assert rawNames[..|rawNames|] == rawNames;
    accepted := Sorted(acceptedSet);
    AcceptedNamesBound(Elements(allSpecies), lookup);
  }

  /** One more candidate adds its own result, if any, and nothing else. */
  lemma AcceptedNamesAdd(rawNames: seq<string>, i: nat, lookup: Lookup)
    requires i < |rawNames|
    ensures AcceptedNames(Elements(rawNames[..i + 1]), lookup) ==
            AcceptedNames(Elements(rawNames[..i]), lookup) +
            (if Validate(rawNames[i], lookup).Some? then {Validate(rawNames[i], lookup).value} else {})
  {
    assert rawNames[..i + 1] == rawNames[..i] + [rawNames[i]];
    assert Elements(rawNames[..i + 1]) == Elements(rawNames[..i]) + {rawNames[i]};
  }

  lemma SubsetSize<T>(a: set<T>, b: set<T>)
    requires a <= b
    ensures |a| <= |b|
  {
    assert b == a + (b - a);
  }

  /** At most one accepted name per distinct candidate. */
  lemma {:induction false} AcceptedNamesBound(names: set<string>, lookup: Lookup)
    ensures |AcceptedNames(names, lookup)| <= |names|
    decreases |names|
  {
    if names != {} {
      var n :| n in names;
      var rest := names - {n};
      AcceptedNamesBound(rest, lookup);
      var v := Validate(n, lookup);
      var extra: set<string> := if v.Some? then {v.value} else {};
      assert AcceptedNames(names, lookup) <= AcceptedNames(rest, lookup) + extra;
      SubsetSize(AcceptedNames(names, lookup), AcceptedNames(rest, lookup) + extra);
    }
  }

  /** A name is in the output exactly when some distinct candidate validates to it. */
  lemma AcceptedMembership(allSpecies: seq<string>, lookup: Lookup, r: seq<string>, x: string)
    requires IsAcceptedList(allSpecies, lookup, r)
    ensures x in r <==> exists n :: n in allSpecies && Validate(n, lookup) == Some(x)
  {
    assert x in r <==> x in Elements(r);
    if exists n :: n in allSpecies && Validate(n, lookup) == Some(x) {
      var n :| n in allSpecies && Validate(n, lookup) == Some(x);
      assert n in Elements(allSpecies);
    }
  }

  /** Each accepted name appears in the output once. */
  lemma NoDuplicates(allSpecies: seq<string>, lookup: Lookup, r: seq<string>)
    requires IsAcceptedList(allSpecies, lookup, r)
    ensures forall i, j :: 0 <= i < j < |r| ==> r[i] != r[j]
  {
    forall i, j | 0 <= i < j < |r| ensures r[i] != r[j] {
      LessIrreflexive(r[i]);
    }
  }

  /** The output depends only on which distinct names were scraped: any
      reordering or repetition of the raw list gives the same list. */
  lemma OrderIndependent(a: seq<string>, b: seq<string>, lookup: Lookup, ra: seq<string>, rb: seq<string>)
    requires Elements(a) == Elements(b)
    requires IsAcceptedList(a, lookup, ra) && IsAcceptedList(b, lookup, rb)
    ensures ra == rb
  {
    SortedUnique(ra, rb);
  }

  /** In particular a permutation of the raw list gives the same output. */
  lemma PermutationInvariant(a: seq<string>, b: seq<string>, lookup: Lookup, ra: seq<string>, rb: seq<string>)
    requires multiset(a) == multiset(b)
    requires IsAcceptedList(a, lookup, ra) && IsAcceptedList(b, lookup, rb)
    ensures ra == rb
  {
    assert forall x :: x in a <==> x in multiset(a);
    assert Elements(a) == Elements(b);
    OrderIndependent(a, b, lookup, ra, rb);
  }

  /** Every output name was returned by the authority, for one of the candidates. */
  lemma OutputFromAuthority(allSpecies: seq<string>, lookup: Lookup, r: seq<string>, k: nat)
    requires IsAcceptedList(allSpecies, lookup, r) && k < |r|
    ensures exists n :: n in allSpecies && Validate(n, lookup) == Some(r[k])
  {
    AcceptedMembership(allSpecies, lookup, r, r[k]);
  }

  /** An authority stub: "Lantana camara" is accepted, "Lantana aculeata"
      is a synonym of it, and nothing else is known. */
  function LantanaAuthority(): Lookup
  {
    (genus: string, species: string) =>
      if genus == "Lantana" && species == "camara" then
        Records([Record(Some("Species"), Some(true), Some("Lantana camara"), Absent)])
      else if genus == "Lantana" && species == "aculeata" then
        Records([Record(Some("Species"), Some(false), Some("Lantana aculeata"),
                        Entry(Some("Lantana camara")))])
      else Records([])
  }

  lemma QueryOfTwoWords(g: string, e: string)
    requires g != [] && e != [] && Text.NoSpace(g) && Text.NoSpace(e)
    ensures QueryFor(g + " " + e) == Some((g, e))
  {
    assert Text.Join([g, e], ' ') == g + " " + e;
    Text.SplitJoin([g, e]);
    QueryIsFirstTwoTokens(g + " " + e);
  }

  lemma CamaraQuery()
    ensures QueryFor("Lantana camara") == Some(("Lantana", "camara"))
  {
    assert "Lantana camara" == "Lantana" + " " + "camara";
    QueryOfTwoWords("Lantana", "camara");
  }

  lemma CamaraAnswer()
    ensures LantanaAuthority()("Lantana", "camara") ==
            Records([Record(Some("Species"), Some(true), Some("Lantana camara"), Absent)])
  {
  }

  lemma CamaraAccepted()
    ensures Validate("Lantana camara", LantanaAuthority()) == Some("Lantana camara")
  {
    var rec := Record(Some("Species"), Some(true), Some("Lantana camara"), Absent);
    CamaraQuery();
    CamaraAnswer();
    assert Scan([rec]) == Some("Lantana camara");
    ResultOfRecords("Lantana camara", LantanaAuthority(), ("Lantana", "camara"), [rec]);
  }

  lemma AculeataQuery()
    ensures QueryFor("Lantana aculeata") == Some(("Lantana", "aculeata"))
  {
    assert "Lantana aculeata" == "Lantana" + " " + "aculeata";
    QueryOfTwoWords("Lantana", "aculeata");
  }

  lemma AculeataAnswer()
    ensures LantanaAuthority()("Lantana", "aculeata") ==
            Records([Record(Some("Species"), Some(false), Some("Lantana aculeata"), Entry(Some("Lantana camara")))])
  {
    assert "aculeata" != "camara" by { assert |"aculeata"| != |"camara"|; }
  }

  lemma AculeataScan()
    ensures Scan([Record(Some("Species"), Some(false), Some("Lantana aculeata"), Entry(Some("Lantana camara")))]) ==
            Some("Lantana camara")
  {
  }

  lemma AculeataResolved()
    ensures Validate("Lantana aculeata", LantanaAuthority()) == Some("Lantana camara")
  {
    AculeataQuery();
    AculeataAnswer();
    AculeataScan();
    ResultOfRecords("Lantana aculeata", LantanaAuthority(), ("Lantana", "aculeata"),
                    [Record(Some("Species"), Some(false), Some("Lantana aculeata"), Entry(Some("Lantana camara")))]);
  }

  lemma UnknownQuery()
    ensures QueryFor("Unmatched sp") == Some(("Unmatched", "sp"))
  {
    assert "Unmatched sp" == "Unmatched" + " " + "sp";
    QueryOfTwoWords("Unmatched", "sp");
  }

  lemma UnknownUnmatched()
    ensures Validate("Unmatched sp", LantanaAuthority()) == None
  {
    UnknownQuery();
    assert LantanaAuthority()("Unmatched", "sp") == Records([]);
    ResultOfRecords("Unmatched sp", LantanaAuthority(), ("Unmatched", "sp"), []);
  }

  lemma SingleTokenMalformed()
    ensures Validate("SingleToken", LantanaAuthority()) == None
  {
    Text.SplitJoin(["SingleToken"]);
    MalformedNotQueried("SingleToken", LantanaAuthority(), LantanaAuthority());
  }

  /** When every candidate gives `x` or nothing, and one gives `x`, the
      accepted names are just `x`. */
  lemma OneAcceptedName(names: set<string>, lookup: Lookup, x: string, n: string)
    requires n in names && Validate(n, lookup) == Some(x)
    requires forall m :: m in names ==> Validate(m, lookup) == None || Validate(m, lookup) == Some(x)
    ensures AcceptedNames(names, lookup) == {x}
  {
  }

  function LantanaCandidates(): seq<string>
  {
    ["Lantana camara", "Lantana aculeata", "Unmatched sp", "SingleToken", "Lantana camara"]
  }

  lemma LantanaResults(m: string)
    requires m in LantanaCandidates()
    ensures Validate(m, LantanaAuthority()) == None ||
            Validate(m, LantanaAuthority()) == Some("Lantana camara")
  {
    if m == "Lantana camara" {
      CamaraAccepted();
    } else if m == "Lantana aculeata" {
      AculeataResolved();
    } else if m == "Unmatched sp" {
      UnknownUnmatched();
    } else {
      assert m == "SingleToken";
      SingleTokenMalformed();
    }
  }

  /** A direct match and a synonym that resolve to the same name give it
      once; an unknown name and a one-word name give nothing. */
  lemma LantanaScenario(r: seq<string>)
    requires IsAcceptedList(LantanaCandidates(), LantanaAuthority(), r)
    ensures r == ["Lantana camara"]
  {
    var raw := LantanaCandidates();
    forall m | m in Elements(raw)
      ensures Validate(m, LantanaAuthority()) == None ||
              Validate(m, LantanaAuthority()) == Some("Lantana camara")
    {
      LantanaResults(m);
    }
    CamaraAccepted();
    assert raw[0] in Elements(raw);
    OneAcceptedName(Elements(raw), LantanaAuthority(), "Lantana camara", "Lantana camara");
    var expected := ["Lantana camara"];
    assert StrictlySorted(expected);
    assert Elements(expected) == {"Lantana camara"};
    SortedUnique(r, expected);
  }
}
