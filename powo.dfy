/**
 * `validate_species_name`: turn one candidate string into the accepted
 * name the nomenclature authority (Kew's Plants of the World Online,
 * reached through `pykew`) gives for it, or into no result.
 *
 * The authority is a parameter: a `Lookup` maps the (genus, species)
 * pair that is asked for to the records the search returns, or to a
 * failure.
 */
module Powo {
  import opened Wrappers
  import opened Text

  /** The `synonymOf` entry of a search record. */
  datatype SynonymOf =
    | Absent                       // the key is not in the record
    | Entry(name: Option<string>)  // a mapping, with or without a `name` key
    | NotAMapping                  // present but not a mapping (e.g. null): `.get` raises

  /** One search record; an absent key is `None`. */
  datatype Record = Record(
    rank: Option<string>,
    accepted: Option<bool>,
    name: Option<string>,
    synonymOf: SynonymOf)

  /** What the search gives: the records it yields, or an exception. */
  datatype Response = Failure | Records(records: seq<Record>)

  type Lookup = (string, string) -> Response

  /** Python truthiness of a name value: present and not the empty string. */
  predicate Usable(n: Option<string>) {
    n.Some? && n.value != ""
  }

  predicate IsSpecies(rec: Record) {
    rec.rank == Some("Species")
  }

  /** What one record makes the loop do: go on, return a name, or raise. */
  datatype Verdict = Skip | Accepted(name: string) | Synonym(name: string) | Raised

  /** The body of the loop over the search records, for one record. */
  function Classify(rec: Record): (v: Verdict)
    ensures !IsSpecies(rec) ==> v == Skip
    ensures v.Accepted? <==> IsSpecies(rec) && rec.accepted == Some(true) && Usable(rec.name)
    ensures v.Accepted? ==> rec.name == Some(v.name)
    ensures v.Synonym? <==> IsSpecies(rec) && rec.accepted == Some(false) &&
                            rec.synonymOf.Entry? && Usable(rec.synonymOf.name)
    ensures v.Synonym? ==> rec.synonymOf == Entry(Some(v.name))
    ensures v.Raised? <==> IsSpecies(rec) && rec.accepted == Some(false) && rec.synonymOf == NotAMapping
  {
    if !IsSpecies(rec) then Skip
    else if rec.accepted == Some(true) then
      if Usable(rec.name) then Accepted(rec.name.value) else Skip
    else if rec.accepted == Some(false) && !rec.synonymOf.Absent? then
      if rec.synonymOf.NotAMapping? then Raised
      else if Usable(rec.synonymOf.name) then Synonym(rec.synonymOf.name.value)
      else Skip
    else Skip
  }

  /** What `validate_species_name` returns once a record has decided. */
  function Outcome(v: Verdict): Option<string>
  {
    match v
    case Accepted(n) => Some(n)
    case Synonym(n) => Some(n)
    case _ => None
  }

  /** The loop over the search records: the first record that does not
      say "go on" decides; running out of records gives no result. */
  function Scan(rs: seq<Record>): (r: Option<string>)
    ensures r.Some? ==> r.value != ""
    ensures r.Some? ==> exists i :: 0 <= i < |rs| && IsSpecies(rs[i]) &&
                                    (rs[i].name == r || rs[i].synonymOf == Entry(r))
    decreases |rs|
  {
    if rs == [] then None
    else match Classify(rs[0])
      case Skip =>
        var r := Scan(rs[1..]);
        assert r.Some? ==> exists i :: 0 <= i < |rs[1..]| && IsSpecies(rs[1..][i]) &&
                                      (rs[1..][i].name == r || rs[1..][i].synonymOf == Entry(r));
        assert r.Some? ==> exists i :: 0 <= i < |rs| && IsSpecies(rs[i]) &&
                                      (rs[i].name == r || rs[i].synonymOf == Entry(r)) by {
          if r.Some? {
            var i :| 0 <= i < |rs[1..]| && IsSpecies(rs[1..][i]) &&
                     (rs[1..][i].name == r || rs[1..][i].synonymOf == Entry(r));
            assert rs[i + 1] == rs[1..][i];
          }
        }
        r
      case Raised => None
      case Accepted(n) => assert IsSpecies(rs[0]); Some(n)
      case Synonym(n) => assert IsSpecies(rs[0]); Some(n)
  }

  /** The (genus, species) pair asked for: the first two tokens of
      `name.strip().split()`, or nothing when there are fewer than two. */
  function QueryFor(name: string): (q: Option<(string, string)>)
    ensures q.Some? ==> q.value.0 != "" && NoSpace(q.value.0) && q.value.1 != "" && NoSpace(q.value.1)
  {
    var parts := Split(Strip(name));
    if |parts| < 2 then None else Some((parts[0], parts[1]))
  }

  /** `validate_species_name(name)` against the authority `lookup`. */
  function Validate(name: string, lookup: Lookup): (r: Option<string>)
    ensures r.Some? ==> r.value != ""
  {
    match QueryFor(name)
    case None => None
    case Some(q) =>
      match lookup(q.0, q.1)
      case Failure => None
      case Records(rs) => Scan(rs)
  }

  /** `validate_species_name`, written as the source's early-exit loop. */
  method ValidateSpeciesName(name: string, lookup: Lookup) returns (validated: Option<string>)
    ensures validated == Validate(name, lookup)
  {
    var parts := Split(Strip(name));
    if |parts| < 2 {
      return None;
    }
    var genus, species := parts[0], parts[1];
    assert QueryFor(name) == Some((genus, species));
    var response := lookup(genus, species);
    if response.Failure? {
      FailureNoResult(name, lookup);
      return None;
    }
    var results := response.records;
    ResultOfRecords(name, lookup, (genus, species), results);
    for i := 0 to |results|
      invariant Scan(results[i..]) == Scan(results)
    {
      var result := results[i];
      assert results[i..] == [result] + results[i + 1..];
      if result.rank != Some("Species") {
        continue;
      }
      if result.accepted == Some(true) {
        var acceptedName := result.name;
        if acceptedName.Some? && acceptedName.value != "" {
          return acceptedName;
        }
      } else if result.accepted == Some(false) && !result.synonymOf.Absent? {
        if result.synonymOf.NotAMapping? {
          return None;
        }
        var acceptedName := result.synonymOf.name;
        if acceptedName.Some? && acceptedName.value != "" {
          return acceptedName;
        }
      }
    }
    return None;
  }

  /** No record before index `i` decides anything. */
  ghost predicate SkipsBefore(rs: seq<Record>, i: int)
    requires 0 <= i <= |rs|
  {
    forall j :: 0 <= j < i ==> Classify(rs[j]) == Skip
  }

  /** The first deciding record fixes the result. */
  lemma {:induction false} DecidedAt(rs: seq<Record>, i: nat)
    requires i < |rs| && SkipsBefore(rs, i) && Classify(rs[i]) != Skip
    ensures Scan(rs) == Outcome(Classify(rs[i]))
    decreases i
  {
    if i > 0 {
      assert Classify(rs[0]) == Skip;
      assert forall j :: 0 <= j < i - 1 ==> rs[1..][j] == rs[j + 1];
      DecidedAt(rs[1..], i - 1);
    }
  }

  /** Once a record decides, no later record is looked at. */
  lemma LaterRecordsIgnored(rs: seq<Record>, i: nat, tail: seq<Record>)
    requires i < |rs| && SkipsBefore(rs, i) && Classify(rs[i]) != Skip
    ensures Scan(rs + tail) == Scan(rs)
  {
    DecidedAt(rs, i);
    assert forall j :: 0 <= j <= i ==> (rs + tail)[j] == rs[j];
    DecidedAt(rs + tail, i);
  }

  /** With no deciding record the scan gives no result. */
  lemma {:induction false} NoDecisionNoResult(rs: seq<Record>)
    requires forall j :: 0 <= j < |rs| ==> Classify(rs[j]) == Skip
    ensures Scan(rs) == None
    decreases |rs|
  {
    if rs != [] {
      NoDecisionNoResult(rs[1..]);
    }
  }

  /** The scan returns `n` exactly when some record with only non-deciding
      records before it returns `n`. */
  lemma {:induction false} ScanFirstMatch(rs: seq<Record>, n: string)
    ensures Scan(rs) == Some(n) <==>
            exists i :: 0 <= i < |rs| && SkipsBefore(rs, i) && Outcome(Classify(rs[i])) == Some(n)
    decreases |rs|
  {
    if rs == [] {
    } else if Classify(rs[0]) == Skip {
      ScanFirstMatch(rs[1..], n);
      if Scan(rs) == Some(n) {
        var i :| 0 <= i < |rs[1..]| && SkipsBefore(rs[1..], i) && Outcome(Classify(rs[1..][i])) == Some(n);
        assert SkipsBefore(rs, i + 1) && rs[i + 1] == rs[1..][i];
      }
      if exists i :: 0 <= i < |rs| && SkipsBefore(rs, i) && Outcome(Classify(rs[i])) == Some(n) {
        var i :| 0 <= i < |rs| && SkipsBefore(rs, i) && Outcome(Classify(rs[i])) == Some(n);
        DecidedAt(rs, i);
      }
    } else {
      if exists i :: 0 <= i < |rs| && SkipsBefore(rs, i) && Outcome(Classify(rs[i])) == Some(n) {
        var i :| 0 <= i < |rs| && SkipsBefore(rs, i) && Outcome(Classify(rs[i])) == Some(n);
        assert i == 0;
      }
      assert SkipsBefore(rs, 0);
    }
  }

  /** An accepted species record with a usable name, reached first, is the result. */
  lemma AcceptedRecordWins(rs: seq<Record>, i: nat, n: string)
    requires i < |rs| && SkipsBefore(rs, i)
    requires rs[i].rank == Some("Species") && rs[i].accepted == Some(true)
    requires rs[i].name == Some(n) && n != ""
    ensures Scan(rs) == Some(n)
  {
    DecidedAt(rs, i);
  }

  /** A non-accepted species record whose `synonymOf` has a usable name,
      reached first, resolves to that name; nothing scores it first. */
  lemma SynonymRecordWins(rs: seq<Record>, i: nat, n: string)
    requires i < |rs| && SkipsBefore(rs, i)
    requires rs[i].rank == Some("Species") && rs[i].accepted == Some(false)
    requires rs[i].synonymOf == Entry(Some(n)) && n != ""
    ensures Scan(rs) == Some(n)
  {
    DecidedAt(rs, i);
  }

  /** A `synonymOf` that is not a mapping raises inside the loop: no result,
      whatever the later records hold. */
  lemma BrokenSynonymEndsScan(rs: seq<Record>, i: nat)
    requires i < |rs| && SkipsBefore(rs, i)
    requires rs[i].rank == Some("Species") && rs[i].accepted == Some(false)
    requires rs[i].synonymOf == NotAMapping
    ensures Scan(rs) == None
  {
    DecidedAt(rs, i);
  }

  /** Species records that name nothing usable let the scan go on. */
  lemma IncompleteRecordContinues(rec: Record, rest: seq<Record>)
    requires rec.rank == Some("Species")
    requires || (rec.accepted == Some(true) && !Usable(rec.name))
             || rec.accepted == None
             || (rec.accepted == Some(false) && rec.synonymOf == Absent)
             || (rec.accepted == Some(false) && rec.synonymOf.Entry? && !Usable(rec.synonymOf.name))
    ensures Scan([rec] + rest) == Scan(rest)
  {
    assert ([rec] + rest)[1..] == rest;
  }

  /** The records that are of rank "Species", in order. */
  function SpeciesOnly(rs: seq<Record>): (r: seq<Record>)
    ensures forall j :: 0 <= j < |r| ==> IsSpecies(r[j])
    ensures |r| <= |rs|
  {
    if rs == [] then []
    else if IsSpecies(rs[0]) then [rs[0]] + SpeciesOnly(rs[1..])
    else SpeciesOnly(rs[1..])
  }

  /** Records of any other rank are ignored completely: dropping them all
      does not change the result. */
  lemma {:induction false} OtherRanksIgnored(rs: seq<Record>)
    ensures Scan(SpeciesOnly(rs)) == Scan(rs)
    decreases |rs|
  {
    if rs != [] {
      OtherRanksIgnored(rs[1..]);
      if IsSpecies(rs[0]) {
        assert ([rs[0]] + SpeciesOnly(rs[1..]))[1..] == SpeciesOnly(rs[1..]);
      }
    }
  }

  /** Inserting a record of any other rank anywhere does not change the result. */
  lemma {:induction false} OtherRankInsertedIgnored(rs: seq<Record>, i: nat, x: Record)
    requires i <= |rs| && !IsSpecies(x)
    ensures Scan(rs[..i] + [x] + rs[i..]) == Scan(rs)
    decreases i
  {
    if i == 0 {
      assert rs[..0] + [x] + rs[0..] == [x] + rs;
      assert ([x] + rs)[1..] == rs;
    } else {
      OtherRankInsertedIgnored(rs[1..], i - 1, x);
      var s := rs[..i] + [x] + rs[i..];
      assert s[0] == rs[0];
      assert s[1..] == rs[1..][..i - 1] + [x] + rs[1..][i - 1..];
    }
  }

  /** Fewer than two tokens: no result, and the authority is never asked,
      so the answer is the same for any authority. */
  lemma MalformedNotQueried(name: string, lookup: Lookup, other: Lookup)
    requires |Split(name)| < 2
    ensures QueryFor(name) == None
    ensures Validate(name, lookup) == None && Validate(name, other) == None
  {
    SplitIgnoresStrip(name);
  }

  /** The authority is asked about exactly one pair: two authorities that
      agree on it give the same result. */
  lemma OnlyTheQueryMatters(name: string, lookup: Lookup, other: Lookup)
    requires QueryFor(name).Some?
    requires lookup(QueryFor(name).value.0, QueryFor(name).value.1) ==
             other(QueryFor(name).value.0, QueryFor(name).value.1)
    ensures Validate(name, lookup) == Validate(name, other)
  {
  }

  /** The pair asked for is the first two whitespace-separated tokens. */
  lemma QueryIsFirstTwoTokens(name: string)
    ensures QueryFor(name).Some? <==> |Split(name)| >= 2
    ensures QueryFor(name).Some? ==>
            QueryFor(name).value == (Split(name)[0], Split(name)[1])
  {
    SplitIgnoresStrip(name);
  }

  /** With records to look at, the result is what the scan of them gives. */
  lemma ResultOfRecords(name: string, lookup: Lookup, q: (string, string), rs: seq<Record>)
    requires QueryFor(name) == Some(q) && lookup(q.0, q.1) == Records(rs)
    ensures Validate(name, lookup) == Scan(rs)
  {
  }

  /** A failed search gives no result; the exception does not escape. */
  lemma FailureNoResult(name: string, lookup: Lookup)
    requires QueryFor(name).Some?
    requires lookup(QueryFor(name).value.0, QueryFor(name).value.1) == Failure
    ensures Validate(name, lookup) == None
  {
  }

  /** Every result is copied from the `name` or `synonymOf.name` of a
      species record the authority returned for this candidate's pair. */
  lemma ResultFromAuthority(name: string, lookup: Lookup)
    requires Validate(name, lookup).Some?
    ensures QueryFor(name).Some?
    ensures var q := QueryFor(name).value;
            var n := Validate(name, lookup);
            lookup(q.0, q.1).Records? &&
            exists i :: 0 <= i < |lookup(q.0, q.1).records| &&
              IsSpecies(lookup(q.0, q.1).records[i]) &&
              (lookup(q.0, q.1).records[i].name == n ||
               lookup(q.0, q.1).records[i].synonymOf == Entry(n))
  {
  }
}
