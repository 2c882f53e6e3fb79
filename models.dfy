/** The rule classifier (lenu/ml/models.py): the most frequent training label
    among the codes of the abbreviations a name matches, with the overall most
    frequent label as fallback. */
module Models {
  import opened Wrappers
  import opened ElfCodes
  import opened Seqs

  /** The errors `fit` and `predict` raise. */
  datatype ClassifierError =
    | NotFitted        // `check_is_fitted` finds `frequencies_` or `most_frequent_` missing
    | EmptyInput       // `X["Jurisdiction"].iloc[0]` on an empty frame
    | NoCandidates     // `max` over an empty list of codes
    | EmptyLabels      // `idxmax` of an empty `value_counts`

  /** `frequencies_.get(code, 0)`. */
  function Frequency(frequencies: map<string, nat>, code: string): nat
  {
    if code in frequencies then frequencies[code] else 0
  }

  /** Python's `max(codes, key=...)` over a non-empty list: the position of the
      first element of greatest frequency. */
  function MaxIndex(codes: seq<string>, frequencies: map<string, nat>): (i: nat)
    requires |codes| > 0
    ensures i < |codes|
    ensures forall k :: 0 <= k < |codes| ==> Frequency(frequencies, codes[k]) <= Frequency(frequencies, codes[i])
    ensures forall k :: 0 <= k < i ==> Frequency(frequencies, codes[k]) < Frequency(frequencies, codes[i])
  {
    if |codes| == 1 then 0
    else
      var j := MaxIndex(codes[..|codes| - 1], frequencies);
      if Frequency(frequencies, codes[|codes| - 1]) > Frequency(frequencies, codes[j]) then |codes| - 1 else j
  }

  /** What the rule methods read from the classifier: the index, the fitted
      label counts and the two matching flags. */
  datatype Rules = Rules(
    index: ElfAbbreviations,
    frequencies: map<string, nat>,
    useLowercasing: bool,
    useEndsWith: bool)
  {
    predicate NameMatches(name: string, abbr: string)
    {
      Matches(name, abbr, useLowercasing, useEndsWith)
    }

    /** `_best_elf_code_for_abbr`: `None` when the name does not match the
        abbreviation; otherwise the first code of greatest frequency among the
        codes of the abbreviation, or the error `max` raises when there are none. */
    function BestElfCodeForAbbr(jurisdiction: string, name: string, abbr: string): (r: Result<Option<string>, ClassifierError>)
      ensures r == Success(None) <==> !NameMatches(name, abbr)
      ensures r.Failure? <==> NameMatches(name, abbr) && index.ElfCodesForAbbreviation(jurisdiction, abbr) == []
      ensures r.Failure? ==> r.error == NoCandidates
      ensures r.Success? && r.value.Some? ==>
        var codes := index.ElfCodesForAbbreviation(jurisdiction, abbr);
        && r.value.value in codes
        && (forall c :: c in codes ==> Frequency(frequencies, c) <= Frequency(frequencies, r.value.value))
        && exists i :: 0 <= i < |codes| && codes[i] == r.value.value &&
             forall k :: 0 <= k < i ==> Frequency(frequencies, codes[k]) < Frequency(frequencies, codes[i])
    {
      if NameMatches(name, abbr) then
        var codes := index.ElfCodesForAbbreviation(jurisdiction, abbr);
        if codes == [] then Failure(NoCandidates)
        else Success(Some(codes[MaxIndex(codes, frequencies)]))
      else Success(None)
    }

    /** `abbr` yields the candidate `code`. */
    predicate Yields(jurisdiction: string, name: string, abbr: string, code: string)
    {
      BestElfCodeForAbbr(jurisdiction, name, abbr) == Success(Some(code))
    }

    /** The non-`None` results of `_best_elf_code_for_abbr` over
        `abbreviations`, in order, or the first error. */
    function Candidates(jurisdiction: string, name: string, abbreviations: seq<string>): (r: Result<seq<string>, ClassifierError>)
      ensures r.Failure? <==>
                (exists a :: a in abbreviations && BestElfCodeForAbbr(jurisdiction, name, a).Failure?)
      ensures r.Success? ==>
                forall c :: c in r.value <==> (exists a :: a in abbreviations && Yields(jurisdiction, name, a, c))
    {
      if abbreviations == [] then Success([])
      else
        var first := BestElfCodeForAbbr(jurisdiction, name, abbreviations[0]);
        var rest := Candidates(jurisdiction, name, abbreviations[1..]);
        assert forall a :: a in abbreviations <==> a == abbreviations[0] || a in abbreviations[1..] by {
          assert abbreviations == [abbreviations[0]] + abbreviations[1..];
        }
        if first.Failure? then Failure(first.error)
        else if rest.Failure? then Failure(rest.error)
        else if first.value.Some? then
          assert Yields(jurisdiction, name, abbreviations[0], first.value.value);
          Success([first.value.value] + rest.value)
        else rest
    }

    /** `code` is listed under an abbreviation of the jurisdiction that the
        name matches. */
    predicate MatchedCode(jurisdiction: string, name: string, code: string)
    {
      exists a :: a in index.AbbreviationsForJurisdiction(jurisdiction) && NameMatches(name, a) &&
                  code in index.ElfCodesForAbbreviation(jurisdiction, a)
    }

    /** The candidates for the abbreviations of the jurisdiction. */
    function JurisdictionCandidates(jurisdiction: string, name: string): Result<seq<string>, ClassifierError>
    {
      Candidates(jurisdiction, name, index.AbbreviationsForJurisdiction(jurisdiction))
    }

    /** The prediction for one name (the body of the loop in `predict`): the
        first candidate of greatest frequency, or `mostFrequent` when no
        abbreviation of the jurisdiction matches. */
    function PredictName(mostFrequent: string, jurisdiction: string, name: string): Result<string, ClassifierError>
    {
      var candidates := JurisdictionCandidates(jurisdiction, name);
      if candidates.Failure? then Failure(candidates.error)
      else if candidates.value == [] then Success(mostFrequent)
      else Success(candidates.value[MaxIndex(candidates.value, frequencies)])
    }
  }

  /** With a valid index, every abbreviation of the jurisdiction has codes, so
      a prediction never fails. */
  lemma PredictNameSucceeds(rules: Rules, mostFrequent: string, jurisdiction: string, name: string)
    requires rules.index.Valid()
    ensures rules.JurisdictionCandidates(jurisdiction, name).Success?
    ensures rules.PredictName(mostFrequent, jurisdiction, name).Success?
  {
    forall a | a in rules.index.AbbreviationsForJurisdiction(jurisdiction)
      ensures !rules.BestElfCodeForAbbr(jurisdiction, name, a).Failure?
    {
      assert rules.index.ElfCodesForAbbreviation(jurisdiction, a) != [];
    }
  }

  /** When no abbreviation of the jurisdiction matches, the prediction is the
      most frequent training label. */
  lemma PredictNameFallsBack(rules: Rules, mostFrequent: string, jurisdiction: string, name: string)
    requires forall a :: a in rules.index.AbbreviationsForJurisdiction(jurisdiction) ==> !rules.NameMatches(name, a)
    ensures rules.PredictName(mostFrequent, jurisdiction, name) == Success(mostFrequent)
  {
    NoMatchNoCandidates(rules, jurisdiction, name, rules.index.AbbreviationsForJurisdiction(jurisdiction));
  }

  lemma {:induction false} NoMatchNoCandidates(rules: Rules, jurisdiction: string, name: string, abbreviations: seq<string>)
    requires forall a :: a in abbreviations ==> !rules.NameMatches(name, a)
    ensures rules.Candidates(jurisdiction, name, abbreviations) == Success([])
  {
    if abbreviations != [] {
      NoMatchNoCandidates(rules, jurisdiction, name, abbreviations[1..]);
    }
  }

  /** The candidate an abbreviation of the jurisdiction that the name matches
      yields is among the candidates, and is at least as frequent as every code
      of that abbreviation. */
  lemma MatchYieldsCandidate(rules: Rules, jurisdiction: string, name: string, c: string)
    requires rules.index.Valid()
    requires rules.MatchedCode(jurisdiction, name, c)
    ensures rules.JurisdictionCandidates(jurisdiction, name).Success?
    ensures exists b :: b in rules.JurisdictionCandidates(jurisdiction, name).value &&
                        Frequency(rules.frequencies, c) <= Frequency(rules.frequencies, b)
  {
    PredictNameSucceeds(rules, "", jurisdiction, name);
    var abbr :| abbr in rules.index.AbbreviationsForJurisdiction(jurisdiction) && rules.NameMatches(name, abbr) &&
                c in rules.index.ElfCodesForAbbreviation(jurisdiction, abbr);
    var b := BestOfMatch(rules, jurisdiction, name, abbr, c);
    assert b in rules.JurisdictionCandidates(jurisdiction, name).value;
  }

  /** A matching abbreviation listing `c` yields a code at least as frequent. */
  lemma BestOfMatch(rules: Rules, jurisdiction: string, name: string, abbr: string, c: string) returns (b: string)
    requires rules.NameMatches(name, abbr) && c in rules.index.ElfCodesForAbbreviation(jurisdiction, abbr)
    ensures rules.Yields(jurisdiction, name, abbr, b)
    ensures Frequency(rules.frequencies, c) <= Frequency(rules.frequencies, b)
  {
    var best := rules.BestElfCodeForAbbr(jurisdiction, name, abbr);
    b := best.value.value;
  }

  /** The prediction, when there are candidates, is a code some matching
      abbreviation yields. */
  lemma PredictionIsMatchedCode(rules: Rules, mostFrequent: string, jurisdiction: string, name: string)
    requires rules.JurisdictionCandidates(jurisdiction, name).Success?
    requires rules.JurisdictionCandidates(jurisdiction, name).value != []
    ensures rules.PredictName(mostFrequent, jurisdiction, name).Success?
    ensures rules.MatchedCode(jurisdiction, name, rules.PredictName(mostFrequent, jurisdiction, name).value)
  {
    var candidates := rules.JurisdictionCandidates(jurisdiction, name).value;
    var p := candidates[MaxIndex(candidates, rules.frequencies)];
    assert p in candidates;
    var a :| a in rules.index.AbbreviationsForJurisdiction(jurisdiction) && rules.Yields(jurisdiction, name, a, p);
  }

  /** Every code listed under a matching abbreviation is at most as frequent
      as the prediction. */
  lemma PredictionBoundsMatchedCode(rules: Rules, mostFrequent: string, jurisdiction: string, name: string, c: string)
    requires rules.index.Valid()
    requires rules.MatchedCode(jurisdiction, name, c)
    ensures rules.PredictName(mostFrequent, jurisdiction, name).Success?
    ensures Frequency(rules.frequencies, c) <= Frequency(rules.frequencies, rules.PredictName(mostFrequent, jurisdiction, name).value)
  {
    MatchYieldsCandidate(rules, jurisdiction, name, c);
    var candidates := rules.JurisdictionCandidates(jurisdiction, name).value;
    var b :| b in candidates && Frequency(rules.frequencies, c) <= Frequency(rules.frequencies, b);
    MaxIndexBounds(candidates, rules.frequencies, b);
    assert rules.PredictName(mostFrequent, jurisdiction, name) == Success(candidates[MaxIndex(candidates, rules.frequencies)]);
  }

  lemma MaxIndexBounds(codes: seq<string>, frequencies: map<string, nat>, b: string)
    requires b in codes
    ensures Frequency(frequencies, b) <= Frequency(frequencies, codes[MaxIndex(codes, frequencies)])
  {
    var k :| 0 <= k < |codes| && codes[k] == b;
  }

  /** When some abbreviation matches, the prediction is a code of a matching
      abbreviation whose frequency is at least that of every code listed under
      any matching abbreviation. */
  lemma PredictNameIsBest(rules: Rules, mostFrequent: string, jurisdiction: string, name: string, matched: string)
    requires rules.index.Valid()
    requires matched in rules.index.AbbreviationsForJurisdiction(jurisdiction) && rules.NameMatches(name, matched)
    ensures rules.PredictName(mostFrequent, jurisdiction, name).Success?
    ensures rules.MatchedCode(jurisdiction, name, rules.PredictName(mostFrequent, jurisdiction, name).value)
    ensures forall c :: rules.MatchedCode(jurisdiction, name, c) ==>
              Frequency(rules.frequencies, c) <= Frequency(rules.frequencies, rules.PredictName(mostFrequent, jurisdiction, name).value)
  {
    var some := rules.index.ElfCodesForAbbreviation(jurisdiction, matched)[0];
    assert rules.MatchedCode(jurisdiction, name, some);
    MatchYieldsCandidate(rules, jurisdiction, name, some);
    PredictionIsMatchedCode(rules, mostFrequent, jurisdiction, name);
    forall c | rules.MatchedCode(jurisdiction, name, c)
      ensures Frequency(rules.frequencies, c) <= Frequency(rules.frequencies, rules.PredictName(mostFrequent, jurisdiction, name).value)
    {
      PredictionBoundsMatchedCode(rules, mostFrequent, jurisdiction, name, c);
    }
  }

  /** Ties go to the earliest candidate: no candidate before the prediction is
      as frequent as it. */
  lemma PredictNameTieBreak(rules: Rules, mostFrequent: string, jurisdiction: string, name: string)
    requires rules.JurisdictionCandidates(jurisdiction, name).Success?
    requires rules.JurisdictionCandidates(jurisdiction, name).value != []
    ensures var candidates := rules.JurisdictionCandidates(jurisdiction, name).value;
      var p := rules.PredictName(mostFrequent, jurisdiction, name);
      && p.Success?
      && exists i :: 0 <= i < |candidates| && candidates[i] == p.value &&
           (forall k :: 0 <= k < i ==> Frequency(rules.frequencies, candidates[k]) < Frequency(rules.frequencies, p.value))
  {
    var candidates := rules.JurisdictionCandidates(jurisdiction, name).value;
    var i := MaxIndex(candidates, rules.frequencies);
    assert candidates[i] == rules.PredictName(mostFrequent, jurisdiction, name).value;
  }

  // ---------------------------------------------------------------------------
  // `fit`

  /** `pandas.value_counts(y)`: the number of occurrences of each label. */
  function ValueCounts(y: seq<string>): (r: map<string, nat>)
    ensures forall l :: l in r <==> l in y
    ensures forall l :: l in r ==> r[l] == multiset(y)[l]
  {
    map l | l in y :: multiset(y)[l]
  }

  /** `idxmax` of the counts: a label of greatest count, the first one in
      order of first appearance when several tie. */
  function MostFrequentLabel(y: seq<string>): (r: string)
    requires |y| > 0
    ensures r in y
    ensures forall l :: l in y ==> multiset(y)[l] <= multiset(y)[r]
  {
    var labels := Distinct(y);
    assert y[0] in labels;
    var counts := ValueCounts(y);
    var i := MaxIndex(labels, counts);
    assert forall l :: l in y ==> Frequency(counts, l) == multiset(y)[l];
    forall l | l in y ensures multiset(y)[l] <= multiset(y)[labels[i]] {
      var k :| 0 <= k < |labels| && labels[k] == l;
    }
    labels[i]
  }

  /** A row of the frame `predict` is given. */
  datatype Record = Record(legalName: string, jurisdiction: string)

  class ElfAbbreviationClassifier {
    const elfAbbreviations: ElfAbbreviations
    const useEndsWith: bool
    const useLowercasing: bool
    /** `frequencies_` and `most_frequent_`, absent until `fit` sets them. */
    var frequencies: Option<map<string, nat>>
    var mostFrequent: Option<string>

    constructor(elfAbbreviations: ElfAbbreviations, useEndsWith: bool, useLowercasing: bool)
      ensures this.elfAbbreviations == elfAbbreviations
      ensures this.useEndsWith == useEndsWith && this.useLowercasing == useLowercasing
      ensures frequencies.None? && mostFrequent.None?
    {
      this.elfAbbreviations := elfAbbreviations;
      this.useEndsWith := useEndsWith;
      this.useLowercasing := useLowercasing;
      frequencies := None;
      mostFrequent := None;
    }

    /** `fit`: stores the label counts, then the most frequent label. On an
        empty `y` the counts are stored and `idxmax` raises, so an earlier
        `most_frequent_` is left in place. */
    method Fit(y: seq<string>) returns (r: Result<(), ClassifierError>)
      modifies this
      ensures frequencies == Some(ValueCounts(y))
      ensures y == [] ==> r == Failure(EmptyLabels) && mostFrequent == old(mostFrequent)
      ensures y != [] ==> r.Success? && mostFrequent == Some(MostFrequentLabel(y))
    {
      frequencies := Some(ValueCounts(y));
      if y == [] {
        return Failure(EmptyLabels);
      }
      mostFrequent := Some(MostFrequentLabel(y));
      r := Success(());
    }

    /** `_get_jurisdiction_from_input`: the jurisdiction of the first row. */
    function JurisdictionFromInput(data: seq<Record>): (r: Result<string, ClassifierError>)
      ensures data == [] <==> r == Failure(EmptyInput)
      ensures data != [] ==> r == Success(data[0].jurisdiction)
    {
      if data == [] then Failure(EmptyInput) else Success(data[0].jurisdiction)
    }

    /** The rules `predict` applies once fitted. */
    function RulesWith(frequencies: map<string, nat>): Rules
      reads this
    {
      Rules(elfAbbreviations, frequencies, useLowercasing, useEndsWith)
    }

    /** `predict`: not fitted first, then an empty frame; otherwise one
        prediction per name, in order, all under the first row's jurisdiction. */
    method Predict(data: seq<Record>) returns (r: Result<seq<string>, ClassifierError>)
      ensures frequencies.None? || mostFrequent.None? ==> r == Failure(NotFitted)
      ensures frequencies.Some? && mostFrequent.Some? && data == [] ==> r == Failure(EmptyInput)
      ensures r.Success? ==> frequencies.Some? && mostFrequent.Some? && data != [] && |r.value| == |data|
      ensures r.Success? ==> forall i :: 0 <= i < |data| ==>
                RulesWith(frequencies.value).PredictName(mostFrequent.value, data[0].jurisdiction, data[i].legalName)
                == Success(r.value[i])
      ensures frequencies.Some? && mostFrequent.Some? && data != [] && elfAbbreviations.Valid() ==> r.Success?
    {
      if frequencies.None? || mostFrequent.None? {
        return Failure(NotFitted);
      }
      var jurisdiction := JurisdictionFromInput(data);
      if jurisdiction.Failure? {
        return Failure(jurisdiction.error);
      }
      var rules := RulesWith(frequencies.value);
      var predictions: seq<string> := [];
      for i := 0 to |data|
        invariant |predictions| == i
        invariant forall k :: 0 <= k < i ==>
                    rules.PredictName(mostFrequent.value, jurisdiction.value, data[k].legalName) == Success(predictions[k])
      {
        var p := rules.PredictName(mostFrequent.value, jurisdiction.value, data[i].legalName);
        if p.Failure? {
          if elfAbbreviations.Valid() {
            PredictNameSucceeds(rules, mostFrequent.value, jurisdiction.value, data[i].legalName);
          }
          return Failure(p.error);
        }
        predictions := predictions + [p.value];
      }
      r := Success(predictions);
    }
  }
}
