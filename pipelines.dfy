/** Training-data filters, the ranking `detect` returns and the model-file
    naming of `ModelRepo` (lenu/ml/pipelines.py). */
module Pipelines {
  import opened Wrappers
  import opened Seqs
  import opened Text
  import opened StringOrder

  /** A row of the training frame: the legal name and its ELF code. */
  datatype TrainingRecord = TrainingRecord(legalName: string, elfCode: string)

  /** The ELF code column. */
  function Codes(data: seq<TrainingRecord>): (r: seq<string>)
    ensures |r| == |data|
    ensures forall i :: 0 <= i < |data| ==> r[i] == data[i].elfCode
  {
    if data == [] then [] else [data[0].elfCode] + Codes(data[1..])
  }

  /** The size of the group of code `c` in a `groupby` on the code column. */
  function Occurrences(data: seq<TrainingRecord>, c: string): nat
  {
    multiset(Codes(data))[c]
  }

  lemma CodesAppend(a: seq<TrainingRecord>, b: seq<TrainingRecord>)
    ensures Codes(a + b) == Codes(a) + Codes(b)
  {
  }

  /** A code occurs as often as there are rows carrying it; in particular it
      occurs iff some row carries it. */
  lemma {:induction false} OccurrencesOfRow(data: seq<TrainingRecord>, c: string)
    ensures Occurrences(data, c) > 0 <==> exists row :: row in data && row.elfCode == c
  {
    if Occurrences(data, c) > 0 {
      assert c in Codes(data);
      var i :| 0 <= i < |data| && Codes(data)[i] == c;
      assert data[i] in data;
    }
    if exists row :: row in data && row.elfCode == c {
      var row :| row in data && row.elfCode == c;
      var i :| 0 <= i < |data| && data[i] == row;
      assert Codes(data)[i] == c;
    }
  }

  /** The row condition "the code passes `keep`". */
  function ByCode(keep: string -> bool): TrainingRecord -> bool
  {
    (row: TrainingRecord) => keep(row.elfCode)
  }

  /** Selecting rows by their code keeps or removes whole code groups. */
  lemma {:induction false} ByCodeOccurrences(keep: string -> bool, data: seq<TrainingRecord>, c: string)
    ensures Occurrences(Filter(ByCode(keep), data), c) == if keep(c) then Occurrences(data, c) else 0
  {
    if data != [] {
      ByCodeOccurrences(keep, data[1..], c);
      var head := if keep(data[0].elfCode) then [data[0]] else [];
      assert Filter(ByCode(keep), data) == head + Filter(ByCode(keep), data[1..]);
      CodesAppend(head, Filter(ByCode(keep), data[1..]));
      assert Codes(data) == [data[0].elfCode] + Codes(data[1..]);
    }
  }

  // ---------------------------------------------------------------------------
  // `filter_infrequent_elf_codes`

  /** The `groupby(...).filter(len(x) >= 2)` condition. */
  function Frequent(data: seq<TrainingRecord>): TrainingRecord -> bool
  {
    ByCode(c => Occurrences(data, c) >= 2)
  }

  /** `filter_infrequent_elf_codes`: the rows whose code occurs at least twice,
      in their original order. */
  function FilterInfrequentElfCodes(data: seq<TrainingRecord>): seq<TrainingRecord>
  {
    Filter(Frequent(data), data)
  }

  /** Kept rows are exactly the rows whose code occurs at least twice, each
      code group is kept whole, and the order is the original one. */
  lemma FilterInfrequentElfCodesKeeps(data: seq<TrainingRecord>)
    ensures var r := FilterInfrequentElfCodes(data);
      && IsSubsequence(r, data)
      && (forall row :: row in r <==> row in data && Occurrences(data, row.elfCode) >= 2)
      && (forall c :: Occurrences(r, c) == if Occurrences(data, c) >= 2 then Occurrences(data, c) else 0)
  {
    FilterIsSubsequence(Frequent(data), data);
    forall c ensures Occurrences(FilterInfrequentElfCodes(data), c) == if Occurrences(data, c) >= 2 then Occurrences(data, c) else 0 {
      ByCodeOccurrences(c => Occurrences(data, c) >= 2, data, c);
    }
  }

  /** The codes the warning reports: the distinct codes of the rows whose code
      does not appear among the kept rows, in order of first appearance. */
  function RemovedElfCodes(data: seq<TrainingRecord>): seq<string>
  {
    var kept := Codes(FilterInfrequentElfCodes(data));
    Distinct(Codes(Filter(ByCode(c => c !in kept), data)))
  }

  /** The reported codes are exactly the codes that occur once, without repetition. */
  lemma RemovedElfCodesOccurOnce(data: seq<TrainingRecord>)
    ensures NoDuplicates(RemovedElfCodes(data))
    ensures forall c :: c in RemovedElfCodes(data) <==> Occurrences(data, c) == 1
  {
    var filtered := FilterInfrequentElfCodes(data);
    var kept := Codes(filtered);
    var removed := Filter(ByCode(c => c !in kept), data);
    FilterInfrequentElfCodesKeeps(data);
    forall c ensures c in RemovedElfCodes(data) <==> Occurrences(data, c) == 1 {
      assert c in kept <==> Occurrences(filtered, c) > 0;
      ByCodeOccurrences(c => c !in kept, data, c);
      assert c in Codes(removed) <==> Occurrences(removed, c) > 0;
    }
  }

  /** The warning `filter_infrequent_elf_codes` logs: the removed codes, when
      any row was removed. */
  function InfrequentWarning(data: seq<TrainingRecord>): Option<seq<string>>
  {
    var kept := Codes(FilterInfrequentElfCodes(data));
    if |Filter(ByCode(c => c !in kept), data)| > 0 then Some(RemovedElfCodes(data)) else None
  }

  /** A warning is logged iff some code occurs only once, and it names the codes
      that occur once. */
  lemma InfrequentWarningIffSingleton(data: seq<TrainingRecord>)
    ensures InfrequentWarning(data).Some? <==> exists row :: row in data && Occurrences(data, row.elfCode) == 1
    ensures InfrequentWarning(data).Some? ==> InfrequentWarning(data).value == RemovedElfCodes(data)
  {
    var kept := Codes(FilterInfrequentElfCodes(data));
    var removed := Filter(ByCode(c => c !in kept), data);
    RemovedElfCodesOccurOnce(data);
    if |removed| > 0 {
      var row := removed[0];
      assert row in removed;
      assert row.elfCode in Codes(removed);
      assert row.elfCode in RemovedElfCodes(data);
    }
    if exists row :: row in data && Occurrences(data, row.elfCode) == 1 {
      var row :| row in data && Occurrences(data, row.elfCode) == 1;
      assert row.elfCode in RemovedElfCodes(data);
      assert row.elfCode in Codes(removed);
      var i :| 0 <= i < |removed| && Codes(removed)[i] == row.elfCode;
    }
  }

  /** Applying the filter a second time removes nothing. */
  lemma FilterInfrequentElfCodesIdempotent(data: seq<TrainingRecord>)
    ensures FilterInfrequentElfCodes(FilterInfrequentElfCodes(data)) == FilterInfrequentElfCodes(data)
  {
    var r := FilterInfrequentElfCodes(data);
    FilterInfrequentElfCodesKeeps(data);
    forall row | row in r ensures Frequent(r)(row) {
      assert Occurrences(r, row.elfCode) == Occurrences(data, row.elfCode);
    }
    FilterAll(Frequent(r), r);
  }

  // ---------------------------------------------------------------------------
  // `filter_inactive_elf_codes`

  /** The `~isin(inactive)` mask. */
  function Active(inactive: set<string>): TrainingRecord -> bool
  {
    ByCode(c => c !in inactive)
  }

  /** `filter_inactive_elf_codes`: the rows whose code is not inactive, in
      their original order. */
  function FilterInactiveElfCodes(data: seq<TrainingRecord>, inactive: set<string>): seq<TrainingRecord>
  {
    Filter(Active(inactive), data)
  }

  /** Kept rows are exactly the rows with an active code, in the original order. */
  lemma FilterInactiveElfCodesKeeps(data: seq<TrainingRecord>, inactive: set<string>)
    ensures var r := FilterInactiveElfCodes(data, inactive);
      && IsSubsequence(r, data)
      && (forall row :: row in r <==> row in data && row.elfCode !in inactive)
      && (forall c :: Occurrences(r, c) == if c in inactive then 0 else Occurrences(data, c))
  {
    FilterIsSubsequence(Active(inactive), data);
    forall c ensures Occurrences(FilterInactiveElfCodes(data, inactive), c) == if c in inactive then 0 else Occurrences(data, c) {
      ByCodeOccurrences(c => c !in inactive, data, c);
    }
  }

  lemma FilterInactiveElfCodesIdempotent(data: seq<TrainingRecord>, inactive: set<string>)
    ensures FilterInactiveElfCodes(FilterInactiveElfCodes(data, inactive), inactive) == FilterInactiveElfCodes(data, inactive)
  {
    FilterIdempotent(Active(inactive), data);
  }

  // ---------------------------------------------------------------------------
  // `train_pipeline`: infrequent codes first, then inactive codes

  function TrainingData(data: seq<TrainingRecord>, inactive: set<string>): seq<TrainingRecord>
  {
    FilterInactiveElfCodes(FilterInfrequentElfCodes(data), inactive)
  }

  /** The training data holds exactly the rows of active codes that occur at
      least twice, whole code groups at a time; so every code left occurs at
      least twice and none is inactive. */
  lemma TrainingDataRows(data: seq<TrainingRecord>, inactive: set<string>)
    ensures var r := TrainingData(data, inactive);
      && IsSubsequence(r, data)
      && (forall row :: row in r <==> row in data && Occurrences(data, row.elfCode) >= 2 && row.elfCode !in inactive)
      && (forall c :: Occurrences(r, c) == 0 || Occurrences(r, c) == Occurrences(data, c))
      && (forall row :: row in r ==> Occurrences(r, row.elfCode) >= 2 && row.elfCode !in inactive)
  {
    var f := FilterInfrequentElfCodes(data);
    FilterInfrequentElfCodesKeeps(data);
    FilterInactiveElfCodesKeeps(f, inactive);
    FilterIsSubsequence(Active(inactive), f);
    FilterIsSubsequence(Frequent(data), data);
    SubsequenceTransitive(TrainingData(data, inactive), f, data);
  }

  /** The two filters commute: inactive codes are removed as whole groups, so
      they do not change the size of any remaining group. */
  lemma FiltersCommute(data: seq<TrainingRecord>, inactive: set<string>)
    ensures FilterInfrequentElfCodes(FilterInactiveElfCodes(data, inactive)) == TrainingData(data, inactive)
  {
    var both := ByCode(c => Occurrences(data, c) >= 2 && c !in inactive);
    var a := FilterInactiveElfCodes(data, inactive);
    FilterInactiveElfCodesKeeps(data, inactive);
    FilterFilter(Active(inactive), Frequent(a), both, data);
    FilterFilter(Frequent(data), Active(inactive), both, data);
  }

  lemma {:induction false} SubsequenceTransitive<T>(a: seq<T>, b: seq<T>, c: seq<T>)
    requires IsSubsequence(a, b) && IsSubsequence(b, c)
    ensures IsSubsequence(a, c)
    decreases |c|
  {
    if a != [] {
      if b[0] == c[0] && IsSubsequence(b[1..], c[1..]) {
        if a[0] == b[0] && IsSubsequence(a[1..], b[1..]) {
          SubsequenceTransitive(a[1..], b[1..], c[1..]);
        } else {
          SubsequenceTransitive(a, b[1..], c[1..]);
        }
      } else {
        SubsequenceTransitive(a, b, c[1..]);
      }
    }
  }

  // ---------------------------------------------------------------------------
  // `ELFDetectionModel.detect`

  /** One entry of the probability series: a class and its score. */
  datatype Scored = Scored(elfCode: string, score: real)

  predicate NonIncreasing(s: seq<Scored>)
  {
    forall i, j :: 0 <= i < j < |s| ==> s[j].score <= s[i].score
  }

  /** Inserts `x` before the first entry of a strictly lower score. */
  function InsertByScore(x: Scored, ys: seq<Scored>): (r: seq<Scored>)
    requires NonIncreasing(ys)
    ensures NonIncreasing(r)
    ensures multiset(r) == multiset(ys) + multiset{x}
  {
    if ys == [] || ys[0].score < x.score then
      PrependNonIncreasing(x, ys);
      [x] + ys
    else
      var rest := InsertByScore(x, ys[1..]);
      InsertedBelowHead(x, ys, rest);
      PrependNonIncreasing(ys[0], rest);
      assert ys == [ys[0]] + ys[1..];
      [ys[0]] + rest
  }

  lemma InsertedBelowHead(x: Scored, ys: seq<Scored>, rest: seq<Scored>)
    requires NonIncreasing(ys) && ys != [] && x.score <= ys[0].score
    requires multiset(rest) == multiset(ys[1..]) + multiset{x}
    ensures forall k :: 0 <= k < |rest| ==> rest[k].score <= ys[0].score
  {
    forall k | 0 <= k < |rest| ensures rest[k].score <= ys[0].score {
      assert rest[k] in multiset(rest);
      if rest[k] != x {
        assert rest[k] in multiset(ys[1..]);
        var m :| 0 <= m < |ys[1..]| && ys[1..][m] == rest[k];
        assert ys[m + 1] == rest[k];
      }
    }
  }

  lemma PrependNonIncreasing(x: Scored, ys: seq<Scored>)
    requires NonIncreasing(ys)
    requires forall k :: 0 <= k < |ys| ==> ys[k].score <= x.score
    ensures NonIncreasing([x] + ys)
  {
    var r := [x] + ys;
    forall i, j | 0 <= i < j < |r| ensures r[j].score <= r[i].score {
      assert r[j] == ys[j - 1];
      if i > 0 {
        assert r[i] == ys[i - 1];
      }
    }
  }

  /** `sort_values(ascending=False)`: the entries by non-increasing score. */
  function SortDescending(s: seq<Scored>): (r: seq<Scored>)
    ensures NonIncreasing(r)
    ensures multiset(r) == multiset(s)
  {
    if s == [] then []
    else
      assert s == [s[0]] + s[1..];
      InsertByScore(s[0], SortDescending(s[1..]))
  }

  /** pandas `head(n)`: the first `n` entries, or for a negative `n` all but
      the last `-n`. */
  function Head(s: seq<Scored>, n: int): (r: seq<Scored>)
    ensures n >= 0 ==> |r| == if n <= |s| then n else |s|
    ensures n < 0 ==> |r| == if |s| + n >= 0 then |s| + n else 0
    ensures r == s[..|r|]
  {
    if n >= 0 then (if n <= |s| then s[..n] else s)
    else (if |s| + n >= 0 then s[..|s| + n] else [])
  }

  /** `detect` on the class probabilities `scores`: the `top` best entries. */
  function Detect(scores: seq<Scored>, top: int): seq<Scored>
  {
    Head(SortDescending(scores), top)
  }

  /** `detect` returns at most `top` entries (exactly `top` when there are
      enough), by non-increasing score, all drawn from `scores`, and no entry
      left out scores higher than one returned. */
  lemma DetectIsTopK(scores: seq<Scored>, top: int)
    ensures var r := Detect(scores, top);
      && (top >= 0 ==> |r| == if top <= |scores| then top else |scores|)
      && NonIncreasing(r)
      && multiset(r) <= multiset(scores)
      && forall x, y :: x in multiset(scores) - multiset(r) && y in r ==> x.score <= y.score
  {
    var s := SortDescending(scores);
    var r := Detect(scores, top);
    PrefixIsTop(s, |r|);
  }

  /** In a non-increasing sequence, a prefix is non-increasing and no later
      entry scores higher than an entry of the prefix. */
  lemma PrefixIsTop(s: seq<Scored>, k: nat)
    requires NonIncreasing(s) && k <= |s|
    ensures NonIncreasing(s[..k])
    ensures multiset(s[..k]) <= multiset(s)
    ensures forall x, y :: x in multiset(s) - multiset(s[..k]) && y in s[..k] ==> x.score <= y.score
  {
    PrefixAndRest(s, k);
    forall x: Scored, y: Scored | x in multiset(s[k..]) && y in s[..k]
      ensures x.score <= y.score
    {
      RestNotHigher(s, k, x, y);
    }
  }

  lemma RestNotHigher(s: seq<Scored>, k: nat, x: Scored, y: Scored)
    requires NonIncreasing(s) && k <= |s|
    requires x in multiset(s[k..]) && y in s[..k]
    ensures x.score <= y.score
  {
    var j :| 0 <= j < |s[k..]| && s[k..][j] == x;
    var i :| 0 <= i < k && s[..k][i] == y;
    assert s[k + j] == x && s[i] == y;
  }

  lemma PrefixAndRest<T>(s: seq<T>, k: nat)
    requires k <= |s|
    ensures multiset(s[..k]) <= multiset(s)
    ensures multiset(s) - multiset(s[..k]) == multiset(s[k..])
  {
    assert s == s[..k] + s[k..];
  }

  // ---------------------------------------------------------------------------
  // `ModelRepo`: model files and `list`

  const Prefix: string := "complement_nb_"
  const Suffix: string := ".joblib"

  /** The name of the file `train_pipeline` writes and `get_model` reads. */
  function ModelFileName(jurisdiction: string): string
  {
    Prefix + jurisdiction + Suffix
  }

  /** `str.rfind` of one character: its last position, or -1. */
  function RFind(s: string, c: char): (r: int)
    ensures -1 <= r && (r == -1 <==> c !in s)
    ensures r >= 0 ==> r < |s| && s[r] == c && forall k :: r < k < |s| ==> s[k] != c
  {
    if s == [] then -1
    else if s[|s| - 1] == c then |s| - 1
    else
      assert s == s[..|s| - 1] + [s[|s| - 1]];
      RFind(s[..|s| - 1], c)
  }

  /** pathlib `stem`: the name without its last suffix, where a suffix starts at
      the last dot, not at the first character and not at the last one. */
  function Stem(name: string): (r: string)
    ensures |r| <= |name| && r == name[..|r|]
  {
    var i := RFind(name, '.');
    if 0 < i < |name| - 1 then name[..i] else name
  }

  /** The jurisdiction `list` reads off a model file: the last `_`-separated
      part of its stem. */
  function ModelJurisdiction(fileName: string): string
  {
    var parts := Split(Stem(fileName), '_');
    parts[|parts| - 1]
  }

  lemma StemOfSuffixed(p: string)
    requires |p| > 0
    ensures Stem(p + Suffix) == p
  {
    var name := p + Suffix;
    var i := RFind(name, '.');
    assert name[|p|] == '.' && name[|p|] in name;
    assert forall m :: 1 <= m < |Suffix| ==> Suffix[m] != '.';
    forall k | |p| < k < |name| ensures name[k] != '.' {
      assert name[k] == Suffix[k - |p|];
    }
    assert name[..i] == p;
  }

  /** Splitting `p + sep + q` ends with the last part of `q`. */
  lemma LastPartAfterSeparator(p: string, q: string, sep: char)
    ensures var a := Split(p + [sep] + q, sep); var b := Split(q, sep);
      a[|a| - 1] == b[|b| - 1]
  {
    SplitAround(p, q, sep);
  }

  /** The file prefix contributes whole parts of its own to the split. */
  lemma PrefixSplitsOff(jurisdiction: string)
    ensures var a := Split(Prefix + jurisdiction, '_'); var b := Split(jurisdiction, '_');
      a[|a| - 1] == b[|b| - 1]
  {
    var complement, nb := "complement", "nb";
    var rest := nb + ['_'] + jurisdiction;
    assert Prefix + jurisdiction == complement + ['_'] + rest;
    LastPartAfterSeparator(complement, rest, '_');
    LastPartAfterSeparator(nb, jurisdiction, '_');
  }

  /** The jurisdiction read off a model file is the last `_`-separated part of
      the jurisdiction it was written for. */
  lemma ModelJurisdictionOfFileName(jurisdiction: string)
    ensures var parts := Split(jurisdiction, '_');
      ModelJurisdiction(ModelFileName(jurisdiction)) == parts[|parts| - 1]
  {
    var stem := Prefix + jurisdiction;
    assert ModelFileName(jurisdiction) == stem + Suffix;
    StemOfSuffixed(stem);
    PrefixSplitsOff(jurisdiction);
  }

  /** Round trip: for a jurisdiction without `_`, the file name gives it back. */
  lemma ModelFileNameRoundTrip(jurisdiction: string)
    requires '_' !in jurisdiction
    ensures ModelJurisdiction(ModelFileName(jurisdiction)) == jurisdiction
  {
    ModelJurisdictionOfFileName(jurisdiction);
    SplitWithoutSeparator(jurisdiction, '_');
  }

  /** `ModelRepo.list` over the names of the `*.joblib` files of the models
      directory: their jurisdictions, sorted. */
  function ListModels(fileNames: seq<string>): seq<string>
  {
    Sorted(seq(|fileNames|, i requires 0 <= i < |fileNames| => ModelJurisdiction(fileNames[i])))
  }

  /** Listing the files written for a set of jurisdictions without `_` gives
      those jurisdictions back, sorted, each as often as it was written. */
  lemma ListModelsOfTrained(jurisdictions: seq<string>)
    requires forall j :: j in jurisdictions ==> '_' !in j
    ensures var r := ListModels(seq(|jurisdictions|, i requires 0 <= i < |jurisdictions| => ModelFileName(jurisdictions[i])));
      Ascending(r) && multiset(r) == multiset(jurisdictions)
  {
    var files := seq(|jurisdictions|, i requires 0 <= i < |jurisdictions| => ModelFileName(jurisdictions[i]));
    var parsed := seq(|files|, i requires 0 <= i < |files| => ModelJurisdiction(files[i]));
    forall i | 0 <= i < |jurisdictions| ensures parsed[i] == jurisdictions[i] {
      ModelFileNameRoundTrip(jurisdictions[i]);
    }
    assert parsed == jurisdictions;
  }
}
