/** Company-name harmonisation and tokenisation (lenu/ml/cnames.py). */
module CompanyNames {
  import opened Text
  import opened StringOrder
  import opened Seqs

  // ---------------------------------------------------------------------------
  // The single steps of `harmonize`

  /** `.encode("ASCII", "ignore").decode()`: drops every non-ASCII character. */
  function AsciiOnly(s: string): (r: string)
    ensures IsAscii(r)
    ensures |r| <= |s|
    ensures forall c :: c in r ==> c in s
    ensures IsAscii(s) ==> r == s
    ensures IsSubsequence(r, s)
    ensures forall c :: multiset(r)[c] == if IsAsciiChar(c) then multiset(s)[c] else 0
  {
    if s == [] then []
    else
      assert s == [s[0]] + s[1..];
      var rest := AsciiOnly(s[1..]);
      assert multiset(s) == multiset{s[0]} + multiset(s[1..]);
      if IsAsciiChar(s[0]) then
        var r := [s[0]] + rest;
        assert r[0] == s[0] && r[1..] == rest;
        assert multiset(r) == multiset{s[0]} + multiset(rest);
        r
      else
        rest
  }

  /** Step 2, `_replace_diacritics`: the Unicode NFKD decomposition `nfkd` (a
      library table outside this model) splits accented letters into a base
      letter and combining marks, and the marks are dropped with every other
      non-ASCII character. */
  function ReplaceDiacritics(nfkd: string -> string, s: string): (r: string)
    ensures IsAscii(r)
    ensures IsSubsequence(r, nfkd(s))
    ensures forall c :: multiset(r)[c] == if IsAsciiChar(c) then multiset(nfkd(s))[c] else 0
  {
    AsciiOnly(nfkd(s))
  }

  /** Step 3 and step 8, `_replace_multi_spaces`: replace every double space by
      one space until no double space is left. Each pass strictly shortens the
      string, which is why the loop terminates. */
  function CollapseSpaces(s: string): (r: string)
    ensures !Contains(r, "  ")
    ensures |r| <= |s|
    ensures r == Squeeze(s)
    decreases |s|
  {
    if Contains(s, "  ") then
      ReplaceAllShrinks(s, "  ", " ");
      SqueezeReplaceDoubleSpace(s);
      CollapseSpaces(ReplaceAll(s, "  ", " "))
    else
      SqueezeWithoutDoubleSpace(s);
      s
  }

  /** Collapsing runs of spaces in one pass from the left: a space is dropped
      exactly when the next character is a space too, so each run keeps one
      space. */
  function Squeeze(s: string): string
  {
    if |s| < 2 then s
    else if s[0] == ' ' && s[1] == ' ' then Squeeze(s[1..])
    else [s[0]] + Squeeze(s[1..])
  }

  /** Putting `c` in front of an already squeezed text. */
  function SqueezeCons(c: char, t: string): string
  {
    if c == ' ' && |t| > 0 && t[0] == ' ' then t else [c] + t
  }

  lemma {:induction false} SqueezeHead(s: string)
    requires |s| > 0
    ensures |Squeeze(s)| > 0 && Squeeze(s)[0] == s[0]
    decreases |s|
  {
    if |s| >= 2 && s[0] == ' ' && s[1] == ' ' {
      SqueezeHead(s[1..]);
    }
  }

  lemma SqueezeFront(c: char, t: string)
    ensures Squeeze([c] + t) == SqueezeCons(c, Squeeze(t))
  {
    var s := [c] + t;
    assert s[1..] == t;
    if |t| > 0 {
      SqueezeHead(t);
    }
  }

  /** One round of `replace("  ", " ")` does not change the squeezed text. */
  lemma {:induction false} SqueezeReplaceDoubleSpace(s: string)
    ensures Squeeze(ReplaceAll(s, "  ", " ")) == Squeeze(s)
    decreases |s|
  {
    var double, space := "  ", " ";
    if |s| < 2 {
    } else if s[..2] == double {
      var rest := s[2..];
      SqueezeReplaceDoubleSpace(rest);
      SqueezeFront(' ', ReplaceAll(rest, double, space));
      SqueezeFront(' ', rest);
      assert s[1..] == [' '] + rest;
      SqueezeHead(s[1..]);
    } else {
      SqueezeReplaceDoubleSpace(s[1..]);
      SqueezeFront(s[0], ReplaceAll(s[1..], double, space));
      SqueezeFront(s[0], s[1..]);
      assert s == [s[0]] + s[1..];
    }
  }

  /** Text without a double space is already squeezed. */
  lemma {:induction false} SqueezeWithoutDoubleSpace(s: string)
    requires !Contains(s, "  ")
    ensures Squeeze(s) == s
    decreases |s|
  {
    if |s| >= 2 {
      assert !OccursAt(s, "  ", 0);
      assert s[..2] == [s[0], s[1]];
      if Contains(s[1..], "  ") {
        var i :| 0 <= i <= |s[1..]| - 2 && OccursAt(s[1..], "  ", i);
        assert s[i + 1..i + 3] == s[1..][i..i + 2];
        assert OccursAt(s, "  ", i + 1);
      }
      SqueezeWithoutDoubleSpace(s[1..]);
    }
  }

  method ReplaceMultiSpaces(s: string) returns (r: string)
    ensures r == CollapseSpaces(s)
    ensures !Contains(r, "  ")
  {
    r := s;
    while Contains(r, "  ")
      invariant CollapseSpaces(r) == CollapseSpaces(s)
      decreases |r|
    {
      ReplaceAllShrinks(r, "  ", " ");
      r := ReplaceAll(r, "  ", " ");
    }
  }

  /** The characters of `s` other than spaces, in order. */
  function NonSpaces(s: string): string
  {
    if s == [] then [] else (if s[0] == ' ' then [] else [s[0]]) + NonSpaces(s[1..])
  }

  lemma {:induction false} NonSpacesAppend(a: string, b: string)
    ensures NonSpaces(a + b) == NonSpaces(a) + NonSpaces(b)
    decreases |a|
  {
    if a == [] {
      assert a + b == b;
    } else {
      NonSpacesAppend(a[1..], b);
      assert (a + b)[0] == a[0] && (a + b)[1..] == a[1..] + b;
    }
  }

  /** Replacing a pattern by text with the same non-space characters keeps
      the non-space characters of the whole string. */
  lemma {:induction false} ReplaceKeepsNonSpaces(s: string, pat: string, rep: string)
    requires |pat| > 0 && NonSpaces(rep) == NonSpaces(pat)
    ensures NonSpaces(ReplaceAll(s, pat, rep)) == NonSpaces(s)
    decreases |s|
  {
    if |s| < |pat| {
    } else if s[..|pat|] == pat {
      var rest := s[|pat|..];
      ReplaceKeepsNonSpaces(rest, pat, rep);
      NonSpacesAppend(rep, ReplaceAll(rest, pat, rep));
      NonSpacesAppend(pat, rest);
      assert s == pat + rest;
    } else {
      ReplaceKeepsNonSpaces(s[1..], pat, rep);
      NonSpacesAppend([s[0]], ReplaceAll(s[1..], pat, rep));
      NonSpacesAppend([s[0]], s[1..]);
      assert s == [s[0]] + s[1..];
    }
  }

  /** A two-character pattern with one space has the other character as its
      only non-space. */
  lemma NonSpacesPair(a: char, b: char, c: char)
    requires (a == ' ' && c == b) || (b == ' ' && c == a)
    ensures NonSpaces([a, b]) == NonSpaces([c])
  {
    assert [a, b][1..] == [b] && [b][1..] == [] && [c][1..] == [];
    assert NonSpaces([b]) == (if b == ' ' then [] else [b]);
    assert NonSpaces([c]) == (if c == ' ' then [] else [c]);
  }

  /** Collapsing spaces touches spaces only: every other character is kept, in
      order, and none is added. */
  lemma {:induction false} CollapseSpacesKeepsNonSpaces(s: string)
    ensures NonSpaces(CollapseSpaces(s)) == NonSpaces(s)
    decreases |s|
  {
    if Contains(s, "  ") {
      ReplaceAllShrinks(s, "  ", " ");
      NonSpacesPair(' ', ' ', ' ');
      ReplaceKeepsNonSpaces(s, "  ", " ");
      CollapseSpacesKeepsNonSpaces(ReplaceAll(s, "  ", " "));
    }
  }

  lemma {:induction false} CollapseSpacesChars(s: string)
    ensures forall c :: c in CollapseSpaces(s) ==> c in s
    decreases |s|
  {
    if Contains(s, "  ") {
      ReplaceAllShrinks(s, "  ", " ");
      var t := ReplaceAll(s, "  ", " ");
      ReplaceAllChars(s, "  ", " ");
      CollapseSpacesChars(t);
      assert forall c :: c in t ==> c in s by {
        forall c | c in t ensures c in s {
          if c == ' ' {
            var i :| 0 <= i <= |s| - 2 && OccursAt(s, "  ", i);
            assert s[i] == s[i..i + 2][0] == ' ';
          }
        }
      }
    }
  }

  lemma {:induction false} CollapseSpacesKeepsLast(s: string)
    requires |s| > 0 && s[|s| - 1] != ' '
    ensures var r := CollapseSpaces(s); |r| > 0 && r[|r| - 1] == s[|s| - 1]
    decreases |s|
  {
    if Contains(s, "  ") {
      ReplaceAllShrinks(s, "  ", " ");
      ReplaceAllKeepsLast(s, "  ", " ");
      CollapseSpacesKeepsLast(ReplaceAll(s, "  ", " "));
    }
  }

  /** Step 4, `_replace_double_quotation_marks`: every `"` becomes a space. */
  function ReplaceDoubleQuotationMarks(s: string): (r: string)
    ensures |r| == |s|
    ensures forall i :: 0 <= i < |s| ==> r[i] == if s[i] == '"' then ' ' else s[i]
  {
    ReplaceCharPointwise(s, '"', ' ');
    ReplaceAll(s, "\"", " ")
  }

  /** Step 5, `_replace_trailing_non_alphanumeric_chars`: the longest prefix
      that is empty or ends in a letter or digit; everything cut off is
      neither. */
  function WithoutTrailingNonAlnum(s: string): (r: string)
    ensures |r| <= |s| && r == s[..|r|]
    ensures r == [] || IsAlnum(r[|r| - 1])
    ensures forall i :: |r| <= i < |s| ==> !IsAlnum(s[i])
    decreases |s|
  {
    if |s| > 0 && !IsAlnum(s[|s| - 1]) then WithoutTrailingNonAlnum(s[..|s| - 1]) else s
  }

  method ReplaceTrailingNonAlphanumericChars(s: string) returns (r: string)
    ensures r == WithoutTrailingNonAlnum(s)
    ensures r == [] || IsAlnum(r[|r| - 1])
  {
    r := s;
    while |r| > 0 && !IsAlnum(r[|r| - 1])
      invariant WithoutTrailingNonAlnum(r) == WithoutTrailingNonAlnum(s)
    {
      r := r[..|r| - 1];
    }
  }

  /** Step 6, `_correct_commas_and_periods`: drops the space before `,` and `.`
      and after `,`. It only deletes spaces, so it adds no character and keeps
      a final letter or digit. */
  function CorrectCommasAndPeriods(s: string): (r: string)
    ensures NonSpaces(r) == NonSpaces(s)
    ensures |r| <= |s|
    ensures forall c :: c in r ==> c in s
    ensures s == [] ==> r == []
    ensures |s| > 0 && IsAlnum(s[|s| - 1]) ==> |r| > 0 && r[|r| - 1] == s[|s| - 1]
  {
    var a := ReplaceAll(s, " ,", ",");
    var b := ReplaceAll(a, " .", ".");
    var c := ReplaceAll(b, ", ", ",");
    DeletesSpace(s, " ,", ",", 0);
    DeletesSpace(a, " .", ".", 0);
    DeletesSpace(b, ", ", ",", 1);
    c
  }

  /** Replacing a space next to a punctuation mark by that mark only deletes
      spaces. */
  lemma DeletesSpace(x: string, pat: string, rep: string, k: nat)
    requires |pat| == 2 && k < 2 && pat[k] == ' ' && rep == [pat[1 - k]] && !IsAlnum(pat[1 - k])
    ensures var y := ReplaceAll(x, pat, rep);
      && NonSpaces(y) == NonSpaces(x)
      && |y| <= |x|
      && (forall c :: c in y ==> c in x)
      && (|x| > 0 && IsAlnum(x[|x| - 1]) ==> |y| > 0 && y[|y| - 1] == x[|x| - 1])
  {
    var y := ReplaceAll(x, pat, rep);
    assert pat == [pat[0], pat[1]];
    NonSpacesPair(pat[0], pat[1], pat[1 - k]);
    ReplaceKeepsNonSpaces(x, pat, rep);
    ReplaceAllShrinks(x, pat, rep);
    ReplaceAllChars(x, pat, rep);
    forall c | c in y ensures c in x {
      if c !in x {
        MissingCharNotContained(x, pat, 1 - k);
        ReplaceAbsent(x, pat, rep);
      }
    }
    if |x| > 0 && IsAlnum(x[|x| - 1]) {
      ReplaceAllKeepsLast(x, pat, rep);
    }
  }

  // ---------------------------------------------------------------------------
  // Step 7, `purge`: an ordered list of replacement rules

  datatype Rule = Rule(pattern: string, replacement: string)

  /** `purge_rules`, in order. */
  const PurgeRules: seq<Rule> := [
    Rule(" l'", " l "),
    Rule("-", " "),
    Rule("(", " "),
    Rule(")", " "),
    Rule(" & ", " and "),
    Rule(" + ", " and "),
    Rule(";", " "),
    Rule("/", " "),
    Rule(",", " ")
  ]

  predicate ValidRules(rules: seq<Rule>)
  {
    forall k :: 0 <= k < |rules| ==> |rules[k].pattern| > 0
  }

  /** Applies `rules` from first to last, each to the output of the one before. */
  function ApplyRules(rules: seq<Rule>, s: string): string
    requires ValidRules(rules)
  {
    if rules == [] then s
    else
      var last := rules[|rules| - 1];
      ReplaceAll(ApplyRules(rules[..|rules| - 1], s), last.pattern, last.replacement)
  }

  lemma {:induction false} ApplyRulesChars(rules: seq<Rule>, s: string, c: char)
    requires ValidRules(rules)
    requires forall k :: 0 <= k < |rules| ==> c !in rules[k].replacement
    ensures c in ApplyRules(rules, s) ==> c in s
  {
    if rules != [] {
      var front := rules[..|rules| - 1];
      ApplyRulesChars(front, s, c);
      ReplaceAllChars(ApplyRules(front, s), rules[|rules| - 1].pattern, rules[|rules| - 1].replacement);
    }
  }

  /** A rule that replaces the single character `c` by text without it removes
      `c` for good, provided no later rule writes it back. */
  lemma {:induction false} ApplyRulesRemoves(rules: seq<Rule>, s: string, c: char, k: int)
    requires ValidRules(rules)
    requires 0 <= k < |rules| && rules[k].pattern == [c]
    requires forall j :: k <= j < |rules| ==> c !in rules[j].replacement
    ensures c !in ApplyRules(rules, s)
  {
    var n := |rules|;
    var front := rules[..n - 1];
    if k == n - 1 {
      ReplaceAllRemovesChar(ApplyRules(front, s), c, rules[k].replacement);
    } else {
      ApplyRulesRemoves(front, s, c, k);
      ReplaceAllChars(ApplyRules(front, s), rules[n - 1].pattern, rules[n - 1].replacement);
    }
  }

  lemma {:induction false} ApplyRulesKeepsLast(rules: seq<Rule>, s: string)
    requires ValidRules(rules)
    requires forall k :: 0 <= k < |rules| ==> !IsAlnum(rules[k].pattern[|rules[k].pattern| - 1])
    requires |s| > 0 && IsAlnum(s[|s| - 1])
    ensures var r := ApplyRules(rules, s); |r| > 0 && r[|r| - 1] == s[|s| - 1]
  {
    if rules != [] {
      var front := rules[..|rules| - 1];
      ApplyRulesKeepsLast(front, s);
      ReplaceAllKeepsLast(ApplyRules(front, s), rules[|rules| - 1].pattern, rules[|rules| - 1].replacement);
    }
  }

  lemma {:induction false} ApplyRulesEmpty(rules: seq<Rule>)
    requires ValidRules(rules)
    ensures ApplyRules(rules, []) == []
  {
    if rules != [] {
      ApplyRulesEmpty(rules[..|rules| - 1]);
    }
  }

  /** The characters the purge rules write. */
  predicate PurgeOutputChar(c: char)
  {
    c == ' ' || c == 'l' || c == 'a' || c == 'n' || c == 'd'
  }

  /** Facts about the rule list itself: every pattern is non-empty and ends in
      a character that is neither a letter nor a digit, and every replacement
      is made of spaces and the letters of "l" and "and". */
  lemma PurgeRulesShape()
    ensures ValidRules(PurgeRules)
    ensures forall k :: 0 <= k < |PurgeRules| ==>
              !IsAlnum(PurgeRules[k].pattern[|PurgeRules[k].pattern| - 1])
    ensures forall k, c :: 0 <= k < |PurgeRules| && c in PurgeRules[k].replacement ==> PurgeOutputChar(c)
  {
    forall k, c | 0 <= k < |PurgeRules| && c in PurgeRules[k].replacement
      ensures PurgeOutputChar(c)
    {
      var rep := PurgeRules[k].replacement;
      assert rep == " l " || rep == " " || rep == " and ";
    }
  }

  /** `purge(s)`: after it no `-`, `(`, `)`, `;`, `/` or `,` is left, every
      other character comes from `s` or is a letter of " l " or " and ", and a
      final letter or digit is kept. */
  function Purged(s: string): (r: string)
    ensures '-' !in r && '(' !in r && ')' !in r && ';' !in r && '/' !in r && ',' !in r
    ensures forall c :: c in r ==> c in s || PurgeOutputChar(c)
    ensures s == [] ==> r == []
    ensures |s| > 0 && IsAlnum(s[|s| - 1]) ==> |r| > 0 && r[|r| - 1] == s[|s| - 1]
  {
    PurgeRulesShape();
    PurgedProperties(s);
    ApplyRules(PurgeRules, s)
  }

  lemma PurgedProperties(s: string)
    requires ValidRules(PurgeRules)
    requires forall k, c :: 0 <= k < |PurgeRules| && c in PurgeRules[k].replacement ==> PurgeOutputChar(c)
    requires forall k :: 0 <= k < |PurgeRules| ==>
               !IsAlnum(PurgeRules[k].pattern[|PurgeRules[k].pattern| - 1])
    ensures var r := ApplyRules(PurgeRules, s);
      && '-' !in r && '(' !in r && ')' !in r && ';' !in r && '/' !in r && ',' !in r
      && (forall c :: c in r ==> c in s || PurgeOutputChar(c))
      && (s == [] ==> r == [])
      && (|s| > 0 && IsAlnum(s[|s| - 1]) ==> |r| > 0 && r[|r| - 1] == s[|s| - 1])
  {
    var rules := PurgeRules;
    var r := ApplyRules(rules, s);
    assert rules[1].pattern == "-" && rules[2].pattern == "(" && rules[3].pattern == ")";
    assert rules[6].pattern == ";" && rules[7].pattern == "/" && rules[8].pattern == ",";
    ApplyRulesRemoves(rules, s, '-', 1);
    ApplyRulesRemoves(rules, s, '(', 2);
    ApplyRulesRemoves(rules, s, ')', 3);
    ApplyRulesRemoves(rules, s, ';', 6);
    ApplyRulesRemoves(rules, s, '/', 7);
    ApplyRulesRemoves(rules, s, ',', 8);
    forall c | c in r && !PurgeOutputChar(c)
      ensures c in s
    {
      ApplyRulesChars(rules, s, c);
    }
    if s == [] {
      ApplyRulesEmpty(rules);
    } else if IsAlnum(s[|s| - 1]) {
      ApplyRulesKeepsLast(rules, s);
    }
  }

  method Purge(s: string) returns (r: string)
    ensures r == Purged(s)
    ensures '-' !in r && '(' !in r && ')' !in r && ';' !in r && '/' !in r && ',' !in r
  {
    assert ValidRules(PurgeRules);
    r := s;
    for i := 0 to |PurgeRules|
      invariant r == ApplyRules(PurgeRules[..i], s)
    {
      var rule := PurgeRules[i];
      assert PurgeRules[..i + 1][..i] == PurgeRules[..i];
      r := ReplaceAll(r, rule.pattern, rule.replacement);
    }
    assert PurgeRules[..|PurgeRules|] == PurgeRules;
  }

  // ---------------------------------------------------------------------------
  // `harmonize`: the eight steps in order

  datatype Step =
    | LowerStep
    | DiacriticsStep
    | MultiSpacesStep
    | QuotationMarksStep
    | TrailingCharsStep
    | CommasAndPeriodsStep
    | PurgeStep

  /** `steps`, in order; the space collapse runs twice. */
  const Steps: seq<Step> := [
    LowerStep, DiacriticsStep, MultiSpacesStep, QuotationMarksStep,
    TrailingCharsStep, CommasAndPeriodsStep, PurgeStep, MultiSpacesStep
  ]

  function ApplyStep(nfkd: string -> string, step: Step, s: string): string
  {
    match step
    case LowerStep => Lower(s)
    case DiacriticsStep => ReplaceDiacritics(nfkd, s)
    case MultiSpacesStep => CollapseSpaces(s)
    case QuotationMarksStep => ReplaceDoubleQuotationMarks(s)
    case TrailingCharsStep => WithoutTrailingNonAlnum(s)
    case CommasAndPeriodsStep => CorrectCommasAndPeriods(s)
    case PurgeStep => Purged(s)
  }

  /** Applies `steps` from first to last. */
  function RunSteps(nfkd: string -> string, steps: seq<Step>, s: string): string
  {
    if steps == [] then s
    else ApplyStep(nfkd, steps[|steps| - 1], RunSteps(nfkd, steps[..|steps| - 1], s))
  }

  /** What `harmonize` guarantees of its output. */
  predicate Harmonious(s: string)
  {
    && IsAscii(s)
    && !Contains(s, "  ")
    && '"' !in s
    && '-' !in s && '(' !in s && ')' !in s && ';' !in s && '/' !in s && ',' !in s
    && (s == [] || IsAlnum(s[|s| - 1]))
  }

  /** `harmonize` on a string: ASCII only, no double space, no `"`, none of the
      purged separators, and empty or ending in a letter or digit. */
  function HarmonizeText(nfkd: string -> string, s: string): (r: string)
    ensures Harmonious(r)
  {
    HarmonizeSteps(nfkd, s);
    RunSteps(nfkd, Steps, s)
  }

  /** The eight steps written out as one composition. */
  function HarmonizeChain(nfkd: string -> string, s: string): string
  {
    CollapseSpaces(Purged(CorrectCommasAndPeriods(WithoutTrailingNonAlnum(
      ReplaceDoubleQuotationMarks(CollapseSpaces(ReplaceDiacritics(nfkd, Lower(s))))))))
  }

  lemma RunStepsIsChain(nfkd: string -> string, s: string)
    ensures RunSteps(nfkd, Steps, s) == HarmonizeChain(nfkd, s)
  {
    var s1 := Lower(s);
    var s2 := ReplaceDiacritics(nfkd, s1);
    var s3 := CollapseSpaces(s2);
    var s4 := ReplaceDoubleQuotationMarks(s3);
    var s5 := WithoutTrailingNonAlnum(s4);
    var s6 := CorrectCommasAndPeriods(s5);
    var s7 := Purged(s6);
    RunStepsSnoc(nfkd, s, 1);
    RunStepsSnoc(nfkd, s, 2);
    RunStepsSnoc(nfkd, s, 3);
    RunStepsSnoc(nfkd, s, 4);
    RunStepsSnoc(nfkd, s, 5);
    RunStepsSnoc(nfkd, s, 6);
    RunStepsSnoc(nfkd, s, 7);
    RunStepsSnoc(nfkd, s, 8);
    assert Steps[..8] == Steps;
    assert Steps[..0] == [];
  }

  lemma RunStepsSnoc(nfkd: string -> string, s: string, n: int)
    requires 0 < n <= |Steps|
    ensures RunSteps(nfkd, Steps[..n], s) == ApplyStep(nfkd, Steps[n - 1], RunSteps(nfkd, Steps[..n - 1], s))
  {
    assert Steps[..n][..n - 1] == Steps[..n - 1];
  }

  lemma HarmonizeSteps(nfkd: string -> string, s: string)
    ensures Harmonious(RunSteps(nfkd, Steps, s))
  {
    RunStepsIsChain(nfkd, s);
    var s2 := ReplaceDiacritics(nfkd, Lower(s));
    var s3 := CollapseSpaces(s2);
    var s5 := WithoutTrailingNonAlnum(ReplaceDoubleQuotationMarks(s3));
    CollapseSpacesChars(s2);
    QuotationStep(s3);
    assert forall c :: c in s5 ==> IsAsciiChar(c) by {
      forall c | c in s5 ensures IsAsciiChar(c) {
        if c in s2 {
          var i :| 0 <= i < |s2| && s2[i] == c;
        }
      }
    }
    AfterQuotationStep(s5);
  }

  /** Steps 4 and 5: no `"` is left, nothing but spaces is added, and the text
      is empty or ends in a letter or digit. */
  lemma QuotationStep(s3: string)
    ensures var s5 := WithoutTrailingNonAlnum(ReplaceDoubleQuotationMarks(s3));
      && '"' !in s5
      && (forall c :: c in s5 ==> c in s3 || c == ' ')
      && (s5 == [] || IsAlnum(s5[|s5| - 1]))
  {
    var s4 := ReplaceDoubleQuotationMarks(s3);
    var s5 := WithoutTrailingNonAlnum(s4);
    assert '"' !in s4;
    assert '"' !in s5 by { assert s5 == s4[..|s5|]; }
    forall c | c in s5 ensures c in s3 || c == ' ' {
      var i :| 0 <= i < |s5| && s5[i] == c;
      assert s4[i] == c;
      if s3[i] != '"' { assert s3[i] in s3; }
    }
  }

  /** Steps 6 to 8 on ASCII text without `"` that is empty or ends in a letter
      or digit give a harmonious string. */
  lemma AfterQuotationStep(s5: string)
    requires forall c :: c in s5 ==> IsAsciiChar(c)
    requires '"' !in s5
    requires s5 == [] || IsAlnum(s5[|s5| - 1])
    ensures Harmonious(CollapseSpaces(Purged(CorrectCommasAndPeriods(s5))))
  {
    var s6 := CorrectCommasAndPeriods(s5);
    var s7 := Purged(s6);
    var s8 := CollapseSpaces(s7);
    CollapseSpacesChars(s7);
    assert forall c :: c in s8 ==> IsAsciiChar(c) && c != '"' by {
      forall c | c in s8 ensures IsAsciiChar(c) && c != '"' {
        assert c in s7;
        if !PurgeOutputChar(c) {
          assert c in s6;
          assert c in s5;
        }
      }
    }
    assert IsAscii(s8) by {
      forall i | 0 <= i < |s8| ensures IsAsciiChar(s8[i]) {
        assert s8[i] in s8;
      }
    }
    if s5 != [] {
      CollapseSpacesKeepsLast(s7);
    }
  }

  /** A cell handed to `harmonize`: text, or anything else pandas may hold
      (a missing value, a number), on which the first step raises. */
  datatype Value = Str(text: string) | NotText

  /** Either the harmonised name, or the exception `harmonize` raises: the
      step that failed and the value it was given. */
  datatype Harmonization = Harmonized(name: string) | StepFailed(step: Step, input: Value)

  method RunStep(nfkd: string -> string, step: Step, s: string) returns (r: string)
    ensures r == ApplyStep(nfkd, step, s)
  {
    match step {
      case LowerStep => r := Lower(s);
      case DiacriticsStep => r := ReplaceDiacritics(nfkd, s);
      case MultiSpacesStep => r := ReplaceMultiSpaces(s);
      case QuotationMarksStep => r := ReplaceDoubleQuotationMarks(s);
      case TrailingCharsStep => r := ReplaceTrailingNonAlphanumericChars(s);
      case CommasAndPeriodsStep => r := CorrectCommasAndPeriods(s);
      case PurgeStep => r := Purge(s);
    }
  }

  /** `harmonize`: runs the steps in order; a step that raises is reported with
      the step and its input, and no partial output is returned. */
  method Harmonize(nfkd: string -> string, v: Value) returns (h: Harmonization)
    ensures v.NotText? ==> h == StepFailed(LowerStep, v)
    ensures v.Str? ==> h == Harmonized(HarmonizeText(nfkd, v.text))
    ensures h.Harmonized? ==> Harmonious(h.name)
  {
    var current := v;
    for i := 0 to |Steps|
      invariant i == 0 ==> current == v
      invariant i > 0 ==> v.Str? && current == Str(RunSteps(nfkd, Steps[..i], v.text))
    {
      if current.NotText? {
        return StepFailed(Steps[i], current);
      }
      var next := RunStep(nfkd, Steps[i], current.text);
      assert Steps[..i + 1][..i] == Steps[..i];
      current := Str(next);
    }
    assert Steps[..|Steps|] == Steps;
    h := Harmonized(current.text);
  }

  // ---------------------------------------------------------------------------
  // `tokenize`

  /** `_synonyms` as written; note the entry for "int.". */
  const SourceSynonyms: map<string, string> := map[
    "&" := "and",
    "ag" := "aktiengesellschaft",
    "co" := "company",
    "co." := "company",
    "corp" := "corporation",
    "corp." := "corporation",
    "inc" := "incorporated",
    "inc." := "incorporated",
    "int" := "international",
    "int." := "internatinal",
    "intl." := "international",
    "ltd" := "limited",
    "ltd." := "limited",
    "pvt" := "private"
  ]

  /** The synonym table with "int." spelled as the other "int" variants. */
  const Synonyms: map<string, string> := SourceSynonyms["int." := "international"]

  /** As written, the table maps "int" and "int." to different tokens. */
  lemma SourceSynonymsDisagree()
    ensures exists k :: k in SourceSynonyms && k + "." in SourceSynonyms
                        && SourceSynonyms[k] != SourceSynonyms[k + "."]
  {
    assert "int" + "." == "int.";
  }

  /** In the corrected table a word and its abbreviation with a final period
      always mean the same thing. */
  lemma SynonymVariantsAgree()
    ensures forall k :: k in Synonyms && k + "." in Synonyms ==> Synonyms[k] == Synonyms[k + "."]
  {
    forall k | k in Synonyms && k + "." in Synonyms
      ensures Synonyms[k] == Synonyms[k + "."]
    {
      var d := k + ".";
      assert d[..|d| - 1] == k;
      DottedKeyAgrees(d);
    }
  }

  /** A key with a final period means the same as the key without it, if
      that is a key too. */
  lemma DottedKeyAgrees(d: string)
    requires d in Synonyms
    ensures |d| > 0 && d[|d| - 1] == '.' && d[..|d| - 1] in Synonyms ==> Synonyms[d[..|d| - 1]] == Synonyms[d]
  {
    assert d in SourceSynonyms;
    if d == "co." {
      assert d[..|d| - 1] == "co";
    } else if d == "corp." {
      assert d[..|d| - 1] == "corp";
    } else if d == "inc." {
      assert d[..|d| - 1] == "inc";
    } else if d == "int." {
      assert d[..|d| - 1] == "int";
    } else if d == "ltd." {
      assert d[..|d| - 1] == "ltd";
    } else if d == "intl." {
      assert d[..|d| - 1] == "intl";
      assert "intl" !in SourceSynonyms;
    } else {
      assert d[|d| - 1] != '.';
    }
  }

  /** No replacement is itself a key, so a token is never replaced twice. */
  predicate ReplacesOnce(table: map<string, string>)
  {
    forall k :: k in table ==> table[k] !in table
  }

  /** Both the table as written and the corrected one replace a token once. */
  lemma SynonymValuesAreNotKeys()
    ensures forall k :: k in SourceSynonyms ==> SourceSynonyms[k] !in SourceSynonyms
    ensures forall k :: k in Synonyms ==> Synonyms[k] !in Synonyms
  {
    var and := "and";
    SynonymKeysAreShort(SourceSynonyms);
    SynonymValuesAreLong(SourceSynonyms, and);
    SynonymKeysAreNotAnd(SourceSynonyms, and);
    ShortKeysLongValues(SourceSynonyms, and);
    SynonymKeysAreShort(Synonyms);
    SynonymValuesAreLong(Synonyms, and);
    SynonymKeysAreNotAnd(Synonyms, and);
    ShortKeysLongValues(Synonyms, and);
  }

  lemma SynonymKeysAreNotAnd(table: map<string, string>, and: string)
    requires table == SourceSynonyms || table == Synonyms
    requires and == "and"
    ensures and !in table
  {
    forall k | k in table ensures k != and {
      assert k in SourceSynonyms;
    }
  }

  /** Keys of at most five characters never equal values longer than that. */
  lemma ShortKeysLongValues(m: map<string, string>, short: string)
    requires forall k :: k in m ==> |k| <= 5
    requires forall k :: k in m ==> m[k] == short || |m[k]| > 5
    requires short !in m
    ensures forall k :: k in m ==> m[k] !in m
  {
  }

  lemma SynonymKeysAreShort(table: map<string, string>)
    requires table == SourceSynonyms || table == Synonyms
    ensures forall k :: k in table ==> |k| <= 5
  {
    forall k | k in table ensures |k| <= 5 {
      assert k in SourceSynonyms;
    }
  }

  lemma SynonymValuesAreLong(table: map<string, string>, and: string)
    requires table == SourceSynonyms || table == Synonyms
    requires and == "and"
    ensures forall k :: k in table ==> table[k] == and || |table[k]| > 5
  {
    forall k | k in table ensures table[k] == and || |table[k]| > 5 {
      assert k in SourceSynonyms;
    }
  }

  /** `_synonyms.get(token, token)` for the synonym table `table`. */
  function Synonym(table: map<string, string>, token: string): string
  {
    if token in table then table[token] else token
  }

  /** The two tables give a different token for exactly one word, "int.". */
  lemma SynonymTablesDiffer(token: string)
    ensures Synonym(SourceSynonyms, token) != Synonym(Synonyms, token) <==> token == "int."
  {
    if token != "int." {
      assert token in SourceSynonyms <==> token in Synonyms;
      if token in SourceSynonyms {
        assert SourceSynonyms[token] == Synonyms[token];
      }
    }
  }

  function MapSynonyms(table: map<string, string>, tokens: seq<string>): (r: seq<string>)
    ensures |r| == |tokens|
    ensures forall i :: 0 <= i < |r| ==> r[i] == Synonym(table, tokens[i])
  {
    if tokens == [] then [] else [Synonym(table, tokens[0])] + MapSynonyms(table, tokens[1..])
  }

  /** The space-separated words of the stripped, harmonised name. */
  function Words(nfkd: string -> string, s: string): seq<string>
  {
    Split(Strip(HarmonizeText(nfkd, s)), ' ')
  }

  /** `tokenize` with the synonym table `table` (`SourceSynonyms` is the one
      the code uses): the synonyms of the words of the harmonised name, sorted
      and without duplicates; with a table that replaces a token once, no
      synonym key survives. */
  function Tokenize(nfkd: string -> string, table: map<string, string>, s: string): (r: seq<string>)
    ensures StrictlyAscending(r)
    ensures forall t :: t in r <==> exists w :: w in Words(nfkd, s) && Synonym(table, w) == t
    ensures ReplacesOnce(table) ==> forall t :: t in r ==> t !in table
  {
    var words := Words(nfkd, s);
    var mapped := MapSynonyms(table, words);
    assert forall t :: t in mapped <==> exists w :: w in words && Synonym(table, w) == t by {
      forall t ensures t in mapped <==> exists w :: w in words && Synonym(table, w) == t {
        if t in mapped {
          var i :| 0 <= i < |mapped| && mapped[i] == t;
          assert words[i] in words;
        }
        if exists w :: w in words && Synonym(table, w) == t {
          var w :| w in words && Synonym(table, w) == t;
          var i :| 0 <= i < |words| && words[i] == w;
          assert mapped[i] == t;
        }
      }
    }
    Unique(mapped)
  }

  /** The code as written and the corrected table tokenize every name without
      the word "int." alike. */
  lemma TokenizersAgree(nfkd: string -> string, s: string)
    requires "int." !in Words(nfkd, s)
    ensures Tokenize(nfkd, SourceSynonyms, s) == Tokenize(nfkd, Synonyms, s)
  {
    var a := Tokenize(nfkd, SourceSynonyms, s);
    var b := Tokenize(nfkd, Synonyms, s);
    forall t ensures t in a <==> t in b {
      forall w | w in Words(nfkd, s) ensures Synonym(SourceSynonyms, w) == Synonym(Synonyms, w) {
        SynonymTablesDiffer(w);
      }
    }
    StrictlyAscendingUnique(a, b);
  }

  // ---------------------------------------------------------------------------
  // Worked examples

  /** No `a` in `s` is directly followed by `b`. */
  predicate NoPair(s: string, a: char, b: char)
  {
    forall i :: 0 <= i < |s| - 1 ==> s[i] != a || s[i + 1] != b
  }

  lemma NoPairNotContained(s: string, pat: string)
    requires |pat| == 2 && NoPair(s, pat[0], pat[1])
    ensures !Contains(s, pat)
  {
    forall i | 0 <= i <= |s| - 2 ensures !OccursAt(s, pat, i) {
      assert s[i..i + 2][0] == s[i] && s[i..i + 2][1] == s[i + 1];
    }
  }

  lemma CollapseSpacesUnchanged(s: string, double: string)
    requires double == "  " && NoPair(s, ' ', ' ')
    ensures CollapseSpaces(s) == s
  {
    NoPairNotContained(s, double);
  }

  /** Steps 1 to 4 change nothing more than the case of ASCII text that
      `nfkd` leaves alone and that has no double space and no `"`. */
  lemma FirstStepsUnchanged(nfkd: string -> string, s: string, l: string)
    requires Lower(s) == l && nfkd(l) == l && IsAscii(l) && NoPair(l, ' ', ' ') && '"' !in l
    ensures ReplaceDoubleQuotationMarks(CollapseSpaces(ReplaceDiacritics(nfkd, Lower(s)))) == l
  {
    FirstThreeStepsUnchanged(nfkd, s, l);
    var q := ReplaceDoubleQuotationMarks(l);
    forall i | 0 <= i < |l| ensures q[i] == l[i] {
      assert l[i] in l;
    }
  }

  /** Steps 1 to 3 change nothing more than the case of ASCII text that
      `nfkd` leaves alone and that has no double space. */
  lemma FirstThreeStepsUnchanged(nfkd: string -> string, s: string, l: string)
    requires Lower(s) == l && nfkd(l) == l && IsAscii(l) && NoPair(l, ' ', ' ')
    ensures CollapseSpaces(ReplaceDiacritics(nfkd, Lower(s))) == l
  {
    CollapseSpacesUnchanged(l, "  ");
  }

  /** Step 5 removes one final non-alphanumeric character before a letter or
      digit. */
  lemma TrailingCharDropped(l: string, t: string)
    requires |l| > 1 && t == l[..|l| - 1] && !IsAlnum(l[|l| - 1]) && IsAlnum(l[|l| - 2])
    ensures WithoutTrailingNonAlnum(l) == t
  {
  }

  lemma {:induction false} ApplyRulesUnchanged(rules: seq<Rule>, s: string)
    requires ValidRules(rules)
    requires forall k :: 0 <= k < |rules| ==> !Contains(s, rules[k].pattern)
    ensures ApplyRules(rules, s) == s
  {
    if rules != [] {
      ApplyRulesUnchanged(rules[..|rules| - 1], s);
      ReplaceAbsent(s, rules[|rules| - 1].pattern, rules[|rules| - 1].replacement);
    }
  }

  /** Text without any character a purge rule looks for passes `purge` unchanged. */
  lemma PurgeUnchanged(s: string)
    requires '\'' !in s && '-' !in s && '(' !in s && ')' !in s && '&' !in s
    requires '+' !in s && ';' !in s && '/' !in s && ',' !in s
    ensures Purged(s) == s
  {
    PurgeRulesShape();
    var rules := PurgeRules;
    MissingCharNotContained(s, rules[0].pattern, 2);
    MissingCharNotContained(s, rules[1].pattern, 0);
    MissingCharNotContained(s, rules[2].pattern, 0);
    MissingCharNotContained(s, rules[3].pattern, 0);
    MissingCharNotContained(s, rules[4].pattern, 1);
    MissingCharNotContained(s, rules[5].pattern, 1);
    MissingCharNotContained(s, rules[6].pattern, 0);
    MissingCharNotContained(s, rules[7].pattern, 0);
    MissingCharNotContained(s, rules[8].pattern, 0);
    ApplyRulesUnchanged(rules, s);
  }

  lemma CommasAndPeriodsUnchanged(t: string, spaceComma: string, spacePeriod: string, commaSpace: string)
    requires spaceComma == " ," && spacePeriod == " ." && commaSpace == ", "
    requires ',' !in t && NoPair(t, ' ', '.')
    ensures CorrectCommasAndPeriods(t) == t
  {
    MissingCharNotContained(t, spaceComma, 1);
    ReplaceAbsent(t, spaceComma, ",");
    NoPairNotContained(t, spacePeriod);
    ReplaceAbsent(t, spacePeriod, ".");
    MissingCharNotContained(t, commaSpace, 0);
    ReplaceAbsent(t, commaSpace, ",");
  }

  /** Steps 6 to 8 leave text unchanged that has no `,`, no space before a
      `.`, no double space and none of the characters a purge rule looks for. */
  lemma LastStepsUnchanged(t: string)
    requires ',' !in t && NoPair(t, ' ', '.') && NoPair(t, ' ', ' ')
    requires '\'' !in t && '-' !in t && '(' !in t && ')' !in t && '&' !in t
    requires '+' !in t && ';' !in t && '/' !in t
    ensures CollapseSpaces(Purged(CorrectCommasAndPeriods(t))) == t
  {
    CommasAndPeriodsUnchanged(t, " ,", " .", ", ");
    PurgeUnchanged(t);
    CollapseSpacesUnchanged(t, "  ");
  }

  /** The harmonisation chain split after steps 4 and 5. */
  lemma HarmonizeThrough(nfkd: string -> string, s: string, s4: string, s5: string, r: string)
    requires ReplaceDoubleQuotationMarks(CollapseSpaces(ReplaceDiacritics(nfkd, Lower(s)))) == s4
    requires WithoutTrailingNonAlnum(s4) == s5
    requires CollapseSpaces(Purged(CorrectCommasAndPeriods(s5))) == r
    ensures HarmonizeText(nfkd, s) == r
  {
    RunStepsIsChain(nfkd, s);
  }

  /** "Ltd. Ltd." harmonises to "ltd. ltd": lower case, and the final period cut. */
  lemma HarmonizeLtdLtd(nfkd: string -> string, s: string, l: string, t: string)
    requires |s| == 9 && s[0] == 'L' && s[1] == 't' && s[2] == 'd' && s[3] == '.' && s[4] == ' '
    requires s[5] == 'L' && s[6] == 't' && s[7] == 'd' && s[8] == '.'
    requires |l| == 9 && l[0] == 'l' && l[1] == 't' && l[2] == 'd' && l[3] == '.' && l[4] == ' '
    requires l[5] == 'l' && l[6] == 't' && l[7] == 'd' && l[8] == '.'
    requires t == l[..8] && nfkd(l) == l
    ensures HarmonizeText(nfkd, s) == t
  {
    LowerLtdLtd(s, l);
    FirstStepsUnchanged(nfkd, s, l);
    LtdLtdTail(l, t);
    TrailingCharDropped(l, t);
    LastStepsUnchanged(t);
    HarmonizeThrough(nfkd, s, l, t, t);
  }

  lemma LtdLtdTail(l: string, t: string)
    requires |l| == 9 && l[0] == 'l' && l[1] == 't' && l[2] == 'd' && l[3] == '.' && l[4] == ' '
    requires l[5] == 'l' && l[6] == 't' && l[7] == 'd' && l[8] == '.'
    requires t == l[..8]
    ensures !IsAlnum(l[8]) && IsAlnum(l[7])
    ensures ',' !in t && NoPair(t, ' ', '.') && NoPair(t, ' ', ' ')
    ensures '\'' !in t && '-' !in t && '(' !in t && ')' !in t && '&' !in t
    ensures '+' !in t && ';' !in t && '/' !in t
  {
    assert forall i :: 0 <= i < |t| ==> t[i] == l[i];
  }

  lemma LowerLtdLtd(s: string, l: string)
    requires |s| == 9 && s[0] == 'L' && s[1] == 't' && s[2] == 'd' && s[3] == '.' && s[4] == ' '
    requires s[5] == 'L' && s[6] == 't' && s[7] == 'd' && s[8] == '.'
    requires |l| == 9 && l[0] == 'l' && l[1] == 't' && l[2] == 'd' && l[3] == '.' && l[4] == ' '
    requires l[5] == 'l' && l[6] == 't' && l[7] == 'd' && l[8] == '.'
    ensures Lower(s) == l && IsAscii(l) && NoPair(l, ' ', ' ') && '"' !in l
  {
  }

  /** A text made of two words without spaces, joined by one space, splits into them. */
  lemma SplitTwoWords(t: string, w1: string, w2: string)
    requires t == w1 + [' '] + w2 && ' ' !in w1 && ' ' !in w2
    ensures Split(t, ' ') == [w1, w2]
  {
    SplitAround(w1, w2, ' ');
    SplitWithoutSeparator(w1, ' ');
    SplitWithoutSeparator(w2, ' ');
  }

  /** A name of two words tokenizes to the sorted, distinct synonyms of the two. */
  lemma TokenizeTwoWords(nfkd: string -> string, table: map<string, string>, s: string, w1: string, w2: string, r: seq<string>)
    requires Words(nfkd, s) == [w1, w2]
    requires StrictlyAscending(r)
    requires forall x :: x in r <==> x == Synonym(table, w1) || x == Synonym(table, w2)
    ensures Tokenize(nfkd, table, s) == r
  {
    StrictlyAscendingUnique(Tokenize(nfkd, table, s), r);
  }

  lemma LtdSynonyms(w1: string, w2: string, v: string)
    requires w1 == "ltd." && w2 == "ltd" && v == "limited"
    ensures Synonym(SourceSynonyms, w1) == v && Synonym(SourceSynonyms, w2) == v
  {
  }

  /** `tokenize("Ltd. Ltd.")` is `["limited"]`: both words are forms of "ltd". */
  lemma TokenizeLtdLtd(nfkd: string -> string)
    requires nfkd("ltd. ltd.") == "ltd. ltd."
    ensures Tokenize(nfkd, SourceSynonyms, "Ltd. Ltd.") == ["limited"]
  {
    var s, l := "Ltd. Ltd.", "ltd. ltd.";
    var w1, w2 := l[..4], l[5..8];
    WordsOfLtdLtd(nfkd, s, l, w1, w2);
    LtdSynonyms(w1, w2, "limited");
    TokenizeTwoWords(nfkd, SourceSynonyms, s, w1, w2, ["limited"]);
  }

  /** "Ltd. Ltd." splits into the words "ltd." and "ltd". */
  lemma WordsOfLtdLtd(nfkd: string -> string, s: string, l: string, w1: string, w2: string)
    requires s == "Ltd. Ltd." && l == "ltd. ltd." && nfkd(l) == l
    requires w1 == l[..4] && w2 == l[5..8]
    ensures Words(nfkd, s) == [w1, w2]
  {
    var t := l[..8];
    HarmonizeLtdLtd(nfkd, s, l, t);
    StripUnchanged(t);
    assert t == w1 + [' '] + w2;
    SplitTwoWords(t, w1, w2);
  }

  /** Step 5 keeps text that ends in a letter or digit. */
  lemma TrailingCharKept(l: string)
    requires |l| > 0 && IsAlnum(l[|l| - 1])
    ensures WithoutTrailingNonAlnum(l) == l
  {
  }

  /** "Int. Co" harmonises to "int. co". */
  lemma HarmonizeIntDotCo(nfkd: string -> string, s: string, l: string)
    requires |s| == 7 && s[0] == 'I' && s[1] == 'n' && s[2] == 't' && s[3] == '.' && s[4] == ' '
    requires s[5] == 'C' && s[6] == 'o'
    requires |l| == 7 && l[0] == 'i' && l[1] == 'n' && l[2] == 't' && l[3] == '.' && l[4] == ' '
    requires l[5] == 'c' && l[6] == 'o'
    requires nfkd(l) == l
    ensures HarmonizeText(nfkd, s) == l
  {
    LowerIntDotCo(s, l);
    FirstStepsUnchanged(nfkd, s, l);
    TrailingCharKept(l);
    LastStepsUnchanged(l);
    HarmonizeThrough(nfkd, s, l, l, l);
  }

  lemma LowerIntDotCo(s: string, l: string)
    requires |s| == 7 && s[0] == 'I' && s[1] == 'n' && s[2] == 't' && s[3] == '.' && s[4] == ' '
    requires s[5] == 'C' && s[6] == 'o'
    requires |l| == 7 && l[0] == 'i' && l[1] == 'n' && l[2] == 't' && l[3] == '.' && l[4] == ' '
    requires l[5] == 'c' && l[6] == 'o'
    ensures Lower(s) == l && IsAscii(l) && NoPair(l, ' ', ' ') && '"' !in l
    ensures ',' !in l && NoPair(l, ' ', '.')
    ensures '\'' !in l && '-' !in l && '(' !in l && ')' !in l && '&' !in l
    ensures '+' !in l && ';' !in l && '/' !in l
  {
    IntDotCoChars(l);
    assert forall i :: 0 <= i < 7 ==> Lower(s)[i] == l[i];
  }

  lemma IntDotCoChars(l: string)
    requires |l| == 7 && l[0] == 'i' && l[1] == 'n' && l[2] == 't' && l[3] == '.' && l[4] == ' '
    requires l[5] == 'c' && l[6] == 'o'
    ensures IsAscii(l) && NoPair(l, ' ', ' ') && '"' !in l
    ensures ',' !in l && NoPair(l, ' ', '.')
    ensures '\'' !in l && '-' !in l && '(' !in l && ')' !in l && '&' !in l
    ensures '+' !in l && ';' !in l && '/' !in l
  {
  }

  /** "Int Co" harmonises to "int co". */
  lemma HarmonizeIntCo(nfkd: string -> string, s: string, l: string)
    requires |s| == 6 && s[0] == 'I' && s[1] == 'n' && s[2] == 't' && s[3] == ' ' && s[4] == 'C' && s[5] == 'o'
    requires |l| == 6 && l[0] == 'i' && l[1] == 'n' && l[2] == 't' && l[3] == ' ' && l[4] == 'c' && l[5] == 'o'
    requires nfkd(l) == l
    ensures HarmonizeText(nfkd, s) == l
  {
    LowerIntCo(s, l);
    FirstStepsUnchanged(nfkd, s, l);
    TrailingCharKept(l);
    LastStepsUnchanged(l);
    HarmonizeThrough(nfkd, s, l, l, l);
  }

  lemma LowerIntCo(s: string, l: string)
    requires |s| == 6 && s[0] == 'I' && s[1] == 'n' && s[2] == 't' && s[3] == ' ' && s[4] == 'C' && s[5] == 'o'
    requires |l| == 6 && l[0] == 'i' && l[1] == 'n' && l[2] == 't' && l[3] == ' ' && l[4] == 'c' && l[5] == 'o'
    ensures Lower(s) == l && IsAscii(l) && NoPair(l, ' ', ' ') && '"' !in l
    ensures ',' !in l && NoPair(l, ' ', '.')
    ensures '\'' !in l && '-' !in l && '(' !in l && ')' !in l && '&' !in l
    ensures '+' !in l && ';' !in l && '/' !in l
  {
    IntCoChars(l);
    assert forall i :: 0 <= i < 6 ==> Lower(s)[i] == l[i];
  }

  lemma IntCoChars(l: string)
    requires |l| == 6 && l[0] == 'i' && l[1] == 'n' && l[2] == 't' && l[3] == ' ' && l[4] == 'c' && l[5] == 'o'
    ensures IsAscii(l) && NoPair(l, ' ', ' ') && '"' !in l
    ensures ',' !in l && NoPair(l, ' ', '.')
    ensures '\'' !in l && '-' !in l && '(' !in l && ')' !in l && '&' !in l
    ensures '+' !in l && ';' !in l && '/' !in l
  {
  }

  lemma IntCoSynonyms(intDot: string, intWord: string, co: string)
    requires intDot == "int." && intWord == "int" && co == "co"
    ensures Synonym(SourceSynonyms, intDot) == "internatinal"
    ensures Synonym(SourceSynonyms, intWord) == "international"
    ensures Synonym(Synonyms, intDot) == "international"
    ensures Synonym(SourceSynonyms, co) == "company" && Synonym(Synonyms, co) == "company"
  {
  }

  lemma CompanyBefore(company: string, other: string)
    requires company == "company" && |other| > 0 && other[0] == 'i'
    ensures StrictlyAscending([company, other])
  {
    assert Less(company, other);
  }

  /** "Int. Co" splits into the words "int." and "co". */
  lemma WordsOfIntDotCo(nfkd: string -> string, s: string, l: string, intDot: string, co: string)
    requires s == "Int. Co" && l == "int. co" && nfkd(l) == l
    requires intDot == l[..4] && co == l[5..]
    ensures Words(nfkd, s) == [intDot, co]
  {
    HarmonizeIntDotCo(nfkd, s, l);
    StripUnchanged(l);
    SplitTwoWords(l, intDot, co);
  }

  /** "Int Co" splits into the words "int" and "co". */
  lemma WordsOfIntCo(nfkd: string -> string, s: string, l: string, intWord: string, co: string)
    requires s == "Int Co" && l == "int co" && nfkd(l) == l
    requires intWord == l[..3] && co == l[4..]
    ensures Words(nfkd, s) == [intWord, co]
  {
    HarmonizeIntCo(nfkd, s, l);
    StripUnchanged(l);
    SplitTwoWords(l, intWord, co);
  }

  /** The table as written tokenizes "Int. Co" to "company" and the misspelt
      "internatinal", but "Int Co" to "company" and "international"; the
      corrected table gives "international" for both. */
  lemma TokenizeIntCo(nfkd: string -> string)
    requires nfkd("int. co") == "int. co" && nfkd("int co") == "int co"
    ensures Tokenize(nfkd, SourceSynonyms, "Int. Co") == ["company", "internatinal"]
    ensures Tokenize(nfkd, SourceSynonyms, "Int Co") == ["company", "international"]
    ensures Tokenize(nfkd, Synonyms, "Int. Co") == ["company", "international"]
  {
    TokenizeIntDotCo(nfkd);
    TokenizeIntWordCo(nfkd);
  }

  lemma TokenizeIntDotCo(nfkd: string -> string)
    requires nfkd("int. co") == "int. co"
    ensures Tokenize(nfkd, SourceSynonyms, "Int. Co") == ["company", "internatinal"]
    ensures Tokenize(nfkd, Synonyms, "Int. Co") == ["company", "international"]
  {
    var company, misspelt, international := "company", "internatinal", "international";
    CompanyBefore(company, misspelt);
    CompanyBefore(company, international);
    var dotted, l := "Int. Co", "int. co";
    var intDot, co := l[..4], l[5..];
    WordsOfIntDotCo(nfkd, dotted, l, intDot, co);
    IntCoSynonyms(intDot, "int", co);
    TokenizeTwoWords(nfkd, SourceSynonyms, dotted, intDot, co, [company, misspelt]);
    TokenizeTwoWords(nfkd, Synonyms, dotted, intDot, co, [company, international]);
  }

  lemma TokenizeIntWordCo(nfkd: string -> string)
    requires nfkd("int co") == "int co"
    ensures Tokenize(nfkd, SourceSynonyms, "Int Co") == ["company", "international"]
  {
    var company, international := "company", "international";
    CompanyBefore(company, international);
    var plain, l := "Int Co", "int co";
    var intWord, co := l[..3], l[4..];
    WordsOfIntCo(nfkd, plain, l, intWord, co);
    IntCoSynonyms("int.", intWord, co);
    TokenizeTwoWords(nfkd, SourceSynonyms, plain, intWord, co, [company, international]);
  }

  /** `'a " .b'` harmonises to `'a .b'`: the quotation mark becomes a space
      after the first space collapse, and the comma and period step removes
      only one of the spaces before the period. */
  lemma HarmonizeQuoteBeforePeriod(nfkd: string -> string, s: string, q: string, m: string, r: string)
    requires |s| == 6 && s[0] == 'a' && s[1] == ' ' && s[2] == '"' && s[3] == ' ' && s[4] == '.' && s[5] == 'b'
    requires |q| == 6 && q[0] == 'a' && q[1] == ' ' && q[2] == ' ' && q[3] == ' ' && q[4] == '.' && q[5] == 'b'
    requires |m| == 5 && m[0] == 'a' && m[1] == ' ' && m[2] == ' ' && m[3] == '.' && m[4] == 'b'
    requires |r| == 4 && r[0] == 'a' && r[1] == ' ' && r[2] == '.' && r[3] == 'b'
    requires nfkd(s) == s
    ensures HarmonizeText(nfkd, s) == r
  {
    QuoteExampleFacts(s, q, m);
    FirstThreeStepsUnchanged(nfkd, s, s);
    TrailingCharKept(q);
    CommasAndPeriodsExample(q, m, " ,", " .", ", ");
    PurgeUnchanged(m);
    CollapseExample(m, r, "  ");
    HarmonizeThrough(nfkd, s, q, q, r);
  }

  lemma QuoteExampleFacts(s: string, q: string, m: string)
    requires |s| == 6 && s[0] == 'a' && s[1] == ' ' && s[2] == '"' && s[3] == ' ' && s[4] == '.' && s[5] == 'b'
    requires |q| == 6 && q[0] == 'a' && q[1] == ' ' && q[2] == ' ' && q[3] == ' ' && q[4] == '.' && q[5] == 'b'
    requires |m| == 5 && m[0] == 'a' && m[1] == ' ' && m[2] == ' ' && m[3] == '.' && m[4] == 'b'
    ensures Lower(s) == s && IsAscii(s) && NoPair(s, ' ', ' ')
    ensures ReplaceDoubleQuotationMarks(s) == q
    ensures '\'' !in m && '-' !in m && '(' !in m && ')' !in m && '&' !in m
    ensures '+' !in m && ';' !in m && '/' !in m && ',' !in m
  {
    var r := ReplaceDoubleQuotationMarks(s);
    assert forall i :: 0 <= i < 6 ==> r[i] == q[i];
  }

  /** Step 6 on `'a   .b'` gives `'a  .b'`. */
  lemma CommasAndPeriodsExample(s: string, r: string, spaceComma: string, spacePeriod: string, commaSpace: string)
    requires |s| == 6 && s[0] == 'a' && s[1] == ' ' && s[2] == ' ' && s[3] == ' ' && s[4] == '.' && s[5] == 'b'
    requires |r| == 5 && r[0] == 'a' && r[1] == ' ' && r[2] == ' ' && r[3] == '.' && r[4] == 'b'
    requires spaceComma == " ," && spacePeriod == " ." && commaSpace == ", "
    ensures CorrectCommasAndPeriods(s) == r
  {
    MissingCharNotContained(s, spaceComma, 1);
    ReplaceAbsent(s, spaceComma, ",");
    SpacesBeforePeriod(s, r, spacePeriod, ".");
    MissingCharNotContained(r, commaSpace, 0);
    ReplaceAbsent(r, commaSpace, ",");
  }

  /** Replacing `" ."` in `'a   .b'` removes the last space only. */
  lemma SpacesBeforePeriod(s: string, r: string, spacePeriod: string, dot: string)
    requires |s| == 6 && s[0] == 'a' && s[1] == ' ' && s[2] == ' ' && s[3] == ' ' && s[4] == '.' && s[5] == 'b'
    requires |r| == 5 && r[0] == 'a' && r[1] == ' ' && r[2] == ' ' && r[3] == '.' && r[4] == 'b'
    requires spacePeriod == " ." && dot == "."
    ensures ReplaceAll(s, spacePeriod, dot) == r
  {
    assert ReplaceAll(s[5..], spacePeriod, dot) == s[5..];
    assert s[3..][..2] == spacePeriod && s[3..][2..] == s[5..];
    assert ReplaceAll(s[3..], spacePeriod, dot) == dot + s[5..];
    assert s[2..][..2] != spacePeriod && s[2..][1..] == s[3..];
    assert ReplaceAll(s[2..], spacePeriod, dot) == [s[2]] + dot + s[5..];
    assert s[1..][..2] != spacePeriod && s[1..][1..] == s[2..];
    assert ReplaceAll(s[1..], spacePeriod, dot) == [s[1], s[2]] + dot + s[5..];
    assert s[..2] != spacePeriod;
    assert ReplaceAll(s, spacePeriod, dot) == [s[0], s[1], s[2]] + dot + s[5..];
    assert [s[0], s[1], s[2]] + dot + s[5..] == r;
  }

  /** Step 8 on `'a  .b'` gives `'a .b'`. */
  lemma CollapseExample(s: string, r: string, double: string)
    requires |s| == 5 && s[0] == 'a' && s[1] == ' ' && s[2] == ' ' && s[3] == '.' && s[4] == 'b'
    requires |r| == 4 && r[0] == 'a' && r[1] == ' ' && r[2] == '.' && r[3] == 'b'
    requires double == "  "
    ensures CollapseSpaces(s) == r
  {
    var space := " ";
    assert OccursAt(s, double, 1);
    assert ReplaceAll(s[3..], double, space) == s[3..];
    assert s[1..][..2] == double && s[1..][2..] == s[3..];
    assert s[..2] != double;
    assert ReplaceAll(s, double, space) == [s[0]] + space + s[3..];
    assert [s[0]] + space + s[3..] == r;
    CollapseSpacesUnchanged(r, double);
  }

  /** `'a .b'` harmonises to `'a.b'`. */
  lemma HarmonizeSpaceBeforePeriod(nfkd: string -> string, s: string, r: string)
    requires |s| == 4 && s[0] == 'a' && s[1] == ' ' && s[2] == '.' && s[3] == 'b'
    requires |r| == 3 && r[0] == 'a' && r[1] == '.' && r[2] == 'b'
    requires nfkd(s) == s
    ensures HarmonizeText(nfkd, s) == r
  {
    SpacePeriodFacts(s, r);
    FirstStepsUnchanged(nfkd, s, s);
    TrailingCharKept(s);
    SpacePeriodExample(s, r, " ,", " .", ", ");
    PurgeUnchanged(r);
    CollapseSpacesUnchanged(r, "  ");
    HarmonizeThrough(nfkd, s, s, s, r);
  }

  lemma SpacePeriodFacts(s: string, r: string)
    requires |s| == 4 && s[0] == 'a' && s[1] == ' ' && s[2] == '.' && s[3] == 'b'
    requires |r| == 3 && r[0] == 'a' && r[1] == '.' && r[2] == 'b'
    ensures Lower(s) == s && IsAscii(s) && NoPair(s, ' ', ' ') && '"' !in s
    ensures '\'' !in r && '-' !in r && '(' !in r && ')' !in r && '&' !in r
    ensures '+' !in r && ';' !in r && '/' !in r && ',' !in r && NoPair(r, ' ', ' ')
  {
  }

  /** Step 6 on `'a .b'` gives `'a.b'`. */
  lemma SpacePeriodExample(s: string, r: string, spaceComma: string, spacePeriod: string, commaSpace: string)
    requires |s| == 4 && s[0] == 'a' && s[1] == ' ' && s[2] == '.' && s[3] == 'b'
    requires |r| == 3 && r[0] == 'a' && r[1] == '.' && r[2] == 'b'
    requires spaceComma == " ," && spacePeriod == " ." && commaSpace == ", "
    ensures CorrectCommasAndPeriods(s) == r
  {
    MissingCharNotContained(s, spaceComma, 1);
    ReplaceAbsent(s, spaceComma, ",");
    var dot := ".";
    assert ReplaceAll(s[3..], spacePeriod, dot) == s[3..];
    assert s[1..][..2] == spacePeriod && s[1..][2..] == s[3..];
    assert ReplaceAll(s[1..], spacePeriod, dot) == dot + s[3..];
    assert s[..2] != spacePeriod;
    assert ReplaceAll(s, spacePeriod, dot) == [s[0]] + dot + s[3..];
    assert [s[0]] + dot + s[3..] == r;
    MissingCharNotContained(r, commaSpace, 0);
    ReplaceAbsent(r, commaSpace, ",");
  }

  /** `harmonize` is not idempotent: harmonising `'a " .b'` gives `'a .b'`,
      and harmonising that again gives `'a.b'`. */
  lemma HarmonizeNotIdempotent(nfkd: string -> string)
    requires nfkd("a \" .b") == "a \" .b" && nfkd("a .b") == "a .b"
    ensures HarmonizeText(nfkd, "a \" .b") == "a .b"
    ensures HarmonizeText(nfkd, HarmonizeText(nfkd, "a \" .b")) == "a.b"
  {
    var s, q, m, once, twice := "a \" .b", "a   .b", "a  .b", "a .b", "a.b";
    HarmonizeQuoteBeforePeriod(nfkd, s, q, m, once);
    HarmonizeSpaceBeforePeriod(nfkd, once, twice);
  }
}
