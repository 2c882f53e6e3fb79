/** The ELF code list as an abbreviation index (lenu/data/elf_codes.py): US
    federal rows expanded into every state, one jurisdiction key per row,
    `;`-separated abbreviations exploded, and two read-only lookup maps. */
module ElfCodes {
  import opened Wrappers
  import opened Text
  import opened StringOrder
  import opened Seqs

  /** A row of the ELF code list, reduced to the columns the index reads; a
      null cell is `None`. */
  datatype ElfCodeRow = ElfCodeRow(
    country: Option<string>,
    subdivision: Option<string>,
    elfCode: Option<string>,
    abbreviations: Option<string>)

  /** `get_jurisdiction` for one row: the ISO 3166-2 sub-division code when it
      is present, otherwise the ISO 3166-1 country code. */
  function GetJurisdiction(row: ElfCodeRow): (r: Option<string>)
    ensures row.subdivision.Some? ==> r == row.subdivision
    ensures row.subdivision.None? ==> r == row.country
    ensures r.None? <==> row.subdivision.None? && row.country.None?
  {
    if row.subdivision.Some? then row.subdivision else row.country
  }

  // ---------------------------------------------------------------------------
  // `expand_us_states`

  predicate IsUS(row: ElfCodeRow)
  {
    row.country == Some("US")
  }

  /** `ex_us`: a missing country is not "US", so such rows are kept here. */
  function NonUS(rows: seq<ElfCodeRow>): seq<ElfCodeRow>
  {
    Filter((r: ElfCodeRow) => !IsUS(r), rows)
  }

  /** `us_federal`: US rows without a sub-division. */
  function USFederal(rows: seq<ElfCodeRow>): seq<ElfCodeRow>
  {
    Filter((r: ElfCodeRow) => IsUS(r) && r.subdivision.None?, rows)
  }

  /** `us_states`: US rows with a sub-division. */
  function USStates(rows: seq<ElfCodeRow>): seq<ElfCodeRow>
  {
    Filter((r: ElfCodeRow) => IsUS(r) && r.subdivision.Some?, rows)
  }

  /** The sub-division column of the state rows. */
  function SubdivisionsOf(rows: seq<ElfCodeRow>): (r: seq<string>)
    requires forall k :: 0 <= k < |rows| ==> rows[k].subdivision.Some?
    ensures |r| == |rows|
    ensures forall k :: 0 <= k < |rows| ==> r[k] == rows[k].subdivision.value
  {
    if rows == [] then [] else [rows[0].subdivision.value] + SubdivisionsOf(rows[1..])
  }

  /** `us_states[...].unique()`: the distinct states in order of first appearance. */
  function StateCodes(rows: seq<ElfCodeRow>): (r: seq<string>)
    ensures NoDuplicates(r)
    ensures forall s :: s in r <==> exists row :: row in rows && IsUS(row) && row.subdivision == Some(s)
  {
    var states := USStates(rows);
    var codes := SubdivisionsOf(states);
    forall s ensures s in codes <==> exists row :: row in rows && IsUS(row) && row.subdivision == Some(s) {
      if s in codes {
        var k :| 0 <= k < |codes| && codes[k] == s;
        assert states[k] in states;
      }
      if exists row :: row in rows && IsUS(row) && row.subdivision == Some(s) {
        var row :| row in rows && IsUS(row) && row.subdivision == Some(s);
        assert row in states;
        var k :| 0 <= k < |states| && states[k] == row;
        assert codes[k] == s;
      }
    }
    Distinct(codes)
  }

  /** `_assign_to_state`: a copy of the federal rows with `state` as their
      sub-division. */
  function AssignToState(federal: seq<ElfCodeRow>, state: string): (r: seq<ElfCodeRow>)
    ensures |r| == |federal|
    ensures forall k :: 0 <= k < |r| ==> r[k] == federal[k].(subdivision := Some(state))
  {
    if federal == [] then []
    else [federal[0].(subdivision := Some(state))] + AssignToState(federal[1..], state)
  }

  /** The federal rows once per state, state by state. */
  function FederalPerState(federal: seq<ElfCodeRow>, states: seq<string>): (r: seq<seq<ElfCodeRow>>)
    ensures |r| == |states|
    ensures forall k :: 0 <= k < |r| ==> r[k] == AssignToState(federal, states[k])
  {
    if states == [] then [] else [AssignToState(federal, states[0])] + FederalPerState(federal, states[1..])
  }

  /** `expand_us_states`: the non-US rows, the US state rows, then the federal
      rows once for every distinct state; the original federal rows are gone. */
  function ExpandUSStates(rows: seq<ElfCodeRow>): seq<ElfCodeRow>
  {
    NonUS(rows) + USStates(rows) + Flatten(FederalPerState(USFederal(rows), StateCodes(rows)))
  }

  lemma {:induction false} FederalRowsCount(federal: seq<ElfCodeRow>, states: seq<string>)
    ensures SumOfLengths(FederalPerState(federal, states)) == |federal| * |states|
  {
    if states != [] {
      FederalRowsCount(federal, states[1..]);
      assert FederalPerState(federal, states)[1..] == FederalPerState(federal, states[1..]);
    }
  }

  /** The expansion has one row per non-US row, one per US state row, and one
      per pair of federal row and distinct state. */
  lemma ExpandUSStatesCount(rows: seq<ElfCodeRow>)
    ensures |ExpandUSStates(rows)| ==
            |NonUS(rows)| + |USStates(rows)| + |USFederal(rows)| * |StateCodes(rows)|
  {
    FederalRowsCount(USFederal(rows), StateCodes(rows));
  }

  lemma FederalPerStateMembership(federal: seq<ElfCodeRow>, states: seq<string>, x: ElfCodeRow)
    ensures x in Flatten(FederalPerState(federal, states)) <==>
            exists f, s :: f in federal && s in states && x == f.(subdivision := Some(s))
  {
    if x in Flatten(FederalPerState(federal, states)) {
      PerStateRowIsFederal(federal, states, x);
    }
    if exists f, s :: f in federal && s in states && x == f.(subdivision := Some(s)) {
      var f, s :| f in federal && s in states && x == f.(subdivision := Some(s));
      FederalRowIsPerState(federal, states, f, s);
    }
  }

  lemma PerStateRowIsFederal(federal: seq<ElfCodeRow>, states: seq<string>, x: ElfCodeRow)
    requires x in Flatten(FederalPerState(federal, states))
    ensures exists f, s :: f in federal && s in states && x == f.(subdivision := Some(s))
  {
    var perState := FederalPerState(federal, states);
    FlattenMembership(perState, x);
    var k :| 0 <= k < |perState| && x in perState[k];
    var i :| 0 <= i < |perState[k]| && perState[k][i] == x;
    assert federal[i] in federal && states[k] in states;
  }

  lemma FederalRowIsPerState(federal: seq<ElfCodeRow>, states: seq<string>, f: ElfCodeRow, s: string)
    requires f in federal && s in states
    ensures f.(subdivision := Some(s)) in Flatten(FederalPerState(federal, states))
  {
    var perState := FederalPerState(federal, states);
    var k :| 0 <= k < |states| && states[k] == s;
    var i :| 0 <= i < |federal| && federal[i] == f;
    assert perState[k][i] == f.(subdivision := Some(s));
    FlattenMembership(perState, f.(subdivision := Some(s)));
  }

  /** What a row of the expansion is: an input row that is not a federal US row,
      or a federal US row moved to a state that has a row of its own. */
  lemma ExpandUSStatesMembership(rows: seq<ElfCodeRow>, x: ElfCodeRow)
    ensures x in ExpandUSStates(rows) <==>
      || (x in rows && !(IsUS(x) && x.subdivision.None?))
      || (exists f, s :: f in rows && IsUS(f) && f.subdivision.None? && s in StateCodes(rows)
                        && x == f.(subdivision := Some(s)))
  {
    var federal := USFederal(rows);
    FederalPerStateMembership(federal, StateCodes(rows), x);
    assert forall f :: f in federal <==> f in rows && IsUS(f) && f.subdivision.None?;
    assert x in NonUS(rows) <==> x in rows && !IsUS(x);
    assert x in USStates(rows) <==> x in rows && IsUS(x) && x.subdivision.Some?;
  }

  /** No US row of the expansion lacks a sub-division. */
  lemma ExpandUSStatesHasNoFederalRow(rows: seq<ElfCodeRow>)
    ensures forall x :: x in ExpandUSStates(rows) && IsUS(x) ==> x.subdivision.Some?
  {
    forall x | x in ExpandUSStates(rows) && IsUS(x)
      ensures x.subdivision.Some?
    {
      ExpandUSStatesMembership(rows, x);
    }
  }

  /** Without any state row, the federal rows simply vanish: the expansion is
      the input without its federal US rows. */
  lemma ExpandWithoutStates(rows: seq<ElfCodeRow>)
    requires forall x :: x in rows && IsUS(x) ==> x.subdivision.None?
    ensures forall x :: x in ExpandUSStates(rows) <==> x in rows && !IsUS(x)
  {
    assert StateCodes(rows) == [];
    forall x
      ensures x in ExpandUSStates(rows) <==> x in rows && !IsUS(x)
    {
      ExpandUSStatesMembership(rows, x);
    }
  }

  // ---------------------------------------------------------------------------
  // `ELFAbbreviations`

  /** A row of the frame the index is grouped from. */
  datatype Entry = Entry(jurisdiction: string, elfCode: string, abbreviation: string)

  /** The two maps `__init__` builds: jurisdiction to its abbreviations, and
      (jurisdiction, abbreviation) to its ELF codes, both lists from
      `numpy.unique`. */
  datatype ElfAbbreviations = ElfAbbreviations(
    abbreviationsByJurisdiction: map<string, seq<string>>,
    codesByAbbreviation: map<(string, string), seq<string>>)
  {
    /** Every list is sorted without duplicates, and both maps come from the
        same frame: an abbreviation is listed for a jurisdiction exactly when
        the pair has a non-empty list of codes. */
    predicate Valid()
    {
      && (forall j | j in abbreviationsByJurisdiction :: StrictlyAscending(abbreviationsByJurisdiction[j]))
      && (forall p | p in codesByAbbreviation :: StrictlyAscending(codesByAbbreviation[p]) && codesByAbbreviation[p] != [])
      && (forall j, a | j in abbreviationsByJurisdiction && a in abbreviationsByJurisdiction[j] :: (j, a) in codesByAbbreviation)
      && (forall p | p in codesByAbbreviation :: p.0 in abbreviationsByJurisdiction && p.1 in abbreviationsByJurisdiction[p.0])
    }

    /** `abbreviations_for_jurisdiction`: `[]` for an unknown jurisdiction. */
    function AbbreviationsForJurisdiction(j: string): (r: seq<string>)
      ensures j !in abbreviationsByJurisdiction ==> r == []
      ensures Valid() ==> StrictlyAscending(r)
    {
      if j in abbreviationsByJurisdiction then abbreviationsByJurisdiction[j] else []
    }

    /** `elf_codes_for_abbreviation`: `[]` for an unknown pair; never empty for
        an abbreviation listed under the jurisdiction. */
    function ElfCodesForAbbreviation(j: string, a: string): (r: seq<string>)
      ensures (j, a) !in codesByAbbreviation ==> r == []
      ensures Valid() ==> StrictlyAscending(r)
      ensures Valid() ==> (r != [] <==> a in AbbreviationsForJurisdiction(j))
    {
      if (j, a) in codesByAbbreviation then codesByAbbreviation[(j, a)] else []
    }
  }

  /** The abbreviations of the entries of jurisdiction `j`, in order. */
  function AbbreviationsIn(entries: seq<Entry>, j: string): (r: seq<string>)
    ensures forall a :: a in r <==> exists e :: e in entries && e.jurisdiction == j && e.abbreviation == a
  {
    if entries == [] then []
    else
      var e := entries[0];
      var rest := AbbreviationsIn(entries[1..], j);
      assert forall x :: x in entries <==> x == e || x in entries[1..] by {
        assert entries == [e] + entries[1..];
      }
      (if e.jurisdiction == j then [e.abbreviation] else []) + rest
  }

  /** The codes of the entries for the pair (`j`, `a`), in order. */
  function CodesIn(entries: seq<Entry>, j: string, a: string): (r: seq<string>)
    ensures forall c :: c in r <==> Entry(j, c, a) in entries
  {
    if entries == [] then []
    else
      var e := entries[0];
      var rest := CodesIn(entries[1..], j, a);
      assert forall x :: x in entries <==> x == e || x in entries[1..] by {
        assert entries == [e] + entries[1..];
      }
      (if e.jurisdiction == j && e.abbreviation == a then [e.elfCode] else []) + rest
  }

  /** The jurisdictions and the (jurisdiction, abbreviation) pairs of the entries. */
  function Jurisdictions(entries: seq<Entry>): set<string>
  {
    set e | e in entries :: e.jurisdiction
  }

  function Pairs(entries: seq<Entry>): set<(string, string)>
  {
    set e | e in entries :: (e.jurisdiction, e.abbreviation)
  }

  /** The index lists code `c` under (`j`, `a`) exactly when the entry
      (`j`, `c`, `a`) is present. */
  predicate ListsCode(r: ElfAbbreviations, entries: seq<Entry>, j: string, a: string, c: string)
  {
    c in r.ElfCodesForAbbreviation(j, a) <==> Entry(j, c, a) in entries
  }

  /** `ELFAbbreviations.__init__`: groups the entries by jurisdiction and by
      (jurisdiction, abbreviation). The index is valid, lists exactly the
      abbreviations of each jurisdiction, and lists code `c` under (`j`, `a`)
      exactly when the entry (`j`, `c`, `a`) is present. */
  function BuildIndex(entries: seq<Entry>): (r: ElfAbbreviations)
    ensures r.Valid()
    ensures forall j :: j in r.abbreviationsByJurisdiction <==> exists e :: e in entries && e.jurisdiction == j
    ensures forall j, a :: a in r.AbbreviationsForJurisdiction(j) <==>
              exists e :: e in entries && e.jurisdiction == j && e.abbreviation == a
    ensures forall j, a, c :: ListsCode(r, entries, j, a, c)
  {
    var r := ElfAbbreviations(
      map j | j in Jurisdictions(entries) :: Unique(AbbreviationsIn(entries, j)),
      map p | p in Pairs(entries) :: Unique(CodesIn(entries, p.0, p.1)));
    BuildIndexValid(entries, r);
    BuildIndexCodes(entries, r);
    r
  }

  lemma BuildIndexValid(entries: seq<Entry>, r: ElfAbbreviations)
    requires r.abbreviationsByJurisdiction == map j | j in Jurisdictions(entries) :: Unique(AbbreviationsIn(entries, j))
    requires r.codesByAbbreviation == map p | p in Pairs(entries) :: Unique(CodesIn(entries, p.0, p.1))
    ensures r.Valid()
  {
    forall p | p in r.codesByAbbreviation
      ensures r.codesByAbbreviation[p] != []
      ensures p.0 in r.abbreviationsByJurisdiction && p.1 in r.abbreviationsByJurisdiction[p.0]
    {
      var e :| e in entries && (e.jurisdiction, e.abbreviation) == p;
      assert e == Entry(p.0, e.elfCode, p.1);
      assert e.elfCode in CodesIn(entries, p.0, p.1);
      assert p.0 in Jurisdictions(entries);
      assert p.1 in AbbreviationsIn(entries, p.0);
    }
    forall j, a | j in r.abbreviationsByJurisdiction && a in r.abbreviationsByJurisdiction[j]
      ensures (j, a) in r.codesByAbbreviation
    {
      assert a in AbbreviationsIn(entries, j);
      var e :| e in entries && e.jurisdiction == j && e.abbreviation == a;
      assert (j, a) in Pairs(entries);
    }
  }

  lemma BuildIndexCodes(entries: seq<Entry>, r: ElfAbbreviations)
    requires r.abbreviationsByJurisdiction == map j | j in Jurisdictions(entries) :: Unique(AbbreviationsIn(entries, j))
    requires r.codesByAbbreviation == map p | p in Pairs(entries) :: Unique(CodesIn(entries, p.0, p.1))
    ensures forall j :: j in r.abbreviationsByJurisdiction <==> exists e :: e in entries && e.jurisdiction == j
    ensures forall j, a :: a in r.AbbreviationsForJurisdiction(j) <==>
              exists e :: e in entries && e.jurisdiction == j && e.abbreviation == a
    ensures forall j, a, c :: ListsCode(r, entries, j, a, c)
  {
    forall j, a
      ensures a in r.AbbreviationsForJurisdiction(j) <==>
              exists e :: e in entries && e.jurisdiction == j && e.abbreviation == a
    {
      if exists e :: e in entries && e.jurisdiction == j && e.abbreviation == a {
        var e :| e in entries && e.jurisdiction == j && e.abbreviation == a;
        assert j in Jurisdictions(entries);
      }
    }
    forall j, a, c
      ensures ListsCode(r, entries, j, a, c)
    {
      if Entry(j, c, a) in entries {
        assert (j, a) in Pairs(entries);
      }
    }
  }

  // ---------------------------------------------------------------------------
  // `from_elf_code_list`

  /** A row of the projected frame after `dropna`: jurisdiction, code and the
      `;`-separated abbreviations, all present. */
  datatype CodeAbbreviations = CodeAbbreviations(jurisdiction: string, elfCode: string, abbreviations: string)

  predicate IsComplete(row: ElfCodeRow)
  {
    GetJurisdiction(row).Some? && row.elfCode.Some? && row.abbreviations.Some?
  }

  /** The projected columns of a complete row. */
  function Project(row: ElfCodeRow): CodeAbbreviations
    requires IsComplete(row)
  {
    CodeAbbreviations(GetJurisdiction(row).value, row.elfCode.value, row.abbreviations.value)
  }

  /** Entry `e` is one of the pieces `d` explodes into. */
  predicate ExplodesTo(d: CodeAbbreviations, e: Entry)
  {
    e.jurisdiction == d.jurisdiction && e.elfCode == d.elfCode && e.abbreviation in Split(d.abbreviations, ';')
  }

  /** `assign(Jurisdiction=...)[[...]].dropna()`: rows with a missing
      jurisdiction, code or abbreviation list are dropped, order kept. */
  function DropIncomplete(rows: seq<ElfCodeRow>): (r: seq<CodeAbbreviations>)
    ensures forall d :: d in r <==>
              (exists row :: row in rows && IsComplete(row)
                 && d == Project(row))
  {
    if rows == [] then []
    else
      var row := rows[0];
      assert forall x :: x in rows <==> x == row || x in rows[1..] by {
        assert rows == [row] + rows[1..];
      }
      (if IsComplete(row)
       then [Project(row)]
       else []) + DropIncomplete(rows[1..])
  }

  /** `str.split(";")` followed by `explode`: one entry per piece. */
  function Explode(rows: seq<CodeAbbreviations>): (r: seq<Entry>)
    ensures forall e :: e in r <==>
              (exists d :: d in rows && ExplodesTo(d, e))
  {
    if rows == [] then []
    else
      var d := rows[0];
      assert forall x :: x in rows <==> x == d || x in rows[1..] by {
        assert rows == [d] + rows[1..];
      }
      EntriesOf(d) + Explode(rows[1..])
  }

  function EntriesOf(d: CodeAbbreviations): (r: seq<Entry>)
    ensures forall e :: e in r <==> ExplodesTo(d, e)
  {
    var pieces := Split(d.abbreviations, ';');
    var r := seq(|pieces|, k requires 0 <= k < |pieces| => Entry(d.jurisdiction, d.elfCode, pieces[k]));
    assert forall e :: e in r ==> e.abbreviation in pieces by {
      forall e | e in r ensures e.abbreviation in pieces {
        var k :| 0 <= k < |r| && r[k] == e;
      }
    }
    assert forall a :: a in pieces ==> Entry(d.jurisdiction, d.elfCode, a) in r by {
      forall a | a in pieces ensures Entry(d.jurisdiction, d.elfCode, a) in r {
        var k :| 0 <= k < |pieces| && pieces[k] == a;
        assert r[k] == Entry(d.jurisdiction, d.elfCode, a);
      }
    }
    r
  }

  /** `ELFAbbreviations.from_elf_code_list`: expands the US states, keeps the
      complete rows, explodes the abbreviations, drops duplicate entries
      (keeping the first) and builds the index. */
  function FromElfCodeList(rows: seq<ElfCodeRow>): (r: ElfAbbreviations)
    ensures r.Valid()
  {
    IndexOf(ExpandUSStates(rows))
  }

  /** The index of an already expanded list. */
  function IndexOf(expanded: seq<ElfCodeRow>): (r: ElfAbbreviations)
    ensures r.Valid()
  {
    BuildIndex(Distinct(Explode(DropIncomplete(expanded))))
  }

  /** Some row has jurisdiction `j`, code `c`, and `a` among its
      `;`-separated abbreviations. */
  predicate HasRowFor(rows: seq<ElfCodeRow>, j: string, a: string, c: string)
  {
    exists row :: row in rows && GetJurisdiction(row) == Some(j) && row.elfCode == Some(c)
                  && row.abbreviations.Some? && a in Split(row.abbreviations.value, ';')
  }

  /** Code `c` is listed under (`j`, `a`) exactly when some row of the expanded
      list has jurisdiction `j`, code `c`, and `a` among its `;`-separated
      abbreviations. */
  lemma FromElfCodeListCodes(rows: seq<ElfCodeRow>, j: string, a: string, c: string)
    ensures c in FromElfCodeList(rows).ElfCodesForAbbreviation(j, a) <==> HasRowFor(ExpandUSStates(rows), j, a, c)
  {
    IndexOfCodes(ExpandUSStates(rows), j, a, c);
  }

  lemma IndexOfCodes(expanded: seq<ElfCodeRow>, j: string, a: string, c: string)
    ensures c in IndexOf(expanded).ElfCodesForAbbreviation(j, a) <==> HasRowFor(expanded, j, a, c)
  {
    ExplodedEntries(expanded, j, a, c);
    IndexOfEntries(expanded, j, a, c);
  }

  lemma IndexOfEntries(expanded: seq<ElfCodeRow>, j: string, a: string, c: string)
    ensures c in IndexOf(expanded).ElfCodesForAbbreviation(j, a) <==> Entry(j, c, a) in Explode(DropIncomplete(expanded))
  {
    var exploded := Explode(DropIncomplete(expanded));
    IndexedEntries(exploded, IndexOf(expanded), j, a, c);
  }

  lemma IndexedEntries(exploded: seq<Entry>, idx: ElfAbbreviations, j: string, a: string, c: string)
    requires idx == BuildIndex(Distinct(exploded))
    ensures c in idx.ElfCodesForAbbreviation(j, a) <==> Entry(j, c, a) in exploded
  {
    assert ListsCode(idx, Distinct(exploded), j, a, c);
  }

  lemma ExplodedEntries(expanded: seq<ElfCodeRow>, j: string, a: string, c: string)
    ensures Entry(j, c, a) in Explode(DropIncomplete(expanded)) <==>
            HasRowFor(expanded, j, a, c)
  {
    var complete := DropIncomplete(expanded);
    if Entry(j, c, a) in Explode(complete) {
      var d :| d in complete && d.jurisdiction == j && d.elfCode == c && a in Split(d.abbreviations, ';');
      var row :| row in expanded && IsComplete(row) &&
        d == Project(row);
      assert GetJurisdiction(row) == Some(j);
    }
    if exists row :: row in expanded && GetJurisdiction(row) == Some(j) &&
         row.elfCode == Some(c) && row.abbreviations.Some? && a in Split(row.abbreviations.value, ';') {
      var row :| row in expanded && GetJurisdiction(row) == Some(j) &&
        row.elfCode == Some(c) && row.abbreviations.Some? && a in Split(row.abbreviations.value, ';');
      var d := CodeAbbreviations(j, c, row.abbreviations.value);
      assert d in complete;
    }
  }

  /** A federal US row is listed under every state that has rows of its own:
      for example a federal code with abbreviation "LLC" is found under
      jurisdiction "US-CA" once any Californian row exists. */
  lemma FederalCodeUnderEveryState(rows: seq<ElfCodeRow>, f: ElfCodeRow, state: string, a: string)
    requires f in rows && IsUS(f) && f.subdivision.None? && f.elfCode.Some? && f.abbreviations.Some?
    requires a in Split(f.abbreviations.value, ';')
    requires exists row :: row in rows && IsUS(row) && row.subdivision == Some(state)
    ensures f.elfCode.value in FromElfCodeList(rows).ElfCodesForAbbreviation(state, a)
    ensures a in FromElfCodeList(rows).AbbreviationsForJurisdiction(state)
  {
    var moved := f.(subdivision := Some(state));
    assert state in StateCodes(rows);
    ExpandUSStatesMembership(rows, moved);
    FromElfCodeListCodes(rows, state, a, f.elfCode.value);
  }

  // ---------------------------------------------------------------------------
  // `matches`

  /** The operand as `matches` compares it: lower-cased when asked to. */
  function Fold(s: string, useLowercasing: bool): string
  {
    if useLowercasing then Lower(s) else s
  }

  /** `ELFAbbreviations.matches`: with `useEndsWith`, the (folded) name ends
      with a space and the abbreviation; otherwise it contains the
      abbreviation. Folding lower-cases ASCII letters only, so the length
      bound below is a property of this ASCII folding. */
  function Matches(legalName: string, abbr: string, useLowercasing: bool, useEndsWith: bool): (r: bool)
    ensures r && useEndsWith ==> |legalName| > |abbr|
  {
    var name := Fold(legalName, useLowercasing);
    var a := Fold(abbr, useLowercasing);
    if useEndsWith then EndsWith(name, " " + a) else Contains(name, a)
  }

  /** An ends-with match is the name split as a prefix, a space and the
      abbreviation. */
  lemma EndsWithMatchIsSuffix(legalName: string, abbr: string, useLowercasing: bool)
    ensures Matches(legalName, abbr, useLowercasing, true) <==>
            exists p :: Fold(legalName, useLowercasing) == p + " " + Fold(abbr, useLowercasing)
  {
    var name := Fold(legalName, useLowercasing);
    var a := Fold(abbr, useLowercasing);
    if Matches(legalName, abbr, useLowercasing, true) {
      var p := name[..|name| - |a| - 1];
      assert name == p + name[|name| - |a| - 1..];
      assert name == p + " " + a;
    }
    if exists p :: name == p + " " + a {
      var p :| name == p + " " + a;
      assert name[|name| - |a| - 1..] == " " + a;
    }
  }

  /** A substring match is the name split around the abbreviation. */
  lemma ContainsMatchIsInfix(legalName: string, abbr: string, useLowercasing: bool)
    ensures Matches(legalName, abbr, useLowercasing, false) <==>
            exists p, q :: Fold(legalName, useLowercasing) == p + Fold(abbr, useLowercasing) + q
  {
    var name := Fold(legalName, useLowercasing);
    var a := Fold(abbr, useLowercasing);
    if Matches(legalName, abbr, useLowercasing, false) {
      var i :| 0 <= i <= |name| - |a| && OccursAt(name, a, i);
      assert name == name[..i] + name[i..i + |a|] + name[i + |a|..];
    }
    if exists p, q :: name == p + a + q {
      var p, q :| name == p + a + q;
      assert name[|p|..|p| + |a|] == a;
      assert OccursAt(name, a, |p|);
    }
  }

  /** Every ends-with match is also a substring match. */
  lemma EndsWithMatchIsContainsMatch(legalName: string, abbr: string, useLowercasing: bool)
    requires Matches(legalName, abbr, useLowercasing, true)
    ensures Matches(legalName, abbr, useLowercasing, false)
  {
    EndsWithMatchIsSuffix(legalName, abbr, useLowercasing);
    var p :| Fold(legalName, useLowercasing) == p + " " + Fold(abbr, useLowercasing);
    assert Fold(legalName, useLowercasing) == (p + " ") + Fold(abbr, useLowercasing) + [];
    ContainsMatchIsInfix(legalName, abbr, useLowercasing);
  }

  /** A name equal to the abbreviation does not match it in ends-with mode. */
  lemma NameEqualToAbbreviationDoesNotMatch(abbr: string, useLowercasing: bool)
    ensures !Matches(abbr, abbr, useLowercasing, true)
  {
  }
}
