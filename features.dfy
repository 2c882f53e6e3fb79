/** The abbreviation feature transformer (lenu/ml/features.py): one 0/1 column
    per abbreviation known for the transformer's jurisdiction. */
module Features {
  import opened ElfCodes
  import opened StringOrder
  import opened Text

  /** The parameters `get_params` reports. */
  datatype Params = Params(
    elfAbbreviations: ElfAbbreviations,
    jurisdiction: string,
    useEndsWith: bool,
    useLowercasing: bool)

  /** The column label of an abbreviation. */
  function ColumnName(abbr: string): string
  {
    "abbr(" + abbr + ")"
  }

  class ElfAbbreviationTransformer {
    const elfAbbreviations: ElfAbbreviations
    const jurisdiction: string
    const useEndsWith: bool
    const useLowercasing: bool

    constructor(elfAbbreviations: ElfAbbreviations, jurisdiction: string, useEndsWith: bool, useLowercasing: bool)
      ensures this.elfAbbreviations == elfAbbreviations && this.jurisdiction == jurisdiction
      ensures this.useEndsWith == useEndsWith && this.useLowercasing == useLowercasing
    {
      this.elfAbbreviations := elfAbbreviations;
      this.jurisdiction := jurisdiction;
      this.useEndsWith := useEndsWith;
      this.useLowercasing := useLowercasing;
    }

    /** `fit` learns nothing and returns the transformer itself. */
    method Fit(names: seq<string>) returns (t: ElfAbbreviationTransformer)
      ensures t == this
    {
      t := this;
    }

    /** `transform`: one row per name, in order, with one cell per abbreviation
        of the jurisdiction, 1 when the name matches it and 0 otherwise; the
        columns are labelled after the abbreviations, in the same order. */
    method Transform(names: seq<string>) returns (matrix: seq<seq<int>>, columns: seq<string>)
      ensures var abbreviations := elfAbbreviations.AbbreviationsForJurisdiction(jurisdiction);
        && |matrix| == |names|
        && (forall i :: 0 <= i < |names| ==> |matrix[i]| == |abbreviations|)
        && (forall i, k :: 0 <= i < |names| && 0 <= k < |abbreviations| ==>
              matrix[i][k] == if Matches(names[i], abbreviations[k], useLowercasing, useEndsWith) then 1 else 0)
        && |columns| == |abbreviations|
        && (forall k :: 0 <= k < |abbreviations| ==> columns[k] == ColumnName(abbreviations[k]))
      ensures jurisdiction !in elfAbbreviations.abbreviationsByJurisdiction ==>
        forall i :: 0 <= i < |names| ==> matrix[i] == []
    {
      var abbreviations := elfAbbreviations.AbbreviationsForJurisdiction(jurisdiction);
      matrix := [];
      for i := 0 to |names|
        invariant |matrix| == i
        invariant forall i' :: 0 <= i' < i ==> |matrix[i']| == |abbreviations|
        invariant forall i', k :: 0 <= i' < i && 0 <= k < |abbreviations| ==>
                    matrix[i'][k] == (if Matches(names[i'], abbreviations[k], useLowercasing, useEndsWith) then 1 else 0)
      {
        var pred: seq<int> := [];
        for k := 0 to |abbreviations|
          invariant |pred| == k
          invariant forall k' :: 0 <= k' < k ==>
                      pred[k'] == (if Matches(names[i], abbreviations[k'], useLowercasing, useEndsWith) then 1 else 0)
        {
          if Matches(names[i], abbreviations[k], useLowercasing, useEndsWith) {
            pred := pred + [1];
          } else {
            pred := pred + [0];
          }
        }
        matrix := matrix + [pred];
      }
      columns := [];
      for k := 0 to |abbreviations|
        invariant |columns| == k
        invariant forall k' :: 0 <= k' < k ==> columns[k'] == ColumnName(abbreviations[k'])
      {
        columns := columns + [ColumnName(abbreviations[k])];
      }
    }

    /** `get_params`: exactly the four constructor parameters. */
    method GetParams() returns (p: Params)
      ensures p == Params(elfAbbreviations, jurisdiction, useEndsWith, useLowercasing)
    {
      p := Params(elfAbbreviations, jurisdiction, useEndsWith, useLowercasing);
    }
  }

  /** The German example: an index with "GmbH" (code 2HBR), "OHG" and
      "OHG mbH" (both code 40DB), transformed with the default flags. */
  method GermanExample() returns (matrix: seq<seq<int>>, columns: seq<string>)
    ensures matrix == [[1, 0, 0], [0, 0, 1]]
    ensures columns == ["abbr(GmbH)", "abbr(OHG)", "abbr(OHG mbH)"]
  {
    var entries := [Entry("DE", "2HBR", "GmbH"), Entry("DE", "40DB", "OHG"), Entry("DE", "40DB", "OHG mbH")];
    var index := BuildIndex(entries);
    GermanAbbreviations(entries, index);
    var transformer := new ElfAbbreviationTransformer(index, "DE", true, true);
    var names := ["Hallo GmbH", "Hello OHG mbH"];
    matrix, columns := transformer.Transform(names);
    GermanTable(matrix, names, ["GmbH", "OHG", "OHG mbH"]);
    GermanColumns(columns, ["GmbH", "OHG", "OHG mbH"]);
  }

  lemma GermanTable(matrix: seq<seq<int>>, names: seq<string>, abbreviations: seq<string>)
    requires |names| == 2 && names[0] == "Hallo GmbH" && names[1] == "Hello OHG mbH"
    requires abbreviations == ["GmbH", "OHG", "OHG mbH"]
    requires |matrix| == 2 && forall i :: 0 <= i < 2 ==> |matrix[i]| == 3
    requires forall i, k :: 0 <= i < 2 && 0 <= k < 3 ==>
               matrix[i][k] == if Matches(names[i], abbreviations[k], true, true) then 1 else 0
    ensures matrix == [[1, 0, 0], [0, 0, 1]]
  {
    HalloRow(matrix[0], names[0], abbreviations);
    HelloRow(matrix[1], names[1], abbreviations);
  }

  lemma HalloRow(row: seq<int>, name: string, abbreviations: seq<string>)
    requires name == "Hallo GmbH" && abbreviations == ["GmbH", "OHG", "OHG mbH"] && |row| == 3
    requires forall k :: 0 <= k < 3 ==> row[k] == if Matches(name, abbreviations[k], true, true) then 1 else 0
    ensures row == [1, 0, 0]
  {
    HalloGmbH(name, abbreviations[0]);
    HalloNotOhg(name, abbreviations[1]);
    HalloNotOhgMbh(name, abbreviations[2]);
  }

  lemma HelloRow(row: seq<int>, name: string, abbreviations: seq<string>)
    requires name == "Hello OHG mbH" && abbreviations == ["GmbH", "OHG", "OHG mbH"] && |row| == 3
    requires forall k :: 0 <= k < 3 ==> row[k] == if Matches(name, abbreviations[k], true, true) then 1 else 0
    ensures row == [0, 0, 1]
  {
    HelloNotGmbH(name, abbreviations[0]);
    HelloNotOhg(name, abbreviations[1]);
    HelloOhgMbh(name, abbreviations[2]);
  }

  lemma GermanColumns(columns: seq<string>, abbreviations: seq<string>)
    requires abbreviations == ["GmbH", "OHG", "OHG mbH"]
    requires |columns| == 3 && forall k :: 0 <= k < 3 ==> columns[k] == ColumnName(abbreviations[k])
    ensures columns == ["abbr(GmbH)", "abbr(OHG)", "abbr(OHG mbH)"]
  {
    assert columns[0] == "abbr(" + "GmbH" + ")" == "abbr(GmbH)";
    assert columns[1] == "abbr(" + "OHG" + ")" == "abbr(OHG)";
    assert columns[2] == "abbr(" + "OHG mbH" + ")" == "abbr(OHG mbH)";
  }

  lemma GermanAbbreviations(entries: seq<Entry>, index: ElfAbbreviations)
    requires entries == [Entry("DE", "2HBR", "GmbH"), Entry("DE", "40DB", "OHG"), Entry("DE", "40DB", "OHG mbH")]
    requires index == BuildIndex(entries)
    ensures index.AbbreviationsForJurisdiction("DE") == ["GmbH", "OHG", "OHG mbH"]
  {
    var expected := ["GmbH", "OHG", "OHG mbH"];
    GermanOrder();
    GermanMembers(entries, index);
    StrictlyAscendingUnique(index.AbbreviationsForJurisdiction("DE"), expected);
  }

  lemma GermanOrder()
    ensures StrictlyAscending(["GmbH", "OHG", "OHG mbH"])
  {
    assert Less("GmbH", "OHG");
    assert Less("OHG", "OHG mbH") by {
      assert "OHG mbH"[1..] == "HG mbH" && "OHG"[1..] == "HG";
      assert "HG mbH"[1..] == "G mbH" && "HG"[1..] == "G";
      assert "G mbH"[1..] == " mbH" && "G"[1..] == "";
    }
    LessTransitive("GmbH", "OHG", "OHG mbH");
  }

  lemma GermanMembers(entries: seq<Entry>, index: ElfAbbreviations)
    requires |entries| == 3 && entries[0] == Entry("DE", "2HBR", "GmbH")
    requires entries[1] == Entry("DE", "40DB", "OHG") && entries[2] == Entry("DE", "40DB", "OHG mbH")
    requires index == BuildIndex(entries)
    ensures forall a :: a in index.AbbreviationsForJurisdiction("DE") <==> a in ["GmbH", "OHG", "OHG mbH"]
  {
    forall a
      ensures a in index.AbbreviationsForJurisdiction("DE") <==> a in ["GmbH", "OHG", "OHG mbH"]
    {
      GermanMember(entries, index.AbbreviationsForJurisdiction("DE"), a);
    }
  }

  lemma GermanMember(entries: seq<Entry>, listed: seq<string>, a: string)
    requires |entries| == 3 && entries[0] == Entry("DE", "2HBR", "GmbH")
    requires entries[1] == Entry("DE", "40DB", "OHG") && entries[2] == Entry("DE", "40DB", "OHG mbH")
    requires a in listed <==> exists e :: e in entries && e.jurisdiction == "DE" && e.abbreviation == a
    ensures a in listed <==> a == "GmbH" || a == "OHG" || a == "OHG mbH"
  {
    if a in listed {
      var e :| e in entries && e.jurisdiction == "DE" && e.abbreviation == a;
      var k :| 0 <= k < 3 && entries[k] == e;
    }
    if a == "GmbH" || a == "OHG" || a == "OHG mbH" {
      var k := if a == "GmbH" then 0 else if a == "OHG" then 1 else 2;
      assert entries[k] in entries && entries[k].abbreviation == a;
    }
  }

  lemma HalloGmbH(name: string, abbr: string)
    requires name == "Hallo GmbH" && abbr == "GmbH"
    ensures Matches(name, abbr, true, true)
  {
    var n := Lower(name);
    var a := " " + Lower(abbr);
    assert n[5..] == [n[5], n[6], n[7], n[8], n[9]];
    assert a == [a[0], a[1], a[2], a[3], a[4]];
  }

  lemma HelloOhgMbh(name: string, abbr: string)
    requires name == "Hello OHG mbH" && abbr == "OHG mbH"
    ensures Matches(name, abbr, true, true)
  {
    var n := Lower(name);
    var a := " " + Lower(abbr);
    assert n[5..] == [n[5], n[6], n[7], n[8], n[9], n[10], n[11], n[12]];
    assert a == [a[0], a[1], a[2], a[3], a[4], a[5], a[6], a[7]];
  }

  /** The mismatches differ near the end of the name. */
  lemma HalloNotOhg(name: string, abbr: string)
    requires name == "Hallo GmbH" && abbr == "OHG"
    ensures !Matches(name, abbr, true, true)
  {
    var n := Lower(name);
    var a := " " + Lower(abbr);
    assert n[9] == 'h' && a[3] == 'g';
    assert n[6..][3] == n[9];
  }

  lemma HalloNotOhgMbh(name: string, abbr: string)
    requires name == "Hallo GmbH" && abbr == "OHG mbH"
    ensures !Matches(name, abbr, true, true)
  {
    var n := Lower(name);
    var a := " " + Lower(abbr);
    assert n[5] == ' ' && a[3] == 'g';
    assert n[2..][3] == n[5];
  }

  lemma HelloNotGmbH(name: string, abbr: string)
    requires name == "Hello OHG mbH" && abbr == "GmbH"
    ensures !Matches(name, abbr, true, true)
  {
    var n := Lower(name);
    var a := " " + Lower(abbr);
    assert n[9] == ' ' && a[1] == 'g';
    assert n[8..][1] == n[9];
  }

  lemma HelloNotOhg(name: string, abbr: string)
    requires name == "Hello OHG mbH" && abbr == "OHG"
    ensures !Matches(name, abbr, true, true)
  {
    var n := Lower(name);
    var a := " " + Lower(abbr);
    assert n[12] == 'h' && a[3] == 'g';
    assert n[9..][3] == n[12];
  }
}
