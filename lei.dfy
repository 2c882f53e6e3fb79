/** The jurisdiction of an LEI record (lenu/data/lei.py). */
module Lei {
  import opened Wrappers
  import opened ElfCodes

  /** `get_legal_jurisdiction`: for a US entity the ISO 3166-2 region of its
      legal address when that is present, otherwise the stated legal
      jurisdiction. Either field may be missing in the registry data. */
  function GetLegalJurisdiction(legalJurisdiction: Option<string>, region: Option<string>): (r: Option<string>)
    ensures r == legalJurisdiction || r == region
    ensures legalJurisdiction != Some("US") ==> r == legalJurisdiction
    ensures legalJurisdiction == Some("US") && region.Some? ==> r == region
    ensures legalJurisdiction == Some("US") && region.None? ==> r == Some("US")
  {
    if legalJurisdiction == Some("US") then
      if region.Some? then region else legalJurisdiction
    else legalJurisdiction
  }

  /** US records are keyed like the rows of the ELF code list: a US entity with
      region `r` gets the jurisdiction the code list gives a row of country US
      and sub-division `r`, which is the key of the abbreviation index. */
  lemma USRecordsMatchElfCodeKeys(region: Option<string>, elfCode: Option<string>, abbreviations: Option<string>)
    ensures GetLegalJurisdiction(Some("US"), region) ==
            GetJurisdiction(ElfCodeRow(Some("US"), region, elfCode, abbreviations))
  {
  }
}
