/**
 * The country classifier: a two-letter state or province code is Canadian
 * exactly when it is one of the thirteen province and territory codes;
 * every other string, valid US state or not, is classified as the USA.
 */
module Country {

  /** The Canadian province and territory codes, in the order the source lists them. */
  const CanadianProvinces: seq<string> :=
    ["AB", "BC", "MB", "NB", "NL", "NT", "NS", "NU", "ON", "PE", "QC", "SK", "YT"]

  const Canada: string := "CAN"
  const UnitedStates: string := "USA"

  /** The country code of a state or province code. */
  function CountryOf(state: string): (country: string)
    ensures country == Canada || country == UnitedStates
    ensures country == Canada <==> state in CanadianProvinces
  {
    if state in CanadianProvinces then Canada else UnitedStates
  }

  /** Each of the thirteen listed codes, and nothing else, is Canadian; the list has no repeats. */
  lemma ProvinceCodes()
    ensures |CanadianProvinces| == 13
    ensures forall i, j :: 0 <= i < j < |CanadianProvinces| ==> CanadianProvinces[i] != CanadianProvinces[j]
    ensures forall i :: 0 <= i < |CanadianProvinces| ==> CountryOf(CanadianProvinces[i]) == Canada
  {
  }

  /** Only two-letter upper-case strings can be Canadian; anything else is the USA. */
  lemma NonCodeIsUnitedStates(state: string)
    requires |state| != 2 || !('A' <= state[0] <= 'Z') || !('A' <= state[1] <= 'Z')
    ensures CountryOf(state) == UnitedStates
  {
  }

  /**
   * Matching is exact and case-sensitive: "ON" is Canadian, while "CA"
   * (California), "on" and "" classify as the USA.
   */
  lemma CountryExamples()
    ensures CountryOf("ON") == Canada && CountryOf("YT") == Canada
    ensures CountryOf("CA") == UnitedStates
    ensures CountryOf("on") == UnitedStates
    ensures CountryOf("") == UnitedStates
  {
    assert "ON" == CanadianProvinces[8];
    assert "YT" == CanadianProvinces[12];
  }
}
