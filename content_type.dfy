/** The top-level part of a MIME-like content type, as both the row icon and the preview use it. */
module ContentTypes {

  /**
   * `contentType.split("/")[0]`: everything before the first '/', or the whole string when
   * it has none.
   */
  function TopLevelType(contentType: string): (top: string)
    ensures top <= contentType
    ensures '/' !in top
    ensures |top| < |contentType| ==> contentType[|top|] == '/'
  {
    if |contentType| == 0 || contentType[0] == '/' then ""
    else [contentType[0]] + TopLevelType(contentType[1..])
  }

  /** The three properties above pin the segment down: whatever meets them is the segment. */
  lemma {:induction false} TopLevelTypeUnique(contentType: string, top: string)
    requires top <= contentType && '/' !in top
    requires |top| < |contentType| ==> contentType[|top|] == '/'
    ensures top == TopLevelType(contentType)
  {
    if |top| > 0 {
      TopLevelTypeUnique(contentType[1..], top[1..]);
      assert top == [top[0]] + top[1..];
    }
  }

  /** Types that agree up to and including their first '/' share their top-level type. */
  lemma {:induction false} TopLevelTypeOfSubtype(top: string, subtype: string)
    requires '/' !in top
    ensures TopLevelType(top + "/" + subtype) == top
  {
    TopLevelTypeUnique(top + "/" + subtype, top);
  }
}
