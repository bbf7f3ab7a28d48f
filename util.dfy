/** The blank-line predicate used by the script driver (src/util.c). */
module Util {
  import opened Types
  import opened CType

  /**
   * is_blank: a missing string is not blank; a present one is blank exactly
   * when every character is a space or a tab (so the empty string is blank).
   */
  function IsBlank(str: Option<string>): (r: bool)
    ensures str.None? ==> !r
    ensures str == Some([]) ==> r
    ensures str.Some? ==> (r <==> forall i :: 0 <= i < |str.value| ==> IsBlankChar(str.value[i]))
    ensures str.Some? && (exists i :: 0 <= i < |str.value| && !IsBlankChar(str.value[i])) ==> !r
  {
    match str
    case None => false
    case Some(s) => BlankFrom(s, 0)
  }

  /** The scan of is_blank from index `i`, stopping at the first non-blank character. */
  function BlankFrom(s: string, i: nat): (r: bool)
    requires i <= |s|
    ensures r <==> forall k :: i <= k < |s| ==> IsBlankChar(s[k])
    decreases |s| - i
  {
    if i == |s| then true
    else if !IsBlankChar(s[i]) then false
    else BlankFrom(s, i + 1)
  }
}
