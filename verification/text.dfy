/** The string predicates of the .NET base library that the monitor relies on. */
module Text {

  /** `char.IsWhiteSpace`: the Unicode White_Space characters (categories Zs, Zl, Zp
      and the controls U+0009..U+000D, U+0085). */
  predicate IsWhiteSpace(c: char)
  {
    || c == ' '
    || '\t' <= c <= '\r'
    || c == '\U{0085}'
    || c == '\U{00A0}'
    || c == '\U{1680}'
    || '\U{2000}' <= c <= '\U{200A}'
    || c == '\U{2028}'
    || c == '\U{2029}'
    || c == '\U{202F}'
    || c == '\U{205F}'
    || c == '\U{3000}'
  }

  /** `string.IsNullOrWhiteSpace`: scans the string and stops at the first character
      that is not white space. A C# `null` string is modelled as the empty string,
      on which the predicate gives the same answer. */
  function IsNullOrWhiteSpace(s: string): (blank: bool)
    ensures blank <==> forall i :: 0 <= i < |s| ==> IsWhiteSpace(s[i])
    ensures !blank <==> exists i :: 0 <= i < |s| && !IsWhiteSpace(s[i])
  {
    if |s| == 0 then true
    else if !IsWhiteSpace(s[0]) then false
    else
      var rest := IsNullOrWhiteSpace(s[1..]);
      assert forall i :: 1 <= i < |s| ==> s[i] == s[1..][i - 1];
      rest
  }
}
