/** The two argument checks of Spring's Assert used by the builders:
    Assert.notNull and Assert.hasText, with Character.isWhitespace behind the latter. */
module SpringAssert {
  import opened Lang

  /** Character.isWhitespace: the Unicode space, line and paragraph separators
      other than the no-break spaces U+00A0, U+2007 and U+202F, and the controls
      U+0009 to U+000D and U+001C to U+001F. */
  predicate IsWhitespace(c: char) {
    || ('\U{0009}' <= c <= '\U{000D}')
    || ('\U{001C}' <= c <= '\U{001F}')
    || c == '\U{0020}'
    || c == '\U{1680}'
    || ('\U{2000}' <= c <= '\U{2006}')
    || ('\U{2008}' <= c <= '\U{200A}')
    || c == '\U{2028}'
    || c == '\U{2029}'
    || c == '\U{205F}'
    || c == '\U{3000}'
  }

  /** StringUtils.containsText: scans for a character that is not whitespace. */
  function ContainsText(s: string): (r: bool)
    ensures r <==> exists i :: 0 <= i < |s| && !IsWhitespace(s[i])
  {
    if s == [] then false
    else if !IsWhitespace(s[0]) then true
    else
      var r := ContainsText(s[1..]);
      assert forall i :: 1 <= i < |s| ==> s[i] == s[1..][i - 1];
      r
  }

  /** StringUtils.hasText: not null, not empty, and not only whitespace. */
  function HasText(s: Nullable<string>): (r: bool)
    ensures r <==> s.NonNull? && exists i :: 0 <= i < |s.value| && !IsWhitespace(s.value[i])
  {
    s.NonNull? && |s.value| > 0 && ContainsText(s.value)
  }

  /** Assert.hasText: fails with an IllegalArgumentException carrying the message. */
  function CheckHasText(s: Nullable<string>, message: string): (r: Option<Throwable>)
    ensures r.None? <==> HasText(s)
    ensures r.Some? ==> r.value == IllegalArgument(message)
  {
    if HasText(s) then None else Some(IllegalArgument(message))
  }

  /** Assert.notNull: fails with an IllegalArgumentException carrying the message. */
  function CheckNotNull<T>(x: Nullable<T>, message: string): (r: Option<Throwable>)
    ensures r.None? <==> x.NonNull?
    ensures r.Some? ==> r.value == IllegalArgument(message)
  {
    if x.NonNull? then None else Some(IllegalArgument(message))
  }

  /** Blank strings, the empty one and null are exactly the arguments hasText refuses. */
  lemma BlankIsRefused(s: string)
    requires forall i :: 0 <= i < |s| ==> IsWhitespace(s[i])
    ensures !HasText(NonNull(s)) && !HasText(Null)
  {
  }
}
