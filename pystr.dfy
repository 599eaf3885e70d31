/**
 * Python's `str.strip()` with no argument: remove every leading and every
 * trailing character for which `str.isspace()` holds, keep the middle intact.
 */
module PyStr {

  /** The characters Python's `str.isspace()` accepts (Unicode White_Space,
      plus the four ASCII information separators 0x1C-0x1F). */
  predicate IsSpace(c: char) {
    ('\t' <= c <= '\r')                    // \t \n \x0b \x0c \r
    || ('\U{1C}' <= c <= ' ')             // \x1c \x1d \x1e \x1f and the space
    || c == '\U{85}' || c == '\U{A0}' || c == '\U{1680}'
    || ('\U{2000}' <= c <= '\U{200A}')
    || c == '\U{2028}' || c == '\U{2029}' || c == '\U{202F}'
    || c == '\U{205F}' || c == '\U{3000}'
  }

  predicate AllSpace(s: string) {
    forall k :: 0 <= k < |s| ==> IsSpace(s[k])
  }

  /** Length of the longest all-whitespace prefix of `s`. */
  function LeadingSpaces(s: string): (n: nat)
    ensures n <= |s|
    ensures forall k :: 0 <= k < n ==> IsSpace(s[k])
    ensures n < |s| ==> !IsSpace(s[n])
  {
    if |s| > 0 && IsSpace(s[0]) then 1 + LeadingSpaces(s[1..]) else 0
  }

  /** Length of the longest all-whitespace suffix of `s`. */
  function TrailingSpaces(s: string): (n: nat)
    ensures n <= |s|
    ensures forall k :: |s| - n <= k < |s| ==> IsSpace(s[k])
    ensures n < |s| ==> !IsSpace(s[|s| - 1 - n])
  {
    if |s| > 0 && IsSpace(s[|s| - 1]) then 1 + TrailingSpaces(s[..|s| - 1]) else 0
  }

  /** `s.strip()`. */
  function Strip(s: string): string {
    var lead := LeadingSpaces(s);
    if lead == |s| then "" else s[lead..|s| - TrailingSpaces(s)]
  }

  /** `s.strip()` cuts a whitespace prefix and a whitespace suffix off `s`,
      and what remains neither starts nor ends with whitespace; it is empty
      exactly when `s` is all whitespace. */
  lemma StripSpec(s: string)
    ensures |Strip(s)| <= |s|
    ensures Strip(s) == "" <==> AllSpace(s)
    ensures Strip(s) != "" ==> !IsSpace(Strip(s)[0]) && !IsSpace(Strip(s)[|Strip(s)| - 1])
    ensures exists i :: 0 <= i <= |s| - |Strip(s)| && IsStripped(s, i, Strip(s))
  {
    var lead := LeadingSpaces(s);
    if lead == |s| {
      assert IsStripped(s, |s|, "");
    } else {
      var trail := TrailingSpaces(s);
      assert lead < |s| - trail;
      assert !AllSpace(s) by { assert !IsSpace(s[lead]); }
      assert IsStripped(s, lead, Strip(s));
    }
  }

  /** `s` is `r` with the whitespace run `s[..i]` in front of it and a
      whitespace run behind it. */
  predicate IsStripped(s: string, i: nat, r: string)
    requires i + |r| <= |s|
  {
    (forall k :: 0 <= k < i ==> IsSpace(s[k]))
    && s[i..i + |r|] == r
    && (forall k :: i + |r| <= k < |s| ==> IsSpace(s[k]))
  }

  /** Stripping twice is stripping once. */
  lemma StripIdempotent(s: string)
    ensures Strip(Strip(s)) == Strip(s)
  {
  }

  /** `AllSpace` read character by character. */
  lemma AllSpaceIn(s: string)
    ensures AllSpace(s) <==> forall c :: c in s ==> IsSpace(c)
  {
  }
}
