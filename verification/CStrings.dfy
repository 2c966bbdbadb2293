/** NUL-terminated strings and the character tests of unreliablefs/conf.c, as pure functions. */
module CStrings {

  const NUL := '\0'

  /** isspace in the "C" locale: space, and the five controls from tab to carriage return. */
  predicate IsSpace(c: char) {
    c == ' ' || '\t' <= c <= '\r'
  }

  /** At most the first n characters of s. */
  function Cut(s: string, n: nat): (r: string)
    ensures |r| <= n && r <= s && (|s| <= n ==> r == s)
  {
    if |s| <= n then s else s[..n]
  }

  /** The index of the first NUL at or after i, or the end of b. */
  function NulAt(b: string, i: nat): (n: nat)
    requires i <= |b|
    ensures i <= n <= |b|
    ensures forall j :: i <= j < n ==> b[j] != NUL
    ensures n < |b| ==> b[n] == NUL
    decreases |b| - i
  {
    if i == |b| || b[i] == NUL then i else NulAt(b, i + 1)
  }

  /** The C string at the start of a buffer with content b: everything before the first NUL. */
  function CStr(b: string): string {
    b[..NulAt(b, 0)]
  }

  /** The index of the first character at or after i that is not whitespace. */
  function StartAt(s: string, i: nat): (n: nat)
    requires i <= |s|
    ensures i <= n <= |s|
    ensures forall j :: i <= j < n ==> IsSpace(s[j])
    ensures n < |s| ==> !IsSpace(s[n])
    decreases |s| - i
  {
    if i == |s| || !IsSpace(s[i]) then i else StartAt(s, i + 1)
  }

  /** The end of the first n characters of s without their trailing whitespace. */
  function EndAt(s: string, n: nat): (e: nat)
    requires n <= |s|
    ensures e <= n
    ensures forall j :: e <= j < n ==> IsSpace(s[j])
    ensures e > 0 ==> !IsSpace(s[e - 1])
  {
    if n == 0 || !IsSpace(s[n - 1]) then n else EndAt(s, n - 1)
  }

  /** s without leading whitespace. */
  function LTrim(s: string): string {
    s[StartAt(s, 0)..]
  }

  /** s without trailing whitespace. */
  function RTrim(s: string): string {
    s[..EndAt(s, |s|)]
  }

  /** Where find_chars_or_comment stops: at one of chars, or at a ';' right after whitespace. */
  predicate StopsAt(s: string, chars: string, i: nat)
    requires i < |s|
  {
    s[i] in chars || (s[i] == ';' && i > 0 && IsSpace(s[i - 1]))
  }

  /** The first stop at or after position i, or the end of s. */
  function Find(s: string, chars: string, i: nat): (n: nat)
    requires i <= |s|
    ensures i <= n <= |s|
    ensures n < |s| ==> StopsAt(s, chars, n)
    ensures forall j :: i <= j < n ==> !StopsAt(s, chars, j)
    decreases |s| - i
  {
    if i == |s| || StopsAt(s, chars, i) then i else Find(s, chars, i + 1)
  }
}
