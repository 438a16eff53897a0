/** Python's `str.strip()` and `str.lower()`, as far as the normaliser uses
    them. */
module Strings {

  /** Python's `str.isspace()` for one character: the ASCII controls
      TAB..CR and FS..US, SPACE, NEL, NBSP and the Unicode space separators. */
  predicate IsSpace(c: char) {
    var n := c as int;
    || (9 <= n <= 13)
    || (28 <= n <= 32)
    || n == 0x85
    || n == 0xA0
    || n == 0x1680
    || (0x2000 <= n <= 0x200A)
    || n == 0x2028
    || n == 0x2029
    || n == 0x202F
    || n == 0x205F
    || n == 0x3000
  }

  /** Neither the first nor the last character is white space. */
  predicate IsStripped(s: string) {
    |s| == 0 || (!IsSpace(s[0]) && !IsSpace(s[|s| - 1]))
  }

  /** The number of white-space characters `s.lstrip()` removes. */
  function LeadingSpace(s: string): (n: nat)
    ensures n <= |s|
    ensures forall i :: 0 <= i < n ==> IsSpace(s[i])
    ensures n < |s| ==> !IsSpace(s[n])
  {
    if |s| == 0 || !IsSpace(s[0]) then 0 else 1 + LeadingSpace(s[1..])
  }

  /** The number of white-space characters `s.rstrip()` removes. */
  function TrailingSpace(s: string): (n: nat)
    ensures n <= |s|
    ensures forall i :: |s| - n <= i < |s| ==> IsSpace(s[i])
    ensures n < |s| ==> !IsSpace(s[|s| - n - 1])
  {
    if |s| == 0 || !IsSpace(s[|s| - 1]) then 0 else 1 + TrailingSpace(s[..|s| - 1])
  }

  /** `s` is `r` with white space around it: `r` starts at `start` and
      everything before and after it is white space. */
  ghost predicate Padded(s: string, r: string, start: int) {
    && 0 <= start && start + |r| <= |s|
    && r == s[start..start + |r|]
    && (forall i :: 0 <= i < start ==> IsSpace(s[i]))
    && (forall i :: start + |r| <= i < |s| ==> IsSpace(s[i]))
  }

  /** `s.strip()`: `s` without its leading and trailing white space. */
  function Strip(s: string): (r: string)
    ensures IsStripped(r)
    ensures Padded(s, r, LeadingSpace(s))
  {
    var a := LeadingSpace(s);
    if a == |s| then [] else s[a..|s| - TrailingSpace(s)]
  }

  /** The stripped string is the only stripped piece of `s` surrounded by
      white space alone, so `Strip` is determined by its contract. */
  lemma StripUnique(s: string, r: string, start: int)
    requires IsStripped(r) && Padded(s, r, start)
    ensures r == Strip(s)
  {
  }

  /** Stripping twice changes nothing. */
  lemma StripIdempotent(s: string)
    ensures Strip(Strip(s)) == Strip(s)
  {
    var r := Strip(s);
    assert Padded(r, r, 0);
    StripUnique(r, r, 0);
  }

  /** ASCII upper-case letters to lower case, everything else unchanged. */
  function LowerChar(c: char): char {
    if 'A' <= c <= 'Z' then (c as int + 32) as char else c
  }

  /** `s.lower()` (letters outside ASCII are left as they are). */
  function Lower(s: string): (r: string)
    ensures |r| == |s|
    ensures forall i :: 0 <= i < |r| ==> !('A' <= r[i] <= 'Z')
    ensures forall i :: 0 <= i < |s| ==>
      r[i] == s[i] || ('A' <= s[i] <= 'Z' && r[i] as int == s[i] as int + 32)
  {
    seq(|s|, i requires 0 <= i < |s| => LowerChar(s[i]))
  }

  /** `s.lower() == "all"` holds exactly for the eight spellings of "all" in
      any mix of cases. */
  lemma LowerIsAll(s: string)
    ensures Lower(s) == "all" <==>
      && |s| == 3
      && (s[0] == 'a' || s[0] == 'A')
      && (s[1] == 'l' || s[1] == 'L')
      && (s[2] == 'l' || s[2] == 'L')
  {
    if Lower(s) == "all" {
      var l := Lower(s);
      assert l[0] == LowerChar(s[0]) && l[1] == LowerChar(s[1]) && l[2] == LowerChar(s[2]);
      LowerCharTo(s[0], 'a');
      LowerCharTo(s[1], 'l');
      LowerCharTo(s[2], 'l');
    }
  }

  /** Only a lower-case letter and its upper-case form lower to that letter. */
  lemma LowerCharTo(c: char, l: char)
    requires 'a' <= l <= 'z' && LowerChar(c) == l
    ensures c == l || c as int == l as int - 32
  {
  }
}
