/** Python's `str.strip()` with no argument: remove leading and trailing
    whitespace, where whitespace is what `str.isspace` accepts. The
    functions carry only their bounds; what stripping means is stated by
    the lemmas below. */
module Whitespace {

  /** The code points Python 3 treats as whitespace (`str.isspace`): the
      ASCII controls TAB..CR, the separators FS/GS/RS/US, SPACE, NEL,
      NO-BREAK SPACE and the Unicode space and line/paragraph separators. */
  const SpaceCodes: set<int> :=
    {0x09, 0x0A, 0x0B, 0x0C, 0x0D, 0x1C, 0x1D, 0x1E, 0x1F, 0x20, 0x85, 0xA0, 0x1680,
     0x2000, 0x2001, 0x2002, 0x2003, 0x2004, 0x2005, 0x2006, 0x2007, 0x2008, 0x2009, 0x200A,
     0x2028, 0x2029, 0x202F, 0x205F, 0x3000}

  predicate IsSpace(c: char) {
    c as int in SpaceCodes
  }

  predicate AllSpace(s: string) {
    forall k :: 0 <= k < |s| ==> IsSpace(s[k])
  }

  /** First index at or after `i` that is not whitespace (or `|s|`). */
  function SkipSpaceFrom(s: string, i: nat): (a: nat)
    requires i <= |s|
    ensures i <= a <= |s|
    decreases |s| - i
  {
    if i == |s| || !IsSpace(s[i]) then i else SkipSpaceFrom(s, i + 1)
  }

  /** Smallest `b'` in `[lo, b]` such that `s[b'..b]` is all whitespace. */
  function SkipSpaceBack(s: string, lo: nat, b: nat): (b': nat)
    requires lo <= b <= |s|
    ensures lo <= b' <= b
    decreases b
  {
    if b == lo || !IsSpace(s[b - 1]) then b else SkipSpaceBack(s, lo, b - 1)
  }

  /** The bounds `(a, b)` of the part of `s` that stripping keeps. */
  function StripBounds(s: string): (w: (nat, nat))
    ensures w.0 <= w.1 <= |s|
  {
    var a := SkipSpaceFrom(s, 0);
    (a, SkipSpaceBack(s, a, |s|))
  }

  /** `s.strip()`. */
  function Strip(s: string): (r: string)
    ensures |r| <= |s|
  {
    s[StripBounds(s).0..StripBounds(s).1]
  }

  lemma {:induction false} SkipSpaceFromSpec(s: string, i: nat)
    requires i <= |s|
    ensures forall k :: i <= k < SkipSpaceFrom(s, i) ==> IsSpace(s[k])
    ensures SkipSpaceFrom(s, i) < |s| ==> !IsSpace(s[SkipSpaceFrom(s, i)])
    decreases |s| - i
  {
    if i < |s| && IsSpace(s[i]) {
      SkipSpaceFromSpec(s, i + 1);
    }
  }

  lemma {:induction false} SkipSpaceBackSpec(s: string, lo: nat, b: nat)
    requires lo <= b <= |s|
    ensures forall k :: SkipSpaceBack(s, lo, b) <= k < b ==> IsSpace(s[k])
    ensures SkipSpaceBack(s, lo, b) > lo ==> !IsSpace(s[SkipSpaceBack(s, lo, b) - 1])
    decreases b
  {
    if b > lo && IsSpace(s[b - 1]) {
      SkipSpaceBackSpec(s, lo, b - 1);
    }
  }

  /** Everything outside the kept part is whitespace, the characters at both
      ends of a non-empty kept part are not, and so every non-whitespace
      character lies inside it. */
  lemma StripBoundsSpec(s: string)
    ensures forall k :: 0 <= k < StripBounds(s).0 ==> IsSpace(s[k])
    ensures forall k :: StripBounds(s).1 <= k < |s| ==> IsSpace(s[k])
    ensures StripBounds(s).0 < StripBounds(s).1 ==>
              !IsSpace(s[StripBounds(s).0]) && !IsSpace(s[StripBounds(s).1 - 1])
    ensures forall p :: 0 <= p < |s| && !IsSpace(s[p]) ==> StripBounds(s).0 <= p < StripBounds(s).1
  {
    var a := SkipSpaceFrom(s, 0);
    SkipSpaceFromSpec(s, 0);
    SkipSpaceBackSpec(s, a, |s|);
  }

  /** Stripping yields nothing exactly for all-whitespace text, and
      otherwise begins and ends with a non-whitespace character. */
  lemma StripSpec(s: string)
    ensures Strip(s) == [] <==> AllSpace(s)
    ensures Strip(s) != [] ==> !IsSpace(Strip(s)[0]) && !IsSpace(Strip(s)[|Strip(s)| - 1])
  {
    StripBoundsSpec(s);
  }

  /** Stripping twice is stripping once. */
  lemma StripIdempotent(s: string)
    ensures Strip(Strip(s)) == Strip(s)
  {
    var r := Strip(s);
    StripSpec(s);
    StripBoundsSpec(r);
    if r != [] {
      assert StripBounds(r) == (0, |r|);
    }
  }

  /** Every non-whitespace character of `s` survives stripping, at its
      offset from the start of the kept part. */
  lemma StripKeeps(s: string, p: nat)
    requires p < |s| && !IsSpace(s[p])
    ensures StripBounds(s).0 <= p < StripBounds(s).1
    ensures Strip(s)[p - StripBounds(s).0] == s[p]
  {
    StripBoundsSpec(s);
  }
}
