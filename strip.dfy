/**
  Python's `str.strip()` called with no argument, as the snapshot reader
  applies it to every line it reads: leading and trailing whitespace is
  removed, where "whitespace" is the set of characters `str.isspace()`
  accepts.
 */
module PyStrip {

  /** The characters Python's `str.isspace()` accepts: the ASCII controls
      TAB to CR, the separators FS/GS/RS/US, SPACE, NEL, NO-BREAK SPACE and
      the Unicode space separators and line/paragraph separators. No
      letter or digit is whitespace, so stripping never removes a character
      of a hexadecimal address. */
  predicate IsSpace(c: char)
    ensures IsSpace(c) ==> 0x09 <= c as int <= 0x3000
    ensures ('0' <= c <= '9' || 'a' <= c <= 'z' || 'A' <= c <= 'Z') ==> !IsSpace(c)
    ensures c == ' ' || c == '\t' || c == '\n' || c == '\r' ==> IsSpace(c)
  {
    var n := c as int;
    || (0x09 <= n <= 0x0D)
    || (0x1C <= n <= 0x20)
    || n == 0x85
    || n == 0xA0
    || n == 0x1680
    || (0x2000 <= n <= 0x200A)
    || n == 0x2028
    || n == 0x2029
    || n == 0x202F
    || n == 0x205F
    || n == 0x3000
  }

  /** Every character of `s` from index `lo` up to `hi` is whitespace. */
  ghost predicate SpaceBetween(s: string, lo: nat, hi: nat)
    requires lo <= hi <= |s|
  {
    forall k :: lo <= k < hi ==> IsSpace(s[k])
  }

  /** Every character of `s` is whitespace (a blank line). */
  ghost predicate AllSpace(s: string) {
    SpaceBetween(s, 0, |s|)
  }

  /** `s` neither starts nor ends with whitespace. */
  ghost predicate NoEdgeSpace(s: string) {
    s == [] || (!IsSpace(s[0]) && !IsSpace(s[|s| - 1]))
  }

  /** The index of the first non-whitespace character of `s` at or after
      `i`, or `|s|` if there is none. */
  function SkipSpace(s: string, i: nat): (k: nat)
    requires i <= |s|
    ensures i <= k <= |s|
    ensures SpaceBetween(s, i, k)
    ensures k == |s| || !IsSpace(s[k])
    decreases |s| - i
  {
    if i < |s| && IsSpace(s[i]) then SkipSpace(s, i + 1) else i
  }

  /** The index just past the last non-whitespace character of `s` before
      `j` and not before `lo`, or `lo` if there is none. */
  function SkipSpaceBack(s: string, lo: nat, j: nat): (k: nat)
    requires lo <= j <= |s|
    ensures lo <= k <= j
    ensures SpaceBetween(s, k, j)
    ensures k == lo || !IsSpace(s[k - 1])
  {
    if lo < j && IsSpace(s[j - 1]) then SkipSpaceBack(s, lo, j - 1) else j
  }

  /** `s.strip()`: the result has no whitespace at either end, and it is
      empty exactly when the line was blank. */
  function Strip(s: string): (r: string)
    ensures |r| <= |s|
    ensures NoEdgeSpace(r)
    ensures AllSpace(s) <==> r == []
  {
    var i := SkipSpace(s, 0);
    var j := SkipSpaceBack(s, i, |s|);
    assert i < j ==> s[i..j][0] == s[i] && s[i..j][j - i - 1] == s[j - 1];
    s[i..j]
  }

  /** What is removed by `Strip` is whitespace on both sides of a
      contiguous slice of the line. */
  lemma StripSpan(s: string) returns (i: nat, j: nat)
    ensures i <= j <= |s|
    ensures Strip(s) == s[i..j]
    ensures SpaceBetween(s, 0, i) && SpaceBetween(s, j, |s|)
  {
    i := SkipSpace(s, 0);
    j := SkipSpaceBack(s, i, |s|);
  }

  /** `Strip` is the only way to cut a line into whitespace, a slice
      without whitespace at its ends, and whitespace. */
  lemma StripUnique(s: string, i: nat, j: nat)
    requires i <= j <= |s|
    requires SpaceBetween(s, 0, i) && SpaceBetween(s, j, |s|)
    requires NoEdgeSpace(s[i..j])
    ensures Strip(s) == s[i..j]
  {
    var i0 := SkipSpace(s, 0);
    var j0 := SkipSpaceBack(s, i0, |s|);
    if i < j {
      assert !IsSpace(s[i]) && !IsSpace(s[j - 1]) by {
        assert s[i..j][0] == s[i] && s[i..j][j - i - 1] == s[j - 1];
      }
      assert i0 == i;
      assert j0 == j;
    } else {
      assert AllSpace(s);
    }
  }

  /** Stripping an already stripped line changes nothing. */
  lemma StripIdempotent(s: string)
    ensures Strip(Strip(s)) == Strip(s)
  {
    var t := Strip(s);
    assert t[0..|t|] == t;
    StripUnique(t, 0, |t|);
  }
}
