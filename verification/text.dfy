/**
  Python's `str.strip()` with no argument: removes leading and trailing
  characters for which `str.isspace()` holds. Site, username and password are
  all stripped before they are validated and stored.
*/
module Text {

  /** The characters Python's `str.isspace()` accepts. */
  predicate IsSpace(c: char) {
    || ('\t' <= c <= '\r')                  // tab, line feed, vertical tab, form feed, carriage return
    || ('\U{1c}' <= c <= '\U{1f}')          // file, group, record and unit separators
    || c == ' '
    || c == '\U{85}'                        // next line
    || c == '\U{a0}'                        // no-break space
    || c == '\U{1680}'                      // ogham space mark
    || ('\U{2000}' <= c <= '\U{200a}')      // en quad .. hair space
    || c == '\U{2028}' || c == '\U{2029}'   // line and paragraph separators
    || c == '\U{202f}'                      // narrow no-break space
    || c == '\U{205f}'                      // medium mathematical space
    || c == '\U{3000}'                      // ideographic space
  }

  predicate AllSpace(s: string) {
    forall i :: 0 <= i < |s| ==> IsSpace(s[i])
  }

  /** The first position at or after `i` that is not whitespace (or `|s|`);
      everything skipped is whitespace. */
  function SkipStart(s: string, i: nat): (k: nat)
    requires i <= |s|
    ensures i <= k <= |s|
    ensures forall m :: i <= m < k ==> IsSpace(s[m])
    ensures k == |s| || !IsSpace(s[k])
    decreases |s| - i
  {
    if i < |s| && IsSpace(s[i]) then SkipStart(s, i + 1) else i
  }

  /** Moving the end `j` back over whitespace, but not below `lo`: the result
      is the new end, everything skipped is whitespace. */
  function SkipEnd(s: string, lo: nat, j: nat): (k: nat)
    requires lo <= j <= |s|
    ensures lo <= k <= j
    ensures forall m :: k <= m < j ==> IsSpace(s[m])
    ensures k == lo || !IsSpace(s[k - 1])
    decreases j
  {
    if j > lo && IsSpace(s[j - 1]) then SkipEnd(s, lo, j - 1) else j
  }

  /** `str.strip()`: the slice of `s` that neither starts nor ends with
      whitespace and is surrounded only by whitespace. */
  function Strip(s: string): (r: string)
    ensures exists i, j ::
              && 0 <= i <= j <= |s|
              && r == s[i..j]
              && (forall m :: 0 <= m < i ==> IsSpace(s[m]))
              && (forall m :: j <= m < |s| ==> IsSpace(s[m]))
    ensures r == [] || (!IsSpace(r[0]) && !IsSpace(r[|r| - 1]))
  {
    var i := SkipStart(s, 0);
    var j := SkipEnd(s, i, |s|);
    s[i..j]
  }

  /** A string is blank (strips to nothing) exactly when it is all whitespace. */
  lemma StripEmptyIffAllSpace(s: string)
    ensures Strip(s) == [] <==> AllSpace(s)
  {
    if Strip(s) == [] {
      var i, j :|
        && 0 <= i <= j <= |s|
        && Strip(s) == s[i..j]
        && (forall m :: 0 <= m < i ==> IsSpace(s[m]))
        && (forall m :: j <= m < |s| ==> IsSpace(s[m]));
      assert i == j;
    }
  }

  /** A string with no whitespace at either end is its own strip. */
  lemma StripUntrimmed(s: string)
    requires s == [] || (!IsSpace(s[0]) && !IsSpace(s[|s| - 1]))
    ensures Strip(s) == s
  {
    assert SkipStart(s, 0) == 0;
    assert SkipEnd(s, 0, |s|) == |s|;
    assert s[0..|s|] == s;
  }

  /** Stripping twice is stripping once. */
  lemma StripIdempotent(s: string)
    ensures Strip(Strip(s)) == Strip(s)
  {
    StripUntrimmed(Strip(s));
  }
}
