/** ASCII approximation of Go's `strings.TrimSpace`. */
module Text {

  /** The six ASCII characters Go's `strings.TrimSpace` treats as space:
      tab, line feed, vertical tab, form feed, carriage return and blank. */
  predicate IsSpace(c: char) {
    c == ' ' || 9 <= c as int <= 13
  }

  /** True when `s` neither starts nor ends with a space character. */
  predicate IsTrimmed(s: string) {
    s == [] || (!IsSpace(s[0]) && !IsSpace(s[|s| - 1]))
  }

  predicate AllSpace(s: string) {
    forall k :: 0 <= k < |s| ==> IsSpace(s[k])
  }

  /** Every character of `s` outside positions `i` to `j` is a space. */
  predicate SpaceOutside(s: string, i: int, j: int) {
    forall k :: 0 <= k < |s| && (k < i || j <= k) ==> IsSpace(s[k])
  }

  /** Scans forward from `i` past space characters. */
  function SkipLeading(s: string, i: nat): (n: nat)
    requires i <= |s|
    ensures i <= n <= |s|
    ensures forall k :: i <= k < n ==> IsSpace(s[k])
    ensures n < |s| ==> !IsSpace(s[n])
    decreases |s| - i
  {
    if i < |s| && IsSpace(s[i]) then SkipLeading(s, i + 1) else i
  }

  /** Scans backward from `j` past space characters, never below `start`. */
  function SkipTrailing(s: string, start: nat, j: nat): (n: nat)
    requires start <= j <= |s|
    ensures start <= n <= j
    ensures forall k :: n <= k < j ==> IsSpace(s[k])
    ensures n > start ==> !IsSpace(s[n - 1])
    decreases j
  {
    if j > start && IsSpace(s[j - 1]) then SkipTrailing(s, start, j - 1) else j
  }

  /** `strings.TrimSpace`: leading and trailing spaces removed. */
  function Trim(s: string): (r: string)
    ensures |r| <= |s|
    ensures IsTrimmed(r)
  {
    var i := SkipLeading(s, 0);
    var j := SkipTrailing(s, i, |s|);
    s[i..j]
  }

  /** Trimming touches only the ends: the result sits inside `s` at
      position `i`, with nothing but space characters on either side. */
  lemma TrimIsInnerSlice(s: string) returns (i: nat)
    ensures i + |Trim(s)| <= |s|
    ensures Trim(s) == s[i..i + |Trim(s)|]
    ensures SpaceOutside(s, i, i + |Trim(s)|)
  {
    i := SkipLeading(s, 0);
    var j := SkipTrailing(s, i, |s|);
    assert |Trim(s)| == j - i;
  }

  /** A string with no surrounding spaces is left unchanged. */
  lemma TrimFixesTrimmed(s: string)
    requires IsTrimmed(s)
    ensures Trim(s) == s
  {
  }

  /** `strings.TrimSpace` is idempotent. */
  lemma TrimIdempotent(s: string)
    ensures Trim(Trim(s)) == Trim(s)
  {
  }

  /** Trimming yields the empty string exactly for all-space input. */
  lemma TrimEmptyIffAllSpace(s: string)
    ensures Trim(s) == [] <==> AllSpace(s)
  {
  }
}
