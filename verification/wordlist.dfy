/** The line filter of `LoadWordlist`: every scanned line is trimmed, and
    kept unless it is empty or a `#` comment. File access and line
    splitting are left to the caller, which supplies the lines. */
module Wordlist {
  import opened Text

  /** `strings.HasPrefix(line, "#")`. */
  predicate IsComment(line: string) {
    |line| > 0 && line[0] == '#'
  }

  /** The test applied to a trimmed line before it is appended. */
  predicate Keep(line: string) {
    line != [] && !IsComment(line)
  }

  /** What an entry of a loaded wordlist looks like. */
  predicate IsWord(w: string) {
    Keep(w) && IsTrimmed(w)
  }

  /** `LoadWordlist` with the file replaced by its sequence of lines. */
  function Filter(lines: seq<string>): (words: seq<string>)
    ensures |words| <= |lines|
    ensures forall k :: 0 <= k < |words| ==> IsWord(words[k])
  {
    if lines == [] then []
    else
      var line := Trim(lines[0]);
      (if Keep(line) then [line] else []) + Filter(lines[1..])
  }

  /** Every line after trimming, before the filter is applied. */
  function TrimAll(lines: seq<string>): (trimmed: seq<string>)
    ensures |trimmed| == |lines|
    ensures forall k :: 0 <= k < |lines| ==> trimmed[k] == Trim(lines[k])
  {
    if lines == [] then [] else [Trim(lines[0])] + TrimAll(lines[1..])
  }

  /** `xs` is obtained from `ys` by deleting elements, keeping order. */
  predicate IsSubsequence<T(==)>(xs: seq<T>, ys: seq<T>)
    decreases |ys|
  {
    if xs == [] then true
    else if ys == [] then false
    else (xs[0] == ys[0] && IsSubsequence(xs[1..], ys[1..])) || IsSubsequence(xs, ys[1..])
  }

  /** The filter works line by line: reading two chunks of a file one after
      the other gives the concatenation of their words. */
  lemma {:induction false} FilterAppend(a: seq<string>, b: seq<string>)
    ensures Filter(a + b) == Filter(a) + Filter(b)
  {
    if a == [] {
      assert a + b == b;
    } else {
      var line := Trim(a[0]);
      var head := if Keep(line) then [line] else [];
      assert (a + b)[0] == a[0];
      assert (a + b)[1..] == a[1..] + b;
      FilterAppend(a[1..], b);
      calc {
        Filter(a + b);
        head + Filter(a[1..] + b);
        head + (Filter(a[1..]) + Filter(b));
        (head + Filter(a[1..])) + Filter(b);
      }
    }
  }

  /** A word is produced exactly when some line trims to it and the trimmed
      form is neither empty nor a comment. */
  lemma {:induction false} FilterMembership(lines: seq<string>, w: string)
    ensures w in Filter(lines) <==> Keep(w) && exists l :: l in lines && Trim(l) == w
  {
    if lines != [] {
      FilterMembership(lines[1..], w);
      if w in Filter(lines) && w != Trim(lines[0]) {
        var l :| l in lines[1..] && Trim(l) == w;
        assert l in lines;
      }
      if Keep(w) && w !in Filter(lines) {
        forall l | l in lines ensures Trim(l) != w {
          if l != lines[0] {
            assert l in lines[1..];
          }
        }
      }
    }
  }

  /** The words are the trimmed lines in their original order, with some
      lines left out. */
  lemma {:induction false} FilterIsSubsequence(lines: seq<string>)
    ensures IsSubsequence(Filter(lines), TrimAll(lines))
  {
    if lines != [] {
      var rest := lines[1..];
      FilterIsSubsequence(rest);
      var t := TrimAll(lines);
      if Keep(Trim(lines[0])) {
        assert Filter(lines) == [Trim(lines[0])] + Filter(rest);
        SubsequenceCons(Trim(lines[0]), Filter(rest), TrimAll(rest));
      } else {
        assert Filter(lines) == Filter(rest);
        SubsequenceDropHead(Filter(rest), t);
      }
    }
  }

  lemma SubsequenceCons<T>(x: T, xs: seq<T>, ys: seq<T>)
    requires IsSubsequence(xs, ys)
    ensures IsSubsequence([x] + xs, [x] + ys)
  {
  }

  lemma SubsequenceDropHead<T>(xs: seq<T>, ys: seq<T>)
    requires ys != [] && IsSubsequence(xs, ys[1..])
    ensures IsSubsequence(xs, ys)
  {
  }

  /** Loading an already-loaded wordlist changes nothing. */
  lemma {:induction false} FilterIdempotent(lines: seq<string>)
    ensures Filter(Filter(lines)) == Filter(lines)
  {
    if lines != [] {
      var rest := lines[1..];
      var line := Trim(lines[0]);
      FilterIdempotent(rest);
      if Keep(line) {
        assert Filter(lines) == [line] + Filter(rest);
        TrimIdempotent(lines[0]);
        assert Filter([line]) == [line] by {
          assert [line][1..] == [];
        }
        FilterAppend([line], Filter(rest));
      } else {
        assert Filter(lines) == Filter(rest);
      }
    }
  }
}
