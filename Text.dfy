/**
  The Go `strings` operations the inventory tool calls, `Contains`, `Split` (with the
  `Index` Go builds it on) and `TrimSpace`, stated over `seq<char>` together with what
  they guarantee.  `Join` is not called by the tool; it is here to state that the
  pieces of a split re-join to the input.
*/
module Text {

  /** `t` occurs in `s` starting at position `i`. */
  predicate OccursAt(s: string, t: string, i: int)
  {
    0 <= i && i + |t| <= |s| && s[i..i + |t|] == t
  }

  /** Go `strings.Contains`: `t` occurs somewhere in `s` (the empty string occurs everywhere). */
  predicate Contains(s: string, t: string)
  {
    exists i | 0 <= i <= |s| - |t| :: OccursAt(s, t, i)
  }

  /** Go `strings.Index` from position `i` on: the first occurrence at or after `i`, or -1. */
  function IndexFrom(s: string, t: string, i: nat): (r: int)
    requires i <= |s|
    ensures r >= 0 ==> i <= r && OccursAt(s, t, r)
    ensures r >= 0 ==> forall j :: i <= j < r ==> !OccursAt(s, t, j)
    ensures r < 0 ==> r == -1 && forall j :: i <= j ==> !OccursAt(s, t, j)
    decreases |s| - i
  {
    if i + |t| > |s| then -1
    else if s[i..i + |t|] == t then i
    else IndexFrom(s, t, i + 1)
  }

  /** Go `strings.Index`: the leftmost occurrence of `t` in `s`, or -1 when there is none. */
  function Index(s: string, t: string): (r: int)
    ensures r >= 0 <==> Contains(s, t)
    ensures r >= 0 ==> OccursAt(s, t, r) && forall j :: 0 <= j < r ==> !OccursAt(s, t, j)
    ensures r < 0 ==> r == -1
  {
    IndexFrom(s, t, 0)
  }

  /** An occurrence inside a slice is an occurrence in the whole string. */
  lemma OccursAtShift(s: string, t: string, d: nat, p: nat)
    requires d <= |s|
    ensures OccursAt(s[d..], t, p) <==> OccursAt(s, t, p + d)
  {
    if OccursAt(s[d..], t, p) {
      assert s[d..][p..p + |t|] == s[p + d..p + d + |t|];
    }
    if OccursAt(s, t, p + d) {
      assert s[d..][p..p + |t|] == s[p + d..p + d + |t|];
    }
  }

  /** `Contains` is transitive: a factor of a factor is a factor. */
  lemma {:induction false} ContainsTransitive(a: string, b: string, c: string)
    requires Contains(a, b) && Contains(b, c)
    ensures Contains(a, c)
  {
    var i :| 0 <= i <= |a| - |b| && OccursAt(a, b, i);
    var j :| 0 <= j <= |b| - |c| && OccursAt(b, c, j);
    forall m | 0 <= m < |c|
      ensures a[i + j + m] == c[m]
    {
      assert c[m] == b[j + m] == a[i + j + m];
    }
    assert OccursAt(a, c, i + j);
  }

  /** A slice of `s` is a factor of `s`. */
  lemma SliceIsFactor(s: string, i: nat, j: nat)
    requires i <= j <= |s|
    ensures Contains(s, s[i..j])
  {
    assert OccursAt(s, s[i..j], i);
  }

  /** The sequences `sep`, all of whose proper suffixes differ from the prefix of the same length:
      two occurrences of such a separator never overlap. */
  predicate NoSelfOverlap(sep: string)
  {
    forall d :: 0 < d < |sep| ==> sep[d..] != sep[..|sep| - d]
  }

  /** Two occurrences of a non-self-overlapping separator are at least `|sep|` apart. */
  lemma {:induction false} NoOverlappingOccurrences(s: string, sep: string, i: int, p: int)
    requires NoSelfOverlap(sep)
    requires OccursAt(s, sep, i) && i < p < i + |sep|
    ensures !OccursAt(s, sep, p)
  {
    var d := p - i;
    assert sep[d..] != sep[..|sep| - d];
    assert s[p..i + |sep|] == sep[d..];
    if p + |sep| <= |s| {
      assert s[p..p + |sep|][..|sep| - d] == s[p..i + |sep|];
    }
  }

  /** The number of positions of `s` at which `t` occurs. */
  function OccurrenceCount(s: string, t: string): nat
    requires |t| > 0
    decreases |s|
  {
    if |s| < |t| then 0
    else (if s[..|t|] == t then 1 else 0) + OccurrenceCount(s[1..], t)
  }

  /** Without occurrences before `j`, the count is that of `s[j..]`. */
  lemma {:induction false} OccurrenceCountSkip(s: string, t: string, j: nat)
    requires |t| > 0 && j <= |s|
    requires forall p :: 0 <= p < j ==> !OccursAt(s, t, p)
    ensures OccurrenceCount(s, t) == OccurrenceCount(s[j..], t)
  {
    if j > 0 {
      assert !OccursAt(s, t, 0);
      forall p | 0 <= p < j - 1
        ensures !OccursAt(s[1..], t, p)
      {
        OccursAtShift(s, t, 1, p);
      }
      OccurrenceCountSkip(s[1..], t, j - 1);
      assert s[1..][j - 1..] == s[j..];
    }
  }

  /** An occurrence is at the front or in the rest. */
  lemma ContainsFrontOrRest(s: string, t: string)
    requires 0 < |t| <= |s|
    ensures Contains(s, t) <==> OccursAt(s, t, 0) || Contains(s[1..], t)
  {
    if Contains(s[1..], t) {
      var p :| 0 <= p <= |s[1..]| - |t| && OccursAt(s[1..], t, p);
      OccursAtShift(s, t, 1, p);
    }
    if Contains(s, t) && !OccursAt(s, t, 0) {
      var i :| 0 <= i <= |s| - |t| && OccursAt(s, t, i);
      OccursAtShift(s, t, 1, i - 1);
    }
  }

  /** There is no occurrence exactly when the count is zero. */
  lemma {:induction false} OccurrenceCountZero(s: string, t: string)
    requires |t| > 0
    ensures OccurrenceCount(s, t) == 0 <==> !Contains(s, t)
    decreases |s|
  {
    if |s| >= |t| {
      OccurrenceCountZero(s[1..], t);
      ContainsFrontOrRest(s, t);
      assert s[0..|t|] == s[..|t|];
    }
  }

  /** Go `strings.Join`. */
  function Join(parts: seq<string>, sep: string): string
  {
    if |parts| == 0 then []
    else if |parts| == 1 then parts[0]
    else parts[0] + sep + Join(parts[1..], sep)
  }

  /** Go `strings.Split` with a non-empty separator: the pieces between the leftmost
      non-overlapping occurrences of `sep`.  There is always at least one piece, no piece
      holds `sep`, and joining the pieces with `sep` gives back `s`. */
  function Split(s: string, sep: string): (r: seq<string>)
    requires |sep| > 0
    ensures |r| >= 1
    ensures Join(r, sep) == s
    ensures forall k :: 0 <= k < |r| ==> !Contains(r[k], sep)
    decreases |s|
  {
    var i := Index(s, sep);
    if i < 0 then [s]
    else
      var head, rest := s[..i], Split(s[i + |sep|..], sep);
      assert !Contains(head, sep) by {
        forall p | OccursAt(head, sep, p)
          ensures false
        {
          assert head[p..p + |sep|] == s[p..p + |sep|];
          assert OccursAt(s, sep, p);
        }
      }
      assert s == head + sep + s[i + |sep|..];
      [head] + rest
  }

  /** Factors of a suffix of `s` are factors of `s`. */
  lemma FactorsOfSuffix(s: string, d: nat, pieces: seq<string>)
    requires d <= |s|
    requires forall k :: 0 <= k < |pieces| ==> Contains(s[d..], pieces[k])
    ensures forall k :: 0 <= k < |pieces| ==> Contains(s, pieces[k])
  {
    SliceIsFactor(s, d, |s|);
    assert s[d..|s|] == s[d..];
    forall k | 0 <= k < |pieces|
      ensures Contains(s, pieces[k])
    {
      ContainsTransitive(s, s[d..], pieces[k]);
    }
  }

  /** Every piece produced by `Split` is a factor of the input. */
  lemma {:induction false} SplitPiecesAreFactors(s: string, sep: string)
    requires |sep| > 0
    ensures forall k :: 0 <= k < |Split(s, sep)| ==> Contains(s, Split(s, sep)[k])
    decreases |s|
  {
    var i := Index(s, sep);
    if i < 0 {
      SliceIsFactor(s, 0, |s|);
      assert s[0..|s|] == s;
    } else {
      var tail := Split(s[i + |sep|..], sep);
      SplitPiecesAreFactors(s[i + |sep|..], sep);
      FactorsOfSuffix(s, i + |sep|, tail);
      SliceIsFactor(s, 0, i);
      assert s[0..i] == s[..i];
      assert Split(s, sep) == [s[..i]] + tail;
    }
  }

  /** At the first occurrence of a separator that cannot overlap itself, the count goes up
      by one and resumes after the separator. */
  lemma CountAtFirstOccurrence(s: string, sep: string, i: nat)
    requires |sep| > 0 && NoSelfOverlap(sep)
    requires OccursAt(s, sep, i) && forall p :: 0 <= p < i ==> !OccursAt(s, sep, p)
    ensures OccurrenceCount(s, sep) == 1 + OccurrenceCount(s[i + |sep|..], sep)
  {
    var k := |sep|;
    OccurrenceCountSkip(s, sep, i);
    assert s[i..][..k] == sep;
    assert OccurrenceCount(s[i..], sep) == 1 + OccurrenceCount(s[i..][1..], sep);
    var after := s[i + 1..];
    assert s[i..][1..] == after;
    forall p | 0 <= p < k - 1
      ensures !OccursAt(after, sep, p)
    {
      OccursAtShift(s, sep, i + 1, p);
      NoOverlappingOccurrences(s, sep, i, p + i + 1);
    }
    OccurrenceCountSkip(after, sep, k - 1);
    assert after[k - 1..] == s[i + k..];
  }

  /** With a non-self-overlapping separator, `Split` yields one piece more than there are
      occurrences of the separator. */
  lemma {:induction false} SplitLength(s: string, sep: string)
    requires |sep| > 0 && NoSelfOverlap(sep)
    ensures |Split(s, sep)| == OccurrenceCount(s, sep) + 1
    decreases |s|
  {
    var i := Index(s, sep);
    if i < 0 {
      OccurrenceCountZero(s, sep);
    } else {
      SplitLength(s[i + |sep|..], sep);
      CountAtFirstOccurrence(s, sep, i);
    }
  }

  /** A string without `sep` splits into itself alone. */
  lemma SplitNoSeparator(s: string, sep: string)
    requires |sep| > 0 && !Contains(s, sep)
    ensures Split(s, sep) == [s]
  {
  }

  /** A string holding a character that does not occur in `s` does not occur in `s`. */
  lemma NotContainsByChar(s: string, t: string, m: nat)
    requires m < |t| && t[m] !in s
    ensures !Contains(s, t)
  {
    forall i | 0 <= i <= |s| - |t|
      ensures !OccursAt(s, t, i)
    {
      if i + |t| <= |s| {
        assert s[i..i + |t|][m] == s[i + m];
      }
    }
  }

  /** For a separator that cannot overlap itself (as `Key:` and `Value:`), the first cut of
      `Split` is the first separator after a separator-free prefix. */
  lemma SplitConcat(a: string, sep: string, b: string)
    requires |sep| > 0 && NoSelfOverlap(sep) && !Contains(a, sep)
    ensures Split(a + sep + b, sep) == [a] + Split(b, sep)
  {
    var s := a + sep + b;
    var k := |sep|;
    assert s[|a|..|a| + k] == sep;
    assert OccursAt(s, sep, |a|);
    forall p | 0 <= p < |a|
      ensures !OccursAt(s, sep, p)
    {
      if p + k <= |a| {
        assert s[p..p + k] == a[p..p + k];
        assert !OccursAt(a, sep, p);
      } else if OccursAt(s, sep, p) {
        NoOverlappingOccurrences(s, sep, p, |a|);
      }
    }
    var i := Index(s, sep);
    assert i == |a|;
    assert s[..i] == a;
    assert s[i + k..] == b;
  }

  /** Splitting undoes joining: for a separator that cannot overlap itself, `Split` and `Join`
      are inverse between strings and non-empty sequences of separator-free pieces. */
  lemma {:induction false} SplitJoin(parts: seq<string>, sep: string)
    requires |sep| > 0 && NoSelfOverlap(sep) && |parts| > 0
    requires forall n :: 0 <= n < |parts| ==> !Contains(parts[n], sep)
    ensures Split(Join(parts, sep), sep) == parts
  {
    if |parts| == 1 {
      SplitNoSeparator(parts[0], sep);
    } else {
      SplitJoin(parts[1..], sep);
      SplitConcat(parts[0], sep, Join(parts[1..], sep));
      assert parts == [parts[0]] + parts[1..];
    }
  }

  /** Go's `unicode.IsSpace`: the ASCII white space `\t \n \v \f \r` and blank, U+0085,
      U+00A0, and the characters of Unicode's White_Space property above U+00FF. */
  predicate IsSpace(c: char)
  {
    || c == ' ' || c == '\t' || c == '\n' || c == '\U{B}' || c == '\U{C}' || c == '\r'
    || c == '\U{85}' || c == '\U{A0}' || c == '\U{1680}'
    || ('\U{2000}' <= c <= '\U{200A}')
    || c == '\U{2028}' || c == '\U{2029}' || c == '\U{202F}' || c == '\U{205F}' || c == '\U{3000}'
  }

  /** Neither the first nor the last character is white space. */
  predicate Trimmed(s: string)
  {
    |s| == 0 || (!IsSpace(s[0]) && !IsSpace(s[|s| - 1]))
  }

  /** Drops the leading white space: the result is a suffix of `s` that does not start
      with white space, and everything dropped was white space. */
  function TrimLeft(s: string): (r: string)
    ensures |r| <= |s| && r == s[|s| - |r|..]
    ensures forall k :: 0 <= k < |s| - |r| ==> IsSpace(s[k])
    ensures |r| == 0 || !IsSpace(r[0])
  {
    if |s| > 0 && IsSpace(s[0]) then TrimLeft(s[1..]) else s
  }

  /** Drops the trailing white space: the result is a prefix of `s` that does not end
      with white space, and everything dropped was white space. */
  function TrimRight(s: string): (r: string)
    ensures |r| <= |s| && r == s[..|r|]
    ensures forall k :: |r| <= k < |s| ==> IsSpace(s[k])
    ensures |r| == 0 || !IsSpace(r[|r| - 1])
  {
    if |s| > 0 && IsSpace(s[|s| - 1]) then TrimRight(s[..|s| - 1]) else s
  }

  /** Go `strings.TrimSpace`: what remains once all leading and trailing white space is
      removed; the result neither starts nor ends with white space. */
  function TrimSpace(s: string): (r: string)
    ensures Trimmed(r) && |r| <= |s|
  {
    TrimRight(TrimLeft(s))
  }

  /** What `TrimSpace` keeps is the slice `s[i..j]`; all it removes is white space. */
  lemma TrimSpaceSlice(s: string) returns (i: nat, j: nat)
    ensures i <= j <= |s| && TrimSpace(s) == s[i..j]
    ensures forall k :: 0 <= k < i ==> IsSpace(s[k])
    ensures forall k :: j <= k < |s| ==> IsSpace(s[k])
  {
    var l := TrimLeft(s);
    i := |s| - |l|;
    var r := TrimRight(l);
    j := i + |r|;
    SuffixSlice(s, i, |r|);
    assert TrimSpace(s) == r;
  }

  /** A prefix of the suffix `s[i..]` is a slice of `s`, and what follows it in the suffix
      follows it in `s`. */
  lemma SuffixSlice(s: string, i: nat, n: nat)
    requires i + n <= |s|
    ensures s[i..][..n] == s[i..i + n]
    ensures (forall k :: n <= k < |s| - i ==> IsSpace(s[i..][k])) ==>
      forall k :: i + n <= k < |s| ==> IsSpace(s[k])
  {
    if forall k :: n <= k < |s| - i ==> IsSpace(s[i..][k]) {
      forall k | i + n <= k < |s|
        ensures IsSpace(s[k])
      {
        assert s[k] == s[i..][k - i];
      }
    }
  }

  /** The trimmed string is a factor of the original. */
  lemma TrimSpaceIsFactor(s: string)
    ensures Contains(s, TrimSpace(s))
  {
    var i, j := TrimSpaceSlice(s);
    SliceIsFactor(s, i, j);
  }

  /** Trimming an already trimmed string changes nothing; in particular trimming is idempotent. */
  lemma TrimSpaceOfTrimmed(s: string)
    requires Trimmed(s)
    ensures TrimSpace(s) == s
  {
    assert TrimLeft(s) == s;
  }

  lemma TrimSpaceIdempotent(s: string)
    ensures TrimSpace(TrimSpace(s)) == TrimSpace(s)
  {
    TrimSpaceOfTrimmed(TrimSpace(s));
  }

  predicate AllSpace(s: string)
  {
    forall k :: 0 <= k < |s| ==> IsSpace(s[k])
  }

  lemma {:induction false} TrimLeftPadded(pre: string, rest: string)
    requires AllSpace(pre) && (rest == [] || !IsSpace(rest[0]))
    ensures TrimLeft(pre + rest) == rest
  {
    if pre != [] {
      assert (pre + rest)[1..] == pre[1..] + rest;
      TrimLeftPadded(pre[1..], rest);
    }
  }

  lemma {:induction false} TrimRightPadded(rest: string, post: string)
    requires AllSpace(post) && (rest == [] || !IsSpace(rest[|rest| - 1]))
    ensures TrimRight(rest + post) == rest
  {
    if post != [] {
      assert (rest + post)[..|rest + post| - 1] == rest + post[..|post| - 1];
      TrimRightPadded(rest, post[..|post| - 1]);
    }
  }

  /** Trimming removes exactly the white space around a trimmed middle part. */
  lemma TrimSpacePadded(pre: string, mid: string, post: string)
    requires AllSpace(pre) && AllSpace(post) && Trimmed(mid)
    ensures TrimSpace(pre + mid + post) == mid
  {
    if mid == [] {
      assert pre + mid + post == pre + post + [];
      TrimLeftPadded(pre + post, []);
    } else {
      assert pre + mid + post == pre + (mid + post);
      TrimLeftPadded(pre, mid + post);
      TrimRightPadded(mid, post);
    }
  }

  /** Trimming yields the empty string exactly when `s` is all white space. */
  lemma TrimSpaceEmpty(s: string)
    ensures TrimSpace(s) == [] <==> forall k :: 0 <= k < |s| ==> IsSpace(s[k])
  {
    var l := TrimLeft(s);
    if l != [] {
      assert !IsSpace(l[0]) && l[0] == s[|s| - |l|];
      assert TrimRight(l) != [];
    }
  }
}
