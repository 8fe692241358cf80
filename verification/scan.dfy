/** Option and Result, the failure-carrying wrappers used throughout the model. */
module Wrappers {

  datatype Option<+T> = None | Some(value: T)

  datatype Result<+T, +E> = Ok(value: T) | Err(error: E)
}

/**
 The line scanner: byte-level searches over a buffer (the `memchr`, `memrchr`,
 `memmem::find_iter` and `memmem::rfind_iter` primitives the parser is built
 from), stated as first/last-index searches over sequences.
 */
module Scan {
  import opened Wrappers

  type byte = bv8

  /** The bytes of an ASCII string literal. */
  function Ascii(s: string): (r: seq<byte>)
    requires forall i | 0 <= i < |s| :: s[i] as int < 128
    ensures |r| == |s|
  {
    seq(|s|, i requires 0 <= i < |s| => (s[i] as int) as byte)
  }

  const NL: byte := 10
  const SPACE: byte := 32
  const QUOTE: byte := 34
  const COMMA: byte := 44
  const ZERO: byte := 48

  predicate IsSuffix<T(==)>(r: seq<T>, s: seq<T>) {
    |r| <= |s| && r == s[|s| - |r|..]
  }

  predicate NoByte(s: seq<byte>, b: byte) {
    forall i | 0 <= i < |s| :: s[i] != b
  }

  /** `pat` occurs in `s` starting at index `i`. */
  predicate OccursAt(s: seq<byte>, pat: seq<byte>, i: int) {
    0 <= i && i + |pat| <= |s| && forall t | 0 <= t < |pat| :: s[i + t] == pat[t]
  }

  predicate Contains(s: seq<byte>, pat: seq<byte>) {
    exists i | 0 <= i <= |s| :: OccursAt(s, pat, i)
  }

  /** `memchr`: index of the first `b` in `s`. */
  function Memchr(s: seq<byte>, b: byte): (r: Option<nat>)
    ensures r.Some? ==> r.value < |s| && s[r.value] == b && NoByte(s[..r.value], b)
    ensures r.None? <==> NoByte(s, b)
  {
    if s == [] then None
    else if s[0] == b then Some(0)
    else match Memchr(s[1..], b)
      case None => None
      case Some(i) => Some(i + 1)
  }

  /** `memrchr`: index of the last `b` in `s`. */
  function Memrchr(s: seq<byte>, b: byte): (r: Option<nat>)
    ensures r.Some? ==> r.value < |s| && s[r.value] == b && NoByte(s[r.value + 1..], b)
    ensures r.None? <==> NoByte(s, b)
  {
    if s == [] then None
    else if s[|s| - 1] == b then Some(|s| - 1)
    else Memrchr(s[..|s| - 1], b)
  }

  /** At most one byte of `s` is `b`. */
  predicate AtMostOne(s: seq<byte>, b: byte) {
    forall i, j | 0 <= i < j < |s| :: !(s[i] == b && s[j] == b)
  }

  /**
   The first two positions of `b` in `s`, found as a `memchr` and a second
   `memchr` past the first.
   */
  function FirstTwo(s: seq<byte>, b: byte): (r: Option<(nat, nat)>)
    ensures r.Some? ==>
      var (i, j) := r.value;
      && i < j < |s| && s[i] == b && s[j] == b
      && NoByte(s[..i], b) && NoByte(s[i + 1..j], b)
  {
    match Memchr(s, b)
    case None => None
    case Some(i) =>
      match Memchr(s[i + 1..], b)
      case None => None
      case Some(n) =>
        assert s[i + 1..i + 1 + n] == s[i + 1..][..n];
        Some((i, i + 1 + n))
  }

  /** There are no first two exactly when there is at most one. */
  lemma FirstTwoNone(s: seq<byte>, b: byte)
    ensures FirstTwo(s, b).None? <==> AtMostOne(s, b)
  {
    match Memchr(s, b)
    case None =>
    case Some(i) =>
      match Memchr(s[i + 1..], b)
      case None =>
        forall k | i < k < |s|
          ensures s[k] != b
        {
          assert s[k] == s[i + 1..][k - i - 1];
        }
      case Some(n) =>
        var (x, y) := FirstTwo(s, b).value;
        assert s[x] == b && s[y] == b;
  }

  /** First occurrence of `pat` at or after position `k`. */
  function FindFrom(s: seq<byte>, pat: seq<byte>, k: nat): (r: Option<nat>)
    requires k <= |s|
    ensures r.Some? ==> k <= r.value && OccursAt(s, pat, r.value)
    decreases |s| - k
  {
    if k + |pat| > |s| then None
    else if OccursAt(s, pat, k) then Some(k)
    else FindFrom(s, pat, k + 1)
  }

  /** Every occurrence at or after `k` is found, at or after the one `FindFrom` returns. */
  lemma {:induction false} FindFromFirst(s: seq<byte>, pat: seq<byte>, k: nat, j: nat)
    requires k <= j && k <= |s|
    ensures OccursAt(s, pat, j) ==> FindFrom(s, pat, k).Some? && FindFrom(s, pat, k).value <= j
    decreases |s| - k
  {
    if k + |pat| <= |s| && !OccursAt(s, pat, k) && k < j {
      FindFromFirst(s, pat, k + 1, j);
    }
  }

  /** `memmem::find` (and `find_iter(..).next()`): the first occurrence of `pat`. */
  function Find(s: seq<byte>, pat: seq<byte>): (r: Option<nat>)
    ensures r.Some? ==> OccursAt(s, pat, r.value)
  {
    FindFrom(s, pat, 0)
  }

  /** `Find` returns the first occurrence. */
  lemma FindFirst(s: seq<byte>, pat: seq<byte>)
    ensures Find(s, pat).Some? ==> forall j | 0 <= j < Find(s, pat).value :: !OccursAt(s, pat, j)
  {
    forall j | 0 <= j <= |s|
      ensures OccursAt(s, pat, j) ==> Find(s, pat).Some? && Find(s, pat).value <= j
    {
      FindFromFirst(s, pat, 0, j);
    }
  }

  /** `Find` finds nothing exactly when `pat` does not occur. */
  lemma FindNone(s: seq<byte>, pat: seq<byte>)
    ensures Find(s, pat).None? <==> !Contains(s, pat)
  {
    forall j | 0 <= j <= |s|
      ensures OccursAt(s, pat, j) ==> Find(s, pat).Some?
    {
      FindFromFirst(s, pat, 0, j);
    }
  }

  /** Last occurrence of `pat` starting strictly before position `k`. */
  function FindBefore(s: seq<byte>, pat: seq<byte>, k: nat): (r: Option<nat>)
    ensures r.Some? ==> r.value < k && OccursAt(s, pat, r.value)
  {
    if k == 0 then None
    else if OccursAt(s, pat, k - 1) then Some(k - 1)
    else FindBefore(s, pat, k - 1)
  }

  /** Every occurrence before `k` is found, at or before the one `FindBefore` returns. */
  lemma {:induction false} FindBeforeLast(s: seq<byte>, pat: seq<byte>, k: nat, j: nat)
    requires j < k
    ensures OccursAt(s, pat, j) ==> FindBefore(s, pat, k).Some? && j <= FindBefore(s, pat, k).value
  {
    if !OccursAt(s, pat, k - 1) && j < k - 1 {
      FindBeforeLast(s, pat, k - 1, j);
    }
  }

  /** `memmem::rfind` (and `rfind_iter(..).next()`): the last occurrence of `pat`. */
  function RFind(s: seq<byte>, pat: seq<byte>): (r: Option<nat>)
    ensures r.Some? ==> OccursAt(s, pat, r.value)
  {
    FindBefore(s, pat, |s| + 1)
  }

  /** `RFind` returns the last occurrence. */
  lemma RFindLast(s: seq<byte>, pat: seq<byte>)
    ensures RFind(s, pat).Some? ==> forall j | RFind(s, pat).value < j :: !OccursAt(s, pat, j)
  {
    forall j | 0 <= j <= |s|
      ensures OccursAt(s, pat, j) ==> RFind(s, pat).Some? && j <= RFind(s, pat).value
    {
      FindBeforeLast(s, pat, |s| + 1, j);
    }
  }

  /** `RFind` finds nothing exactly when `pat` does not occur. */
  lemma RFindNone(s: seq<byte>, pat: seq<byte>)
    ensures RFind(s, pat).None? <==> !Contains(s, pat)
  {
    forall j | 0 <= j <= |s|
      ensures OccursAt(s, pat, j) ==> RFind(s, pat).Some?
    {
      FindBeforeLast(s, pat, |s| + 1, j);
    }
  }

  /**
   `memmem::find_iter` from position `k`: the non-overlapping occurrences of
   `pat`, left to right; after a match the search resumes just past it.
   */
  function FindIterFrom(s: seq<byte>, pat: seq<byte>, k: nat): (r: seq<nat>)
    requires |pat| > 0 && k <= |s|
    ensures forall n | 0 <= n < |r| :: k <= r[n]
    decreases |s| - k
  {
    match FindFrom(s, pat, k)
    case None => []
    case Some(i) => [i] + FindIterFrom(s, pat, i + |pat|)
  }

  function FindIter(s: seq<byte>, pat: seq<byte>): (r: seq<nat>)
    requires |pat| > 0
  {
    FindIterFrom(s, pat, 0)
  }

  /** `Iterator::last`. */
  function Last(xs: seq<nat>): (r: Option<nat>)
    ensures r.None? <==> xs == []
    ensures r.Some? ==> r.value == xs[|xs| - 1]
  {
    if xs == [] then None else Some(xs[|xs| - 1])
  }

  /**
   A pattern none of whose proper prefixes is also a suffix: two of its
   occurrences can never overlap.
   */
  predicate BorderFree(pat: seq<byte>) {
    forall d | 0 < d < |pat| :: pat[d..] != pat[..|pat| - d]
  }

  /** Two overlapping occurrences of `pat` exhibit a border of `pat`. */
  lemma OverlapIsBorder(s: seq<byte>, pat: seq<byte>, i: nat, j: nat)
    requires OccursAt(s, pat, i) && OccursAt(s, pat, j) && i < j < i + |pat|
    ensures pat[j - i..] == pat[..|pat| - (j - i)]
  {
    var d := j - i;
    forall t | 0 <= t < |pat| - d
      ensures pat[d..][t] == pat[..|pat| - d][t]
    {
      calc {
        pat[d..][t];
        s[i + (d + t)];
        s[j + t];
        pat[..|pat| - d][t];
      }
    }
  }

  /** Two occurrences of a border-free pattern are at least its length apart. */
  lemma OccurrencesApart(s: seq<byte>, pat: seq<byte>, i: nat, j: nat)
    requires BorderFree(pat)
    requires OccursAt(s, pat, i) && OccursAt(s, pat, j) && i < j
    ensures i + |pat| <= j
  {
    if j < i + |pat| {
      OverlapIsBorder(s, pat, i, j);
    }
  }

  /** One step of the iteration: the first match, then the matches from just past it. */
  lemma FindIterFromStep(s: seq<byte>, pat: seq<byte>, k: nat, i: nat)
    requires |pat| > 0 && k <= |s| && FindFrom(s, pat, k) == Some(i)
    ensures i + |pat| <= |s|
    ensures FindIterFrom(s, pat, k) == [i] + FindIterFrom(s, pat, i + |pat|)
  {
  }

  /** Everything the iteration lists is an occurrence. */
  lemma {:induction false} FindIterFromOccurs(s: seq<byte>, pat: seq<byte>, k: nat)
    requires |pat| > 0 && k <= |s|
    ensures forall n | 0 <= n < |FindIterFrom(s, pat, k)| :: OccursAt(s, pat, FindIterFrom(s, pat, k)[n])
    decreases |s| - k
  {
    var xs := FindIterFrom(s, pat, k);
    match FindFrom(s, pat, k)
    case None =>
    case Some(i) =>
      FindIterFromStep(s, pat, k, i);
      var rest := FindIterFrom(s, pat, i + |pat|);
      FindIterFromOccurs(s, pat, i + |pat|);
      forall n | 0 <= n < |xs|
        ensures OccursAt(s, pat, xs[n])
      {
        if n > 0 {
          assert xs[n] == rest[n - 1];
        }
      }
  }

  /**
   The iteration lists its matches left to right, each starting past the end
   of the one before: matches never overlap.
   */
  lemma {:induction false} FindIterFromApart(s: seq<byte>, pat: seq<byte>, k: nat, m: nat, n: nat)
    requires |pat| > 0 && k <= |s|
    requires m < n < |FindIterFrom(s, pat, k)|
    ensures FindIterFrom(s, pat, k)[m] + |pat| <= FindIterFrom(s, pat, k)[n]
    decreases |s| - k
  {
    var xs := FindIterFrom(s, pat, k);
    var i := FindFrom(s, pat, k).value;
    var rest := FindIterFrom(s, pat, i + |pat|);
    FindIterFromStep(s, pat, k, i);
    assert xs[n] == rest[n - 1];
    if m > 0 {
      assert xs[m] == rest[m - 1];
      FindIterFromApart(s, pat, i + |pat|, m - 1, n - 1);
    } else {
      assert xs[m] == i;
    }
  }

  /**
   For a border-free pattern the non-overlapping iteration misses nothing:
   every occurrence at or after `k` is listed.
   */
  lemma {:induction false} FindIterFromComplete(s: seq<byte>, pat: seq<byte>, k: nat, j: nat)
    requires |pat| > 0 && k <= |s| && BorderFree(pat)
    requires k <= j && OccursAt(s, pat, j)
    ensures j in FindIterFrom(s, pat, k)
    decreases |s| - k
  {
    FindFromFirst(s, pat, k, j);
    var i := FindFrom(s, pat, k).value;
    FindIterFromStep(s, pat, k, i);
    if i < j {
      OccurrencesApart(s, pat, i, j);
      FindIterFromComplete(s, pat, i + |pat|, j);
    }
  }

  /** For a border-free pattern, `find_iter` lists exactly the occurrences. */
  lemma FindIterComplete(s: seq<byte>, pat: seq<byte>, j: nat)
    requires |pat| > 0 && BorderFree(pat)
    ensures j in FindIter(s, pat) <==> OccursAt(s, pat, j)
  {
    FindIterFromOccurs(s, pat, 0);
    if OccursAt(s, pat, j) {
      FindIterFromComplete(s, pat, 0, j);
    }
  }

  /**
   For a border-free pattern, the last element of the forward iteration is the
   last occurrence found by the reverse search: `find_iter(..).last()` and
   `rfind_iter(..).next()` agree.
   */
  lemma LastOfFindIterIsRFind(s: seq<byte>, pat: seq<byte>)
    requires |pat| > 0 && BorderFree(pat)
    ensures Last(FindIter(s, pat)) == RFind(s, pat)
  {
    var xs := FindIter(s, pat);
    FindIterFromOccurs(s, pat, 0);
    RFindLast(s, pat);
    RFindNone(s, pat);
    if xs != [] {
      assert OccursAt(s, pat, xs[|xs| - 1]);
    }
    match RFind(s, pat)
    case None =>
    case Some(j) =>
      FindIterComplete(s, pat, j);
      var n :| 0 <= n < |xs| && xs[n] == j;
      if n < |xs| - 1 {
        FindIterFromApart(s, pat, 0, n, |xs| - 1);
      }
  }

  lemma SuffixTrans<T>(a: seq<T>, b: seq<T>, c: seq<T>)
    requires IsSuffix(a, b) && IsSuffix(b, c)
    ensures IsSuffix(a, c)
  {
    assert c[|c| - |b|..][|b| - |a|..] == c[|c| - |a|..];
  }

  /** An occurrence inside a slice is an occurrence in the whole sequence. */
  lemma OccursInSlice(s: seq<byte>, pat: seq<byte>, lo: nat, hi: nat, j: int)
    requires lo <= hi <= |s| && OccursAt(s[lo..hi], pat, j)
    ensures OccursAt(s, pat, lo + j)
  {
    forall t | 0 <= t < |pat|
      ensures s[lo + j + t] == pat[t]
    {
      assert s[lo..hi][j + t] == s[lo + j + t];
    }
  }

  /** A pattern absent from a sequence is absent from every slice of it. */
  lemma NotContainsSlice(s: seq<byte>, pat: seq<byte>, lo: nat, hi: nat)
    requires lo <= hi <= |s| && !Contains(s, pat)
    ensures !Contains(s[lo..hi], pat)
  {
    forall j | 0 <= j <= hi - lo && OccursAt(s[lo..hi], pat, j)
      ensures OccursAt(s, pat, lo + j)
    {
      OccursInSlice(s, pat, lo, hi, j);
    }
  }

  lemma NotContainsSuffix(s: seq<byte>, t: seq<byte>, pat: seq<byte>)
    requires IsSuffix(t, s) && !Contains(s, pat)
    ensures !Contains(t, pat)
  {
    NotContainsSlice(s, pat, |s| - |t|, |s|);
    assert s[|s| - |t|..|s|] == t;
  }
}
