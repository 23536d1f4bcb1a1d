/**
 * The Python string operations both engines are built from: prefix tests,
 * substring search, `split`, `join`, `replace` and `strip`, on `seq<char>`.
 */
module Strings {
  import opened Wrappers

  predicate StartsWith(s: string, p: string)
  {
    |p| <= |s| && s[..|p|] == p
  }

  predicate EndsWith(s: string, p: string)
  {
    |p| <= |s| && s[|s| - |p|..] == p
  }

  /** `pat` occurs in `s` starting at index `i`. */
  predicate OccursAt(s: string, pat: string, i: int)
  {
    0 <= i && i + |pat| <= |s| && s[i..i + |pat|] == pat
  }

  /** Leftmost occurrence of `pat` in `s` (Python's `str.find`, with None for -1). */
  function Find(s: string, pat: string): (r: Option<nat>)
    ensures r.Some? ==> OccursAt(s, pat, r.value)
    ensures r.Some? ==> forall j :: 0 <= j < r.value ==> !OccursAt(s, pat, j)
    ensures r.None? ==> forall j :: !OccursAt(s, pat, j)
    decreases |s|
  {
    if |s| < |pat| then None
    else if s[..|pat|] == pat then Some(0)
    else
      var rest := Find(s[1..], pat);
      assert forall j :: j >= 1 ==> (OccursAt(s, pat, j) <==> OccursAt(s[1..], pat, j - 1)) by {
        forall j | j >= 1 ensures OccursAt(s, pat, j) <==> OccursAt(s[1..], pat, j - 1) {
          OccursSuffix(s, pat, 1, j - 1);
        }
      }
      match rest
      case None => None
      case Some(i) => Some(i + 1)
  }

  /** Python's `pat in s`. */
  predicate Contains(s: string, pat: string)
  {
    Find(s, pat).Some?
  }

  lemma OccursInPrefix(s: string, pat: string, n: nat, j: int)
    requires n <= |s| && OccursAt(s[..n], pat, j)
    ensures OccursAt(s, pat, j)
  {
    assert s[..n][j..j + |pat|] == s[j..j + |pat|];
  }

  lemma OccursInExtension(a: string, b: string, pat: string, j: int)
    requires OccursAt(a, pat, j)
    ensures OccursAt(a + b, pat, j)
  {
    assert (a + b)[j..j + |pat|] == a[j..j + |pat|];
  }

  lemma OccursSuffix(s: string, pat: string, k: nat, j: int)
    requires k <= |s|
    ensures OccursAt(s[k..], pat, j) <==> (j >= 0 && OccursAt(s, pat, j + k))
  {
    if 0 <= j && j + k + |pat| <= |s| {
      assert s[k..][j..j + |pat|] == s[j + k..j + k + |pat|];
    }
  }

  /** The last occurrence of `pat` starting in `[lo, n)`. */
  function LastOccurrence(s: string, pat: string, lo: nat, n: nat): (r: Option<nat>)
    ensures r.Some? ==> lo <= r.value < n && OccursAt(s, pat, r.value)
    ensures r.Some? ==> forall q :: r.value < q < n ==> !OccursAt(s, pat, q)
    ensures r.None? ==> forall q :: lo <= q < n ==> !OccursAt(s, pat, q)
    decreases n
  {
    if n <= lo then None
    else if OccursAt(s, pat, n - 1) then Some(n - 1)
    else LastOccurrence(s, pat, lo, n - 1)
  }

  /** Membership in a flattened list of lists. */
  lemma {:induction false} FlattenMember<T>(xss: seq<seq<T>>, x: T)
    ensures x in Flatten(xss) <==> exists k, j :: 0 <= k < |xss| && 0 <= j < |xss[k]| && xss[k][j] == x
    decreases |xss|
  {
    if |xss| > 0 {
      FlattenMember(xss[1..], x);
      if x in Flatten(xss[1..]) {
        var k, j :| 0 <= k < |xss[1..]| && 0 <= j < |xss[1..][k]| && xss[1..][k][j] == x;
        assert xss[k + 1][j] == x;
      }
      if exists k, j :: 0 <= k < |xss| && 0 <= j < |xss[k]| && xss[k][j] == x {
        var k, j :| 0 <= k < |xss| && 0 <= j < |xss[k]| && xss[k][j] == x;
        if k > 0 {
          assert xss[1..][k - 1][j] == x;
        }
      }
    }
  }

  /** An occurrence found in `a` is still the leftmost one once `a` is extended. */
  lemma FindExtend(a: string, b: string, pat: string)
    requires Find(a, pat).Some?
    ensures Find(a + b, pat) == Find(a, pat)
  {
    var i := Find(a, pat).value;
    OccursInExtension(a, b, pat, i);
    forall j | 0 <= j < i
      ensures !OccursAt(a + b, pat, j)
    {
      assert (a + b)[j..j + |pat|] == a[j..j + |pat|];
      assert !OccursAt(a, pat, j);
    }
    FindLeftmost(a + b, pat, i);
  }

  /** What Find reports on the suffix from `k`, stated on the whole text. */
  lemma FindSuffix(s: string, pat: string, k: nat)
    requires k <= |s|
    ensures Find(s[k..], pat).Some? ==> OccursAt(s, pat, k + Find(s[k..], pat).value)
    ensures Find(s[k..], pat).Some? ==>
      forall j :: k <= j < k + Find(s[k..], pat).value ==> !OccursAt(s, pat, j)
    ensures Find(s[k..], pat).None? ==> forall j :: k <= j ==> !OccursAt(s, pat, j)
  {
    forall j | k <= j ensures OccursAt(s, pat, j) <==> OccursAt(s[k..], pat, j - k) {
      OccursSuffix(s, pat, k, j - k);
    }
  }

  /** The leftmost occurrence is the one Find reports. */
  lemma FindLeftmost(s: string, pat: string, m: nat)
    requires OccursAt(s, pat, m)
    requires forall j :: 0 <= j < m ==> !OccursAt(s, pat, j)
    ensures Find(s, pat) == Some(m)
  {
  }

  /** If nothing occurs before index `k`, the search can start at `k`. */
  lemma FindSkip(s: string, pat: string, k: nat)
    requires k <= |s|
    requires forall j :: 0 <= j < k ==> !OccursAt(s, pat, j)
    ensures Find(s, pat) == match Find(s[k..], pat) { case None => None case Some(i) => Some(i + k) }
  {
    match Find(s[k..], pat)
    case None => FindSkipNone(s, pat, k);
    case Some(i) => FindSkipSome(s, pat, k, i);
  }

  lemma FindSkipNone(s: string, pat: string, k: nat)
    requires k <= |s|
    requires forall j :: 0 <= j < k ==> !OccursAt(s, pat, j)
    requires Find(s[k..], pat).None?
    ensures Find(s, pat).None?
  {
    forall j: nat ensures !OccursAt(s, pat, j) {
      if j >= k { OccursSuffix(s, pat, k, j - k); }
    }
  }

  lemma FindSkipSome(s: string, pat: string, k: nat, i: nat)
    requires k <= |s|
    requires forall j :: 0 <= j < k ==> !OccursAt(s, pat, j)
    requires Find(s[k..], pat) == Some(i)
    ensures Find(s, pat) == Some(i + k)
  {
    OccursSuffix(s, pat, k, i);
    forall j | 0 <= j < i + k ensures !OccursAt(s, pat, j) {
      if j >= k { OccursSuffix(s, pat, k, j - k); }
    }
    FindLeftmost(s, pat, i + k);
  }

  /** Python's `s.split(sep)`: the pieces between leftmost, non-overlapping separators. */
  function Split(s: string, sep: string): (r: seq<string>)
    requires |sep| > 0
    ensures |r| >= 1
    ensures Find(s, sep).None? ==> r == [s]
    ensures Find(s, sep).Some? ==> |r| >= 2
    ensures forall k :: 0 <= k < |r| ==> !Contains(r[k], sep)
    decreases |s|
  {
    match Find(s, sep)
    case None => [s]
    case Some(i) =>
      assert !Contains(s[..i], sep) by {
        forall j | OccursAt(s[..i], sep, j) ensures false {
          OccursInPrefix(s, sep, i, j);
        }
      }
      [s[..i]] + Split(s[i + |sep|..], sep)
  }

  /** One step of `split`: the piece before the first separator, then the split of the rest. */
  lemma SplitStep(s: string, sep: string, i: nat, front: string, rest: string)
    requires |sep| > 0 && Find(s, sep) == Some(i)
    requires front == s[..i] && rest == s[i + |sep|..]
    ensures Split(s, sep) == [front] + Split(rest, sep)
  {
  }

  /** Python's `sep.join(xs)`. */
  function Join(xs: seq<string>, sep: string): string
  {
    if |xs| == 0 then ""
    else if |xs| == 1 then xs[0]
    else xs[0] + sep + Join(xs[1..], sep)
  }

  /** Python's `''.join(xs)`, and the flattening of any list of lists. */
  function Flatten<T>(xss: seq<seq<T>>): seq<T>
  {
    if |xss| == 0 then [] else xss[0] + Flatten(xss[1..])
  }

  lemma {:induction false} FlattenAppend<T>(a: seq<seq<T>>, b: seq<seq<T>>)
    ensures Flatten(a + b) == Flatten(a) + Flatten(b)
    decreases |a|
  {
    if |a| == 0 {
      assert a + b == b;
    } else {
      assert (a + b)[1..] == a[1..] + b;
      FlattenAppend(a[1..], b);
    }
  }

  lemma FlattenSnoc<T>(a: seq<seq<T>>, y: seq<T>)
    ensures Flatten(a + [y]) == Flatten(a) + y
  {
    FlattenAppend(a, [y]);
    assert Flatten([y]) == y + Flatten([]);
  }

  lemma {:induction false} JoinAppend(a: seq<string>, b: seq<string>, sep: string)
    requires |a| > 0 && |b| > 0
    ensures Join(a + b, sep) == Join(a, sep) + sep + Join(b, sep)
    decreases |a|
  {
    if |a| == 1 {
      assert (a + b)[1..] == b;
    } else {
      JoinAppend(a[1..], b, sep);
      assert (a + b)[1..] == a[1..] + b;
    }
  }

  /** Python's `s.replace(target, with)`, which is `with.join(s.split(target))`. */
  function Replace(s: string, target: string, with: string): string
    requires |target| > 0
  {
    Join(Split(s, target), with)
  }

  /** Appending the next element of `want` to its prefix gives the longer prefix. */
  lemma PrefixSnoc<T>(c: seq<T>, want: seq<T>, k: nat, e: T)
    requires k < |want| && c == want[..k] && e == want[k]
    ensures c + [e] == want[..k + 1]
  {
  }

  lemma ConcatAssoc<T>(a: seq<T>, b: seq<T>, c: seq<T>)
    ensures a + (b + c) == (a + b) + c
  {
  }

  /** Joining a piece in front of a non-empty list puts one separator after it. */
  lemma JoinFront(x: string, ys: seq<string>, sep: string)
    requires |ys| > 0
    ensures Join([x] + ys, sep) == x + sep + Join(ys, sep)
  {
    assert ([x] + ys)[1..] == ys;
  }

  /** Splitting `a + b` when the first separator is the one found in `b`. */
  lemma SplitSkip(a: string, b: string, pat: string, i: nat)
    requires |pat| > 0 && Find(b, pat) == Some(i) && Find(a + b, pat) == Some(|a| + i)
    ensures Split(a + b, pat) == [a + b[..i]] + Split(b[i + |pat|..], pat)
  {
    var s := a + b;
    assert Find(s, pat) == Some(|a| + i);
    assert a + b[..i] == s[..|a| + i];
    assert b[i + |pat|..] == s[|a| + i + |pat|..];
    SplitStep(s, pat, |a| + i, a + b[..i], b[i + |pat|..]);
  }

  /** Replacing in `a + b` when the first separator is the one found in `b`. */
  lemma ReplaceSkipFound(a: string, b: string, pat: string, w: string, i: nat)
    requires |pat| > 0 && Find(b, pat) == Some(i) && Find(a + b, pat) == Some(|a| + i)
    ensures Replace(a + b, pat, w) == a + Replace(b, pat, w)
  {
    var tail := Split(b[i + |pat|..], pat);
    SplitSkip(a, b, pat, i);
    SplitStep(b, pat, i, b[..i], b[i + |pat|..]);
    calc {
      Replace(a + b, pat, w);
      Join([a + b[..i]] + tail, w);
      { JoinFront(a + b[..i], tail, w); }
      (a + b[..i]) + w + Join(tail, w);
      { ConcatAssoc(a, b[..i], w); }
      (a + (b[..i] + w)) + Join(tail, w);
      { ConcatAssoc(a, b[..i] + w, Join(tail, w)); }
      a + (b[..i] + w + Join(tail, w));
      { JoinFront(b[..i], tail, w); }
      a + Join([b[..i]] + tail, w);
    }
  }

  /** A replacement that finds nothing in `a` leaves `a` in front. */
  lemma ReplaceSkip(a: string, b: string, pat: string, w: string)
    requires |pat| > 0
    requires forall j :: 0 <= j < |a| ==> !OccursAt(a + b, pat, j)
    ensures Replace(a + b, pat, w) == a + Replace(b, pat, w)
  {
    var s := a + b;
    FindSkip(s, pat, |a|);
    assert s[|a|..] == b;
    match Find(b, pat)
    case None =>
    case Some(i) =>
      ReplaceSkipFound(a, b, pat, w, i);
  }

  /** The separator at the front is replaced first. */
  lemma ReplaceFront(b: string, pat: string, w: string)
    requires |pat| > 0
    ensures Replace(pat + b, pat, w) == w + Replace(b, pat, w)
  {
    var s := pat + b;
    assert OccursAt(s, pat, 0);
    assert s[|pat|..] == b;
    assert Split(s, pat) == [""] + Split(b, pat);
  }

  /** A replacement that finds nothing changes nothing. */
  lemma ReplaceAbsent(s: string, pat: string, w: string)
    requires |pat| > 0
    requires forall j :: !OccursAt(s, pat, j)
    ensures Replace(s, pat, w) == s
  {
  }

  /** Splitting and joining back with the same separator gives the text back. */
  lemma {:induction false} SplitThenJoin(s: string, sep: string)
    requires |sep| > 0
    ensures Join(Split(s, sep), sep) == s
    decreases |s|
  {
    match Find(s, sep)
    case None =>
    case Some(i) =>
      var rest := s[i + |sep|..];
      SplitThenJoin(rest, sep);
      SplitStep(s, sep, i, s[..i], rest);
      JoinFront(s[..i], Split(rest, sep), sep);
      assert s[i..i + |sep|] == sep;
      assert s == s[..i] + sep + rest;
  }

  /**
   * Joining pieces and splitting the result again gives the pieces back,
   * provided no piece holds the separator, even partly at its end.
   */
  lemma {:induction false} JoinThenSplit(xs: seq<string>, sep: string)
    requires |sep| > 0 && |xs| >= 1
    requires forall k :: 0 <= k < |xs| ==> Find(xs[k] + sep, sep) == Some(|xs[k]|)
    ensures Split(Join(xs, sep), sep) == xs
    decreases |xs|
  {
    var x := xs[0];
    if |xs| == 1 {
      forall j | OccursAt(x, sep, j) ensures false {
        OccursInExtension(x, sep, sep, j);
      }
    } else {
      JoinThenSplit(xs[1..], sep);
      JoinFront(x, xs[1..], sep);
      assert [x] + xs[1..] == xs;
      SplitFront(x, Join(xs[1..], sep), sep);
    }
  }

  /** A piece ending at the first separator is split off the front. */
  lemma SplitFront(x: string, rest: string, sep: string)
    requires |sep| > 0 && Find(x + sep, sep) == Some(|x|)
    ensures Split(x + sep + rest, sep) == [x] + Split(rest, sep)
  {
    var s := x + sep + rest;
    FindExtend(x + sep, rest, sep);
    assert s[..|x|] == x;
    assert s[|x| + |sep|..] == rest;
    SplitStep(s, sep, |x|, x, rest);
  }

  /** A piece with no occurrence of `sep` meets the condition of JoinThenSplit. */
  lemma FreeOfSeparator(x: string, sep: string)
    requires |sep| == 1 && !Contains(x, sep)
    ensures Find(x + sep, sep) == Some(|x|)
  {
    assert OccursAt(x + sep, sep, |x|);
    forall j | 0 <= j < |x| ensures !OccursAt(x + sep, sep, j) {
      if j + 1 <= |x| {
        assert (x + sep)[j..j + 1] == x[j..j + 1];
        assert !OccursAt(x, sep, j);
      }
    }
  }

  /** Splitting on a one-character separator distributes over text joined by it. */
  lemma {:induction false} SplitAppend(s: string, t: string, sep: string)
    requires |sep| == 1
    ensures Split(s + sep + t, sep) == Split(s, sep) + Split(t, sep)
    decreases |s|
  {
    match Find(s, sep)
    case None =>
      FreeOfSeparator(s, sep);
      SplitFront(s, t, sep);
    case Some(i) =>
      var rest := s[i + |sep|..];
      SplitAppend(rest, t, sep);
      SplitAppendFound(s, t, sep, i);
  }

  /** The step of SplitAppend: a separator in `s` is found first in `s + sep + t`. */
  lemma SplitAppendFound(s: string, t: string, sep: string, i: nat)
    requires |sep| == 1 && Find(s, sep) == Some(i)
    ensures Split(s + sep + t, sep) == [s[..i]] + Split(s[i + 1..] + sep + t, sep)
    ensures Split(s, sep) == [s[..i]] + Split(s[i + 1..], sep)
  {
    var whole := s + sep + t;
    assert whole == s + (sep + t);
    FindExtend(s, sep + t, sep);
    assert whole[..i] == s[..i];
    assert whole[i + 1..] == s[i + 1..] + sep + t;
    SplitStep(whole, sep, i, s[..i], s[i + 1..] + sep + t);
  }

  /** The characters Python's `str.strip()` removes (`str.isspace`). */
  predicate IsSpace(c: char)
  {
    || c == ' '
    || ('\t' <= c <= '\r')
    || ('\U{1C}' <= c <= '\U{1F}')
    || c == '\U{85}' || c == '\U{A0}' || c == '\U{1680}'
    || ('\U{2000}' <= c <= '\U{200A}')
    || c == '\U{2028}' || c == '\U{2029}' || c == '\U{202F}' || c == '\U{205F}' || c == '\U{3000}'
  }

  /** Python's `s.lstrip()`. */
  function LStrip(s: string): (r: string)
    ensures |r| <= |s|
  {
    if |s| > 0 && IsSpace(s[0]) then LStrip(s[1..]) else s
  }

  /** `lstrip` removes exactly the leading run of spaces. */
  lemma {:induction false} LStripMeaning(s: string)
    ensures LStrip(s) == s[|s| - |LStrip(s)|..]
    ensures forall j :: 0 <= j < |s| - |LStrip(s)| ==> IsSpace(s[j])
    ensures |LStrip(s)| > 0 ==> !IsSpace(LStrip(s)[0])
  {
    if |s| > 0 && IsSpace(s[0]) {
      LStripMeaning(s[1..]);
    }
  }

  /** Python's `s.rstrip()`. */
  function RStrip(s: string): (r: string)
    ensures |r| <= |s|
  {
    if |s| > 0 && IsSpace(s[|s| - 1]) then RStrip(s[..|s| - 1]) else s
  }

  /** `rstrip` removes exactly the trailing run of spaces. */
  lemma {:induction false} RStripMeaning(s: string)
    ensures RStrip(s) == s[..|RStrip(s)|]
    ensures forall j :: |RStrip(s)| <= j < |s| ==> IsSpace(s[j])
    ensures |RStrip(s)| > 0 ==> !IsSpace(RStrip(s)[|RStrip(s)| - 1])
  {
    if |s| > 0 && IsSpace(s[|s| - 1]) {
      RStripMeaning(s[..|s| - 1]);
    }
  }

  /** Python's `s.strip()`. */
  function Strip(s: string): string
  {
    LStrip(RStrip(s))
  }

  /** Stripping keeps a core that starts and ends with non-space characters. */
  lemma StripPadded(core: string, w: string)
    requires |core| > 0 && !IsSpace(core[0]) && !IsSpace(core[|core| - 1])
    requires forall j :: 0 <= j < |w| ==> IsSpace(w[j])
    ensures Strip(core + w) == core
  {
    var s := core + w;
    var r := RStrip(s);
    RStripMeaning(s);
    assert s[|core| - 1] == core[|core| - 1];
    assert forall j :: |core| <= j < |s| ==> s[j] == w[j - |core|];
    assert |r| == |core|;
    assert r == core;
  }

  /** Stripping removes white space on both sides of a core that starts and ends with non-space characters. */
  lemma StripAround(w0: string, core: string, w: string)
    requires |core| > 0 && !IsSpace(core[0]) && !IsSpace(core[|core| - 1])
    requires forall j :: 0 <= j < |w0| ==> IsSpace(w0[j])
    requires forall j :: 0 <= j < |w| ==> IsSpace(w[j])
    ensures Strip(w0 + core + w) == core
  {
    var front := w0 + core;
    assert front[|front| - 1] == core[|core| - 1];
    RStripPadded(front, w);
    LStripPadded(w0, core);
  }

  lemma RStripPadded(front: string, w: string)
    requires |front| > 0 && !IsSpace(front[|front| - 1])
    requires forall j :: 0 <= j < |w| ==> IsSpace(w[j])
    ensures RStrip(front + w) == front
  {
    var s := front + w;
    var r := RStrip(s);
    RStripMeaning(s);
    assert s[|front| - 1] == front[|front| - 1];
    assert forall j :: |front| <= j < |s| ==> s[j] == w[j - |front|];
    assert |r| == |front|;
  }

  lemma {:induction false} LStripPadded(w0: string, core: string)
    requires |core| > 0 && !IsSpace(core[0])
    requires forall j :: 0 <= j < |w0| ==> IsSpace(w0[j])
    ensures LStrip(w0 + core) == core
    decreases |w0|
  {
    if |w0| == 0 {
      assert w0 + core == core;
    } else {
      assert (w0 + core)[0] == w0[0];
      assert (w0 + core)[1..] == w0[1..] + core;
      LStripPadded(w0[1..], core);
    }
  }

  /** The first piece of `s.split(' ')`: the text up to the first space. */
  function FirstWord(s: string): (r: string)
    ensures StartsWith(s, r) && !Contains(r, " ")
  {
    var r := Split(s, " ")[0];
    SplitThenJoin(s, " ");
    assert s == r || StartsWith(s, r + " ");
    r
  }

  /** `s` lies in `t` with its elements in order (a subsequence). */
  predicate IsSubsequence<T(==)>(s: seq<T>, t: seq<T>)
    decreases |t|
  {
    if |s| == 0 then true
    else if |t| == 0 then false
    else if s[0] == t[0] then IsSubsequence(s[1..], t[1..])
    else IsSubsequence(s, t[1..])
  }

  /** Putting an element in front keeps a subsequence; so does dropping its first element. */
  lemma {:induction false} SubsequenceCons<T>(s: seq<T>, t: seq<T>, x: T)
    requires IsSubsequence(s, t)
    ensures IsSubsequence(s, [x] + t)
    ensures |s| > 0 ==> IsSubsequence(s[1..], t)
    decreases |t|
  {
    if |s| > 0 {
      assert |t| > 0;
      if s[0] == t[0] {
        SubsequenceCons(s[1..], t[1..], t[0]);
        assert [t[0]] + t[1..] == t;
      } else {
        SubsequenceCons(s, t[1..], t[0]);
        SubsequenceCons(s[1..], t[1..], t[0]);
        assert [t[0]] + t[1..] == t;
      }
      assert ([x] + t)[1..] == t;
    }
  }

  lemma {:induction false} SubsequenceReflexive<T>(s: seq<T>)
    ensures IsSubsequence(s, s)
  {
    if |s| > 0 {
      SubsequenceReflexive(s[1..]);
    }
  }

  /** Subsequences of two parts combine into a subsequence of the whole. */
  lemma {:induction false} SubsequenceConcat<T>(s1: seq<T>, t1: seq<T>, s2: seq<T>, t2: seq<T>)
    requires IsSubsequence(s1, t1) && IsSubsequence(s2, t2)
    ensures IsSubsequence(s1 + s2, t1 + t2)
    decreases |t1|
  {
    if |t1| == 0 {
      assert s1 + s2 == s2 && t1 + t2 == t2;
    } else if |s1| == 0 {
      SubsequenceConcat(s1, t1[1..], s2, t2);
      SubsequenceCons(s1 + s2, t1[1..] + t2, t1[0]);
      assert [t1[0]] + (t1[1..] + t2) == t1 + t2;
    } else {
      assert (t1 + t2)[1..] == t1[1..] + t2;
      if s1[0] == t1[0] {
        SubsequenceConcat(s1[1..], t1[1..], s2, t2);
        assert (s1 + s2)[1..] == s1[1..] + s2;
      } else {
        SubsequenceConcat(s1, t1[1..], s2, t2);
      }
    }
  }
}
