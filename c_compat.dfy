/**
 * The C header rewrite of the package recipe (conanfile.py:74-83 and
 * 198-214): a header's lines wrapped in an `extern "C"` guard for C++
 * callers, each indented by four spaces, with the `#pragma once` of its
 * import section hoisted above the guard.
 */
module CCompat {
  import opened Wrappers
  import opened Strings

  /** A line whose stripped text is the import-section end marker. */
  predicate IsImportEnd(l: string)
  {
    Strip(l) == "// Conan::ImportEnd"
  }

  predicate IsPragmaOnce(l: string)
  {
    StartsWith(l, "#pragma once")
  }

  /** The first import-end marker below `n`. */
  function FirstImportEnd(x: seq<string>, n: nat): (r: Option<nat>)
    requires n <= |x|
    ensures r.Some? ==> r.value < n
  {
    if n == 0 then None
    else if FirstImportEnd(x, n - 1).Some? then FirstImportEnd(x, n - 1)
    else if IsImportEnd(x[n - 1]) then Some(n - 1)
    else None
  }

  lemma {:induction false} FirstImportEndMeaning(x: seq<string>, n: nat)
    requires n <= |x|
    ensures FirstImportEnd(x, n).Some? ==> IsImportEnd(x[FirstImportEnd(x, n).value])
    ensures forall j :: 0 <= j < n && FirstImportEnd(x, n).None? ==> !IsImportEnd(x[j])
    ensures forall j :: 0 <= j < n && FirstImportEnd(x, n).Some? && j < FirstImportEnd(x, n).value ==> !IsImportEnd(x[j])
  {
    if n > 0 {
      FirstImportEndMeaning(x, n - 1);
      var prev := FirstImportEnd(x, n - 1);
      if prev.Some? {
        assert FirstImportEnd(x, n) == prev;
      } else if IsImportEnd(x[n - 1]) {
        assert FirstImportEnd(x, n) == Some(n - 1);
      } else {
        assert FirstImportEnd(x, n) == None;
      }
    }
  }

  /**
   * The length of the import section: every line up to and including the
   * first import-end marker, or the whole file without one.
   */
  function ContextEnd(x: seq<string>): (r: nat)
    ensures r <= |x|
  {
    match FirstImportEnd(x, |x|)
    case None => |x|
    case Some(e) => e + 1
  }

  /** The last `#pragma once` line below `n`. */
  function LastPragma(x: seq<string>, n: nat): (r: Option<nat>)
    requires n <= |x|
    ensures r.Some? ==> r.value < n && IsPragmaOnce(x[r.value])
    ensures r.Some? ==> forall j :: r.value < j < n ==> !IsPragmaOnce(x[j])
    ensures r.None? ==> forall j :: 0 <= j < n ==> !IsPragmaOnce(x[j])
  {
    if n == 0 then None
    else if IsPragmaOnce(x[n - 1]) then Some(n - 1)
    else LastPragma(x, n - 1)
  }

  /** What `_pragma_in_import` reports: the last `#pragma once` of the import section, or `(False, -1)`. */
  function PragmaSpec(x: seq<string>): (bool, int)
  {
    Reported(LastPragma(x, ContextEnd(x)))
  }

  /** A found index as `(True, i)`, nothing found as `(False, -1)`. */
  function Reported(p: Option<nat>): (bool, int)
  {
    match p
    case None => (false, -1)
    case Some(i) => (true, i as int)
  }

  /**
   * `_pragma_in_import`: scan the lines, remembering the last `#pragma
   * once`, and stop after the first import-end marker.
   */
  method PragmaInImport(x: seq<string>) returns (hasPragma: bool, idx: int)
    ensures (hasPragma, idx) == PragmaSpec(x)
    ensures hasPragma <==> idx >= 0
    ensures hasPragma ==> idx < |x| && IsPragmaOnce(x[idx])
  {
    hasPragma, idx := false, -1;
    var i := 0;
    while i < |x|
      invariant 0 <= i <= |x|
      invariant FirstImportEnd(x, i).None?
      invariant (hasPragma, idx) == Reported(LastPragma(x, i))
    {
      PragmaStep(x, i);
      if IsPragmaOnce(x[i]) {
        hasPragma := true;
        idx := i;
      }
      if IsImportEnd(x[i]) {
        ContextEndReached(x, i);
        i := i + 1;
        break;
      }
      i := i + 1;
    }
    if FirstImportEnd(x, i).None? {
      ContextEndReached(x, i);
    }
    assert ContextEnd(x) == i;
  }

  /** One more line scanned: the last pragma and the first marker below `i + 1`. */
  lemma PragmaStep(x: seq<string>, i: nat)
    requires i < |x|
    ensures Reported(LastPragma(x, i + 1)) == if IsPragmaOnce(x[i]) then (true, i) else Reported(LastPragma(x, i))
    ensures FirstImportEnd(x, i).None? && !IsImportEnd(x[i]) ==> FirstImportEnd(x, i + 1).None?
  {
  }

  /**
   * With no marker below `i`, the import section ends at `i` when the file
   * does, and just after line `i` when that line is the marker.
   */
  lemma ContextEndReached(x: seq<string>, i: nat)
    requires i <= |x| && FirstImportEnd(x, i).None?
    ensures i == |x| ==> ContextEnd(x) == |x|
    ensures i < |x| && IsImportEnd(x[i]) ==> ContextEnd(x) == i + 1
  {
    if i < |x| && IsImportEnd(x[i]) {
      assert FirstImportEnd(x, i + 1) == Some(i);
      FirstImportEndStable(x, i + 1, |x|);
    }
  }

  /** Once found below `n`, the first marker stays the first one for every longer prefix. */
  lemma {:induction false} FirstImportEndStable(x: seq<string>, n: nat, m: nat)
    requires n <= m <= |x|
    ensures FirstImportEnd(x, n).Some? ==> FirstImportEnd(x, m) == FirstImportEnd(x, n)
    ensures FirstImportEnd(x, m).None? ==> FirstImportEnd(x, n).None?
  {
    if n < m {
      FirstImportEndStable(x, n, m - 1);
    }
  }

  /** The first marker found below any bound is already the first one below its own successor. */
  lemma {:induction false} FirstImportEndReached(x: seq<string>, m: nat)
    requires m <= |x|
    ensures FirstImportEnd(x, m).Some? ==> FirstImportEnd(x, FirstImportEnd(x, m).value + 1) == FirstImportEnd(x, m)
  {
    if m > 0 && FirstImportEnd(x, m - 1).Some? {
      FirstImportEndReached(x, m - 1);
    }
  }

  /**
   * A line belongs to the import section exactly when no marker occurs
   * above it: the section is everything up to and including the first marker.
   */
  lemma ImportSectionLine(x: seq<string>, j: nat)
    requires j < |x|
    ensures FirstImportEnd(x, j).None? <==> j < ContextEnd(x)
  {
    FirstImportEndStable(x, j, |x|);
    FirstImportEndReached(x, |x|);
    if FirstImportEnd(x, |x|).Some? {
      var e := FirstImportEnd(x, |x|).value;
      if e < j {
        FirstImportEndStable(x, e + 1, j);
      }
    }
  }

  /**
   * The import section ends with the first `// Conan::ImportEnd` line, and
   * no line above it is one; without a marker the whole file is the import section.
   */
  lemma ContextEndMeaning(x: seq<string>)
    ensures ContextEnd(x) == |x| || (0 < ContextEnd(x) && IsImportEnd(x[ContextEnd(x) - 1]))
    ensures forall j :: 0 <= j < ContextEnd(x) - 1 ==> !IsImportEnd(x[j])
    ensures ContextEnd(x) == |x| && |x| > 0 ==> IsImportEnd(x[|x| - 1]) || forall j :: 0 <= j < |x| ==> !IsImportEnd(x[j])
  {
    FirstImportEndMeaning(x, |x|);
  }

  const GuardOpen: seq<string> := ["#ifdef __cplusplus\n", "extern \"C\" {\n", "#endif\n"]
  const GuardClose: seq<string> := ["#ifdef __cplusplus\n", "}\n", "#endif\n"]

  /** `['    ' + l for i, l in enumerate(x) if i != idx]`. */
  function Indented(x: seq<string>, idx: int): (r: seq<string>)
  {
    if |x| == 0 then []
    else Indented(x[..|x| - 1], idx) + (if |x| - 1 == idx then [] else ["    " + x[|x| - 1]])
  }

  /** The header's new lines: the opening guard, the indented body, the closing guard. */
  function CCompatible(x: seq<string>): seq<string>
  {
    var (hasPragma, idx) := PragmaSpec(x);
    var start := if hasPragma then ["#pragma once\n"] + GuardOpen else GuardOpen;
    start + Indented(x, idx) + GuardClose
  }

  /** The original lines without the one at `idx` (all of them when `idx` is not an index). */
  function Without(x: seq<string>, idx: int): seq<string>
  {
    if 0 <= idx < |x| then x[..idx] + x[idx + 1..] else x
  }

  function Unindent(ys: seq<string>): seq<string>
  {
    seq(|ys|, k requires 0 <= k < |ys| => if |ys[k]| >= 4 then ys[k][4..] else ys[k])
  }

  /** The body keeps every line but the hoisted one, in order, each indented by exactly four spaces. */
  lemma IndentedMeaning(x: seq<string>, idx: int)
    ensures Unindent(Indented(x, idx)) == Without(x, idx)
    ensures forall k :: 0 <= k < |Indented(x, idx)| ==> StartsWith(Indented(x, idx)[k], "    ")
  {
    IndentedKeeps(x, idx);
    IndentedIndents(x, idx);
  }

  lemma {:induction false} IndentedKeeps(x: seq<string>, idx: int)
    ensures Unindent(Indented(x, idx)) == Without(x, idx)
  {
    if |x| > 0 {
      var n := |x| - 1;
      IndentedKeeps(x[..n], idx);
      if n == idx {
        assert Without(x, idx) == x[..n];
        assert Without(x[..n], idx) == x[..n];
      } else {
        UnindentSnoc(Indented(x[..n], idx), x[n]);
        WithoutSnoc(x, idx);
      }
    }
  }

  lemma UnindentSnoc(front: seq<string>, line: string)
    ensures Unindent(front + ["    " + line]) == Unindent(front) + [line]
  {
    assert ("    " + line)[4..] == line;
  }

  lemma WithoutSnoc(x: seq<string>, idx: int)
    requires |x| > 0 && idx != |x| - 1
    ensures Without(x, idx) == Without(x[..|x| - 1], idx) + [x[|x| - 1]]
  {
    var n := |x| - 1;
    if 0 <= idx < n {
      assert x[idx + 1..] == x[idx + 1..n] + [x[n]];
      assert x[..n][..idx] == x[..idx] && x[..n][idx + 1..] == x[idx + 1..n];
    } else {
      assert x[..n] + [x[n]] == x;
    }
  }

  lemma {:induction false} IndentedIndents(x: seq<string>, idx: int)
    ensures forall k :: 0 <= k < |Indented(x, idx)| ==> StartsWith(Indented(x, idx)[k], "    ")
  {
    if |x| > 0 {
      var n := |x| - 1;
      IndentedIndents(x[..n], idx);
      if n != idx {
        assert StartsWith("    " + x[n], "    ");
      }
    }
  }

  lemma {:induction false} IndentedLength(x: seq<string>, idx: int)
    ensures |Indented(x, idx)| == if 0 <= idx < |x| then |x| - 1 else |x|
  {
    if |x| > 0 {
      IndentedLength(x[..|x| - 1], idx);
    }
  }

  /**
   * The rewritten header has six lines more than the original: the hoisted
   * `#pragma once` comes first exactly when the import section has one,
   * then the three-line opening guard, the body and the three-line closing
   * guard; the body de-indented is the original without the hoisted line.
   */
  lemma CCompatibleShape(x: seq<string>)
    ensures |CCompatible(x)| == |x| + 6
    ensures var r := CCompatible(x);
      && (r[0] == "#pragma once\n" <==> PragmaSpec(x).0)
      && r[|r| - 3..] == GuardClose
      && var off := if PragmaSpec(x).0 then 4 else 3;
         r[off - 3..off] == GuardOpen
         && Unindent(r[off..|r| - 3]) == Without(x, PragmaSpec(x).1)
  {
    var (hasPragma, idx) := PragmaSpec(x);
    IndentedLength(x, idx);
    IndentedMeaning(x, idx);
    if hasPragma {
      assert LastPragma(x, ContextEnd(x)).Some?;
    }
    var r := CCompatible(x);
    var body := Indented(x, idx);
    var off := if hasPragma then 4 else 3;
    assert r[off..|r| - 3] == body;
  }
}
