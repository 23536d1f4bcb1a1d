/**
 * Dotted version comparison of the documentation preprocessor
 * (docs/build.py:122-136): both versions are split on `.`, each component
 * read as an integer, both lists padded with zeros to three components, and
 * the lists compared pairwise up to the shorter one.
 */
module Versions {
  import opened Wrappers
  import opened Strings

  predicate IsDigit(c: char)
  {
    '0' <= c <= '9'
  }

  predicate IsDigits(s: string)
  {
    |s| > 0 && forall i :: 0 <= i < |s| ==> IsDigit(s[i])
  }

  /** The decimal value of a string of digits. */
  function DigitsValue(s: string): (n: nat)
    requires IsDigits(s)
    ensures |s| == 1 ==> n == (s[0] - '0') as nat
  {
    if |s| == 1 then (s[0] - '0') as nat
    else DigitsValue(s[..|s| - 1]) * 10 + (s[|s| - 1] - '0') as nat
  }

  /**
   * A version `int()` reads without error: every component between dots is
   * a string of decimal digits, surrounding whitespace allowed.
   */
  predicate WellFormedVersion(v: string)
  {
    var parts := Split(v, ".");
    forall k :: 0 <= k < |parts| ==> IsDigits(Strip(parts[k]))
  }

  /** `[int(_) for _ in v.split('.')]`. */
  function ParseVersion(v: string): (r: seq<nat>)
    requires WellFormedVersion(v)
    ensures |r| == |Split(v, ".")| && |r| >= 1
  {
    var parts := Split(v, ".");
    seq(|parts|, k requires 0 <= k < |parts| => DigitsValue(Strip(parts[k])))
  }

  /** The list padded with zeros up to three components. */
  function Pad3(xs: seq<nat>): (r: seq<nat>)
    ensures |r| == if |xs| < 3 then 3 else |xs|
    ensures r[..|xs|] == xs
    ensures forall i :: |xs| <= i < |r| ==> r[i] == 0
    decreases 3 - |xs|
  {
    if |xs| < 3 then
      var r := Pad3(xs + [0]);
      assert r[..|xs|] == (r[..|xs| + 1])[..|xs|];
      r
    else xs
  }

  /**
   * The comparison loop: the first pair that differs decides; when the
   * shorter list runs out, the answer is `True`.
   */
  function ZipLe(a: seq<nat>, b: seq<nat>): bool
  {
    if |a| == 0 || |b| == 0 then true
    else if a[0] < b[0] then true
    else if a[0] > b[0] then false
    else ZipLe(a[1..], b[1..])
  }

  /** Lexicographic order on lists of the same length. */
  predicate LexLe(a: seq<nat>, b: seq<nat>)
    requires |a| == |b|
  {
    a == b || exists i :: 0 <= i < |a| && a[..i] == b[..i] && a[i] < b[i]
  }

  /** `_ver_should_include(x, ref_ver)` as a value. */
  predicate VersionLe(x: string, refVer: string)
    requires WellFormedVersion(x) && WellFormedVersion(refVer)
  {
    ZipLe(Pad3(ParseVersion(x)), Pad3(ParseVersion(refVer)))
  }

  /** On lists of equal length the comparison loop is lexicographic order. */
  lemma {:induction false} ZipLeIsLex(a: seq<nat>, b: seq<nat>)
    requires |a| == |b|
    ensures ZipLe(a, b) <==> LexLe(a, b)
  {
    if |a| > 0 {
      ZipLeIsLex(a[1..], b[1..]);
      if ZipLe(a, b) && a[0] == b[0] && a[1..] != b[1..] {
        var i :| 0 <= i < |a| - 1 && a[1..][..i] == b[1..][..i] && a[1..][i] < b[1..][i];
        assert a[..i + 1] == [a[0]] + a[1..][..i];
        assert b[..i + 1] == [b[0]] + b[1..][..i];
      }
      if ZipLe(a, b) && a[0] == b[0] && a[1..] == b[1..] {
        assert a == [a[0]] + a[1..] && b == [b[0]] + b[1..];
      }
      if ZipLe(a, b) && a[0] < b[0] {
        assert a[..0] == b[..0];
      }
      if LexLe(a, b) && a != b {
        var i :| 0 <= i < |a| && a[..i] == b[..i] && a[i] < b[i];
        if i > 0 {
          assert a[0] == a[..i][0] && b[0] == b[..i][0];
          assert a[1..][..i - 1] == a[1..i] == a[..i][1..];
          assert b[1..][..i - 1] == b[1..i] == b[..i][1..];
          assert LexLe(a[1..], b[1..]);
        }
      }
      if a == b {
        assert a[1..] == b[1..];
      }
    }
  }

  lemma {:induction false} LexLeTrans(a: seq<nat>, b: seq<nat>, c: seq<nat>)
    requires |a| == |b| == |c| && LexLe(a, b) && LexLe(b, c)
    ensures LexLe(a, c)
  {
    if a != b && b != c {
      var i :| 0 <= i < |a| && a[..i] == b[..i] && a[i] < b[i];
      var j :| 0 <= j < |b| && b[..j] == c[..j] && b[j] < c[j];
      var m := if i < j then i else j;
      assert a[..m] == c[..m] by {
        assert a[..m] == a[..i][..m] && b[..m] == b[..i][..m];
        assert b[..m] == b[..j][..m] && c[..m] == c[..j][..m];
      }
      if i < j {
        assert b[i] == b[..j][i] == c[..j][i];
      } else if j < i {
        assert a[j] == a[..i][j] == b[..i][j];
      }
      assert a[m] < c[m];
    }
  }

  lemma {:induction false} LexLeTotal(a: seq<nat>, b: seq<nat>)
    requires |a| == |b|
    ensures LexLe(a, b) || LexLe(b, a)
    ensures LexLe(a, b) && LexLe(b, a) ==> a == b
  {
    if |a| > 0 {
      LexLeTotal(a[1..], b[1..]);
      ZipLeIsLex(a, b);
      ZipLeIsLex(b, a);
      ZipLeIsLex(a[1..], b[1..]);
      ZipLeIsLex(b[1..], a[1..]);
      if a[0] == b[0] && a[1..] == b[1..] {
        assert a == [a[0]] + a[1..] && b == [b[0]] + b[1..];
      }
    }
  }

  /** A version of at most three components. */
  predicate Short(v: string)
    requires WellFormedVersion(v)
  {
    |ParseVersion(v)| <= 3
  }

  /**
   * Up to three components the check is the lexicographic order of the
   * zero-padded integer triples.
   */
  lemma VersionLeIsLex(x: string, r: string)
    requires WellFormedVersion(x) && WellFormedVersion(r) && Short(x) && Short(r)
    ensures VersionLe(x, r) <==> LexLe(Pad3(ParseVersion(x)), Pad3(ParseVersion(r)))
  {
    ZipLeIsLex(Pad3(ParseVersion(x)), Pad3(ParseVersion(r)));
  }

  /** Equal versions are included. */
  lemma VersionLeReflexive(x: string)
    requires WellFormedVersion(x)
    ensures VersionLe(x, x)
  {
    var a := Pad3(ParseVersion(x));
    ZipLeIsLex(a, a);
  }

  /** A component of digits holds no dot and no surrounding whitespace. */
  lemma DigitComponent(c: string)
    requires IsDigits(c)
    ensures Find(c + ".", ".") == Some(|c|) && Strip(c) == c
  {
    FreeOfSeparator(c, ".");
    assert c + "" == c;
    StripPadded(c, "");
  }

  /** A dotted version written from digit components reads back as their values. */
  lemma ParseJoined(cs: seq<string>)
    requires |cs| >= 1 && forall k :: 0 <= k < |cs| ==> IsDigits(cs[k])
    ensures WellFormedVersion(Join(cs, "."))
    ensures ParseVersion(Join(cs, ".")) == seq(|cs|, k requires 0 <= k < |cs| => DigitsValue(cs[k]))
  {
    forall k | 0 <= k < |cs| ensures Find(cs[k] + ".", ".") == Some(|cs[k]|) && Strip(cs[k]) == cs[k] {
      DigitComponent(cs[k]);
    }
    JoinThenSplit(cs, ".");
    ParseOfParts(Join(cs, "."), cs);
  }

  /** A version whose pieces are bare digit strings reads as their values. */
  lemma ParseOfParts(v: string, cs: seq<string>)
    requires Split(v, ".") == cs
    requires forall k :: 0 <= k < |cs| ==> IsDigits(cs[k]) && Strip(cs[k]) == cs[k]
    ensures WellFormedVersion(v)
    ensures ParseVersion(v) == seq(|cs|, k requires 0 <= k < |cs| => DigitsValue(cs[k]))
  {
  }

  /** A dotted version written from digit components reads back as the given values. */
  lemma ParseJoinedValues(cs: seq<string>, vs: seq<nat>)
    requires |cs| >= 1 && |vs| == |cs|
    requires forall k :: 0 <= k < |cs| ==> IsDigits(cs[k]) && DigitsValue(cs[k]) == vs[k]
    ensures WellFormedVersion(Join(cs, ".")) && ParseVersion(Join(cs, ".")) == vs
  {
    ParseJoined(cs);
  }

  /**
   * Padding is what the gate does to a short version: writing its missing
   * component as `.0` changes neither side of the check.
   */
  lemma ShortFormPadded(x: string, r: string)
    requires WellFormedVersion(x) && WellFormedVersion(r) && |ParseVersion(x)| < 3
    ensures WellFormedVersion(x + ".0") && ParseVersion(x + ".0") == ParseVersion(x) + [0]
    ensures VersionLe(x, r) == VersionLe(x + ".0", r)
    ensures VersionLe(r, x) == VersionLe(r, x + ".0")
  {
    SplitAppend(x, "0", ".");
    assert x + ".0" == x + "." + "0";
    assert "0"[..1] == "0";
    assert Split("0", ".") == ["0"];
    DigitComponent("0");
    var parts := Split(x, ".");
    assert Split(x + ".0", ".") == parts + ["0"];
    assert WellFormedVersion(x + ".0");
    assert ParseVersion(x + ".0") == ParseVersion(x) + [0];
    assert Pad3(ParseVersion(x)) == Pad3(ParseVersion(x) + [0]);
  }

  /**
   * Gating is monotone in the target up to three components: a version
   * included under `r1` is included under any `r2` at least `r1`.
   */
  lemma VersionGateMonotone(x: string, r1: string, r2: string)
    requires WellFormedVersion(x) && WellFormedVersion(r1) && WellFormedVersion(r2)
    requires Short(x) && Short(r1) && Short(r2)
    requires VersionLe(x, r1) && VersionLe(r1, r2)
    ensures VersionLe(x, r2)
  {
    VersionLeIsLex(x, r1);
    VersionLeIsLex(r1, r2);
    VersionLeIsLex(x, r2);
    LexLeTrans(Pad3(ParseVersion(x)), Pad3(ParseVersion(r1)), Pad3(ParseVersion(r2)));
  }

  /** Up to three components any two versions are comparable. */
  lemma VersionLeTotal(x: string, r: string)
    requires WellFormedVersion(x) && WellFormedVersion(r) && Short(x) && Short(r)
    ensures VersionLe(x, r) || VersionLe(r, x)
    ensures VersionLe(x, r) && VersionLe(r, x) ==> Pad3(ParseVersion(x)) == Pad3(ParseVersion(r))
  {
    VersionLeIsLex(x, r);
    VersionLeIsLex(r, x);
    LexLeTotal(Pad3(ParseVersion(x)), Pad3(ParseVersion(r)));
  }

  /**
   * Beyond three components the pairwise loop stops at the shorter list, so
   * the check is not transitive: 1.2.3.9 passes under 1.2.3, and 1.2.3
   * under 1.2.3.0, yet 1.2.3.9 fails under 1.2.3.0.
   */
  lemma FourComponentsNotTransitive()
    ensures WellFormedVersion("1.2.3.9") && WellFormedVersion("1.2.3") && WellFormedVersion("1.2.3.0")
    ensures VersionLe("1.2.3.9", "1.2.3") && VersionLe("1.2.3", "1.2.3.0")
    ensures !VersionLe("1.2.3.9", "1.2.3.0")
  {
    Parse1239();
    Parse123();
    Parse1230();
    ZipBeyondThree();
  }

  /** The comparison loop on the padded lists of the counterexample. */
  lemma ZipBeyondThree()
    ensures ZipLe(Pad3([1, 2, 3, 9]), Pad3([1, 2, 3]))
    ensures ZipLe(Pad3([1, 2, 3]), Pad3([1, 2, 3, 0]))
    ensures !ZipLe(Pad3([1, 2, 3, 9]), Pad3([1, 2, 3, 0]))
  {
    var a: seq<nat> := [1, 2, 3, 9];
    var b: seq<nat> := [1, 2, 3];
    var c: seq<nat> := [1, 2, 3, 0];
    assert Pad3(a) == a && Pad3(b) == b && Pad3(c) == c;
    assert a[1..][1..][1..] == [9] && b[1..][1..][1..] == [] && c[1..][1..][1..] == [0];
  }

  lemma Parse1239()
    ensures WellFormedVersion("1.2.3.9") && ParseVersion("1.2.3.9") == [1, 2, 3, 9]
  {
    var cs := ["1", "2", "3", "9"];
    assert DigitsValue("1") == 1 && DigitsValue("2") == 2 && DigitsValue("3") == 3 && DigitsValue("9") == 9;
    ParseJoinedValues(cs, [1, 2, 3, 9]);
    Join1239();
  }

  lemma Join1239()
    ensures Join(["1", "2", "3", "9"], ".") == "1.2.3.9"
  {
    var cs := ["1", "2", "3", "9"];
    assert Join(cs[2..], ".") == "3.9";
  }

  lemma Parse123()
    ensures WellFormedVersion("1.2.3") && ParseVersion("1.2.3") == [1, 2, 3]
  {
    var cs := ["1", "2", "3"];
    assert DigitsValue("1") == 1 && DigitsValue("2") == 2 && DigitsValue("3") == 3;
    ParseJoinedValues(cs, [1, 2, 3]);
    Join123();
  }

  lemma Join123()
    ensures Join(["1", "2", "3"], ".") == "1.2.3"
  {
    var cs := ["1", "2", "3"];
    assert Join(cs[1..], ".") == "2.3";
  }

  lemma Parse1230()
    ensures WellFormedVersion("1.2.3.0") && ParseVersion("1.2.3.0") == [1, 2, 3, 0]
  {
    var cs := ["1", "2", "3", "0"];
    assert DigitsValue("1") == 1 && DigitsValue("2") == 2 && DigitsValue("3") == 3 && DigitsValue("0") == 0;
    ParseJoinedValues(cs, [1, 2, 3, 0]);
    Join1230();
  }

  lemma Join1230()
    ensures Join(["1", "2", "3", "0"], ".") == "1.2.3.0"
  {
    var cs := ["1", "2", "3", "0"];
    assert Join(cs[2..], ".") == "3.0";
  }

  /**
   * `_ver_should_include`: whether the object version `x` is at most the
   * target `refVer`.
   */
  method VerShouldInclude(x: string, refVer: string) returns (res: bool)
    requires WellFormedVersion(x) && WellFormedVersion(refVer)
    ensures res == VersionLe(x, refVer)
  {
    var xs := ParseVersion(x);
    var rs := ParseVersion(refVer);
    while |xs| < 3
      invariant Pad3(xs) == Pad3(ParseVersion(x))
      decreases 3 - |xs|
    {
      xs := xs + [0];
    }
    while |rs| < 3
      invariant Pad3(rs) == Pad3(ParseVersion(refVer))
      decreases 3 - |rs|
    {
      rs := rs + [0];
    }
    var n := if |xs| < |rs| then |xs| else |rs|;
    for i := 0 to n
      invariant ZipLe(xs, rs) == ZipLe(xs[i..], rs[i..])
    {
      var a, b := xs[i], rs[i];
      assert xs[i..][1..] == xs[i + 1..] && rs[i..][1..] == rs[i + 1..];
      if a < b {
        return true;
      } else if a > b {
        return false;
      }
    }
    res := true;
  }
}
