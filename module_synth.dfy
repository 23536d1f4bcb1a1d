/**
 * The C++20 module synthesiser of the package recipe (conanfile.py:12-17,
 * 164-177 and 260-286): a header and its source file are each split at
 * `// Conan::ImportEnd`; whitelisted `#include` lines of the import section
 * become `import` declarations, the others stay in the global module
 * fragment, and the tagged objects of the bodies form the module purview.
 */
module ModuleSynth {
  import opened Wrappers
  import opened Strings
  import opened ExportTags
  import opened CCompat

  /** The standard headers that may be imported as header units. */
  const StdNames: seq<string> := [
    "algorithm", "array", "chrono", "cmath", "functional", "memory", "optional",
    "string", "string_view", "utility", "vector", "deque", "forward_list", "list",
    "map", "queue", "set", "stack", "unordered_map", "unordered_set", "atomic",
    "thread", "mutex", "future", "iostream", "fstream", "sstream", "format", "ranges",
    "mdspan", "flat_map", "flat_set"]

  /** `white_list`: every standard name in angle brackets. */
  const WhiteList: set<string> := set n | n in StdNames :: "<" + n + ">"

  predicate NameChar(c: char)
  {
    ('a' <= c <= 'z') || c == '_'
  }

  predicate IsName(n: string)
  {
    |n| > 0 && forall j :: 0 <= j < |n| ==> NameChar(n[j])
  }

  /** Every standard name is lower-case letters and underscores. */
  lemma StdNamesAreNames()
    ensures forall i :: 0 <= i < |StdNames| ==> IsName(StdNames[i])
  {
    StdNamesAreNamesBelow();
    StdNamesAreNamesAbove();
  }

  lemma StdNamesAreNamesBelow()
    ensures forall i :: 0 <= i < 16 ==> IsName(StdNames[i])
  {
  }

  lemma StdNamesAreNamesAbove()
    ensures forall i :: 16 <= i < |StdNames| ==> IsName(StdNames[i])
  {
  }

  /** The name inside a whitelisted `<name>` is a standard name, so it holds no `#`. */
  lemma WhiteListedName(n: string)
    requires "<" + n + ">" in WhiteList
    ensures n in StdNames && IsName(n)
    ensures forall j :: 0 <= j < |n| ==> n[j] != '#'
  {
    var s :| s in StdNames && "<" + s + ">" == "<" + n + ">";
    assert s == ("<" + s + ">")[1..|s| + 1];
    assert n == ("<" + n + ">")[1..|n| + 1];
    StdNamesAreNames();
    var i :| 0 <= i < |StdNames| && StdNames[i] == s;
  }

  /** `_is_valid_import`: an `#include ` line whose stripped remainder is importable. */
  predicate IsValidImport(x: string, c: seq<string>)
  {
    StartsWith(x, "#include ") && Strip(x[9..]) in c
  }

  /** The whitelisted standard modules, in configuration order. */
  function StdEntries(std: seq<string>): seq<string>
  {
    if |std| == 0 then []
    else (if "<" + std[0] + ">" in WhiteList then ["<" + std[0] + ">"] else []) + StdEntries(std[1..])
  }

  /** `_determine_importable_modules`: the whitelisted standard modules, then one entry per user module. */
  function ImportableModules(std: seq<string>, user: seq<string>): seq<string>
  {
    StdEntries(std) + seq(|user|, k requires 0 <= k < |user| => "\"" + user[k] + ".hpp\";")
  }

  lemma {:induction false} StdEntriesMembers(std: seq<string>, e: string)
    ensures e in StdEntries(std) <==> e in WhiteList && exists k :: 0 <= k < |std| && e == "<" + std[k] + ">"
  {
    if |std| > 0 {
      StdEntriesMembers(std[1..], e);
      if e in StdEntries(std[1..]) {
        var k :| 0 <= k < |std[1..]| && e == "<" + std[1..][k] + ">";
        assert e == "<" + std[k + 1] + ">";
      }
      if e in WhiteList && e == "<" + std[0] + ">" {
        assert e in StdEntries(std);
      }
      if e in WhiteList && exists k :: 0 < k < |std| && e == "<" + std[k] + ">" {
        var k :| 0 < k < |std| && e == "<" + std[k] + ">";
        assert e == "<" + std[1..][k - 1] + ">";
      }
    }
  }

  /**
   * An entry is importable exactly when it is a configured standard module
   * that the whitelist admits, or a configured user module written as
   * `"name.hpp";`.
   */
  lemma ImportableMembers(std: seq<string>, user: seq<string>, e: string)
    ensures e in ImportableModules(std, user) <==>
      || (e in WhiteList && exists k :: 0 <= k < |std| && e == "<" + std[k] + ">")
      || (exists k :: 0 <= k < |user| && e == "\"" + user[k] + ".hpp\";")
  {
    StdEntriesMembers(std, e);
    var users := seq(|user|, k requires 0 <= k < |user| => "\"" + user[k] + ".hpp\";");
    assert ImportableModules(std, user) == StdEntries(std) + users;
    if exists k :: 0 <= k < |user| && e == "\"" + user[k] + ".hpp\";" {
      var k :| 0 <= k < |user| && e == "\"" + user[k] + ".hpp\";";
      assert users[k] == e;
    }
  }

  /** `#include "name.hpp"`, with any blanks before the entry and the line's trailing white space after it. */
  function QuotedInclude(u: string, w0: string, w: string): string
  {
    "#include " + w0 + ("\"" + u + ".hpp\"") + w
  }

  /**
   * As written, a user module is never imported: the stripped remainder of
   * `#include "name.hpp"` ends with a quote, while every user entry ends
   * with `;` and every standard entry starts with `<`.
   */
  lemma QuotedIncludeNeverValid(std: seq<string>, user: seq<string>, u: string, w0: string, w: string)
    requires AllSpace(w0) && AllSpace(w)
    ensures !IsValidImport(QuotedInclude(u, w0, w), ImportableModules(std, user))
  {
    var l := QuotedInclude(u, w0, w);
    var core := "\"" + u + ".hpp\"";
    assert l[9..] == w0 + core + w;
    StripAround(w0, core, w);
    ImportableMembers(std, user, core);
    forall k | 0 <= k < |std| ensures core != "<" + std[k] + ">" {
      assert core[0] != ("<" + std[k] + ">")[0];
    }
    forall k | 0 <= k < |user| ensures core != "\"" + user[k] + ".hpp\";" {
      var e := "\"" + user[k] + ".hpp\";";
      assert core[|core| - 1] != e[|e| - 1];
    }
  }

  /** The evidently intended entries: user modules as `"name.hpp"`, without the `;`. */
  function IntendedModules(std: seq<string>, user: seq<string>): seq<string>
  {
    StdEntries(std) + seq(|user|, k requires 0 <= k < |user| => "\"" + user[k] + ".hpp\"")
  }

  /** With the intended entries every configured user module's quoted include is importable. */
  lemma QuotedIncludeValid(std: seq<string>, user: seq<string>, k: nat, w0: string, w: string)
    requires k < |user|
    requires AllSpace(w0) && AllSpace(w)
    ensures IsValidImport(QuotedInclude(user[k], w0, w), IntendedModules(std, user))
  {
    var core := "\"" + user[k] + ".hpp\"";
    assert QuotedInclude(user[k], w0, w)[9..] == w0 + core + w;
    StripAround(w0, core, w);
    var c := IntendedModules(std, user);
    assert c[|StdEntries(std)| + k] == core;
  }

  /** The comment that replaces an imported include line. */
  const EscapePrefix: string := "// Conan::Escape "

  /** Python's `ctx[1:-1]`: the import section without its first and last line. */
  function Inner(ctx: seq<string>): (r: seq<string>)
    ensures |ctx| >= 2 ==> |r| == |ctx| - 2
  {
    if |ctx| < 2 then [] else ctx[1..|ctx| - 1]
  }

  /** An importable include line is commented out; every other line stays. */
  function Rewrite(l: string, c: seq<string>): string
  {
    if IsValidImport(l, c) then EscapePrefix + l else l
  }

  function RewriteAll(ls: seq<string>, c: seq<string>): (r: seq<string>)
    ensures |r| == |ls|
  {
    seq(|ls|, k requires 0 <= k < |ls| => Rewrite(ls[k], c))
  }

  /** The import declaration for a commented-out include: the text after its last `#include `. */
  function ImportOf(t: string): string
  {
    var pieces := Split(t, "#include ");
    "import " + Strip(pieces[|pieces| - 1]) + ";\n"
  }

  /** One import declaration per commented-out line, in order. */
  function Extras(tmp: seq<string>): seq<string>
  {
    if |tmp| == 0 then []
    else (if StartsWith(tmp[0], EscapePrefix) then [ImportOf(tmp[0])] else []) + Extras(tmp[1..])
  }

  function StripAll(xs: seq<string>): (r: seq<string>)
    ensures |r| == |xs|
  {
    seq(|xs|, k requires 0 <= k < |xs| => Strip(xs[k]))
  }

  /** What `_module_elements` returns for one file. */
  datatype Elements = Elements(
    intro: seq<string>, inc: seq<string>, split: seq<string>, extra: seq<string>, obj: seq<string>)

  /**
   * The elements of file `x` of module `m`: the stripped import section
   * (minus its first and last line) with importable includes commented out,
   * their import declarations, and the body's `@exporter` objects followed
   * by its `@attacher` objects.
   */
  function ElementsOf(x: seq<string>, m: string, c: seq<string>): Elements
  {
    var tmp := RewriteAll(Inner(x[..ContextEnd(x)]), c);
    var other := x[ContextEnd(x)..];
    Elements(
      StripAll(["module;\n"]), StripAll(tmp), StripAll(["export module " + m + ";\n"]),
      StripAll(Extras(tmp)), ExportObjects(other, Exporter) + ExportObjects(other, Attacher))
  }

  /** The lines of `x` whose flag is `keep`, in order. */
  function Select(x: seq<string>, flags: seq<bool>, keep: bool): seq<string>
    requires |flags| == |x|
  {
    if |x| == 0 then []
    else (if flags[0] == keep then [x[0]] else []) + Select(x[1..], flags[1..], keep)
  }

  /** Flags that hold exactly below `n` select the first `n` lines, and their negation the rest. */
  lemma {:induction false} SelectPrefix(x: seq<string>, flags: seq<bool>, n: nat)
    requires |flags| == |x| && n <= |x|
    requires forall j :: 0 <= j < |x| ==> (flags[j] <==> j < n)
    ensures Select(x, flags, true) == x[..n]
    ensures Select(x, flags, false) == x[n..]
  {
    if |x| > 0 {
      var n' := if n > 0 then n - 1 else 0;
      assert forall j :: 0 <= j < |x| - 1 ==> flags[1..][j] == flags[j + 1];
      SelectPrefix(x[1..], flags[1..], n');
      if n > 0 {
        assert x[..n] == [x[0]] + x[1..][..n'];
        assert x[n..] == x[1..][n'..];
      } else {
        assert x[1..][n'..] == x[1..];
      }
    }
  }

  /** `_module_elements`: flag the import section, split the file, rewrite and collect. */
  method ModuleElements(x: seq<string>, m: string, c: seq<string>) returns (e: Elements)
    ensures e == ElementsOf(x, m, c)
  {
    var flag := true;
    var isImportLines: seq<bool> := [];
    ghost var want := seq(|x|, j requires 0 <= j < |x| => j < ContextEnd(x));
    for i := 0 to |x|
      invariant isImportLines == want[..i]
      invariant flag <==> FirstImportEnd(x, i).None?
    {
      assert flag == want[i] by { ImportSectionLine(x, i); }
      PrefixSnoc(isImportLines, want, i, flag);
      isImportLines := isImportLines + [flag];
      if Strip(x[i]) == "// Conan::ImportEnd" {
        flag := false;
      }
    }
    assert isImportLines == want;
    var importContext := Select(x, isImportLines, true);
    var otherContext := Select(x, isImportLines, false);
    assert importContext == x[..ContextEnd(x)] && otherContext == x[ContextEnd(x)..] by {
      SelectPrefix(x, isImportLines, ContextEnd(x));
    }
    var tmp := RewriteAll(Inner(importContext), c);
    var extra := Extras(tmp);
    var exporters := GetExportObjects(otherContext, Exporter);
    var attachers := GetExportObjects(otherContext, Attacher);
    e := Elements(
      StripAll(["module;\n"]), StripAll(tmp), StripAll(["export module " + m + ";\n"]),
      StripAll(extra), exporters + attachers);
  }

  /** A pattern starting with `#` never occurs in text without `#`. */
  lemma NoHashNoOccurrence(s: string, pat: string)
    requires |pat| > 0 && pat[0] == '#'
    requires forall j :: 0 <= j < |s| ==> s[j] != '#'
    ensures forall j :: !OccursAt(s, pat, j)
  {
    forall j ensures !OccursAt(s, pat, j) {
      if 0 <= j && j + |pat| <= |s| {
        assert s[j..j + |pat|][0] == s[j];
      }
    }
  }

  /** Text with no `#` has no `#include ` in it, so splitting on it leaves it whole. */
  lemma NoIncludeIn(s: string)
    requires forall j :: 0 <= j < |s| ==> s[j] != '#'
    ensures Split(s, "#include ") == [s]
  {
    NoHashNoOccurrence(s, "#include ");
  }

  /** An importable entry as it can stand in an include line: no `#`, no white space at either end. */
  predicate Plain(e: string)
  {
    && |e| > 0 && !IsSpace(e[0]) && !IsSpace(e[|e| - 1])
    && forall j :: 0 <= j < |e| ==> e[j] != '#'
  }

  predicate AllSpace(w: string)
  {
    forall j :: 0 <= j < |w| ==> IsSpace(w[j])
  }

  /** A `#`-pattern between two `#`-free texts splits the whole into exactly those two. */
  lemma FindAround(a: string, pat: string, b: string)
    requires |pat| > 0 && pat[0] == '#'
    requires forall j :: 0 <= j < |a| ==> a[j] != '#'
    ensures Find(a + pat + b, pat) == Some(|a|)
  {
    var t := a + pat + b;
    assert t[|a|..|a| + |pat|] == pat;
    assert OccursAt(t, pat, |a|);
    forall j | 0 <= j < |a| ensures !OccursAt(t, pat, j) {
      if j + |pat| <= |t| {
        assert t[j..j + |pat|][0] == a[j];
      }
    }
  }

  lemma SplitAround(a: string, pat: string, b: string)
    requires |pat| > 0 && pat[0] == '#'
    requires forall j :: 0 <= j < |a| ==> a[j] != '#'
    requires forall j :: 0 <= j < |b| ==> b[j] != '#'
    ensures Split(a + pat + b, pat) == [a, b]
  {
    var t := a + pat + b;
    FindAround(a, pat, b);
    NoHashNoOccurrence(b, pat);
    assert Split(b, pat) == [b];
    assert t[|a| + |pat|..] == b;
    assert t[..|a|] == a;
  }

  lemma EscapeHashFree()
    ensures forall j :: 0 <= j < |EscapePrefix| ==> EscapePrefix[j] != '#'
  {
  }

  /** The line `#include <e>` is importable when `<e>` is in the list. */
  lemma IncludeValid(w0: string, e: string, w: string, c: seq<string>)
    requires e in c && Plain(e) && AllSpace(w0) && AllSpace(w)
    ensures IsValidImport("#include " + w0 + e + w, c)
  {
    assert ("#include " + w0 + e + w)[9..] == w0 + e + w;
    StripAround(w0, e, w);
  }

  /** Its commented-out form, stripped, loses only the trailing white space. */
  lemma EscapedStrip(w0: string, e: string, w: string)
    requires Plain(e) && AllSpace(w)
    ensures Strip(EscapePrefix + ("#include " + w0 + e + w)) == EscapePrefix + "#include " + w0 + e
  {
    var core := EscapePrefix + "#include " + w0 + e;
    assert EscapePrefix + ("#include " + w0 + e + w) == core + w;
    assert core[0] == '/';
    assert core[|core| - 1] == e[|e| - 1];
    StripPadded(core, w);
  }

  /** The declaration made from the commented-out line is `import <e>;`. */
  lemma EscapedImport(w0: string, e: string, w: string)
    requires Plain(e) && AllSpace(w0) && AllSpace(w)
    ensures Strip(ImportOf(EscapePrefix + ("#include " + w0 + e + w))) == "import " + e + ";"
  {
    EscapedPieces(w0, e, w);
    StripAround(w0, e, w);
    ImportLineStrip(e);
  }

  /** The commented-out line splits on `#include ` into the prefix and the entry with its white space. */
  lemma EscapedPieces(w0: string, e: string, w: string)
    requires Plain(e) && AllSpace(w0) && AllSpace(w)
    ensures Split(EscapePrefix + ("#include " + w0 + e + w), "#include ") == [EscapePrefix, w0 + e + w]
  {
    var rest := w0 + e + w;
    forall j | 0 <= j < |rest| ensures rest[j] != '#' {
      if j < |w0| {
        assert IsSpace(w0[j]);
      } else if j >= |w0| + |e| {
        assert IsSpace(w[j - |w0| - |e|]);
      } else {
        assert rest[j] == e[j - |w0|];
      }
    }
    EscapeHashFree();
    SplitAround(EscapePrefix, "#include ", rest);
    assert EscapePrefix + ("#include " + w0 + e + w) == EscapePrefix + "#include " + rest by {
      ConcatAssoc("#include ", w0, e);
      ConcatAssoc("#include ", w0 + e, w);
      ConcatAssoc(EscapePrefix, "#include ", rest);
    }
  }

  lemma ImportLineStrip(e: string)
    requires Plain(e)
    ensures Strip("import " + e + ";\n") == "import " + e + ";"
  {
    var core := "import " + e + ";";
    assert "import " + e + ";\n" == core + "\n";
    assert core[0] == 'i' && core[|core| - 1] == ';';
    StripPadded(core, "\n");
  }

  /**
   * `#include <e>` (with any blanks before the entry and trailing white
   * space such as its newline), for an importable `<e>`, is commented out
   * and yields the declaration `import <e>;`.
   */
  lemma IncludeToImport(w0: string, e: string, w: string, c: seq<string>)
    requires e in c && Plain(e) && AllSpace(w0) && AllSpace(w)
    ensures IsValidImport("#include " + w0 + e + w, c)
    ensures Strip(Rewrite("#include " + w0 + e + w, c)) == EscapePrefix + "#include " + w0 + e
    ensures Strip(ImportOf(Rewrite("#include " + w0 + e + w, c))) == "import " + e + ";"
  {
    IncludeValid(w0, e, w, c);
    EscapedStrip(w0, e, w);
    EscapedImport(w0, e, w);
  }

  /** `extra` holds one import declaration for each commented-out line, and nothing else. */
  lemma {:induction false} ExtrasMembers(tmp: seq<string>, y: string)
    ensures y in Extras(tmp) <==> exists k :: 0 <= k < |tmp| && StartsWith(tmp[k], EscapePrefix) && y == ImportOf(tmp[k])
  {
    if |tmp| > 0 {
      ExtrasMembers(tmp[1..], y);
      if exists k :: 0 < k < |tmp| && StartsWith(tmp[k], EscapePrefix) && y == ImportOf(tmp[k]) {
        var k :| 0 < k < |tmp| && StartsWith(tmp[k], EscapePrefix) && y == ImportOf(tmp[k]);
        assert tmp[1..][k - 1] == tmp[k];
      }
      if y in Extras(tmp[1..]) {
        var k :| 0 <= k < |tmp[1..]| && StartsWith(tmp[1..][k], EscapePrefix) && y == ImportOf(tmp[1..][k]);
        assert tmp[k + 1] == tmp[1..][k];
      }
    }
  }

  /** The fixed lines of every file's elements: `module;` and `export module <m>;`. */
  lemma ElementsFrame(x: seq<string>, m: string, c: seq<string>)
    ensures ElementsOf(x, m, c).intro == ["module;"]
    ensures ElementsOf(x, m, c).split == ["export module " + m + ";"]
  {
    var intro, split := "module;", "export module " + m + ";";
    assert intro[0] == 'm' && intro[|intro| - 1] == ';';
    assert split[0] == 'e' && split[|split| - 1] == ';';
    assert "module;\n" == intro + "\n";
    assert "export module " + m + ";\n" == split + "\n";
    StripPadded(intro, "\n");
    StripPadded(split, "\n");
  }

  /** The lines of a file's import section that are rewritten: all but its first and last. */
  function Kept(x: seq<string>): seq<string>
  {
    Inner(x[..ContextEnd(x)])
  }

  /** The body objects of a file: its `@exporter` objects, then its `@attacher` objects. */
  function Objects(x: seq<string>): seq<string>
  {
    var other := x[ContextEnd(x)..];
    ExportObjects(other, Exporter) + ExportObjects(other, Attacher)
  }

  /** The include set of the merged module: both files' include lines minus escapes, `#pragma once` and the module's own header. */
  function MergedIncludes(h: Elements, cpp: Elements, m: string): set<string>
  {
    set l | l in h.inc + cpp.inc && !StartsWith(l, "// Conan::Escape")
      && !StartsWith(l, "#pragma once") && !Contains(l, m + ".hpp")
  }

  function MergedImports(h: Elements, cpp: Elements): set<string>
  {
    set l | l in h.extra + cpp.extra
  }

  /** `['\n'] + '@@'.join(objs).replace('@@', '\n\n\n').split('\n')`. */
  function ObjectLines(h: Elements, cpp: Elements): seq<string>
  {
    ["\n"] + Split(Replace(Join(h.obj + cpp.obj, "@@"), "@@", "\n\n\n"), "\n")
  }

  /** `xs` lists the members of `s`, each once, in some order. */
  ghost predicate Enumerates(xs: seq<string>, s: set<string>)
  {
    && (forall i, j :: 0 <= i < j < |xs| ==> xs[i] != xs[j])
    && (forall l :: l in xs <==> l in s)
  }

  /**
   * The module file's text. Python enumerates each merged set in an order
   * of its own; the model takes that order as a parameter.
   */
  function ModuleText(h: Elements, cpp: Elements, m: string, incOrder: seq<string>, extraOrder: seq<string>): string
    requires Enumerates(incOrder, MergedIncludes(h, cpp, m))
    requires Enumerates(extraOrder, MergedImports(h, cpp))
  {
    Join(h.intro + incOrder + h.split + extraOrder + ObjectLines(h, cpp), "\n")
  }

  /**
   * An include line of either file that is not importable, not an escape,
   * not `#pragma once` and not the module's own header reaches the module
   * text, stripped.
   */
  lemma IncludeKept(hx: seq<string>, cx: seq<string>, m: string, c: seq<string>, l: string)
    requires l in Kept(hx) || l in Kept(cx)
    requires !IsValidImport(l, c)
    requires !StartsWith(Strip(l), "// Conan::Escape") && !StartsWith(Strip(l), "#pragma once")
    requires !Contains(Strip(l), m + ".hpp")
    ensures Strip(l) in MergedIncludes(ElementsOf(hx, m, c), ElementsOf(cx, m, c), m)
  {
    var h, cpp := ElementsOf(hx, m, c), ElementsOf(cx, m, c);
    if l in Kept(hx) {
      var k :| 0 <= k < |Kept(hx)| && Kept(hx)[k] == l;
      assert h.inc[k] == Strip(l);
    } else {
      var k :| 0 <= k < |Kept(cx)| && Kept(cx)[k] == l;
      assert cpp.inc[k] == Strip(l);
    }
  }

  /**
   * An include line of either file naming an importable entry becomes
   * `import <entry>;` in the merged imports, and its commented-out form is
   * kept out of the merged includes.
   */
  lemma IncludeImported(hx: seq<string>, cx: seq<string>, m: string, c: seq<string>, w0: string, e: string, w: string)
    requires "#include " + w0 + e + w in Kept(hx) || "#include " + w0 + e + w in Kept(cx)
    requires e in c && Plain(e) && AllSpace(w0) && AllSpace(w)
    ensures "import " + e + ";" in MergedImports(ElementsOf(hx, m, c), ElementsOf(cx, m, c))
    ensures EscapePrefix + "#include " + w0 + e !in MergedIncludes(ElementsOf(hx, m, c), ElementsOf(cx, m, c), m)
  {
    if "#include " + w0 + e + w in Kept(hx) {
      ImportedIn(hx, m, c, w0, e, w);
    } else {
      ImportedIn(cx, m, c, w0, e, w);
    }
    EscapedNotIncluded(w0 + e);
    assert EscapePrefix + "#include " + w0 + e == EscapePrefix + "#include " + (w0 + e);
  }

  /** One file's include line naming an importable entry gives that file the declaration `import <entry>;`. */
  lemma ImportedIn(x: seq<string>, m: string, c: seq<string>, w0: string, e: string, w: string)
    requires "#include " + w0 + e + w in Kept(x)
    requires e in c && Plain(e) && AllSpace(w0) && AllSpace(w)
    ensures "import " + e + ";" in ElementsOf(x, m, c).extra
  {
    var l := "#include " + w0 + e + w;
    IncludeToImport(w0, e, w, c);
    var tmp := RewriteAll(Kept(x), c);
    var k :| 0 <= k < |Kept(x)| && Kept(x)[k] == l;
    assert StartsWith(tmp[k], EscapePrefix);
    ExtrasMembers(tmp, ImportOf(tmp[k]));
    var extra := StripAll(Extras(tmp));
    var i :| 0 <= i < |Extras(tmp)| && Extras(tmp)[i] == ImportOf(tmp[k]);
    assert extra[i] == "import " + e + ";";
    assert extra == ElementsOf(x, m, c).extra;
  }

  lemma EscapedNotIncluded(e: string)
    ensures StartsWith(EscapePrefix + "#include " + e, "// Conan::Escape")
  {
    assert (EscapePrefix + "#include " + e)[..16] == EscapePrefix[..16];
  }

  /** Joining on `@@` and replacing `@@` is joining directly, when no object can hide an `@@`. */
  lemma {:induction false} ReplaceJoined(xs: seq<string>, w: string)
    requires forall k :: 0 <= k < |xs| ==> !Contains(xs[k], "@@") && !EndsWith(xs[k], "@")
    ensures Replace(Join(xs, "@@"), "@@", w) == Join(xs, w)
  {
    if |xs| == 0 {
      assert Split("", "@@") == [""];
    } else if |xs| == 1 {
      ReplaceAbsent(xs[0], "@@", w);
    } else {
      var x, rest := xs[0], Join(xs[1..], "@@");
      assert [x] + xs[1..] == xs;
      JoinFront(x, xs[1..], "@@");
      JoinFront(x, xs[1..], w);
      ConcatAssoc(x, "@@", rest);
      ConcatAssoc(x, w, Join(xs[1..], w));
      ReplaceJoinedStep(x, rest, w);
      ReplaceJoined(xs[1..], w);
    }
  }

  /** The first object is copied, and the `@@` behind it replaced. */
  lemma ReplaceJoinedStep(x: string, rest: string, w: string)
    requires !Contains(x, "@@") && !EndsWith(x, "@")
    ensures Replace(x + ("@@" + rest), "@@", w) == x + (w + Replace(rest, "@@", w))
  {
    forall j | 0 <= j < |x| ensures !OccursAt(x + ("@@" + rest), "@@", j) {
      if j + 2 <= |x| {
        assert (x + ("@@" + rest))[j..j + 2] == x[j..j + 2];
        assert !OccursAt(x, "@@", j);
      } else {
        assert x[|x| - 1..] == [x[|x| - 1]];
        assert x[|x| - 1] != '@';
        assert (x + ("@@" + rest))[j..j + 2][0] == x[|x| - 1];
      }
    }
    ReplaceSkip(x, "@@" + rest, "@@", w);
    ReplaceFront(rest, "@@", w);
  }

  /**
   * The module text: `module;`, the includes, `export module <m>;` and the
   * imports, one per line, then two blank lines and the objects of the
   * header followed by those of the source file, two blank lines apart.
   */
  lemma ModuleLayout(hx: seq<string>, cx: seq<string>, m: string, c: seq<string>, incOrder: seq<string>, extraOrder: seq<string>)
    requires Enumerates(incOrder, MergedIncludes(ElementsOf(hx, m, c), ElementsOf(cx, m, c), m))
    requires Enumerates(extraOrder, MergedImports(ElementsOf(hx, m, c), ElementsOf(cx, m, c)))
    requires forall k :: 0 <= k < |Objects(hx) + Objects(cx)| ==>
      !Contains((Objects(hx) + Objects(cx))[k], "@@") && !EndsWith((Objects(hx) + Objects(cx))[k], "@")
    ensures ModuleText(ElementsOf(hx, m, c), ElementsOf(cx, m, c), m, incOrder, extraOrder)
      == Join(["module;"] + incOrder + ["export module " + m + ";"] + extraOrder, "\n")
         + "\n\n\n" + Join(Objects(hx) + Objects(cx), "\n\n\n")
  {
    var h, cpp := ElementsOf(hx, m, c), ElementsOf(cx, m, c);
    ElementsFrame(hx, m, c);
    assert h.obj == Objects(hx) && cpp.obj == Objects(cx);
    TextLayout(h, cpp, m, incOrder, extraOrder);
  }

  lemma TextLayout(h: Elements, cpp: Elements, m: string, incOrder: seq<string>, extraOrder: seq<string>)
    requires Enumerates(incOrder, MergedIncludes(h, cpp, m))
    requires Enumerates(extraOrder, MergedImports(h, cpp))
    requires h.intro == ["module;"] && h.split == ["export module " + m + ";"]
    requires forall k :: 0 <= k < |h.obj + cpp.obj| ==>
      !Contains((h.obj + cpp.obj)[k], "@@") && !EndsWith((h.obj + cpp.obj)[k], "@")
    ensures ModuleText(h, cpp, m, incOrder, extraOrder)
      == Join(h.intro + incOrder + h.split + extraOrder, "\n") + "\n\n\n" + Join(h.obj + cpp.obj, "\n\n\n")
  {
    var head := h.intro + incOrder + h.split + extraOrder;
    var objLines := ObjectLines(h, cpp);
    assert Join(objLines, "\n") == "\n\n" + Join(h.obj + cpp.obj, "\n\n\n") by {
      ObjectLinesText(h.obj + cpp.obj);
    }
    assert Join(head + objLines, "\n") == Join(head, "\n") + "\n" + Join(objLines, "\n") by {
      JoinAppend(head, objLines, "\n");
    }
    assert h.intro + incOrder + h.split + extraOrder + objLines == head + objLines;
  }

  /** The object lines join back to a blank line and the objects two blank lines apart. */
  lemma ObjectLinesText(objs: seq<string>)
    requires forall k :: 0 <= k < |objs| ==> !Contains(objs[k], "@@") && !EndsWith(objs[k], "@")
    ensures Join(["\n"] + Split(Replace(Join(objs, "@@"), "@@", "\n\n\n"), "\n"), "\n") == "\n\n" + Join(objs, "\n\n\n")
  {
    var r := Join(objs, "\n\n\n");
    assert Replace(Join(objs, "@@"), "@@", "\n\n\n") == r by {
      ReplaceJoined(objs, "\n\n\n");
    }
    var pieces := Split(r, "\n");
    assert Join(pieces, "\n") == r by {
      SplitThenJoin(r, "\n");
    }
    JoinFront("\n", pieces, "\n");
    assert "\n" + "\n" == "\n\n";
  }

  /** The per-module step of `_modules_preprocessing`: both files' elements, merged into the module text. */
  method SynthesizeModule(hx: seq<string>, cx: seq<string>, m: string, c: seq<string>, incOrder: seq<string>, extraOrder: seq<string>)
    returns (text: string)
    requires Enumerates(incOrder, MergedIncludes(ElementsOf(hx, m, c), ElementsOf(cx, m, c), m))
    requires Enumerates(extraOrder, MergedImports(ElementsOf(hx, m, c), ElementsOf(cx, m, c)))
    ensures text == ModuleText(ElementsOf(hx, m, c), ElementsOf(cx, m, c), m, incOrder, extraOrder)
  {
    var h := ModuleElements(hx, m, c);
    var cpp := ModuleElements(cx, m, c);
    var full := h.intro + incOrder + h.split + extraOrder + ObjectLines(h, cpp);
    text := Join(full, "\n");
  }

  /**
   * As written, a user module's `#include "name.hpp"` in either file is
   * never turned into an import: it reaches the module text as a plain
   * include unless it names the module's own header.
   */
  lemma UserIncludeStaysInclude(hx: seq<string>, cx: seq<string>, m: string, std: seq<string>, user: seq<string>, u: string, w0: string, w: string)
    requires AllSpace(w0) && AllSpace(w)
    requires QuotedInclude(u, w0, w) in Kept(hx) || QuotedInclude(u, w0, w) in Kept(cx)
    requires !Contains("#include " + w0 + "\"" + u + ".hpp\"", m + ".hpp")
    ensures "#include " + w0 + "\"" + u + ".hpp\"" in MergedIncludes(
      ElementsOf(hx, m, ImportableModules(std, user)), ElementsOf(cx, m, ImportableModules(std, user)), m)
  {
    var l := QuotedInclude(u, w0, w);
    var core := "#include " + w0 + "\"" + u + ".hpp\"";
    var c := ImportableModules(std, user);
    assert !IsValidImport(l, c) by {
      QuotedIncludeNeverValid(std, user, u, w0, w);
    }
    QuotedStrip(u, w0, w);
    IncludeHead(core, w0, u);
    IncludeKept(hx, cx, m, c, l);
  }

  /** A quoted include, stripped of its trailing space, is `#include "u.hpp"` with its inner blanks. */
  lemma QuotedStrip(u: string, w0: string, w: string)
    requires AllSpace(w)
    ensures Strip(QuotedInclude(u, w0, w)) == "#include " + w0 + "\"" + u + ".hpp\""
  {
    var core := "#include " + w0 + "\"" + u + ".hpp\"";
    assert QuotedInclude(u, w0, w) == core + w by {
      ConcatAssoc("#include " + w0, "\"" + u, ".hpp\"");
      ConcatAssoc("#include " + w0, "\"", u);
    }
    assert core[0] == '#' && core[|core| - 1] == '"';
    StripPadded(core, w);
  }

  lemma IncludeHead(core: string, w0: string, u: string)
    requires core == "#include " + w0 + "\"" + u + ".hpp\""
    ensures !StartsWith(core, "// Conan::Escape") && !StartsWith(core, "#pragma once")
  {
    assert core[..12][0] == '#' && core[..12][1] == 'i';
  }

  /** With the intended entries, the same include becomes `import "name.hpp";`. */
  lemma UserIncludeImported(hx: seq<string>, cx: seq<string>, m: string, std: seq<string>, user: seq<string>, k: nat, w0: string, w: string)
    requires k < |user| && AllSpace(w0) && AllSpace(w)
    requires forall j :: 0 <= j < |user[k]| ==> user[k][j] != '#'
    requires QuotedInclude(user[k], w0, w) in Kept(hx) || QuotedInclude(user[k], w0, w) in Kept(cx)
    ensures "import " + ("\"" + user[k] + ".hpp\"") + ";" in MergedImports(
      ElementsOf(hx, m, IntendedModules(std, user)), ElementsOf(cx, m, IntendedModules(std, user)))
  {
    IntendedEntry(std, user, k);
    IncludeImported(hx, cx, m, IntendedModules(std, user), w0, "\"" + user[k] + ".hpp\"", w);
  }

  /** Each user module's intended entry is in the list and can stand in an include line. */
  lemma IntendedEntry(std: seq<string>, user: seq<string>, k: nat)
    requires k < |user|
    requires forall j :: 0 <= j < |user[k]| ==> user[k][j] != '#'
    ensures "\"" + user[k] + ".hpp\"" in IntendedModules(std, user)
    ensures Plain("\"" + user[k] + ".hpp\"")
  {
    var c := IntendedModules(std, user);
    assert c[|StdEntries(std)| + k] == "\"" + user[k] + ".hpp\"";
    WrappedPlain("\"", user[k], ".hpp\"");
  }

  /** A configured, whitelisted standard header included in either file becomes `import <name>;`. */
  lemma StdIncludeImported(hx: seq<string>, cx: seq<string>, m: string, std: seq<string>, user: seq<string>, k: nat, w0: string, w: string)
    requires k < |std| && "<" + std[k] + ">" in WhiteList && AllSpace(w0) && AllSpace(w)
    requires "#include " + w0 + ("<" + std[k] + ">") + w in Kept(hx) || "#include " + w0 + ("<" + std[k] + ">") + w in Kept(cx)
    ensures "import " + ("<" + std[k] + ">") + ";" in MergedImports(
      ElementsOf(hx, m, ImportableModules(std, user)), ElementsOf(cx, m, ImportableModules(std, user)))
  {
    var c := ImportableModules(std, user);
    var e := "<" + std[k] + ">";
    assert e in c by {
      ImportableMembers(std, user, e);
    }
    assert Plain(e) by {
      WhiteListedName(std[k]);
      WrappedPlain("<", std[k], ">");
    }
    IncludeImported(hx, cx, m, c, w0, e, w);
  }

  /** A `#`-free name between non-space, `#`-free delimiters is plain. */
  lemma WrappedPlain(open: string, n: string, close: string)
    requires |open| > 0 && |close| > 0 && !IsSpace(open[0]) && !IsSpace(close[|close| - 1])
    requires forall j :: 0 <= j < |open| ==> open[j] != '#'
    requires forall j :: 0 <= j < |close| ==> close[j] != '#'
    requires forall j :: 0 <= j < |n| ==> n[j] != '#'
    ensures Plain(open + n + close)
  {
    var e := open + n + close;
    forall j | 0 <= j < |e| ensures e[j] != '#' {
      if j < |open| {
        assert e[j] == open[j];
      } else if j < |open| + |n| {
        assert e[j] == n[j - |open|];
      } else {
        assert e[j] == close[j - |open| - |n|];
      }
    }
    assert e[|e| - 1] == close[|close| - 1];
  }
}
