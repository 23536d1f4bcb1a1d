/**
 * The navigation page of the built documentation (docs/build.py:159-271):
 * one group per version, newest first in string order, each holding one
 * link per language, placed in a fixed page that names the library.
 */
module DocsIndex {
  import opened Wrappers
  import opened Strings

  // ---- Python's string order and `sorted(..., reverse=True)` ----

  /** `a < b` on strings: code point by code point, a proper prefix first. */
  predicate StrLt(a: string, b: string)
  {
    if |a| == 0 then |b| > 0
    else if |b| == 0 then false
    else if a[0] != b[0] then a[0] < b[0]
    else StrLt(a[1..], b[1..])
  }

  predicate StrLe(a: string, b: string)
  {
    a == b || StrLt(a, b)
  }

  lemma {:induction false} StrLtIrreflexive(a: string)
    ensures !StrLt(a, a)
  {
    if |a| > 0 {
      StrLtIrreflexive(a[1..]);
    }
  }

  lemma {:induction false} StrLtTotal(a: string, b: string)
    ensures a == b || StrLt(a, b) || StrLt(b, a)
  {
    if |a| > 0 && |b| > 0 && a[0] == b[0] {
      StrLtTotal(a[1..], b[1..]);
      if a[1..] == b[1..] {
        assert a == [a[0]] + a[1..] && b == [b[0]] + b[1..];
      }
    }
  }

  lemma {:induction false} StrLtTrans(a: string, b: string, c: string)
    requires StrLt(a, b) && StrLt(b, c)
    ensures StrLt(a, c)
  {
    if |a| > 0 && a[0] == b[0] && b[0] == c[0] {
      StrLtTrans(a[1..], b[1..], c[1..]);
    }
  }

  lemma StrLeTrans(a: string, b: string, c: string)
    requires StrLe(a, b) && StrLe(b, c)
    ensures StrLe(a, c)
  {
    if a != b && b != c {
      StrLtTrans(a, b, c);
    }
  }

  predicate SortedDesc(xs: seq<string>)
  {
    forall i, j :: 0 <= i < j < |xs| ==> StrLe(xs[j], xs[i])
  }

  /** `x` put into a descending list before the first element not above it. */
  function InsertDesc(x: string, xs: seq<string>): (r: seq<string>)
    ensures multiset(r) == multiset(xs) + multiset{x}
    ensures |r| == |xs| + 1
  {
    if |xs| == 0 || StrLe(xs[0], x) then [x] + xs
    else
      assert xs == [xs[0]] + xs[1..];
      [xs[0]] + InsertDesc(x, xs[1..])
  }

  lemma {:induction false} InsertDescSorted(x: string, xs: seq<string>)
    requires SortedDesc(xs)
    ensures SortedDesc(InsertDesc(x, xs))
    ensures |xs| > 0 && !StrLe(xs[0], x) ==> InsertDesc(x, xs)[0] == xs[0]
  {
    var r := InsertDesc(x, xs);
    if |xs| == 0 {
    } else if StrLe(xs[0], x) {
      forall i, j | 0 <= i < j < |r| ensures StrLe(r[j], r[i]) {
        if i == 0 {
          StrLeTrans(r[j], xs[0], x);
        }
      }
    } else {
      InsertDescSorted(x, xs[1..]);
      var rest := InsertDesc(x, xs[1..]);
      assert r == [xs[0]] + rest;
      StrLtTotal(xs[0], x);
      forall j | 0 < j < |r| ensures StrLe(r[j], xs[0]) {
        assert rest[j - 1] in multiset(rest);
        assert rest[j - 1] in multiset(xs[1..]) + multiset{x};
        if rest[j - 1] in multiset(xs[1..]) {
          var k :| 0 <= k < |xs[1..]| && xs[1..][k] == rest[j - 1];
          assert xs[k + 1] == rest[j - 1];
        }
      }
    }
  }

  /** `sorted(versions, reverse=True)`. */
  function SortDesc(xs: seq<string>): seq<string>
  {
    if |xs| == 0 then [] else InsertDesc(xs[0], SortDesc(xs[1..]))
  }

  /** The sort orders its input from the greatest string down, losing and adding nothing. */
  lemma {:induction false} SortDescCorrect(xs: seq<string>)
    ensures SortedDesc(SortDesc(xs))
    ensures multiset(SortDesc(xs)) == multiset(xs)
  {
    SortDescSorted(xs);
    SortDescPermutes(xs);
  }

  lemma {:induction false} SortDescSorted(xs: seq<string>)
    ensures SortedDesc(SortDesc(xs))
  {
    if |xs| > 0 {
      SortDescSorted(xs[1..]);
      InsertDescSorted(xs[0], SortDesc(xs[1..]));
    }
  }

  lemma {:induction false} SortDescPermutes(xs: seq<string>)
    ensures multiset(SortDesc(xs)) == multiset(xs)
  {
    if |xs| > 0 {
      SortDescPermutes(xs[1..]);
      MultisetCons(xs);
    }
  }

  lemma MultisetCons<T>(xs: seq<T>)
    requires |xs| > 0
    ensures multiset(xs) == multiset(xs[1..]) + multiset{xs[0]}
  {
    assert xs == [xs[0]] + xs[1..];
  }

  // ---- the entries ----

  predicate IsAsciiLower(c: char) { 'a' <= c <= 'z' }
  predicate IsAsciiUpper(c: char) { 'A' <= c <= 'Z' }

  function ToUpper(c: char): char
  {
    if IsAsciiLower(c) then (c as int - 32) as char else c
  }

  function ToLower(c: char): char
  {
    if IsAsciiUpper(c) then (c as int + 32) as char else c
  }

  /** `str.capitalize` on ASCII letters: first upper-cased, the rest lower-cased. */
  function Capitalize(s: string): (r: string)
    ensures |r| == |s|
    ensures |s| > 0 ==> !IsAsciiLower(r[0])
    ensures forall i :: 0 < i < |r| ==> !IsAsciiUpper(r[i])
  {
    if |s| == 0 then ""
    else [ToUpper(s[0])] + seq(|s| - 1, i requires 0 <= i < |s| - 1 => ToLower(s[i + 1]))
  }

  /** `lang_display.get(lang, (lang.capitalize(), ""))`: the name and flag shown for a language. */
  function LangDisplay(lang: string): (string, string)
  {
    if lang == "en" then ("English", "\U{1F1EC}\U{1F1E7}")
    else if lang == "zh" then ("\U{4E2D}\U{6587}", "\U{1F1E8}\U{1F1F3}")
    else (Capitalize(lang), "")
  }

  /** Where the documentation of `lang` at `version` is built. */
  function LinkPath(lang: string, version: string): string
  {
    "./" + lang + "/v" + version + "/build_sub/html/index.html"
  }

  function DisplayText(lang: string, version: string): string
  {
    var (name, flag) := LangDisplay(lang);
    flag + " " + name + " - Version " + version
  }

  /** The list item of one language in one version group. */
  function Entry(lang: string, version: string): string
  {
    "        <li>\n"
    + "          <a href=\"" + LinkPath(lang, version) + "\">\n"
    + "            " + DisplayText(lang, version) + "\n"
    + "          </a>\n"
    + "        </li>\n"
  }

  function GroupHead(version: string): string
  {
    "    <!-- \U{7248}\U{672C} " + version + " -->\n"
    + "    <div class=\"version-group\">\n"
    + "      <h2 class=\"version-title\">Version " + version + "</h2>\n"
    + "      <ul class=\"lang-links\">\n"
  }

  const GroupTail: string := "      </ul>\n    </div>\n"

  /** The entries of `languages`, in their order, for one version. */
  function Entries(languages: seq<string>, version: string): string
  {
    if |languages| == 0 then ""
    else Entries(languages[..|languages| - 1], version) + Entry(languages[|languages| - 1], version)
  }

  /** The group of one version: its heading, its entries, the closing tags. */
  function Group(languages: seq<string>, version: string): string
  {
    GroupHead(version) + Entries(languages, version) + GroupTail
  }

  /** The groups of `versions`, in the order given. */
  function Groups(languages: seq<string>, versions: seq<string>): string
  {
    if |versions| == 0 then ""
    else Groups(languages, versions[..|versions| - 1]) + Group(languages, versions[|versions| - 1])
  }

  /**
   * The version groups of `_generate_docs_index`: one group per version,
   * taken newest first in string order, holding one entry per language.
   */
  method VersionGroups(languages: seq<string>, versions: seq<string>) returns (versionGroups: string)
    ensures versionGroups == Groups(languages, SortDesc(versions))
  {
    var order := SortDesc(versions);
    versionGroups := "";
    for k := 0 to |order|
      invariant versionGroups == Groups(languages, order[..k])
    {
      var group := BuildGroup(languages, order[k]);
      GroupsSnoc(languages, order, k);
      versionGroups := versionGroups + group;
    }
    assert order[..|order|] == order;
  }

  lemma GroupsSnoc(languages: seq<string>, versions: seq<string>, k: nat)
    requires k < |versions|
    ensures Groups(languages, versions[..k + 1]) == Groups(languages, versions[..k]) + Group(languages, versions[k])
  {
    assert versions[..k + 1][..k] == versions[..k];
  }

  /** The inner loop: one version's group, an entry per language in order. */
  method BuildGroup(languages: seq<string>, version: string) returns (group: string)
    ensures group == Group(languages, version)
  {
    var head := GroupHead(version);
    var entries := "";
    for j := 0 to |languages|
      invariant entries == Entries(languages[..j], version)
    {
      assert languages[..j + 1][..j] == languages[..j];
      entries := entries + Entry(languages[j], version);
    }
    assert languages[..|languages|] == languages;
    group := head + entries + GroupTail;
  }

  // ---- the page around the groups ----

  /** The page up to the library name in its heading: the document head with its style sheet, and the heading opened. */
  const PageHead: string :=
    "\n"
    + "    <!DOCTYPE html>\n"
    + "    <html lang=\"zh\">\n"
    + "    <head>\n"
    + "      <meta charset=\"UTF-8\" />\n"
    + "      <meta name=\"viewport\" content=\"width=device-width, initial-scale=1.0\"/>\n"
    + "      <title>\U{6587}\U{6863}\U{5BFC}\U{822A} - \U{591A}\U{8BED}\U{8A00}\U{591A}\U{7248}\U{672C}</title>\n"
    + "      <style>\n"
    + "        body {\n"
    + "          font-family: 'Segoe UI', Tahoma, Geneva, Verdana, sans-serif;\n"
    + "          background-color: #f4f6f9;\n"
    + "          color: #333;\n"
    + "          margin: 0;\n"
    + "          padding: 40px;\n"
    + "        }\n"
    + "        .container {\n"
    + "          max-width: 800px;\n"
    + "          margin: auto;\n"
    + "          background-color: white;\n"
    + "          padding: 30px;\n"
    + "          border-radius: 12px;\n"
    + "          box-shadow: 0 6px 20px rgba(0, 0, 0, 0.1);\n"
    + "        }\n"
    + "        h1 {\n"
    + "          text-align: center;\n"
    + "          color: #2c3e50;\n"
    + "          margin-bottom: 30px;\n"
    + "          font-weight: 600;\n"
    + "        }\n"
    + "        .version-group {\n"
    + "          margin-bottom: 30px;\n"
    + "        }\n"
    + "        .version-title {\n"
    + "          font-size: 1.5em;\n"
    + "          color: #2980b9;\n"
    + "          border-bottom: 2px solid #3498db;\n"
    + "          padding-bottom: 8px;\n"
    + "          margin-bottom: 15px;\n"
    + "          display: inline-block;\n"
    + "        }\n"
    + "        .lang-links {\n"
    + "          list-style: none;\n"
    + "          padding: 0;\n"
    + "        }\n"
    + "        .lang-links li {\n"
    + "          margin: 12px 0;\n"
    + "        }\n"
    + "        .lang-links a {\n"
    + "          display: block;\n"
    + "          padding: 14px 20px;\n"
    + "          background-color: #ecf0f1;\n"
    + "          color: #2c3e50;\n"
    + "          text-decoration: none;\n"
    + "          border-radius: 8px;\n"
    + "          font-size: 1.1em;\n"
    + "          transition: all 0.3s ease;\n"
    + "          border-left: 4px solid #3498db;\n"
    + "        }\n"
    + "        .lang-links a:hover {\n"
    + "          background-color: #3498db;\n"
    + "          color: white;\n"
    + "          transform: translateX(6px);\n"
    + "          border-left-color: #f39c12;\n"
    + "        }\n"
    + "        footer {\n"
    + "          text-align: center;\n"
    + "          margin-top: 40px;\n"
    + "          color: #7f8c8d;\n"
    + "          font-size: 0.9em;\n"
    + "        }\n"
    + "      </style>\n"
    + "    </head>\n"
    + "    <body>\n"
    + "      <div class=\"container\">\n"
    + "        <h1>\U{1F4C4} "

  /** The rest of the heading, up to the version groups. */
  const PageTitleEnd: string :=
    "\U{9879}\U{76EE}\U{6587}\U{6863}\U{5BFC}\U{822A}</h1>\n"
    + "    \n"
    + "    "

  /** The footer up to the library name. */
  const FooterStart: string :=
    "\n"
    + "        <footer>\n"
    + "          &copy; 2025 "

  /** The rest of the footer and the closing tags. */
  const FooterEnd: string :=
    "\U{9879}\U{76EE}\U{6587}\U{6863}\U{4E2D}\U{5FC3}. All rights reserved.\n"
    + "        </footer>\n"
    + "      </div>\n"
    + "    </body>\n"
    + "    </html>\n"
    + "    "

  /** `html_content`: the fixed page with the library named in its heading and footer, the groups in between. */
  function Page(languages: seq<string>, versions: seq<string>, lib: string): string
  {
    (PageHead + lib + PageTitleEnd) + Groups(languages, SortDesc(versions)) + (FooterStart + lib + FooterEnd)
  }

  /** `_generate_docs_index`: the version groups, newest first, placed in the page. */
  method GenerateDocsIndex(languages: seq<string>, versions: seq<string>, lib: string) returns (html: string)
    ensures html == Page(languages, versions, lib)
  {
    var versionGroups := VersionGroups(languages, versions);
    html := (PageHead + lib + PageTitleEnd) + versionGroups + (FooterStart + lib + FooterEnd);
  }

  // ---- every language and version gets its link ----

  lemma ContainsMiddle(a: string, b: string, c: string)
    ensures Contains(a + b + c, b)
  {
    assert (a + b + c)[|a|..|a| + |b|] == b;
    assert OccursAt(a + b + c, b, |a|);
  }

  lemma ContainsFront(a: string, b: string)
    ensures Contains(a + b, a)
  {
    assert (a + b)[..|a|] == a;
    assert OccursAt(a + b, a, 0);
  }

  lemma ContainsBack(a: string, b: string)
    ensures Contains(a + b, b)
  {
    assert (a + b)[|a|..] == b;
    assert OccursAt(a + b, b, |a|);
  }

  lemma ContainsTrans(s: string, mid: string, pat: string)
    requires Contains(s, mid) && Contains(mid, pat)
    ensures Contains(s, pat)
  {
    var i := Find(s, mid).value;
    var j := Find(mid, pat).value;
    assert s[i..i + |mid|] == mid;
    assert mid[j..j + |pat|] == pat;
    forall t | 0 <= t < |pat| ensures s[i + j + t] == pat[t] {
      assert s[i..i + |mid|][j + t] == s[i + j + t];
      assert mid[j..j + |pat|][t] == mid[j + t];
    }
    assert s[i + j..i + j + |pat|] == pat;
    assert OccursAt(s, pat, i + j);
  }

  lemma EntryLink(lang: string, version: string)
    ensures Contains(Entry(lang, version), LinkPath(lang, version))
  {
    var front := "        <li>\n" + "          <a href=\"";
    var back := "\">\n" + "            " + DisplayText(lang, version) + "\n" + "          </a>\n" + "        </li>\n";
    assert Entry(lang, version) == front + LinkPath(lang, version) + back;
    ContainsMiddle(front, LinkPath(lang, version), back);
  }

  lemma {:induction false} EntriesContain(languages: seq<string>, version: string, k: nat)
    requires k < |languages|
    ensures Contains(Entries(languages, version), Entry(languages[k], version))
    decreases |languages|
  {
    var n := |languages| - 1;
    var front := Entries(languages[..n], version);
    if k == n {
      ContainsBack(front, Entry(languages[k], version));
    } else {
      EntriesContain(languages[..n], version, k);
      assert languages[..n][k] == languages[k];
      ContainsFront(front, Entry(languages[n], version));
      ContainsTrans(Entries(languages, version), front, Entry(languages[k], version));
    }
  }

  lemma {:induction false} GroupsContain(languages: seq<string>, versions: seq<string>, k: nat)
    requires k < |versions|
    ensures Contains(Groups(languages, versions), Group(languages, versions[k]))
    decreases |versions|
  {
    var n := |versions| - 1;
    var front := Groups(languages, versions[..n]);
    if k == n {
      ContainsBack(front, Group(languages, versions[k]));
    } else {
      GroupsContain(languages, versions[..n], k);
      assert versions[..n][k] == versions[k];
      ContainsFront(front, Group(languages, versions[n]));
      ContainsTrans(Groups(languages, versions), front, Group(languages, versions[k]));
    }
  }

  /** The returned page links every configured language at every listed version. */
  lemma IndexLinksAll(languages: seq<string>, versions: seq<string>, lib: string, lang: string, version: string)
    requires lang in languages && version in versions
    ensures Contains(Page(languages, versions, lib), LinkPath(lang, version))
  {
    var groups := Groups(languages, SortDesc(versions));
    GroupsLinkAll(languages, versions, lang, version);
    ContainsMiddle(PageHead + lib + PageTitleEnd, groups, FooterStart + lib + FooterEnd);
    ContainsTrans(Page(languages, versions, lib), groups, LinkPath(lang, version));
  }

  /** The version groups link every configured language at every listed version. */
  lemma GroupsLinkAll(languages: seq<string>, versions: seq<string>, lang: string, version: string)
    requires lang in languages && version in versions
    ensures Contains(Groups(languages, SortDesc(versions)), LinkPath(lang, version))
  {
    var order := SortDesc(versions);
    SortDescCorrect(versions);
    assert version in multiset(order);
    var k :| 0 <= k < |order| && order[k] == version;
    GroupsContain(languages, order, k);
    GroupLinks(languages, lang, version);
    ContainsTrans(Groups(languages, order), Group(languages, version), LinkPath(lang, version));
  }

  /** A version's group links every configured language at that version. */
  lemma GroupLinks(languages: seq<string>, lang: string, version: string)
    requires lang in languages
    ensures Contains(Group(languages, version), LinkPath(lang, version))
  {
    var j :| 0 <= j < |languages| && languages[j] == lang;
    var g := Group(languages, version);
    ContainsMiddle(GroupHead(version), Entries(languages, version), GroupTail);
    EntriesContain(languages, version, j);
    ContainsTrans(g, Entries(languages, version), Entry(lang, version));
    EntryLink(lang, version);
    ContainsTrans(g, Entry(lang, version), LinkPath(lang, version));
  }

  /** A text with no `/` character does not contain the separator. */
  lemma SlashFree(x: string)
    requires forall j :: 0 <= j < |x| ==> x[j] != '/'
    ensures Find(x + "/", "/") == Some(|x|)
  {
    forall j ensures !OccursAt(x, "/", j) {
      if 0 <= j && j + 1 <= |x| {
        assert x[j..j + 1][0] == x[j];
      }
    }
    FreeOfSeparator(x, "/");
  }

  /** The fixed end of every link, as the three pieces the path is built from. */
  lemma BuildPathJoin()
    ensures Join(["build_sub", "html", "index.html"], "/") == "build_sub/html/index.html"
  {
    var tail := ["html", "index.html"];
    assert ["build_sub", "html", "index.html"] == ["build_sub"] + tail;
    JoinFront("build_sub", tail, "/");
    assert Join(tail, "/") == "html/index.html";
  }

  /** A link is its pieces `.`, the language, `v` and the version, and the build path, joined on `/`. */
  lemma LinkJoin(lang: string, version: string)
    ensures Join([".", lang, "v" + version, "build_sub", "html", "index.html"], "/") == LinkPath(lang, version)
  {
    LinkJoinPieces(lang, version);
    LinkRegroup(lang, version);
  }

  lemma LinkJoinPieces(lang: string, version: string)
    ensures Join([".", lang, "v" + version, "build_sub", "html", "index.html"], "/")
         == "." + "/" + (lang + "/" + ("v" + version + "/" + "build_sub/html/index.html"))
  {
    var tail := ["build_sub", "html", "index.html"];
    BuildPathJoin();
    JoinFront("v" + version, tail, "/");
    JoinFront(lang, ["v" + version] + tail, "/");
    JoinFront(".", [lang] + (["v" + version] + tail), "/");
    assert [".", lang, "v" + version, "build_sub", "html", "index.html"] == ["."] + ([lang] + (["v" + version] + tail));
  }

  lemma LinkRegroup(lang: string, version: string)
    ensures "." + "/" + (lang + "/" + ("v" + version + "/" + "build_sub/html/index.html")) == LinkPath(lang, version)
  {
    var b, p := "build_sub/html/index.html", "/build_sub/html/index.html";
    assert "/" + b == p;
    assert "." + "/" == "./";
    assert "/" + "v" == "/v";
    ConcatAssoc("v" + version, "/", b);
    ConcatAssoc("v", version, p);
    ConcatAssoc("/", "v", version + p);
    ConcatAssoc(lang, "/", "v" + (version + p));
    ConcatAssoc("./", lang, "/v" + (version + p));
    ConcatAssoc("./" + lang, "/v", version + p);
    ConcatAssoc("./" + lang + "/v", version, p);
  }

  /**
   * A link names its language and version back: split on `/`, it reads
   * `.`, the language, `v` and the version, then the fixed build path.
   */
  lemma LinkRoundTrip(lang: string, version: string)
    requires forall j :: 0 <= j < |lang| ==> lang[j] != '/'
    requires forall j :: 0 <= j < |version| ==> version[j] != '/'
    ensures Split(LinkPath(lang, version), "/") == [".", lang, "v" + version, "build_sub", "html", "index.html"]
  {
    var parts := [".", lang, "v" + version, "build_sub", "html", "index.html"];
    forall k | 0 <= k < |parts| ensures Find(parts[k] + "/", "/") == Some(|parts[k]|) {
      SlashFree(parts[k]);
    }
    JoinThenSplit(parts, "/");
    LinkJoin(lang, version);
  }

  /**
   * Every configured language is shown at every listed version: the page
   * holds its display text: the flag and name from the table of English
   * and Chinese, or an empty flag and the capitalised code.
   */
  lemma DisplayNames(languages: seq<string>, versions: seq<string>, lib: string, lang: string, version: string)
    requires lang in languages && version in versions
    ensures Contains(Page(languages, versions, lib), DisplayText(lang, version))
  {
    var groups := Groups(languages, SortDesc(versions));
    var text := DisplayText(lang, version);
    GroupsHaveEntry(languages, versions, lang, version);
    EntryDisplay(lang, version);
    ContainsTrans(groups, Entry(lang, version), text);
    ContainsMiddle(PageHead + lib + PageTitleEnd, groups, FooterStart + lib + FooterEnd);
    ContainsTrans(Page(languages, versions, lib), groups, text);
  }

  /** The version groups hold the list item of every configured language at every listed version. */
  lemma GroupsHaveEntry(languages: seq<string>, versions: seq<string>, lang: string, version: string)
    requires lang in languages && version in versions
    ensures Contains(Groups(languages, SortDesc(versions)), Entry(lang, version))
  {
    var order := SortDesc(versions);
    SortDescCorrect(versions);
    assert version in multiset(order);
    var k :| 0 <= k < |order| && order[k] == version;
    var j :| 0 <= j < |languages| && languages[j] == lang;
    var group := Group(languages, version);
    GroupsContain(languages, order, k);
    ContainsMiddle(GroupHead(version), Entries(languages, version), GroupTail);
    EntriesContain(languages, version, j);
    ContainsTrans(group, Entries(languages, version), Entry(lang, version));
    ContainsTrans(Groups(languages, order), group, Entry(lang, version));
  }

  lemma EntryDisplay(lang: string, version: string)
    ensures Contains(Entry(lang, version), DisplayText(lang, version))
  {
    var front := "        <li>\n" + "          <a href=\"" + LinkPath(lang, version) + "\">\n" + "            ";
    var back := "\n" + "          </a>\n" + "        </li>\n";
    assert Entry(lang, version) == front + DisplayText(lang, version) + back;
    ContainsMiddle(front, DisplayText(lang, version), back);
  }
}
