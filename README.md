# Documentation preprocessor and C++20 module synthesiser, modelled in Dafny

This project models the two line-oriented text engines of a C++ library's build tooling.

**The documentation preprocessor (`docs/build.py`).**
- **Language slicer.** It reads the header comments line by line. It groups the doc-comment lines that carry a `[xx]` language marker, attributes each group to its language, and emits one view of the file per language. In that view the marker is cut out of each group's head line.
- **Version gate.** It splits a file into blocks on blank-line triples. It keeps or drops each `/** … @since v` block by comparing `v` with the target documentation version, and always keeps the `/*! … @file … @defgroup` header block, wrapped in `//! @{` / `//! @}`.
- **File removal.** A whole file whose header is newer than the target is removed, together with its paired `.h`/`.c` or `.hpp`/`.cpp` file.
- **Index page.** It renders the whole HTML index page: the document head and style, a heading and a footer that name the library, and between them one group per version that links every (version, language) build.

**The module synthesiser of the package recipe (`conanfile.py`).**
- **Splitting a file.** It splits a header or source file at the `// Conan::ImportEnd` marker.
- **Includes.** Each whitelisted `#include` becomes an `import …;` and leaves a `// Conan::Escape` comment behind.
- **Exported objects.** It keeps only the doc-tagged `@exporter` / `@attacher` objects. An exporter gets `export ` inserted after its doc comment.
- **Module text.** It merges the header's and the source's parts into one module interface text.
- **Other recipe rules.** It wraps C headers in `extern "C"` guards. It picks the C++ standard for supported compilers and assembles the dependency link lists.

Files are sequences of lines, each with its `\n` kept, as `readlines` returns them. Python strings are `seq<char>`. `split`, `join`, `replace` and `strip` are written out in module `Strings`. `strip` uses Python's whitespace set. The regular expressions become predicates over positions, and the configured languages, versions and module lists become parameters.

Each loop of the source is a method. Each method is proved against a function that states what it computes (`ensures container == GateOutput(x, ver)`), and the lemmas beside that function state what the source promises.

Modules:
- `Wrappers`: `Option`.
- `Strings`: the Python string operations.
- `Versions`: `_ver_should_include`.
- `DocTags`: the five regular expressions.
- `LanguageSlicer`: `_idx_slicer`, `_determine_sub_groups` and `_language_filter`.
- `VersionGate`: `_ver_filter`, `_capture_escape_files` and the removal decision.
- `DocsIndex`: `_generate_docs_index`.
- `ExportTags`: `_get_export_objects`.
- `CCompat`: `_pragma_in_import` and `_make_c_compatible`.
- `ModuleSynth`:
  - `white_list`;
  - `_is_valid_import`;
  - `_determine_importable_modules`;
  - `_module_elements`;
  - the merge.
- `RecipeConfig`: the cppstd fallback and `_preparing_deps_links`.

Some behaviours are proved as written although they may surprise:
- Versions with more than three components compare only on their common prefix, so the order is not transitive (`Versions.FourComponentsNotTransitive`).
- A head line that carries two language markers loses only the last one, so the language view is not idempotent on it (`LanguageSlicer.TwoMarkersNotIdempotent`).
- An `@attacher` object whose last comment closer is the chunk's last line keeps a dangling `\nexport ` (`ExportTags.AttacherDanglingExport`).
- Includes are rewritten when whitelisted. Unlisted includes reach the global module fragment stripped, de-duplicated and in unspecified order; `#pragma once` lines and every line containing `<m>.hpp`, for module name `m`, are dropped.
- Chunks that carry no tag are dropped from the module.

## Model

| member | source | states |
|---|---|---|
| Versions.VerShouldInclude | docs/build.py:122-136 | the result is `VersionLe(x, refVer)`: both versions zero-padded to three components, then compared pairwise over the common length, with the first difference deciding and equality giving true |
| Versions.VersionLeIsLex | docs/build.py:122-136 | for versions of at most three components the gate is exactly lexicographic `<=` on the zero-padded component lists |
| Versions.ZipLeIsLex | docs/build.py:129-136 | the early-return comparison loop over equal-length lists is lexicographic `<=` |
| Versions.ShortFormPadded | docs/build.py:124-127 | every well-formed version `x` of fewer than three components reads as its components then `0` when written `x.0`, and compares exactly like `x.0` on either side of the gate |
| Versions.VersionLeReflexive | docs/build.py:128 | equal versions are included |
| Versions.VersionGateMonotone | docs/build.py:122-136 | a version included under target r1 is included under every target r2 with r1 <= r2 |
| Versions.VersionLeTotal | docs/build.py:122-136 | any two short versions are comparable, and mutually included versions pad to the same list |
| Versions.FourComponentsNotTransitive | docs/build.py:123-136 | 1.2.3.9 <= 1.2.3 and 1.2.3 <= 1.2.3.0 are both accepted, but 1.2.3.9 <= 1.2.3.0 is rejected |
| Versions.ParseJoined | docs/build.py:123 | a dot-join of digit strings parses back to the integer of each component |
| DocTags.LangMarker | docs/build.py:38 | the marker found is the last position where ` [xx] ` with a configured code follows a ` * @word` head, and there is none when no position qualifies |
| DocTags.FileDocMeaning | docs/build.py:40 | a block is a file header iff it opens with `/*!` (after an optional newline) and `@file` occurs before a later `@defgroup` |
| DocTags.SinceCommand | docs/build.py:41 | the position found is the last `@since ` after a `/**` opener, and none exists when it is absent |
| LanguageSlicer.IdxSlicer | docs/build.py:51-62 | the groups flattened are exactly the lines that lie in an open group, in order; every group is non-empty and starts with its head, and every member is attributed to that head |
| LanguageSlicer.MembersMeaning | docs/build.py:51-62 | a line is grouped iff a head line precedes it with no head and no closing ` * @` line in between; grouped indices are strictly increasing, so none appears twice |
| LanguageSlicer.HeadIffMarker | docs/build.py:37-39 | a line opens a group iff it carries a language marker |
| LanguageSlicer.DetermineSubGroups | docs/build.py:65-71 | each configured language maps to the concatenation of the groups whose head carries its code; the head list is the first index of every group |
| LanguageSlicer.EmitByTables | docs/build.py:86-98 | an ungrouped line is emitted unchanged, a line of another language's group is dropped, and a line of the chosen language's group is kept, minus the 5-character marker on its head |
| LanguageSlicer.LanguageFilter | docs/build.py:74-98 | the output is `LanguageView(lines, langs, lang)`, the per-line emission above, in input order |
| LanguageSlicer.UnmarkedIsIdentity | docs/build.py:86-88 | a file with no language marker passes through unchanged |
| LanguageSlicer.ViewIdempotent | docs/build.py:74-98 | filtering a language view again for the same language changes nothing, when excision leaves no marker behind |
| LanguageSlicer.TwoMarkersNotIdempotent | docs/build.py:93-94 | a head line with markers `[zh] [en]` keeps `[zh]` after the `[en]` view, which a second pass then drops |
| VersionGate.KeepBlock | docs/build.py:143-153 | a header block is kept with `\n//! @{` appended; a `@since` block is kept unchanged iff its version passes the gate; every other block is kept unchanged |
| VersionGate.VerFilter | docs/build.py:139-156 | the output is the gated blocks, followed by `//! @}\n` exactly once iff a header was seen; the returned version is the word after the first `@since ` of the last header that has one, or empty |
| VersionGate.GateOrder | docs/build.py:142-153 | the kept blocks are a subsequence of the input blocks, so their relative order is preserved |
| VersionGate.GateKeepsAll | docs/build.py:142-153 | when every block survives, the output is every block, with headers marked |
| VersionGate.UngatedRoundTrip | docs/build.py:140-153 | a file with neither header nor `@since` block is rejoined to exactly its original text |
| VersionGate.GateMonotone | docs/build.py:148-151 | for versions of at most three components, raising the target version only adds blocks: the output under v1 is a subsequence of the output under v2 when v1 <= v2 |
| VersionGate.HeaderKept | docs/build.py:143-147 | every header block is in the output with its group opener appended |
| VersionGate.PairInvolution | docs/build.py:14-19 | pairing maps h to c, c to h, hpp to cpp and cpp to hpp, and pairing twice gives back the name |
| VersionGate.PairedExtraDots | docs/build.py:274-277 | a name `base.ext.tail` with a pairable `ext` is pairable and pairs to `base` and the paired extension, dropping the rest |
| VersionGate.EscapeClosedUnderPairing | docs/build.py:274-278 | the removal set contains exactly the given names and their pairs, so it is closed under pairing |
| VersionGate.GateFile | docs/build.py:391-397 | the written text is the gated blocks joined by blank-line triples; the file is too new iff its header version is non-empty and fails the gate |
| VersionGate.GateFiles | docs/build.py:386-397 | every file is written gated, and the too-new list is exactly the files whose header version fails the gate |
| VersionGate.TooNewNamesMember | docs/build.py:392-394 | a name is listed for removal iff it is the name of a file whose header version is non-empty and newer than the target |
| VersionGate.VersionTree | docs/build.py:386-402 | the surviving files are exactly those outside the removal set, each with its gated text |
| VersionGate.PairRemovedTogether | docs/build.py:392-402 | a too-new file and its paired file are both removed |
| VersionGate.KeptUnlessPaired | docs/build.py:392-402 | a file that is not too new survives unless it is the pair of a too-new file |
| DocsIndex.SortDescCorrect | docs/build.py:166 | the versions are visited in descending string order and form a permutation of the input |
| DocsIndex.InsertDescSorted | docs/build.py:166 | inserting into a descending list keeps it descending |
| DocsIndex.VersionGroups | docs/build.py:165-184 | the accumulated HTML is the concatenation of one group per version, in descending order |
| DocsIndex.BuildGroup | docs/build.py:167-183 | a group is the heading lines, then one list entry per language in the given order, then the closing lines |
| DocsIndex.GenerateDocsIndex | docs/build.py:159-271 | the returned page is the fixed head naming the library, the version groups in descending order, and the fixed footer naming the library |
| DocsIndex.IndexLinksAll | docs/build.py:165-271 | for every configured language and version the returned page contains the link `./lang/vversion/build_sub/html/index.html` |
| DocsIndex.LinkRoundTrip | docs/build.py:174 | for slash-free language and version, splitting the link on `/` gives back its six path components |
| DocsIndex.DisplayNames | docs/build.py:160-271 | for every configured language and listed version the returned page contains that language's display text at that version: the flag and name from the table (the British flag and `English` for en, the Chinese flag and `中文` for zh), or for any other code an empty flag and the capitalised code, followed by ` - Version ` and the version |
| ExportTags.TaggedSelection | conanfile.py:39-40 | the selected chunks are those containing the tag, in source order |
| ExportTags.MarkScanMeaning | conanfile.py:45-51 | a line is marked iff it starts with ` */` and a tag line precedes it with no closer in between |
| ExportTags.MarkExportPoints | conanfile.py:45-51 | each marked line gets `\nexport ` appended, and all other lines are unchanged |
| ExportTags.FinishSplices | conanfile.py:52-56 | when no kept line ends in `export `, the replace after joining splices `export ` onto the line after each marked closer for exporters, and nothing for attachers |
| ExportTags.AttacherKeepsLines | conanfile.py:52-56 | when no kept line ends in `export `, an attacher whose kept lines do not end in a comment closer is its chunk's lines minus the tag lines, joined unchanged |
| ExportTags.AttacherDanglingExport | conanfile.py:50-56 | when no kept line ends in `export `, an attacher whose last kept line is a marked closer ends in `\nexport ` |
| ExportTags.ObjectLinesRoundTrip | conanfile.py:43-52 | when no kept line ends in `export `, splitting a returned object on newlines gives back its spliced lines; none of them is a tag line |
| ExportTags.ReplaceGlued | conanfile.py:52-56 | replacing `export \n` in newline-free lines joined on newlines joins each line that ends in `export ` to the next by the replacement, in place of its `export ` and newline, and keeps every other newline |
| ExportTags.ExportObjectGlued | conanfile.py:43-56 | for any chunk, the object is its non-tag lines, each marked closer followed by the piece `export `, joined on newlines, where every piece ending in `export ` is joined to the next by `export ` (exporter) or by nothing (attacher); the kept lines are the chunk's lines minus its tag lines |
| ExportTags.GetExportObjects | conanfile.py:38-59 | the result is `ExportObjects(x, tag)`: one rewritten object per tagged chunk of the text split on blank lines, in source order |
| CCompat.PragmaInImport | conanfile.py:74-83 | the result is (true, i), with i the last `#pragma once` line at or before the first `// Conan::ImportEnd`, or (false, -1) when there is none |
| CCompat.FirstImportEndMeaning | conanfile.py:80-81 | the marker found is a line that strips to `// Conan::ImportEnd`, and no earlier line does |
| CCompat.ContextEndMeaning | conanfile.py:265-270 | the import context runs through the first marker line, or is the whole file when there is no marker |
| CCompat.ImportSectionLine | conanfile.py:265-273 | a line is flagged as import context iff it lies before the context end |
| CCompat.IndentedMeaning | conanfile.py:209 | every kept line gets four leading spaces; removing them gives the file without the pragma line |
| CCompat.CCompatibleShape | conanfile.py:204-211 | the output has six more lines than the input; it starts with `#pragma once` iff one was found, then the opening guard, the indented lines and the three-line closing guard |
| ModuleSynth.ImportableMembers | conanfile.py:175-177 | an entry is importable iff it is `<n>` for a configured std module n in the whitelist, or `"u.hpp";` for a user module u |
| ModuleSynth.IncludeToImport | conanfile.py:275-283 | an `#include e` line with e importable, with any blanks before e and any white space after it, is valid; its stripped rewrite is `// Conan::Escape #include `, the blanks and e, and its stripped companion is `import e;` |
| ModuleSynth.ExtrasMembers | conanfile.py:277-278 | the imports are exactly the import forms of the escaped lines |
| ModuleSynth.ModuleElements | conanfile.py:260-286 | the result is `ElementsOf(x, m, c)`: the stripped rewrites of the import context minus its first and last line, the imports, and the body's exporters then attachers |
| ModuleSynth.ElementsFrame | conanfile.py:279-283 | the intro is `module;` and the split line is `export module m;`, both stripped |
| ModuleSynth.IncludeKept | conanfile.py:165-167 | a kept, non-importable line that is not an escape, a pragma or a self-include reaches the merged includes, stripped |
| ModuleSynth.IncludeImported | conanfile.py:164-173 | an importable include of either file, with any blanks before the entry, yields its `import e;` in the merged imports and leaves no escape line in the merged includes |
| ModuleSynth.StdIncludeImported | conanfile.py:275-278 | `#include <n>`, with any blanks before `<n>`, for a whitelisted, configured std module becomes `import <n>;` in the module |
| ModuleSynth.ModuleLayout | conanfile.py:169-173 | the text is `module;`, the includes, `export module m;`, the imports, two blank lines, then the header's objects before the source's, separated by two blank lines |
| ModuleSynth.SynthesizeModule | conanfile.py:155-173 | the text written is `ModuleText` of the two files' elements, for the given enumeration of the two merged sets |
| ModuleSynth.QuotedIncludeNeverValid | conanfile.py:175-177 | `#include "u.hpp"`, with any blanks before the entry, is never a valid import under the configured entries, whatever the modules |
| ModuleSynth.UserIncludeStaysInclude | conanfile.py:164-177 | a user-module include in either file, with any blanks before the entry, stays an include in the merged module, stripped, unless it contains `<m>.hpp` for module name `m` |
| ModuleSynth.QuotedIncludeValid | conanfile.py:175-177 | without the trailing `;`, the include of each user module is a valid import |
| ModuleSynth.UserIncludeImported | conanfile.py:275-278 | under the corrected entries, a user-module include, with any blanks before the entry, becomes `import "u.hpp";` in the merged module |
| RecipeConfig.CppStd | conanfile.py:190-194 | a standard is set iff the compiler is supported; it is `build_cppstd` when that is 17, 20 or 23, and 17 otherwise |
| RecipeConfig.LanguageDepsMeaning | conanfile.py:232-236 | a package is linked for a language iff the common or the language table names it, with the union of both tables' libraries |
| RecipeConfig.DepsLinksMeaning | conanfile.py:230-237 | every common package reaches both lists with at least its common libraries; every test package reaches the C++ list; the C list names only common or C packages |

## Left out

- File-system and process work is not modelled: reading and writing files, directory listing, `rglob`, doxygen, sphinx, make and CMake calls, and the Conan lifecycle hooks. Their inputs become parameters, for example the list of `(name, lines)` files given to `VersionGate.VersionTree`.
- Loading `metadata.json` and `conandata.yml` is not modelled. The doc languages, the versions, the std and user module lists, `build_cppstd` and the dependency tables become parameters.
- Python's set and dict iteration order is unspecified. The merged includes and imports are Dafny sets, and `ModuleSynth.ModuleText` takes their enumeration order as a parameter.
- The dependency tables map names to sets of libraries. The order of libraries inside one `name@lib lib` entry and the string rendering are not modelled, so entries are kept as (name, libraries) pairs. The set model also loses the list order of `_c_deps` and `_cpp_deps`, which is the dict-merge order, and a library listed twice for a package outside the common table, which `' '.join(v)` keeps twice.
- Malformed version strings are not modelled. The source raises `ValueError` from `int()`, and the model requires every dot-separated piece to be ASCII decimal digits, with optional white space around them. This also excludes some pieces that `int()` accepts, such as a sign (`1.+2`, `1.-2`), underscores between digits (`1_0.2`), and non-ASCII decimal digits.
- The language marker is only modelled for two-letter codes, because the fixed offset of 4 only fits them.
- A `/**@since` block with no character before `@since` is excluded by precondition. In the source its group 1 does not participate.
- A too-new file whose second dot-piece is not `h`, `c`, `hpp` or `cpp` makes the source raise: `IndexError` when the name has no dot, `TypeError` otherwise, since `_pair_capture.get` gives `None`. So `VersionGate.FileReady` requires `Pairable` of too-new files only. A name with more dots is paired from its first two pieces as in the source, so `a.h.in` pairs to `a.c` (`VersionGate.PairedExtraDots`). Only `VersionGate.PairInvolution` and `VersionGate.EscapeClosedUnderPairing` are limited to one-dot names.
- `_splitter` in `_module_elements` is assigned but never read, so it is not modelled.
- The stale-module deletion pass and `_remove_customized_doc_command` are not modelled, because they are file-system side effects.
- A non-string `build_cppstd` value, such as the integer 20, is never in `{"17", "20", "23"}`, so the source falls back to 17. The model only takes strings.
- LanguageSlicer.ViewIdempotent: it is proved only when excising the marker leaves no second marker on the head line. `TwoMarkersNotIdempotent` shows the rule fails otherwise.
- Versions.VersionGateMonotone: it is proved only for versions of at most three components. `FourComponentsNotTransitive` shows the rule fails beyond three.
- VersionGate.EscapeClosedUnderPairing: it is proved only for names with one dot and a pairable extension.
- ModuleSynth.ModuleLayout: it is proved only when no object contains `@@` or ends in `@`. Otherwise the source's `@@` join separator cannot be told apart from the text.
- VersionGate.GateMonotone: it is proved only for block versions and targets of at most three components, for the reason given for `Versions.VersionGateMonotone`.
- ExportTags.FinishSplices: it is proved only when no kept line ends in `export `. The source's replace also glues such a user line to the next line; `ExportTags.ExportObjectGlued` states the general case.
- ExportTags.ExportObjectSpliced: it is proved only when no kept line ends in `export `; `ExportTags.ExportObjectGlued` states the general case.
- ExportTags.AttacherKeepsLines: it is proved only when no kept line ends in `export `. Otherwise the attacher's replace deletes that `export ` and the newline after it; `ExportTags.ExportObjectGlued` states the general case.
- ExportTags.AttacherDanglingExport: it is proved only when no kept line ends in `export `; `ExportTags.ExportObjectGlued` states the general case.
- ExportTags.ObjectLinesRoundTrip: it is proved only when no kept line ends in `export `, since a glued user line no longer splits back into its own lines; `ExportTags.ExportObjectGlued` states the general case.
- DocsIndex.Capitalize: it maps ASCII letters only. Python's `str.capitalize` also maps the case of other Unicode letters.
- ModuleSynth.IncludeToImport: it covers entries that hold no `#`. The split on `#include ` at conanfile.py:277 would cut an entry that holds `#include `. Every whitelisted standard entry qualifies. An indented include is never rewritten in the source either, because `_is_valid_import` asks for `#include ` at column 0.
- ModuleSynth.IncludeImported: it covers entries that hold no `#`, for the reason given for `ModuleSynth.IncludeToImport`.
- ModuleSynth.UserIncludeImported: it covers user module names that hold no `#`, for the reason given for `ModuleSynth.IncludeToImport`.

## Findings

| source | as written | input that shows it | evidently intended | confidence | as-written member | corrected member |
|---|---|---|---|---|---|---|
| conanfile.py:177 | user-module entries are built as `"u.hpp";`, with a trailing `;`, and `_is_valid_import` compares the stripped remainder of the include line exactly | user modules `["util"]`, import line `#include "util.hpp"\n`: the remainder `"util.hpp"` is not in the list, so the include is kept and no `import "util.hpp";` is produced | the entry is `"u.hpp"`, so that a user-module include becomes `import "u.hpp";` (the line at conanfile.py:263 says so); the docstring at conanfile.py:317-318 shows instead `#include <usrlib.hpp>` becoming `import <usrlib.hpp>`, a form the corrected entries do not import either | not executed | ModuleSynth.QuotedIncludeNeverValid | ModuleSynth.UserIncludeImported |
