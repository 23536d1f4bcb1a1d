/**
 * Two configuration rules of the package recipe: the C++ standard chosen
 * for supported compilers (conanfile.py:190-194) and the dependency link
 * lists handed to CMake (conanfile.py:230-237).
 */
module RecipeConfig {
  import opened Wrappers

  const SupportedCompilers: set<string> := {"gcc", "msvc", "clang", "apple-clang"}
  const KnownStandards: set<string> := {"17", "20", "23"}

  /**
   * The `compiler.cppstd` setting: unchanged (None) for an unsupported
   * compiler, otherwise the configured `build_cppstd` when it is one of
   * 17, 20 or 23, and 17 in every other case (absent included).
   */
  function CppStd(compiler: string, buildStd: Option<string>): (r: Option<string>)
    ensures r.Some? <==> compiler in SupportedCompilers
    ensures r.Some? ==> r.value in KnownStandards
    ensures r.Some? && buildStd.Some? && buildStd.value in KnownStandards ==> r.value == buildStd.value
    ensures r.Some? && (buildStd.None? || buildStd.value !in KnownStandards) ==> r.value == "17"
  {
    if compiler !in SupportedCompilers then None
    else
      match buildStd
      case Some(s) => if s !in KnownStandards then Some("17") else Some(s)
      case None => Some("17")
  }

  /** A dependency table: package name to the libraries linked from it. */
  type Deps = map<string, set<string>>

  /** The `c` or `cpp` table with the common libraries of each shared package added. */
  function WithCommon(common: Deps, own: Deps): Deps
  {
    map k | k in own :: if k in common then own[k] + common[k] else own[k]
  }

  /** `{**common, **own}` after the merge: the table linked for one language. */
  function LanguageDeps(common: Deps, own: Deps): Deps
  {
    common + WithCommon(common, own)
  }

  /**
   * A package is linked for a language exactly when the common table or
   * the language's own table names it, and a library is linked for it
   * exactly when one of those two tables lists it.
   */
  lemma LanguageDepsMeaning(common: Deps, own: Deps)
    ensures forall k :: k in LanguageDeps(common, own) <==> k in common || k in own
    ensures forall k, lib :: k in LanguageDeps(common, own) ==>
      (lib in LanguageDeps(common, own)[k] <==> (k in common && lib in common[k]) || (k in own && lib in own[k]))
  {
  }

  /** A rendered entry `name@lib lib …`, kept as the pair it is built from. */
  type Entry = (string, set<string>)

  function Entries(d: Deps): set<Entry>
  {
    set k | k in d :: (k, d[k])
  }

  /** `_preparing_deps_links`: the C entries, and the C++ entries together with the test entries. */
  function DepsLinks(common: Deps, c: Deps, cpp: Deps, test: Deps): (r: (set<Entry>, set<Entry>))
  {
    (Entries(LanguageDeps(common, c)), Entries(LanguageDeps(common, cpp)) + Entries(test))
  }

  /**
   * Every common package reaches both link lists with at least its common
   * libraries; every test package reaches the C++ list with exactly its
   * libraries, and no package outside the C and common tables reaches the C list.
   */
  lemma DepsLinksMeaning(common: Deps, c: Deps, cpp: Deps, test: Deps)
    ensures forall k :: k in common ==>
      && (exists e :: e in DepsLinks(common, c, cpp, test).0 && e.0 == k && common[k] <= e.1)
      && (exists e :: e in DepsLinks(common, c, cpp, test).1 && e.0 == k && common[k] <= e.1)
    ensures forall k :: k in test ==> (k, test[k]) in DepsLinks(common, c, cpp, test).1
    ensures forall e :: e in DepsLinks(common, c, cpp, test).0 ==> e.0 in common || e.0 in c
  {
    var cd, cppd := LanguageDeps(common, c), LanguageDeps(common, cpp);
    LanguageDepsMeaning(common, c);
    LanguageDepsMeaning(common, cpp);
    forall k | k in common
      ensures exists e :: e in Entries(cd) && e.0 == k && common[k] <= e.1
      ensures exists e :: e in Entries(cppd) && e.0 == k && common[k] <= e.1
    {
      assert (k, cd[k]) in Entries(cd);
      assert (k, cppd[k]) in Entries(cppd);
    }
  }
}
