/**
 * The line and block patterns of the documentation preprocessor
 * (docs/build.py:37-41), each regular expression written out as the
 * predicate it decides under Python's `re.match` (anchored at the start).
 */
module DocTags {
  import opened Wrappers
  import opened Strings

  predicate IsLower(c: char)
  {
    'a' <= c <= 'z'
  }

  /**
   * The configured documentation languages: codes of two lower-case letters,
   * the width the excision offset of the language filter is written for.
   */
  predicate ValidLangCodes(langs: seq<string>)
  {
    forall k :: 0 <= k < |langs| ==> |langs[k]| == 2 && IsLower(langs[k][0]) && IsLower(langs[k][1])
  }

  /** `_hit_com_tag`, ` \* @`: a structured comment tag line. */
  predicate IsComTag(l: string)
  {
    StartsWith(l, " * @")
  }

  /** `_hit_free_tag`, ` \* [^@]+`: a comment line of free prose. */
  predicate IsFreeTag(l: string)
  {
    |l| >= 4 && l[..3] == " * " && l[3] != '@'
  }

  /**
   * A language marker `[xx] ` with its `[` at index `p` that the pattern
   * `( \* @[a-z]+).*\[(xx|yy|..)] ` reaches: a tag word of at least one
   * lower-case letter at index 4, then any characters but a newline up to
   * the marker, whose code is a configured language.
   */
  predicate MarkerAt(l: string, langs: seq<string>, p: int)
  {
    && IsComTag(l)
    && 5 <= p && p + 5 <= |l|
    && IsLower(l[4])
    && l[p] == '[' && l[p + 1..p + 3] in langs && l[p + 3] == ']' && l[p + 4] == ' '
    && forall j :: 5 <= j < p ==> l[j] != '\n'
  }

  function MarkerBelow(l: string, langs: seq<string>, n: nat): (r: Option<nat>)
    ensures r.Some? ==> r.value < n && MarkerAt(l, langs, r.value)
    ensures r.Some? ==> forall q :: r.value < q < n ==> !MarkerAt(l, langs, q)
    ensures r.None? ==> forall q :: 0 <= q < n ==> !MarkerAt(l, langs, q)
  {
    if n == 0 then None
    else if MarkerAt(l, langs, n - 1) then Some(n - 1)
    else MarkerBelow(l, langs, n - 1)
  }

  /**
   * `_hit_lang_tag.match(l)`: the position of the marker the match settles
   * on. The greedy `.*` makes it the LAST marker of the line.
   */
  function LangMarker(l: string, langs: seq<string>): (r: Option<nat>)
    ensures r.Some? ==> MarkerAt(l, langs, r.value)
    ensures r.Some? ==> forall q :: r.value < q ==> !MarkerAt(l, langs, q)
    ensures r.None? ==> forall q :: !MarkerAt(l, langs, q)
  {
    MarkerBelow(l, langs, |l|)
  }

  /** The language code the marker at `p` names (match group 2). */
  function MarkerCode(l: string, p: nat): string
    requires p + 3 <= |l|
  {
    l[p + 1..p + 3]
  }

  /**
   * The head line with its marker cut out, `l[:sp-4] + l[sp+1:]` where
   * `sp = p + 3` is the end of group 2: the character before `[` and the
   * four characters `[xx]` go, the space after `]` stays.
   */
  function Excise(l: string, p: nat): string
    requires 1 <= p && p + 4 <= |l|
  {
    l[..p - 1] + l[p + 4..]
  }

  /** The three pattern tests of one line, as the boolean triple the slicer scans. */
  type Flags = (bool, bool, bool)

  function LineFlags(l: string, langs: seq<string>): Flags
  {
    (IsComTag(l), LangMarker(l, langs).Some?, IsFreeTag(l))
  }

  /**
   * Where a block's comment starts after `\n?` and the opener (`/\*!` or
   * `/\*\*`): the index just past the opener, or None if the block does not
   * open with it.
   */
  function OpenerEnd(block: string, opener: string): (r: Option<nat>)
    ensures r.Some? ==> r.value <= |block|
  {
    if StartsWith(block, "\n" + opener) then Some(|opener| + 1)
    else if StartsWith(block, opener) then Some(|opener|)
    else None
  }

  /**
   * `_hit_file_doc`, `\n?/\*!(.|\n)*@file(.|\n)*@defgroup`: a `/\*!` comment
   * holding `@file` and, after it, `@defgroup`.
   */
  predicate IsFileDoc(block: string)
  {
    match OpenerEnd(block, "/*!")
    case None => false
    case Some(o) =>
      match Find(block[o..], "@file")
      case None => false
      case Some(i) => Contains(block[o + i + 5..], "@defgroup")
  }

  /** The file-header test decides exactly what the pattern describes. */
  lemma FileDocMeaning(block: string)
    ensures IsFileDoc(block) <==>
      && OpenerEnd(block, "/*!").Some?
      && exists i, j :: OpenerEnd(block, "/*!").value <= i && i + 5 <= j
                        && OccursAt(block, "@file", i) && OccursAt(block, "@defgroup", j)
  {
    match OpenerEnd(block, "/*!")
    case None =>
    case Some(o) => FileDocAfter(block, o);
  }

  /** The pattern after the opener ending at `o`: `@file`, then later `@defgroup`. */
  lemma FileDocAfter(block: string, o: nat)
    requires o <= |block|
    ensures (match Find(block[o..], "@file")
             case None => false
             case Some(i) => Contains(block[o + i + 5..], "@defgroup"))
      <==> exists i, j :: o <= i && i + 5 <= j && OccursAt(block, "@file", i) && OccursAt(block, "@defgroup", j)
  {
    match Find(block[o..], "@file")
    case None =>
      FindSuffix(block, "@file", o);
      assert !exists i, j :: o <= i && i + 5 <= j && OccursAt(block, "@file", i) && OccursAt(block, "@defgroup", j);
    case Some(i0) =>
      FindSuffix(block, "@file", o);
      DefgroupAfter(block, o, o + i0);
  }

  /** With the first `@file` after `o` at `i`, a later `@defgroup` is found exactly when one exists. */
  lemma DefgroupAfter(block: string, o: nat, i: nat)
    requires o <= i && OccursAt(block, "@file", i)
    requires forall i' :: o <= i' < i ==> !OccursAt(block, "@file", i')
    ensures Contains(block[i + 5..], "@defgroup") <==>
      exists i', j :: o <= i' && i' + 5 <= j && OccursAt(block, "@file", i') && OccursAt(block, "@defgroup", j)
  {
    FindSuffix(block, "@defgroup", i + 5);
    if Contains(block[i + 5..], "@defgroup") {
      var j := i + 5 + Find(block[i + 5..], "@defgroup").value;
      assert OccursAt(block, "@defgroup", j);
    } else {
      forall i', j | o <= i' && i' + 5 <= j && OccursAt(block, "@file", i')
        ensures !OccursAt(block, "@defgroup", j)
      {
        assert i' >= i;
      }
    }
  }

  /**
   * `_hit_since_command`, `\n?/\*\*(.|\n)*@since `: the position of the
   * `@since ` the match ends on, the last one after the `/\*\*` opener.
   */
  function SinceCommand(block: string): (r: Option<nat>)
    ensures r.Some? ==> OpenerEnd(block, "/**").Some? && OpenerEnd(block, "/**").value <= r.value
    ensures r.Some? ==> OccursAt(block, "@since ", r.value)
    ensures r.Some? ==> forall q :: r.value < q ==> !OccursAt(block, "@since ", q)
    ensures r.None? && OpenerEnd(block, "/**").Some? ==>
      forall q :: OpenerEnd(block, "/**").value <= q ==> !OccursAt(block, "@since ", q)
  {
    match OpenerEnd(block, "/**")
    case None => None
    case Some(o) => LastOccurrence(block, "@since ", o, |block|)
  }

  /**
   * The match's group 1, the last character before that `@since `, takes
   * part in the match: the comment holds at least one character between
   * the opener and the command.
   */
  predicate SinceGroupParticipates(block: string)
  {
    SinceCommand(block).Some? && SinceCommand(block).value > OpenerEnd(block, "/**").value
  }

  /**
   * The object version `block[regs[1][0]:].split('@since ')[1].split(' ')[0]`:
   * the text after the last `@since ` up to the next space.
   */
  function ObjVersion(block: string): string
    requires SinceGroupParticipates(block)
  {
    var q := SinceCommand(block).value;
    var tail := block[q - 1..];
    assert OccursAt(tail, "@since ", 1) by { OccursSuffix(block, "@since ", q - 1, 1); }
    FirstWord(Split(tail, "@since ")[1])
  }

  /**
   * The file version a header block declares: the text after its first
   * `@since ` up to the next space, stripped, or `''` without one.
   */
  function HeaderVersion(block: string): string
  {
    if Contains(block, "@since ") then Strip(FirstWord(Split(block, "@since ")[1])) else ""
  }
}
