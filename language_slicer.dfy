/**
 * The language slicer of the documentation preprocessor
 * (docs/build.py:51-98): groups the lines of a source file into language
 * groups and emits the view of one language.
 *
 * A line whose tag carries a language marker (a head) opens a group; a tag
 * line without marker or prose closes it; every other line seen while a
 * group is open joins it, whatever it is.
 */
module LanguageSlicer {
  import opened Wrappers
  import opened Strings
  import opened DocTags

  predicate IsHead(v: Flags)
  {
    v.0 && v.1 && !v.2
  }

  predicate IsCloser(v: Flags)
  {
    v.0 && !v.1 && !v.2
  }

  /**
   * The group open once the first `n` lines are scanned, as the index of its
   * head: the latest head above, unless a closing line came after it.
   */
  function OpenGroup(flags: seq<Flags>, n: nat): (r: Option<nat>)
    requires n <= |flags|
    ensures r.Some? ==> r.value < n && IsHead(flags[r.value])
    ensures r.Some? ==> forall m :: r.value < m < n ==> !IsHead(flags[m]) && !IsCloser(flags[m])
    ensures r.None? ==> forall h :: 0 <= h < n && IsHead(flags[h]) ==>
                          exists m :: h < m < n && IsCloser(flags[m])
  {
    if n == 0 then None
    else if IsHead(flags[n - 1]) then Some(n - 1)
    else if IsCloser(flags[n - 1]) then None
    else OpenGroup(flags, n - 1)
  }

  /** The group line `i` belongs to, if any. */
  function GroupOf(flags: seq<Flags>, i: nat): Option<nat>
    requires i < |flags|
  {
    OpenGroup(flags, i + 1)
  }

  /** The indices below `n` of the lines that belong to a group, in order. */
  function Members(flags: seq<Flags>, n: nat): seq<nat>
    requires n <= |flags|
  {
    if n == 0 then []
    else Members(flags, n - 1) + (if GroupOf(flags, n - 1).Some? then [n - 1] else [])
  }

  /** The members are exactly the grouped lines, in increasing order. */
  lemma {:induction false} MembersMeaning(flags: seq<Flags>, n: nat)
    requires n <= |flags|
    ensures forall x: nat :: x in Members(flags, n) <==> x < n && GroupOf(flags, x).Some?
    ensures forall a, b :: 0 <= a < b < |Members(flags, n)| ==> Members(flags, n)[a] < Members(flags, n)[b]
  {
    if n > 0 {
      MembersMeaning(flags, n - 1);
      var init := Members(flags, n - 1);
      assert forall a :: 0 <= a < |init| ==> init[a] < n - 1 by {
        forall a | 0 <= a < |init| ensures init[a] < n - 1 { assert init[a] in init; }
      }
    }
  }

  /** Appending `x` to the last group appends it to the flattened groups. */
  lemma ExtendLast(res: seq<seq<nat>>, x: nat)
    requires |res| > 0
    ensures Flatten(res[..|res| - 1] + [res[|res| - 1] + [x]]) == Flatten(res) + [x]
  {
    var init, y := res[..|res| - 1], res[|res| - 1];
    calc {
      Flatten(init + [y + [x]]);
      { FlattenSnoc(init, y + [x]); }
      Flatten(init) + (y + [x]);
      { ConcatAssoc(Flatten(init), y, [x]); }
      (Flatten(init) + y) + [x];
      { FlattenSnoc(init, y); }
      Flatten(init + [y]) + [x];
      { assert init + [y] == res; }
      Flatten(res) + [x];
    }
  }

  /** Every index in `res` is below `bound` and attributed to its group's first index. */
  predicate Attributed(flags: seq<Flags>, res: seq<seq<nat>>, bound: nat)
  {
    forall k, j :: 0 <= k < |res| && 0 <= j < |res[k]| ==>
      res[k][j] < bound && res[k][j] < |flags| && GroupOf(flags, res[k][j]) == Some(res[k][0])
  }

  lemma AttributedExtend(flags: seq<Flags>, res: seq<seq<nat>>, i: nat)
    requires Attributed(flags, res, i) && |res| > 0 && |res[|res| - 1]| > 0
    requires i < |flags| && GroupOf(flags, i) == Some(res[|res| - 1][0])
    ensures Attributed(flags, res[..|res| - 1] + [res[|res| - 1] + [i]], i + 1)
  {
    var last := |res| - 1;
    var r' := res[..last] + [res[last] + [i]];
    forall k, j | 0 <= k < |r'| && 0 <= j < |r'[k]|
      ensures r'[k][j] < i + 1 && r'[k][j] < |flags| && GroupOf(flags, r'[k][j]) == Some(r'[k][0])
    {
      if k < last {
        assert r'[k] == res[k];
      } else if j < |res[last]| {
        assert r'[k][j] == res[last][j] && r'[k][0] == res[last][0];
      }
    }
  }

  lemma AttributedPush(flags: seq<Flags>, res: seq<seq<nat>>, i: nat)
    requires Attributed(flags, res, i) && i < |flags| && GroupOf(flags, i) == Some(i)
    ensures Attributed(flags, res + [[i]], i + 1)
  {
    var r' := res + [[i]];
    forall k, j | 0 <= k < |r'| && 0 <= j < |r'[k]|
      ensures r'[k][j] < i + 1 && r'[k][j] < |flags| && GroupOf(flags, r'[k][j]) == Some(r'[k][0])
    {
      if k < |res| {
        assert r'[k] == res[k];
      }
    }
  }

  /** The state of the slicer after scanning the first `i` flags. */
  predicate SlicerState(flags: seq<Flags>, res: seq<seq<nat>>, inSelection: bool, i: nat)
  {
    && i <= |flags|
    && Flatten(res) == Members(flags, i)
    && (forall k :: 0 <= k < |res| ==> |res[k]| > 0)
    && inSelection == OpenGroup(flags, i).Some?
    && (inSelection ==> |res| > 0 && OpenGroup(flags, i) == Some(res[|res| - 1][0]))
    && Attributed(flags, res, i)
  }

  /** A head line starts a new group. */
  lemma StepHead(flags: seq<Flags>, res: seq<seq<nat>>, inSelection: bool, i: nat)
    requires SlicerState(flags, res, inSelection, i) && i < |flags| && IsHead(flags[i])
    ensures SlicerState(flags, res + [[i]], true, i + 1)
  {
    assert GroupOf(flags, i) == Some(i);
    assert Members(flags, i + 1) == Members(flags, i) + [i];
    FlattenSnoc<nat>(res, [i]);
    AttributedPush(flags, res, i);
  }

  /** Any other line joins the open group, if there is one. */
  lemma StepOther(flags: seq<Flags>, res: seq<seq<nat>>, inSelection: bool, i: nat)
    requires SlicerState(flags, res, inSelection, i) && i < |flags| && !IsHead(flags[i])
    ensures var open := inSelection && !IsCloser(flags[i]);
            SlicerState(flags, if open then res[..|res| - 1] + [res[|res| - 1] + [i]] else res, open, i + 1)
  {
    var open := inSelection && !IsCloser(flags[i]);
    assert GroupOf(flags, i).Some? == open;
    if open {
      var last := |res| - 1;
      ExtendLast(res, i);
      AttributedExtend(flags, res, i);
      assert Members(flags, i + 1) == Members(flags, i) + [i];
    } else {
      assert Members(flags, i + 1) == Members(flags, i);
    }
  }

  /**
   * `_idx_slicer`: the groups of line indices. Every grouped line appears
   * once, in order, and each group starts with its head line, to which all
   * its lines are attributed.
   */
  method IdxSlicer(flags: seq<Flags>) returns (res: seq<seq<nat>>)
    ensures Flatten(res) == Members(flags, |flags|)
    ensures forall k :: 0 <= k < |res| ==> |res[k]| > 0
    ensures forall k, j :: 0 <= k < |res| && 0 <= j < |res[k]| ==>
              res[k][j] < |flags| && GroupOf(flags, res[k][j]) == Some(res[k][0])
  {
    res := [];
    var inSelection := false;
    for i := 0 to |flags|
      invariant SlicerState(flags, res, inSelection, i)
    {
      var v := flags[i];
      if !(v.0 && v.1 && !v.2) {
        StepOther(flags, res, inSelection, i);
        if v.0 && !v.1 && !v.2 {
          inSelection := false;
        }
        if inSelection {
          res := res[..|res| - 1] + [res[|res| - 1] + [i]];
        }
      } else {
        StepHead(flags, res, inSelection, i);
        res := res + [[i]];
        inSelection := true;
      }
    }
  }

  /** Every group opens on a line carrying a language marker. */
  predicate HeadsTagged(groups: seq<seq<nat>>, lines: seq<string>, langs: seq<string>)
  {
    forall k :: 0 <= k < |groups| ==>
      |groups[k]| > 0 && groups[k][0] < |lines| && LangMarker(lines[groups[k][0]], langs).Some?
  }

  /** The language of the group headed by line `h`. */
  function HeadCode(lines: seq<string>, langs: seq<string>, h: nat): (c: string)
    requires h < |lines| && LangMarker(lines[h], langs).Some?
    ensures c in langs
  {
    MarkerCode(lines[h], LangMarker(lines[h], langs).value)
  }

  /** The groups of language `lang`, in order. */
  function GroupsIn(groups: seq<seq<nat>>, lines: seq<string>, langs: seq<string>, lang: string): seq<seq<nat>>
    requires HeadsTagged(groups, lines, langs)
  {
    if |groups| == 0 then []
    else
      var init := groups[..|groups| - 1];
      var g := groups[|groups| - 1];
      GroupsIn(init, lines, langs, lang) + (if HeadCode(lines, langs, g[0]) == lang then [g] else [])
  }

  lemma GroupsInMember(groups: seq<seq<nat>>, lines: seq<string>, langs: seq<string>, lang: string, x: nat)
    requires HeadsTagged(groups, lines, langs)
    ensures x in Flatten(GroupsIn(groups, lines, langs, lang)) <==>
      exists k, j :: 0 <= k < |groups| && 0 <= j < |groups[k]| && groups[k][j] == x
                     && HeadCode(lines, langs, groups[k][0]) == lang
  {
    if x in Flatten(GroupsIn(groups, lines, langs, lang)) {
      GroupsInSound(groups, lines, langs, lang, x);
    }
    if exists k, j :: 0 <= k < |groups| && 0 <= j < |groups[k]| && groups[k][j] == x
                      && HeadCode(lines, langs, groups[k][0]) == lang {
      var k, j :| 0 <= k < |groups| && 0 <= j < |groups[k]| && groups[k][j] == x
                  && HeadCode(lines, langs, groups[k][0]) == lang;
      GroupsInComplete(groups, lines, langs, lang, k, j);
    }
  }

  lemma {:induction false} GroupsInSound(groups: seq<seq<nat>>, lines: seq<string>, langs: seq<string>, lang: string, x: nat)
    requires HeadsTagged(groups, lines, langs)
    requires x in Flatten(GroupsIn(groups, lines, langs, lang))
    ensures exists k, j :: 0 <= k < |groups| && 0 <= j < |groups[k]| && groups[k][j] == x
                           && HeadCode(lines, langs, groups[k][0]) == lang
    decreases |groups|
  {
    var init := groups[..|groups| - 1];
    var g := groups[|groups| - 1];
    GroupsInSnoc(groups, lines, langs, lang, x);
    if x in Flatten(GroupsIn(init, lines, langs, lang)) {
      GroupsInSound(init, lines, langs, lang, x);
      var k, j :| 0 <= k < |init| && 0 <= j < |init[k]| && init[k][j] == x
                  && HeadCode(lines, langs, init[k][0]) == lang;
      assert groups[k] == init[k];
    } else {
      var j :| 0 <= j < |g| && g[j] == x;
      assert groups[|groups| - 1][j] == x;
    }
  }

  lemma {:induction false} GroupsInComplete(groups: seq<seq<nat>>, lines: seq<string>, langs: seq<string>, lang: string, k: nat, j: nat)
    requires HeadsTagged(groups, lines, langs)
    requires k < |groups| && j < |groups[k]| && HeadCode(lines, langs, groups[k][0]) == lang
    ensures groups[k][j] in Flatten(GroupsIn(groups, lines, langs, lang))
    decreases |groups|
  {
    var init := groups[..|groups| - 1];
    GroupsInSnoc(groups, lines, langs, lang, groups[k][j]);
    if k < |init| {
      assert init[k] == groups[k];
      GroupsInComplete(init, lines, langs, lang, k, j);
    }
  }

  /** The last group adds its lines to its language's selection and to no other. */
  lemma GroupsInSnoc(groups: seq<seq<nat>>, lines: seq<string>, langs: seq<string>, lang: string, x: nat)
    requires HeadsTagged(groups, lines, langs) && |groups| > 0
    ensures var g := groups[|groups| - 1];
      x in Flatten(GroupsIn(groups, lines, langs, lang)) <==>
        x in Flatten(GroupsIn(groups[..|groups| - 1], lines, langs, lang)) || (HeadCode(lines, langs, g[0]) == lang && x in g)
  {
    var init := groups[..|groups| - 1];
    var g := groups[|groups| - 1];
    var tail: seq<seq<nat>> := if HeadCode(lines, langs, g[0]) == lang then [g] else [];
    FlattenAppend(GroupsIn(init, lines, langs, lang), tail);
    assert Flatten(tail) == if tail == [] then [] else g by {
      if tail != [] { FlattenSnoc([], g); }
    }
  }

  /** Every prefix of tagged groups is tagged. */
  lemma TaggedPrefixes(groups: seq<seq<nat>>, lines: seq<string>, langs: seq<string>)
    requires HeadsTagged(groups, lines, langs)
    ensures forall k :: 0 <= k <= |groups| ==> HeadsTagged(groups[..k], lines, langs)
  {
    forall k | 0 <= k <= |groups| ensures HeadsTagged(groups[..k], lines, langs) {
      forall j | 0 <= j < k ensures groups[..k][j] == groups[j] { }
    }
  }

  /** The first `k + 1` groups select what the first `k` do, and group `k` for its own language. */
  lemma GroupsInStep(groups: seq<seq<nat>>, lines: seq<string>, langs: seq<string>, k: nat, l: string)
    requires HeadsTagged(groups, lines, langs) && k < |groups|
    requires HeadsTagged(groups[..k], lines, langs) && HeadsTagged(groups[..k + 1], lines, langs)
    ensures Flatten(GroupsIn(groups[..k + 1], lines, langs, l))
            == Flatten(GroupsIn(groups[..k], lines, langs, l))
               + (if l == HeadCode(lines, langs, groups[k][0]) then groups[k] else [])
  {
    var g := groups[k];
    assert groups[..k + 1][..k] == groups[..k];
    if l == HeadCode(lines, langs, g[0]) {
      FlattenSnoc(GroupsIn(groups[..k], lines, langs, l), g);
    } else {
      assert GroupsIn(groups[..k + 1], lines, langs, l) == GroupsIn(groups[..k], lines, langs, l);
    }
  }

  /**
   * `_determine_sub_groups`: for every configured language, the lines of its
   * groups in order; and the head line of every group.
   */
  method DetermineSubGroups(groups: seq<seq<nat>>, lines: seq<string>, langs: seq<string>)
    returns (res: map<string, seq<nat>>, heads: seq<nat>)
    requires HeadsTagged(groups, lines, langs)
    ensures res.Keys == set l | l in langs
    ensures forall l :: l in res ==> res[l] == Flatten(GroupsIn(groups, lines, langs, l))
    ensures |heads| == |groups| && forall k :: 0 <= k < |groups| ==> heads[k] == groups[k][0]
  {
    res := map l | l in langs :: [];
    TaggedPrefixes(groups, lines, langs);
    for k := 0 to |groups|
      invariant res.Keys == set l | l in langs
      invariant forall l :: l in res ==> res[l] == Flatten(GroupsIn(groups[..k], lines, langs, l))
    {
      var g := groups[k];
      var code := HeadCode(lines, langs, g[0]);
      forall l | l in res
        ensures Flatten(GroupsIn(groups[..k + 1], lines, langs, l))
                == Flatten(GroupsIn(groups[..k], lines, langs, l)) + (if l == code then g else [])
      {
        GroupsInStep(groups, lines, langs, k, l);
      }
      res := res[code := res[code] + g];
    }
    assert groups[..|groups|] == groups;
    heads := seq(|groups|, k requires 0 <= k < |groups| => groups[k][0]);
  }

  function AllFlags(lines: seq<string>, langs: seq<string>): (flags: seq<Flags>)
    ensures |flags| == |lines|
    ensures forall i :: 0 <= i < |lines| ==> flags[i] == LineFlags(lines[i], langs)
  {
    seq(|lines|, i requires 0 <= i < |lines| => LineFlags(lines[i], langs))
  }

  /**
   * What line `i` contributes to the view of language `lang`: itself when it
   * is in no group; itself, the head with its marker excised, when its group
   * is of `lang`; nothing when its group is of another language.
   */
  function Emit(lines: seq<string>, langs: seq<string>, lang: string, i: nat): seq<string>
    requires i < |lines|
  {
    var flags := AllFlags(lines, langs);
    match GroupOf(flags, i)
    case None => [lines[i]]
    case Some(h) =>
      if HeadCode(lines, langs, h) == lang then
        if h == i then [Excise(lines[i], LangMarker(lines[i], langs).value)] else [lines[i]]
      else []
  }

  /** The view of `lang` over the first `n` lines. */
  function ViewUpTo(lines: seq<string>, langs: seq<string>, lang: string, n: nat): seq<string>
    requires n <= |lines|
  {
    if n == 0 then [] else ViewUpTo(lines, langs, lang, n - 1) + Emit(lines, langs, lang, n - 1)
  }

  function LanguageView(lines: seq<string>, langs: seq<string>, lang: string): seq<string>
  {
    ViewUpTo(lines, langs, lang, |lines|)
  }
  /** What `IdxSlicer` promises about its groups. */
  predicate SlicesOf(flags: seq<Flags>, groups: seq<seq<nat>>)
  {
    && Flatten(groups) == Members(flags, |flags|)
    && (forall k :: 0 <= k < |groups| ==> |groups[k]| > 0)
    && forall k, j :: 0 <= k < |groups| && 0 <= j < |groups[k]| ==>
         groups[k][j] < |flags| && GroupOf(flags, groups[k][j]) == Some(groups[k][0])
  }

  /** A line is in some slice exactly when it belongs to a group. */
  lemma SliceMember(flags: seq<Flags>, groups: seq<seq<nat>>, i: nat)
    requires SlicesOf(flags, groups) && i < |flags|
    ensures GroupOf(flags, i).Some? <==>
      exists k, j :: 0 <= k < |groups| && 0 <= j < |groups[k]| && groups[k][j] == i
  {
    MembersMeaning(flags, |flags|);
    FlattenMember(groups, i);
  }

  /** A line starts a slice exactly when it heads its own group. */
  lemma SliceHead(flags: seq<Flags>, groups: seq<seq<nat>>, heads: seq<nat>, i: nat)
    requires SlicesOf(flags, groups) && i < |flags|
    requires |heads| == |groups| && forall k :: 0 <= k < |groups| ==> heads[k] == groups[k][0]
    ensures i in heads <==> GroupOf(flags, i) == Some(i)
  {
    if GroupOf(flags, i) == Some(i) {
      SliceMember(flags, groups, i);
      var k, j :| 0 <= k < |groups| && 0 <= j < |groups[k]| && groups[k][j] == i;
      assert heads[k] == i;
    }
    if i in heads {
      var k :| 0 <= k < |heads| && heads[k] == i;
      assert groups[k][0] == i;
    }
  }

  /** The sub-group of `lang` holds exactly the lines of groups of `lang`. */
  lemma SubGroupMember(lines: seq<string>, langs: seq<string>, flags: seq<Flags>,
                       groups: seq<seq<nat>>, lang: string, i: nat)
    requires flags == AllFlags(lines, langs) && SlicesOf(flags, groups) && i < |flags|
    requires HeadsTagged(groups, lines, langs)
    ensures i in Flatten(GroupsIn(groups, lines, langs, lang)) <==>
      GroupOf(flags, i).Some? && HeadCode(lines, langs, GroupOf(flags, i).value) == lang
  {
    GroupsInMember(groups, lines, langs, lang, i);
    SliceMember(flags, groups, i);
  }

  /** Every slice the slicer finds opens on a line carrying a language marker. */
  lemma SlicesHeadsTagged(lines: seq<string>, langs: seq<string>, groups: seq<seq<nat>>)
    requires SlicesOf(AllFlags(lines, langs), groups)
    ensures HeadsTagged(groups, lines, langs)
  {
    var flags := AllFlags(lines, langs);
    forall k | 0 <= k < |groups|
      ensures LangMarker(lines[groups[k][0]], langs).Some?
    {
      assert IsHead(flags[groups[k][0]]);
    }
  }

  /**
   * What line `i` contributes to the view, read off the slicer's tables as
   * the filter reads them: the lines of all sub-groups, the sub-group of
   * `lang`, and the head lines.
   */
  lemma EmitByTables(lines: seq<string>, langs: seq<string>, lang: string, groups: seq<seq<nat>>,
                     involved: map<string, seq<nat>>, heads: seq<nat>, allInvolved: seq<nat>, i: nat)
    requires i < |lines| && lang in langs
    requires SlicesOf(AllFlags(lines, langs), groups) && HeadsTagged(groups, lines, langs)
    requires involved.Keys == set l | l in langs
    requires forall l :: l in involved ==> involved[l] == Flatten(GroupsIn(groups, lines, langs, l))
    requires |heads| == |groups| && forall k :: 0 <= k < |groups| ==> heads[k] == groups[k][0]
    requires forall x :: x in allInvolved <==> exists m :: 0 <= m < |langs| && x in involved[langs[m]]
    ensures i !in allInvolved ==> Emit(lines, langs, lang, i) == [lines[i]]
    ensures i in allInvolved && i !in involved[lang] ==> Emit(lines, langs, lang, i) == []
    ensures i in involved[lang] && i !in heads ==> Emit(lines, langs, lang, i) == [lines[i]]
    ensures i in involved[lang] && i in heads ==>
              && LangMarker(lines[i], langs).Some?
              && Emit(lines, langs, lang, i) == [Excise(lines[i], LangMarker(lines[i], langs).value)]
  {
    var flags := AllFlags(lines, langs);
    SliceHead(flags, groups, heads, i);
    SubGroupMember(lines, langs, flags, groups, lang, i);
    AllInvolvedMeaning(lines, langs, groups, involved, allInvolved, i);
  }

  /** A line is in some sub-group exactly when the slicer put it in a group. */
  lemma AllInvolvedMeaning(lines: seq<string>, langs: seq<string>, groups: seq<seq<nat>>,
                           involved: map<string, seq<nat>>, allInvolved: seq<nat>, i: nat)
    requires i < |lines|
    requires SlicesOf(AllFlags(lines, langs), groups) && HeadsTagged(groups, lines, langs)
    requires involved.Keys == set l | l in langs
    requires forall l :: l in involved ==> involved[l] == Flatten(GroupsIn(groups, lines, langs, l))
    requires forall x :: x in allInvolved <==> exists m :: 0 <= m < |langs| && x in involved[langs[m]]
    ensures i in allInvolved <==> GroupOf(AllFlags(lines, langs), i).Some?
  {
    if i in allInvolved {
      var m :| 0 <= m < |langs| && i in involved[langs[m]];
      SubGroupMember(lines, langs, AllFlags(lines, langs), groups, langs[m], i);
    }
    if GroupOf(AllFlags(lines, langs), i).Some? {
      InvolvedComplete(lines, langs, groups, involved, i);
    }
  }

  /** A grouped line is among the lines of its head's language. */
  lemma InvolvedComplete(lines: seq<string>, langs: seq<string>, groups: seq<seq<nat>>,
                         involved: map<string, seq<nat>>, i: nat)
    requires i < |lines|
    requires SlicesOf(AllFlags(lines, langs), groups) && HeadsTagged(groups, lines, langs)
    requires involved.Keys == set l | l in langs
    requires forall l :: l in involved ==> involved[l] == Flatten(GroupsIn(groups, lines, langs, l))
    requires GroupOf(AllFlags(lines, langs), i).Some?
    ensures exists m :: 0 <= m < |langs| && i in involved[langs[m]]
  {
    var flags := AllFlags(lines, langs);
    SliceMember(flags, groups, i);
    var k, j :| 0 <= k < |groups| && 0 <= j < |groups[k]| && groups[k][j] == i;
    var l := HeadCode(lines, langs, groups[k][0]);
    GroupsInComplete(groups, lines, langs, l, k, j);
    var m :| 0 <= m < |langs| && langs[m] == l;
    assert i in involved[langs[m]];
  }

  /** The lines of all sub-groups together, language by language. */
  method ConcatSubGroups(involved: map<string, seq<nat>>, langs: seq<string>) returns (all: seq<nat>)
    requires forall m :: 0 <= m < |langs| ==> langs[m] in involved
    ensures forall x :: x in all <==> exists m :: 0 <= m < |langs| && x in involved[langs[m]]
  {
    all := [];
    for k := 0 to |langs|
      invariant forall x :: x in all <==> exists m :: 0 <= m < k && x in involved[langs[m]]
    {
      var more := involved[langs[k]];
      forall x ensures x in all + more <==> exists m :: 0 <= m < k + 1 && x in involved[langs[m]] {
        if exists m :: 0 <= m < k + 1 && x in involved[langs[m]] {
          var m :| 0 <= m < k + 1 && x in involved[langs[m]];
          if m < k { assert x in all; } else { assert x in more; }
        }
      }
      all := all + more;
    }
  }

  /**
   * The filter's final pass: every line outside the groups is kept, the lines
   * of `lang`'s groups are kept with the marker cut from their heads, and the
   * lines of other languages' groups are dropped.
   */
  method EmitLines(lines: seq<string>, langs: seq<string>, lang: string, groups: seq<seq<nat>>,
                   involved: map<string, seq<nat>>, heads: seq<nat>, allInvolved: seq<nat>)
    returns (container: seq<string>)
    requires lang in langs
    requires SlicesOf(AllFlags(lines, langs), groups) && HeadsTagged(groups, lines, langs)
    requires involved.Keys == set l | l in langs
    requires forall l :: l in involved ==> involved[l] == Flatten(GroupsIn(groups, lines, langs, l))
    requires |heads| == |groups| && forall k :: 0 <= k < |groups| ==> heads[k] == groups[k][0]
    requires forall x :: x in allInvolved <==> exists m :: 0 <= m < |langs| && x in involved[langs[m]]
    ensures container == LanguageView(lines, langs, lang)
  {
    container := [];
    for i := 0 to |lines|
      invariant container == ViewUpTo(lines, langs, lang, i)
    {
      EmitByTables(lines, langs, lang, groups, involved, heads, allInvolved, i);
      var emitted: seq<string> := [];
      if i !in allInvolved {
        emitted := [lines[i]];
      } else if i in involved[lang] {
        if i in heads {
          var p := LangMarker(lines[i], langs).value;
          emitted := [Excise(lines[i], p)];
        } else {
          emitted := [lines[i]];
        }
      }
      assert emitted == Emit(lines, langs, lang, i);
      container := container + emitted;
    }
  }

  /**
   * `_language_filter`: the view of language `lang`, built from the groups
   * the slicer finds.
   */
  method LanguageFilter(lines: seq<string>, langs: seq<string>, lang: string) returns (container: seq<string>)
    requires lang in langs
    ensures container == LanguageView(lines, langs, lang)
  {
    var refs := AllFlags(lines, langs);
    var idxSets := IdxSlicer(refs);
    SlicesHeadsTagged(lines, langs, idxSets);
    var involved, hitLines := DetermineSubGroups(idxSets, lines, langs);
    var allInvolved := ConcatSubGroups(involved, langs);
    container := EmitLines(lines, langs, lang, idxSets, involved, hitLines, allInvolved);
  }

  /** A line opens a group exactly when it carries a language marker. */
  lemma HeadIffMarker(l: string, langs: seq<string>)
    ensures IsHead(LineFlags(l, langs)) <==> LangMarker(l, langs).Some?
  {
    if LangMarker(l, langs).Some? {
      assert l[..4] == " * @";
      assert l[3] == '@';
    }
  }

  /** A line that is no head is emitted unchanged or dropped, never excised. */
  lemma {:induction false} ViewMember(lines: seq<string>, langs: seq<string>, lang: string, n: nat, x: string)
    requires n <= |lines| && x in ViewUpTo(lines, langs, lang, n)
    ensures exists i :: 0 <= i < n && x in Emit(lines, langs, lang, i)
  {
    if x !in Emit(lines, langs, lang, n - 1) {
      ViewMember(lines, langs, lang, n - 1, x);
    }
  }

  /** Without any language marker the filter returns its input. */
  lemma {:induction false} UnmarkedIsIdentity(lines: seq<string>, langs: seq<string>, lang: string, n: nat)
    requires n <= |lines|
    requires forall i :: 0 <= i < |lines| ==> LangMarker(lines[i], langs).None?
    ensures ViewUpTo(lines, langs, lang, n) == lines[..n]
  {
    if n > 0 {
      UnmarkedIsIdentity(lines, langs, lang, n - 1);
      var flags := AllFlags(lines, langs);
      forall i | 0 <= i < |flags| ensures !IsHead(flags[i]) {
        HeadIffMarker(lines[i], langs);
      }
      assert GroupOf(flags, n - 1).None?;
      assert lines[..n] == lines[..n - 1] + [lines[n - 1]];
    }
  }

  /**
   * Cutting the last marker out of every head of `lang` leaves no marker
   * behind: the head carried only one, and the cut does not make a new one.
   */
  predicate ExcisionClean(lines: seq<string>, langs: seq<string>, lang: string)
  {
    forall i :: 0 <= i < |lines| && LangMarker(lines[i], langs).Some?
                && MarkerCode(lines[i], LangMarker(lines[i], langs).value) == lang ==>
      LangMarker(Excise(lines[i], LangMarker(lines[i], langs).value), langs).None?
  }

  /** Under `ExcisionClean`, no line of the view carries a marker. */
  lemma ViewUnmarked(lines: seq<string>, langs: seq<string>, lang: string, x: string)
    requires ExcisionClean(lines, langs, lang) && x in LanguageView(lines, langs, lang)
    ensures LangMarker(x, langs).None?
  {
    ViewMember(lines, langs, lang, |lines|, x);
    var i :| 0 <= i < |lines| && x in Emit(lines, langs, lang, i);
    var flags := AllFlags(lines, langs);
    HeadIffMarker(lines[i], langs);
    match GroupOf(flags, i)
    case None =>
    case Some(h) =>
      if h != i {
        assert !IsHead(flags[i]);
      }
  }

  /** Filtering a view again for the same language changes nothing. */
  lemma ViewIdempotent(lines: seq<string>, langs: seq<string>, lang: string)
    requires ExcisionClean(lines, langs, lang)
    ensures LanguageView(LanguageView(lines, langs, lang), langs, lang) == LanguageView(lines, langs, lang)
  {
    var v := LanguageView(lines, langs, lang);
    forall i | 0 <= i < |v| ensures LangMarker(v[i], langs).None? {
      ViewUnmarked(lines, langs, lang, v[i]);
    }
    UnmarkedIsIdentity(v, langs, lang, |v|);
    assert v[..|v|] == v;
  }

  /**
   * Without `ExcisionClean` the filter is not idempotent: a head carrying
   * two markers keeps the first after the last is cut, and the second pass
   * drops it as a head of the other language.
   */
  lemma TwoMarkersNotIdempotent()
    ensures var lines := [" * @b [zh] [en] x"];
            var langs := ["en", "zh"];
            LanguageView(LanguageView(lines, langs, "en"), langs, "en") != LanguageView(lines, langs, "en")
  {
    TwoMarkersFirstView();
    TwoMarkersSecondView();
  }

  /** The marker a match settles on is the last one on the line. */
  lemma LastMarker(l: string, langs: seq<string>, p: nat)
    requires MarkerAt(l, langs, p) && forall q :: p < q ==> !MarkerAt(l, langs, q)
    ensures LangMarker(l, langs) == Some(p)
  {
  }

  lemma TwoMarkersFirstView()
    ensures LanguageView([" * @b [zh] [en] x"], ["en", "zh"], "en") == [" * @b [zh] x"]
  {
    var l := " * @b [zh] [en] x";
    var langs := ["en", "zh"];
    assert MarkerAt(l, langs, 11) by { assert l[12..14] == "en"; }
    forall q | 11 < q ensures !MarkerAt(l, langs, q) {
      if q == 12 { assert l[12] != '['; }
    }
    LastMarker(l, langs, 11);
    var e := " * @b [zh] x";
    assert Excise(l, 11) == e;
    var flags := AllFlags([l], langs);
    assert GroupOf(flags, 0) == Some(0);
    assert Emit([l], langs, "en", 0) == [e];
    assert LanguageView([l], langs, "en") == ViewUpTo([l], langs, "en", 0) + [e];
  }

  lemma TwoMarkersSecondView()
    ensures LanguageView([" * @b [zh] x"], ["en", "zh"], "en") == []
  {
    var e := " * @b [zh] x";
    var langs := ["en", "zh"];
    assert MarkerAt(e, langs, 6) by { assert e[7..9] == "zh"; }
    forall q | 6 < q ensures !MarkerAt(e, langs, q) {
      if q == 7 { assert e[7] != '['; }
    }
    LastMarker(e, langs, 6);
    assert HeadCode([e], langs, 0) == "zh";
    var flags2 := AllFlags([e], langs);
    assert GroupOf(flags2, 0) == Some(0);
    assert Emit([e], langs, "en", 0) == [];
    assert LanguageView([e], langs, "en") == ViewUpTo([e], langs, "en", 0) + [];
  }
}
