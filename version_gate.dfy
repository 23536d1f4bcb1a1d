/**
 * The version gate of the documentation preprocessor: `_ver_filter`
 * (docs/build.py:139-156) keeps or drops the documented objects of one
 * language view for one target version, `_capture_escape_files`
 * (docs/build.py:274-278) pairs headers with their sources, and the loop of
 * docs/build.py:386-402 decides which files of the version tree are removed.
 */
module VersionGate {
  import opened Wrappers
  import opened Strings
  import opened DocTags
  import opened Versions

  /** The separator the file text is cut into blocks on, and joined back with. */
  const BlockSep: string := "\n\n\n"
  /** What a file-header block is followed by, opening the Doxygen group. */
  const GroupOpen: string := "\n//! @{"
  /** The block closing the Doxygen group. */
  const GroupClose: string := "//! @}\n"

  /** `(''.join(x)).split('\n\n\n')`: the blocks of a file's lines. */
  function Blocks(x: seq<string>): (r: seq<string>)
    ensures |r| >= 1
  {
    Split(Flatten(x), BlockSep)
  }

  datatype BlockKind = FileHeader | Versioned | Plain

  /** Which branch of the filter a block takes: header first, then `@since`. */
  function Classify(block: string): (k: BlockKind)
    ensures k == FileHeader <==> IsFileDoc(block)
    ensures k == Versioned <==> !IsFileDoc(block) && SinceCommand(block).Some?
  {
    if IsFileDoc(block) then FileHeader
    else if SinceCommand(block).Some? then Versioned
    else Plain
  }

  /**
   * A block the filter handles without raising: a versioned block's version
   * is read from a participating group 1, and parses as a version.
   */
  predicate BlockReady(block: string)
  {
    Classify(block) == Versioned ==> SinceGroupParticipates(block) && WellFormedVersion(ObjVersion(block))
  }

  predicate GateReady(blocks: seq<string>, ver: string)
  {
    WellFormedVersion(ver) && forall i :: 0 <= i < |blocks| ==> BlockReady(blocks[i])
  }

  /** Whether a block survives the gate for target `ver`. */
  predicate Survives(block: string, ver: string)
    requires BlockReady(block) && WellFormedVersion(ver)
  {
    Classify(block) == Versioned ==> VersionLe(ObjVersion(block), ver)
  }

  /** What one block contributes to the output. */
  function KeepBlock(block: string, ver: string): (r: seq<string>)
    requires BlockReady(block) && WellFormedVersion(ver)
    ensures |r| <= 1
    ensures |r| == 1 <==> Survives(block, ver)
    ensures |r| == 1 ==> r[0] == if IsFileDoc(block) then block + GroupOpen else block
  {
    match Classify(block)
    case FileHeader => [block + GroupOpen]
    case Versioned => if VersionLe(ObjVersion(block), ver) then [block] else []
    case Plain => [block]
  }

  /** The surviving blocks of `blocks`, in order. */
  function GateBlocks(blocks: seq<string>, ver: string): seq<string>
    requires GateReady(blocks, ver)
  {
    if |blocks| == 0 then []
    else GateBlocks(blocks[..|blocks| - 1], ver) + KeepBlock(blocks[|blocks| - 1], ver)
  }

  predicate HasHeader(blocks: seq<string>)
  {
    exists i :: 0 <= i < |blocks| && IsFileDoc(blocks[i])
  }

  /**
   * The reported file version: that of the last header block holding
   * `@since `, or `''` when there is none.
   */
  function FileVersionOf(blocks: seq<string>): string
  {
    if |blocks| == 0 then ""
    else
      var b := blocks[|blocks| - 1];
      if IsFileDoc(b) && Contains(b, "@since ") then HeaderVersion(b)
      else FileVersionOf(blocks[..|blocks| - 1])
  }

  /** What `_ver_filter` returns, as values. */
  function GateOutput(x: seq<string>, ver: string): seq<string>
    requires GateReady(Blocks(x), ver)
  {
    GateBlocks(Blocks(x), ver) + (if HasHeader(Blocks(x)) then [GroupClose] else [])
  }

  /** How the gate's values grow by one block. */
  lemma GateStep(blocks: seq<string>, ver: string, i: nat)
    requires GateReady(blocks, ver) && i < |blocks|
    ensures GateReady(blocks[..i], ver) && GateReady(blocks[..i + 1], ver)
    ensures GateBlocks(blocks[..i + 1], ver) == GateBlocks(blocks[..i], ver) + KeepBlock(blocks[i], ver)
    ensures HasHeader(blocks[..i + 1]) <==> HasHeader(blocks[..i]) || IsFileDoc(blocks[i])
    ensures FileVersionOf(blocks[..i + 1]) ==
              if IsFileDoc(blocks[i]) && Contains(blocks[i], "@since ") then HeaderVersion(blocks[i])
              else FileVersionOf(blocks[..i])
  {
    var pre, next := blocks[..i], blocks[..i + 1];
    assert next[..i] == pre && next[i] == blocks[i];
    assert GateReady(pre, ver) by {
      forall j | 0 <= j < i ensures BlockReady(pre[j]) { assert pre[j] == blocks[j]; }
    }
    assert GateReady(next, ver) by {
      forall j | 0 <= j < i + 1 ensures BlockReady(next[j]) { assert next[j] == blocks[j]; }
    }
    HeaderStep(pre, next);
  }

  lemma HeaderStep(pre: seq<string>, next: seq<string>)
    requires |next| == |pre| + 1 && next[..|pre|] == pre
    ensures HasHeader(next) <==> HasHeader(pre) || IsFileDoc(next[|pre|])
  {
    if HasHeader(next) && !IsFileDoc(next[|pre|]) {
      var j :| 0 <= j < |next| && IsFileDoc(next[j]);
      assert pre[j] == next[j];
    }
    if HasHeader(pre) {
      var j :| 0 <= j < |pre| && IsFileDoc(pre[j]);
      assert next[j] == pre[j];
    }
  }

  /**
   * `_ver_filter`: the kept blocks, header blocks marked as opening a group
   * and one closing block appended when a header was seen; and the file
   * version its header declares.
   */
  method VerFilter(x: seq<string>, ver: string) returns (container: seq<string>, fileVer: string)
    requires GateReady(Blocks(x), ver)
    ensures container == GateOutput(x, ver)
    ensures fileVer == FileVersionOf(Blocks(x))
  {
    var blocks := Blocks(x);
    container := [];
    var needAppendEnd := false;
    fileVer := "";
    for i := 0 to |blocks|
      invariant container == GateBlocks(blocks[..i], ver)
      invariant needAppendEnd == HasHeader(blocks[..i])
      invariant fileVer == FileVersionOf(blocks[..i])
    {
      var block := blocks[i];
      GateStep(blocks, ver, i);
      BlockBranches(block, ver);
      if IsFileDoc(block) {
        if Contains(block, "@since ") {
          fileVer := Strip(FirstWord(Split(block, "@since ")[1]));
        }
        container := container + [block + GroupOpen];
        needAppendEnd := true;
      } else if SinceCommand(block).Some? {
        var objVer := ObjVersion(block);
        var keep := VerShouldInclude(objVer, ver);
        if keep {
          container := container + [block];
        }
      } else {
        container := container + [block];
      }
    }
    assert blocks[..|blocks|] == blocks;
    if needAppendEnd {
      container := container + [GroupClose];
    }
  }

  /** What each branch of the filter's loop body contributes for one block. */
  lemma BlockBranches(block: string, ver: string)
    requires BlockReady(block) && WellFormedVersion(ver)
    ensures IsFileDoc(block) ==> KeepBlock(block, ver) == [block + GroupOpen]
    ensures IsFileDoc(block) && Contains(block, "@since ") ==>
              HeaderVersion(block) == Strip(FirstWord(Split(block, "@since ")[1]))
    ensures !IsFileDoc(block) && SinceCommand(block).Some? ==>
              KeepBlock(block, ver) == if VersionLe(ObjVersion(block), ver) then [block] else []
    ensures !IsFileDoc(block) && SinceCommand(block).None? ==> KeepBlock(block, ver) == [block]
  {
  }

  /** The marked blocks grow by one block at a time. */
  lemma MarkedSnoc(blocks: seq<string>)
    requires |blocks| > 0
    ensures Marked(blocks) == Marked(blocks[..|blocks| - 1]) + Marked([blocks[|blocks| - 1]])
  {
  }

  /** The surviving blocks come in their original order, headers marked. */
  lemma {:induction false} GateOrder(blocks: seq<string>, ver: string)
    requires GateReady(blocks, ver)
    ensures IsSubsequence(GateBlocks(blocks, ver), Marked(blocks))
  {
    if |blocks| > 0 {
      var init := blocks[..|blocks| - 1];
      var b := blocks[|blocks| - 1];
      assert GateReady(init, ver) by {
        forall i | 0 <= i < |init| ensures BlockReady(init[i]) { assert init[i] == blocks[i]; }
      }
      GateOrder(init, ver);
      MarkedSnoc(blocks);
      var m := Marked([b]);
      if |KeepBlock(b, ver)| == 1 {
        SubsequenceReflexive(m);
      }
      SubsequenceConcat(GateBlocks(init, ver), Marked(init), KeepBlock(b, ver), m);
    }
  }

  /** When every block survives, the output is all blocks, headers marked. */
  lemma {:induction false} GateKeepsAll(blocks: seq<string>, ver: string)
    requires GateReady(blocks, ver)
    requires forall i :: 0 <= i < |blocks| ==> Survives(blocks[i], ver)
    ensures GateBlocks(blocks, ver) == Marked(blocks)
  {
    if |blocks| > 0 {
      var init, b := blocks[..|blocks| - 1], blocks[|blocks| - 1];
      assert forall i :: 0 <= i < |init| ==> init[i] == blocks[i];
      assert GateReady(init, ver);
      GateKeepsAll(init, ver);
      MarkedSnoc(blocks);
      assert KeepBlock(b, ver) == Marked([b]);
    }
  }

  /** The blocks with every header marked as opening a group. */
  function Marked(blocks: seq<string>): (r: seq<string>)
    ensures |r| == |blocks|
    ensures forall i :: 0 <= i < |blocks| ==>
              r[i] == if IsFileDoc(blocks[i]) then blocks[i] + GroupOpen else blocks[i]
  {
    seq(|blocks|, i requires 0 <= i < |blocks| => if IsFileDoc(blocks[i]) then blocks[i] + GroupOpen else blocks[i])
  }

  /**
   * A file with no header and no `@since` block is written back exactly as
   * read: joining the output on the block separator restores its text.
   */
  lemma UngatedRoundTrip(x: seq<string>, ver: string)
    requires WellFormedVersion(ver)
    requires forall i :: 0 <= i < |Blocks(x)| ==> Classify(Blocks(x)[i]) == Plain
    ensures GateReady(Blocks(x), ver)
    ensures Join(GateOutput(x, ver), BlockSep) == Flatten(x)
  {
    var blocks := Blocks(x);
    assert GateBlocks(blocks, ver) == blocks by {
      GateKeepsAll(blocks, ver);
      assert Marked(blocks) == blocks;
    }
    assert !HasHeader(blocks);
    assert GateOutput(x, ver) == blocks;
    SplitThenJoin(Flatten(x), BlockSep);
  }

  /** A block that is ready and whose object version has at most three components. */
  predicate ShortObject(block: string)
  {
    BlockReady(block) && (Classify(block) == Versioned ==> Short(ObjVersion(block)))
  }

  predicate ShortObjects(blocks: seq<string>)
  {
    forall i :: 0 <= i < |blocks| ==> ShortObject(blocks[i])
  }

  /**
   * Raising the target only adds blocks: what survives for `v1` survives for
   * any `v2` at least `v1`, in the same order.
   */
  lemma {:induction false} GateMonotone(blocks: seq<string>, v1: string, v2: string)
    requires GateReady(blocks, v1) && GateReady(blocks, v2) && ShortObjects(blocks)
    requires Short(v1) && Short(v2) && VersionLe(v1, v2)
    ensures IsSubsequence(GateBlocks(blocks, v1), GateBlocks(blocks, v2))
  {
    if |blocks| > 0 {
      var init := blocks[..|blocks| - 1];
      var b := blocks[|blocks| - 1];
      GateMonotone(init, v1, v2);
      if Classify(b) == Versioned && VersionLe(ObjVersion(b), v1) {
        VersionGateMonotone(ObjVersion(b), v1, v2);
      }
      if |KeepBlock(b, v1)| == 1 {
        SubsequenceReflexive(KeepBlock(b, v2));
      }
      SubsequenceConcat(GateBlocks(init, v1), GateBlocks(init, v2), KeepBlock(b, v1), KeepBlock(b, v2));
    }
  }

  /** A header block is always kept, marked, whatever the target. */
  lemma {:induction false} HeaderKept(blocks: seq<string>, ver: string, i: nat)
    requires GateReady(blocks, ver) && i < |blocks| && IsFileDoc(blocks[i])
    ensures blocks[i] + GroupOpen in GateBlocks(blocks, ver)
  {
    var init := blocks[..|blocks| - 1];
    if i < |blocks| - 1 {
      assert init[i] == blocks[i];
      HeaderKept(init, ver, i);
    }
  }

  // ---- `_capture_escape_files` ----

  /** `_pair_capture`: the header and source extensions paired with each other. */
  const PairCapture: map<string, string> := map["h" := "c", "c" := "h", "hpp" := "cpp", "cpp" := "hpp"]

  /** A name whose second dotted piece has a pair; any other name raises. */
  predicate Pairable(name: string)
  {
    |Split(name, ".")| >= 2 && Split(name, ".")[1] in PairCapture
  }

  /** `v1[0] + '.' + _pair_capture[v1[1]]` for the pieces `v1` of the name. */
  function Paired(name: string): string
    requires Pairable(name)
  {
    var parts := Split(name, ".");
    parts[0] + "." + PairCapture[parts[1]]
  }

  /**
   * A name with more dots is paired from its first two pieces, the rest
   * dropped: `a.h.in` pairs to `a.c`.
   */
  lemma PairedExtraDots(base: string, ext: string, tail: string)
    requires !Contains(base, ".") && !Contains(ext, ".") && ext in PairCapture
    ensures Pairable(base + "." + ext + "." + tail)
    ensures Paired(base + "." + ext + "." + tail) == base + "." + PairCapture[ext]
  {
    var name := base + "." + ext + "." + tail;
    assert Split(base, ".") == [base] && Split(ext, ".") == [ext];
    SplitAppend(base, ext, ".");
    SplitAppend(base + "." + ext, tail, ".");
    var parts := Split(name, ".");
    assert parts == [base] + [ext] + Split(tail, ".");
    assert parts[0] == base && parts[1] == ext;
  }

  /** `list(set(x + _tmp1))`, as the set it enumerates. */
  function CaptureEscapeFiles(names: seq<string>): (r: set<string>)
    requires forall i :: 0 <= i < |names| ==> Pairable(names[i])
  {
    (set i | 0 <= i < |names| :: names[i]) + (set i | 0 <= i < |names| :: Paired(names[i]))
  }

  /** `base.ext`: a name with one dot and an extension that has a pair. */
  predicate SimpleName(name: string)
  {
    |Split(name, ".")| == 2 && Split(name, ".")[1] in PairCapture
  }

  /** The pair of a simple name is simple, and pairs back to the name. */
  lemma PairInvolution(name: string)
    requires SimpleName(name)
    ensures Pairable(name) && SimpleName(Paired(name)) && Paired(Paired(name)) == name
  {
    var parts := Split(name, ".");
    var ext := PairCapture[parts[1]];
    var q := [parts[0], ext];
    PairBack(parts[1]);
    assert !Contains(ext, ".") by {
      forall j ensures !OccursAt(ext, ".", j) {
        if 0 <= j && j + 1 <= |ext| {
          assert ext[j] == ext[j..j + 1][0];
        }
      }
    }
    FreeOfSeparator(parts[0], ".");
    FreeOfSeparator(ext, ".");
    JoinThenSplit(q, ".");
    assert Join(q, ".") == Paired(name);
    SplitThenJoin(name, ".");
    assert Join(parts, ".") == parts[0] + "." + parts[1];
  }

  /** Each paired extension is paired back, and holds no dot. */
  lemma PairBack(e: string)
    requires e in PairCapture
    ensures PairCapture[e] in PairCapture && PairCapture[PairCapture[e]] == e
    ensures forall j :: 0 <= j < |PairCapture[e]| ==> PairCapture[e][j] != '.'
  {
    if e == "h" {
    } else if e == "c" {
    } else if e == "hpp" {
    } else {
      assert e == "cpp";
    }
  }

  /** For simple names the escape set holds every name and the pair of each of its names. */
  lemma EscapeClosedUnderPairing(names: seq<string>, n: string)
    requires forall i :: 0 <= i < |names| ==> SimpleName(names[i])
    ensures forall i :: 0 <= i < |names| ==> Pairable(names[i])
    ensures n in CaptureEscapeFiles(names) ==> SimpleName(n) && Paired(n) in CaptureEscapeFiles(names)
  {
    if n in CaptureEscapeFiles(names) {
      var i :| 0 <= i < |names| && (n == names[i] || n == Paired(names[i]));
      PairInvolution(names[i]);
    }
  }

  // ---- the version tree of one language (docs/build.py:386-402) ----

  /** What is written for one file: its kept blocks joined on the block separator. */
  function Rendered(content: seq<string>, ver: string): string
    requires GateReady(Blocks(content), ver)
  {
    Join(GateOutput(content, ver), BlockSep)
  }

  /**
   * A file is escaped on its own account: it declares a version, and that
   * version is newer than the target.
   */
  predicate TooNew(content: seq<string>, ver: string)
  {
    var fileVer := FileVersionOf(Blocks(content));
    && WellFormedVersion(ver)
    && fileVer != ""
    && WellFormedVersion(fileVer)
    && !VersionLe(fileVer, ver)
  }

  /** A file the loop handles without raising. */
  predicate FileReady(file: (string, seq<string>), ver: string)
  {
    && GateReady(Blocks(file.1), ver)
    && (FileVersionOf(Blocks(file.1)) != "" ==> WellFormedVersion(FileVersionOf(Blocks(file.1))))
    && (TooNew(file.1, ver) ==> Pairable(file.0))
  }

  /** A directory listing: distinct names, every file ready. */
  predicate TreeReady(files: seq<(string, seq<string>)>, ver: string)
  {
    && WellFormedVersion(ver)
    && (forall i :: 0 <= i < |files| ==> FileReady(files[i], ver))
    && forall i, j :: 0 <= i < j < |files| ==> files[i].0 != files[j].0
  }

  /** `should_be_escape`: the names of the too-new files, in listing order. */
  function TooNewNames(files: seq<(string, seq<string>)>, ver: string): seq<string>
  {
    if |files| == 0 then []
    else
      var f := files[|files| - 1];
      TooNewNames(files[..|files| - 1], ver) + (if TooNew(f.1, ver) then [f.0] else [])
  }

  /** The names collected are exactly those of the too-new files. */
  lemma TooNewNamesMember(files: seq<(string, seq<string>)>, ver: string, n: string)
    ensures n in TooNewNames(files, ver) <==>
              exists i :: 0 <= i < |files| && files[i].0 == n && TooNew(files[i].1, ver)
  {
    if n in TooNewNames(files, ver) {
      TooNewNamesSound(files, ver, n);
    }
    if exists i :: 0 <= i < |files| && files[i].0 == n && TooNew(files[i].1, ver) {
      var i :| 0 <= i < |files| && files[i].0 == n && TooNew(files[i].1, ver);
      TooNewNamesComplete(files, ver, i);
    }
  }

  lemma {:induction false} TooNewNamesSound(files: seq<(string, seq<string>)>, ver: string, n: string)
    requires n in TooNewNames(files, ver)
    ensures exists i :: 0 <= i < |files| && files[i].0 == n && TooNew(files[i].1, ver)
  {
    var init := files[..|files| - 1];
    if n in TooNewNames(init, ver) {
      TooNewNamesSound(init, ver, n);
      var i :| 0 <= i < |init| && init[i].0 == n && TooNew(init[i].1, ver);
      assert files[i] == init[i];
    } else {
      assert files[|files| - 1].0 == n && TooNew(files[|files| - 1].1, ver);
    }
  }

  lemma {:induction false} TooNewNamesComplete(files: seq<(string, seq<string>)>, ver: string, i: nat)
    requires i < |files| && TooNew(files[i].1, ver)
    ensures files[i].0 in TooNewNames(files, ver)
  {
    var init := files[..|files| - 1];
    if i < |files| - 1 {
      assert init[i] == files[i];
      TooNewNamesComplete(init, ver, i);
    }
  }

  /** Every too-new file has a paired name. */
  predicate EscapesPairable(files: seq<(string, seq<string>)>, ver: string)
  {
    forall i :: 0 <= i < |files| && TooNew(files[i].1, ver) ==> Pairable(files[i].0)
  }

  /** The names removed from the version tree. */
  function Escaped(files: seq<(string, seq<string>)>, ver: string): set<string>
    requires EscapesPairable(files, ver)
  {
    var names := TooNewNames(files, ver);
    assert forall k :: 0 <= k < |names| ==> Pairable(names[k]) by {
      forall k | 0 <= k < |names| ensures Pairable(names[k]) {
        TooNewNamesMember(files, ver, names[k]);
      }
    }
    CaptureEscapeFiles(names)
  }

  /**
   * The body of the first pass for one file: the text written for it, and
   * whether its declared version is newer than the target.
   */
  method GateFile(content: seq<string>, ver: string) returns (text: string, tooNew: bool)
    requires GateReady(Blocks(content), ver)
    requires FileVersionOf(Blocks(content)) != "" ==> WellFormedVersion(FileVersionOf(Blocks(content)))
    ensures text == Rendered(content, ver)
    ensures tooNew == TooNew(content, ver)
  {
    var tmp, fileVer := VerFilter(content, ver);
    tooNew := false;
    if fileVer != "" {
      var keep := VerShouldInclude(fileVer, ver);
      tooNew := !keep;
    }
    text := Join(tmp, BlockSep);
  }

  /**
   * The first pass over one language's files: each file is gated and
   * written, and the names of the too-new ones collected.
   */
  method GateFiles(files: seq<(string, seq<string>)>, ver: string)
    returns (written: map<string, string>, shouldBeEscape: seq<string>)
    requires TreeReady(files, ver)
    ensures shouldBeEscape == TooNewNames(files, ver)
    ensures written.Keys == set i | 0 <= i < |files| :: files[i].0
    ensures forall i :: 0 <= i < |files| ==> written[files[i].0] == Rendered(files[i].1, ver)
  {
    written := map[];
    shouldBeEscape := [];
    ghost var texts := seq(|files|, j requires 0 <= j < |files| => Rendered(files[j].1, ver));
    for i := 0 to |files|
      invariant shouldBeEscape == TooNewNames(files[..i], ver)
      invariant WrittenUpTo(files, texts, i, written)
    {
      var (name, content) := files[i];
      var text, tooNew := GateFile(content, ver);
      TooNewNamesStep(files, ver, i);
      if tooNew {
        shouldBeEscape := shouldBeEscape + [name];
      }
      WrittenStep(files, texts, i, written, text);
      written := written[name := text];
    }
    assert files[..|files|] == files;
  }

  /** The first `n` files have been written, file `j` with `texts[j]`. */
  predicate WrittenUpTo(files: seq<(string, seq<string>)>, texts: seq<string>, n: nat, written: map<string, string>)
    requires n <= |files| == |texts|
  {
    && written.Keys == (set j | 0 <= j < n :: files[j].0)
    && forall j :: 0 <= j < n ==> written[files[j].0] == texts[j]
  }

  lemma TooNewNamesStep(files: seq<(string, seq<string>)>, ver: string, i: nat)
    requires i < |files|
    ensures TooNewNames(files[..i + 1], ver)
         == TooNewNames(files[..i], ver) + (if TooNew(files[i].1, ver) then [files[i].0] else [])
  {
    assert files[..i + 1][..i] == files[..i];
  }

  lemma WrittenStep(files: seq<(string, seq<string>)>, texts: seq<string>, i: nat, written: map<string, string>, text: string)
    requires i < |files| == |texts|
    requires forall j :: 0 <= j < i ==> files[j].0 != files[i].0
    requires WrittenUpTo(files, texts, i, written)
    requires text == texts[i]
    ensures WrittenUpTo(files, texts, i + 1, written[files[i].0 := text])
  {
    var next := written[files[i].0 := text];
    assert next.Keys == (set j | 0 <= j < i + 1 :: files[j].0) by {
      forall n ensures n in next.Keys <==> exists j :: 0 <= j < i + 1 && files[j].0 == n {
        if n in written.Keys {
          var j :| 0 <= j < i && files[j].0 == n;
        }
      }
    }
    forall j | 0 <= j < i + 1
      ensures next[files[j].0] == texts[j]
    {
      if j < i {
        assert files[j].0 != files[i].0;
      }
    }
  }

  /** The second pass: every listed file whose name is in `escapeFiles` is removed. */
  method RemoveEscaped(files: seq<(string, seq<string>)>, written: map<string, string>, escapeFiles: set<string>)
    returns (kept: map<string, string>)
    requires written.Keys == set i | 0 <= i < |files| :: files[i].0
    requires forall i, j :: 0 <= i < j < |files| ==> files[i].0 != files[j].0
    ensures kept.Keys == set i | 0 <= i < |files| && files[i].0 !in escapeFiles :: files[i].0
    ensures forall n :: n in kept ==> kept[n] == written[n]
  {
    kept := written;
    assert kept.Keys == KeptNames(files, escapeFiles, 0);
    for i := 0 to |files|
      invariant kept.Keys == KeptNames(files, escapeFiles, i)
      invariant forall n :: n in kept ==> kept[n] == written[n]
    {
      KeptNamesStep(files, escapeFiles, i);
      if files[i].0 in escapeFiles {
        kept := kept - {files[i].0};
      }
    }
  }

  /** The names still present after the second pass has visited the first `i` files. */
  ghost function KeptNames(files: seq<(string, seq<string>)>, escapeFiles: set<string>, i: nat): set<string>
  {
    set j | 0 <= j < |files| && (i <= j || files[j].0 !in escapeFiles) :: files[j].0
  }

  lemma KeptNamesStep(files: seq<(string, seq<string>)>, escapeFiles: set<string>, i: nat)
    requires forall i, j :: 0 <= i < j < |files| ==> files[i].0 != files[j].0
    requires i < |files|
    ensures KeptNames(files, escapeFiles, i + 1) ==
              if files[i].0 in escapeFiles then KeptNames(files, escapeFiles, i) - {files[i].0}
              else KeptNames(files, escapeFiles, i)
  {
    var before, after := KeptNames(files, escapeFiles, i), KeptNames(files, escapeFiles, i + 1);
    forall n ensures n in after <==> n in before && (files[i].0 in escapeFiles ==> n != files[i].0) {
      if n in after {
        var j :| 0 <= j < |files| && (i + 1 <= j || files[j].0 !in escapeFiles) && files[j].0 == n;
        assert n in before;
      }
      if n in before && (files[i].0 in escapeFiles ==> n != files[i].0) {
        var j :| 0 <= j < |files| && (i <= j || files[j].0 !in escapeFiles) && files[j].0 == n;
        assert n in after;
      }
    }
  }

  /**
   * The loop over one language's files (docs/build.py:386-402): every file
   * is gated and written, then the too-new files and their pairs are
   * removed. The result maps each remaining name to the text written for it.
   */
  method VersionTree(files: seq<(string, seq<string>)>, ver: string) returns (written: map<string, string>)
    requires TreeReady(files, ver)
    ensures EscapesPairable(files, ver)
    ensures written.Keys == (set i | 0 <= i < |files| && files[i].0 !in Escaped(files, ver) :: files[i].0)
    ensures forall i :: 0 <= i < |files| && files[i].0 in written ==>
              written[files[i].0] == Rendered(files[i].1, ver)
  {
    var all, shouldBeEscape := GateFiles(files, ver);
    assert EscapesPairable(files, ver) by {
      forall i | 0 <= i < |files| && TooNew(files[i].1, ver) ensures Pairable(files[i].0) {
        assert FileReady(files[i], ver);
      }
    }
    var escapeFiles := Escaped(files, ver);
    written := RemoveEscaped(files, all, escapeFiles);
  }

  /** Removing a too-new `base.ext` also removes `base.<pair>`. */
  lemma PairRemovedTogether(files: seq<(string, seq<string>)>, ver: string, i: nat)
    requires EscapesPairable(files, ver)
    requires i < |files| && TooNew(files[i].1, ver)
    ensures files[i].0 in Escaped(files, ver) && Paired(files[i].0) in Escaped(files, ver)
  {
    var names := TooNewNames(files, ver);
    TooNewNamesMember(files, ver, files[i].0);
    var k :| 0 <= k < |names| && names[k] == files[i].0;
    TooNewNamesMember(files, ver, names[k]);
  }

  /** A file that is not too new stays unless it is the pair of one that is. */
  lemma KeptUnlessPaired(files: seq<(string, seq<string>)>, ver: string, i: nat)
    requires EscapesPairable(files, ver)
    requires forall k, j :: 0 <= k < j < |files| ==> files[k].0 != files[j].0
    requires i < |files| && !TooNew(files[i].1, ver)
    requires forall k :: 0 <= k < |files| && TooNew(files[k].1, ver) ==> Paired(files[k].0) != files[i].0
    ensures files[i].0 !in Escaped(files, ver)
  {
    var names := TooNewNames(files, ver);
    forall k | 0 <= k < |names| ensures Pairable(names[k]) && names[k] != files[i].0 && Paired(names[k]) != files[i].0 {
      TooNewNamesMember(files, ver, names[k]);
      var j :| 0 <= j < |files| && files[j].0 == names[k] && TooNew(files[j].1, ver);
      assert j != i;
    }
  }
}
