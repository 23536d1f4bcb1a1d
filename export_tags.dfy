/**
 * The exported objects of a C++ source (conanfile.py:38-59): the chunks of
 * the file between blank lines that carry an `@exporter` or `@attacher`
 * tag, with the tag line removed and, for exporters, `export ` put in front
 * of the declaration that follows the doc comment.
 */
module ExportTags {
  import opened Wrappers
  import opened Strings

  /** The two tags of `_get_export_objects`' `tag` argument. */
  datatype Tag = Exporter | Attacher

  function TagText(tag: Tag): string
  {
    match tag
    case Exporter => "@exporter"
    case Attacher => "@attacher"
  }

  /** A doc-comment line ` * @exporter...` (or ` * @attacher...`). */
  predicate IsTagLine(l: string, tag: Tag)
  {
    StartsWith(l, " * " + TagText(tag))
  }

  // A line closing a doc comment: a space, a star and a slash.
  predicate IsCloser(l: string)
  {
    StartsWith(l, " */")
  }

  lemma CloserIsNoTagLine(l: string, tag: Tag)
    requires IsCloser(l)
    ensures !IsTagLine(l, tag)
  {
    assert l[2] == '/';
    assert (" * " + TagText(tag))[2] == ' ';
  }

  predicate NoNewline(s: string)
  {
    forall j :: 0 <= j < |s| ==> s[j] != '\n'
  }

  lemma NoNewlineOfFree(s: string)
    requires !Contains(s, "\n")
    ensures NoNewline(s)
  {
    forall j | 0 <= j < |s| ensures s[j] != '\n' {
      assert !OccursAt(s, "\n", j);
      assert s[j..j + 1] == [s[j]];
    }
  }

  // ---- chunks ----

  /** `''.join(x).split('\n\n')`: the file cut at every blank line. */
  function Chunks(x: seq<string>): seq<string>
  {
    Split(Flatten(x), "\n\n")
  }

  /** `[_ for _ in chunks if tag in _]`. */
  function Tagged(chunks: seq<string>, tag: Tag): seq<string>
  {
    if |chunks| == 0 then []
    else (if Contains(chunks[0], TagText(tag)) then [chunks[0]] else []) + Tagged(chunks[1..], tag)
  }

  /** Only the tagged chunks are kept, every one of them, in their order. */
  lemma {:induction false} TaggedSelection(chunks: seq<string>, tag: Tag)
    ensures IsSubsequence(Tagged(chunks, tag), chunks)
    ensures forall c :: c in Tagged(chunks, tag) <==> c in chunks && Contains(c, TagText(tag))
  {
    if |chunks| > 0 {
      TaggedSelection(chunks[1..], tag);
      var rest := Tagged(chunks[1..], tag);
      assert chunks == [chunks[0]] + chunks[1..];
      if Contains(chunks[0], TagText(tag)) {
        assert Tagged(chunks, tag) == [chunks[0]] + rest;
        assert Tagged(chunks, tag)[1..] == rest;
      } else {
        assert Tagged(chunks, tag) == rest;
        SubsequenceCons(rest, chunks[1..], chunks[0]);
      }
    }
  }

  /** `[_ for _ in xs if _ != '']`. */
  function NonEmpty(xs: seq<string>): seq<string>
  {
    if |xs| == 0 then []
    else (if xs[0] != "" then [xs[0]] else []) + NonEmpty(xs[1..])
  }

  lemma {:induction false} NonEmptyMember(xs: seq<string>)
    ensures forall l :: l in NonEmpty(xs) <==> l in xs && l != ""
  {
    if |xs| > 0 {
      NonEmptyMember(xs[1..]);
      assert xs == [xs[0]] + xs[1..];
    }
  }

  /** The non-empty lines of one chunk. */
  function ChunkLines(chunk: string): seq<string>
  {
    NonEmpty(Split(chunk, "\n"))
  }

  // ---- the marking scan ----

  /** One line of the scan, and whether `\nexport ` was appended to it. */
  datatype Item = Item(line: string, marked: bool)

  function Render(it: Item): string
  {
    if it.marked then it.line + "\nexport " else it.line
  }

  function RenderAll(items: seq<Item>): (r: seq<string>)
    ensures |r| == |items|
  {
    seq(|items|, k requires 0 <= k < |items| => Render(items[k]))
  }

  /**
   * The scan over the first `n` lines: the items so far and the `_ptr`
   * flag, raised by a tag line and lowered by the closer it marks.
   */
  function MarkScan(lines: seq<string>, tag: Tag, n: nat): (r: (seq<Item>, bool))
    requires n <= |lines|
    ensures |r.0| == n
  {
    if n == 0 then ([], false)
    else
      var (items, ptr) := MarkScan(lines, tag, n - 1);
      var l := lines[n - 1];
      var armed := ptr || IsTagLine(l, tag);
      if IsCloser(l) && armed then (items + [Item(l, true)], false)
      else (items + [Item(l, false)], armed)
  }

  /** Some tag line before index `i` has no closer after it and before `i`. */
  predicate Armed(lines: seq<string>, tag: Tag, i: nat)
    requires i <= |lines|
  {
    exists j :: 0 <= j < i && IsTagLine(lines[j], tag) && forall k :: j < k < i ==> !IsCloser(lines[k])
  }

  /** The line at `i` is the first closer after a tag line. */
  predicate MarkedAt(lines: seq<string>, tag: Tag, i: nat)
    requires i < |lines|
  {
    IsCloser(lines[i]) && Armed(lines, tag, i)
  }

  /** How one more line moves the armed state. */
  lemma ArmedStep(lines: seq<string>, tag: Tag, n: nat)
    requires 0 < n <= |lines|
    ensures Armed(lines, tag, n) <==>
      IsTagLine(lines[n - 1], tag) || (!IsCloser(lines[n - 1]) && Armed(lines, tag, n - 1))
  {
    var l := lines[n - 1];
    if IsTagLine(l, tag) {
      assert IsTagLine(lines[n - 1], tag);
    } else if IsCloser(l) {
      forall j | 0 <= j < n && IsTagLine(lines[j], tag)
        ensures exists k :: j < k < n && IsCloser(lines[k])
      {
        assert j != n - 1;
        assert IsCloser(lines[n - 1]);
      }
    } else {
      forall j | 0 <= j < n && IsTagLine(lines[j], tag)
        ensures (forall k :: j < k < n ==> !IsCloser(lines[k])) <==> (j < n - 1 && forall k :: j < k < n - 1 ==> !IsCloser(lines[k]))
      {
        assert j != n - 1;
      }
    }
  }

  // The scan keeps every line and marks exactly the first closer after
  // each tag line.
  lemma MarkScanMeaning(lines: seq<string>, tag: Tag, n: nat)
    requires n <= |lines|
    ensures MarkScan(lines, tag, n).1 <==> Armed(lines, tag, n)
    ensures forall i :: 0 <= i < n ==> MarkScan(lines, tag, n).0[i] == Item(lines[i], MarkedAt(lines, tag, i))
  {
    MarkScanFlag(lines, tag, n);
    forall i | 0 <= i < n ensures MarkScan(lines, tag, n).0[i] == Item(lines[i], MarkedAt(lines, tag, i)) {
      MarkScanPrefix(lines, tag, i, n);
      MarkScanAt(lines, tag, i);
    }
  }

  /** The scan's flag is raised exactly when a tag line still waits for its closer. */
  lemma {:induction false} MarkScanFlag(lines: seq<string>, tag: Tag, n: nat)
    requires n <= |lines|
    ensures MarkScan(lines, tag, n).1 <==> Armed(lines, tag, n)
  {
    if n > 0 {
      MarkScanFlag(lines, tag, n - 1);
      ArmedStep(lines, tag, n);
      MarkScanStep(lines, tag, n - 1);
      if IsCloser(lines[n - 1]) {
        CloserIsNoTagLine(lines[n - 1], tag);
      }
    }
  }

  /** Later lines leave an item of the scan as it was made. */
  lemma {:induction false} MarkScanPrefix(lines: seq<string>, tag: Tag, i: nat, n: nat)
    requires i < n <= |lines|
    ensures MarkScan(lines, tag, n).0[i] == MarkScan(lines, tag, i + 1).0[i]
  {
    if n > i + 1 {
      MarkScanPrefix(lines, tag, i, n - 1);
      MarkScanStep(lines, tag, n - 1);
    }
  }

  /** The item a line becomes: marked exactly when it is the first closer after a tag line. */
  lemma MarkScanAt(lines: seq<string>, tag: Tag, i: nat)
    requires i < |lines|
    ensures MarkScan(lines, tag, i + 1).0[i] == Item(lines[i], MarkedAt(lines, tag, i))
  {
    MarkScanStep(lines, tag, i);
    MarkScanFlag(lines, tag, i);
    if IsCloser(lines[i]) {
      CloserIsNoTagLine(lines[i], tag);
    }
  }

  /** The scan takes one more line. */
  lemma MarkScanStep(lines: seq<string>, tag: Tag, i: nat)
    requires i < |lines|
    ensures var armed := MarkScan(lines, tag, i).1 || IsTagLine(lines[i], tag);
      var marked := IsCloser(lines[i]) && armed;
      MarkScan(lines, tag, i + 1) == (MarkScan(lines, tag, i).0 + [Item(lines[i], marked)], armed && !marked)
  {
  }

  /**
   * The `enumerate(zip(_obj, _res))` loop of `_get_export_objects`: every
   * closer met while the flag is raised gets `\nexport ` appended.
   */
  method MarkExportPoints(obj: seq<string>, tag: Tag) returns (res: seq<string>)
    ensures res == RenderAll(MarkScan(obj, tag, |obj|).0)
  {
    res := obj;
    var ptr := false;
    for i := 0 to |obj|
      invariant res == RenderAll(MarkScan(obj, tag, i).0) + obj[i..]
      invariant ptr == MarkScan(obj, tag, i).1
    {
      MarkStep(obj, tag, i);
      Splice(RenderAll(MarkScan(obj, tag, i).0), obj[i..], obj[i] + "\nexport ");
      assert obj[i..][0] == obj[i] && obj[i..][1..] == obj[i + 1..];
      if StartsWith(obj[i], " * " + TagText(tag)) {
        ptr := true;
      }
      if StartsWith(obj[i], " */") && ptr {
        res := res[i := res[i] + "\nexport "];
        ptr := false;
      }
    }
  }

  /** One more line of the scan, as the loop of `_get_export_objects` takes it. */
  lemma MarkStep(obj: seq<string>, tag: Tag, i: nat)
    requires i < |obj|
    ensures var armed := MarkScan(obj, tag, i).1 || IsTagLine(obj[i], tag);
      var marked := IsCloser(obj[i]) && armed;
      && RenderAll(MarkScan(obj, tag, i + 1).0)
           == RenderAll(MarkScan(obj, tag, i).0) + [if marked then obj[i] + "\nexport " else obj[i]]
      && MarkScan(obj, tag, i + 1).1 == (armed && !marked)
  {
    var (items, ptr) := MarkScan(obj, tag, i);
    var armed := ptr || IsTagLine(obj[i], tag);
    var marked := IsCloser(obj[i]) && armed;
    MarkScanStep(obj, tag, i);
    RenderAllAppend(items, [Item(obj[i], marked)]);
  }

  /** Replacing the first element after a prefix moves it into the prefix. */
  lemma Splice<T>(a: seq<T>, rest: seq<T>, x: T)
    requires |rest| > 0
    ensures (a + rest)[|a| := x] == a + [x] + rest[1..]
    ensures a + rest == a + [rest[0]] + rest[1..]
  {
  }

  /** `[_ for _ in xs if not _.startswith(f' * {tag}')]`. */
  function DropTagLines(xs: seq<string>, tag: Tag): seq<string>
  {
    if |xs| == 0 then []
    else (if IsTagLine(xs[0], tag) then [] else [xs[0]]) + DropTagLines(xs[1..], tag)
  }

  /** The same filter on items (a marked closer is never a tag line). */
  function DropTagItems(items: seq<Item>, tag: Tag): seq<Item>
  {
    if |items| == 0 then []
    else (if IsTagLine(items[0].line, tag) then [] else [items[0]]) + DropTagItems(items[1..], tag)
  }

  lemma {:induction false} DropRendered(items: seq<Item>, tag: Tag)
    requires forall k :: 0 <= k < |items| && items[k].marked ==> IsCloser(items[k].line)
    ensures DropTagLines(RenderAll(items), tag) == RenderAll(DropTagItems(items, tag))
  {
    if |items| > 0 {
      var it, rest := items[0], items[1..];
      assert [it] + rest == items;
      DropRendered(rest, tag);
      RenderAllCons(it, rest);
      DropTagLinesCons(Render(it), RenderAll(rest), tag);
      RenderTagLine(it, tag);
      var kept := if IsTagLine(it.line, tag) then [] else [it];
      DropTagItemsCons(it, rest, tag);
      RenderAllAppend(kept, DropTagItems(rest, tag));
      assert RenderAll(kept) == if IsTagLine(it.line, tag) then [] else [Render(it)];
    }
  }

  lemma DropTagLinesCons(x: string, xs: seq<string>, tag: Tag)
    ensures DropTagLines([x] + xs, tag) == (if IsTagLine(x, tag) then [] else [x]) + DropTagLines(xs, tag)
  {
    assert ([x] + xs)[1..] == xs;
  }

  lemma DropTagItemsCons(it: Item, rest: seq<Item>, tag: Tag)
    ensures DropTagItems([it] + rest, tag) == (if IsTagLine(it.line, tag) then [] else [it]) + DropTagItems(rest, tag)
  {
    assert ([it] + rest)[1..] == rest;
  }

  lemma RenderAllCons(it: Item, rest: seq<Item>)
    ensures RenderAll([it] + rest) == [Render(it)] + RenderAll(rest)
  {
  }

  lemma RenderAllAppend(a: seq<Item>, b: seq<Item>)
    ensures RenderAll(a + b) == RenderAll(a) + RenderAll(b)
  {
  }

  /** Rendering a marked closer keeps it a non-tag line. */
  lemma RenderTagLine(it: Item, tag: Tag)
    requires it.marked ==> IsCloser(it.line)
    ensures IsTagLine(Render(it), tag) <==> IsTagLine(it.line, tag)
  {
    if it.marked {
      CloserIsNoTagLine(it.line, tag);
      assert IsCloser(it.line + "\nexport ") by {
        assert (it.line + "\nexport ")[..3] == it.line[..3];
      }
      CloserIsNoTagLine(it.line + "\nexport ", tag);
    }
  }

  // ---- the closing replacement ----

  /** `.replace('export \n', 'export ')` for exporters, `.replace('export \n', '')` for attachers. */
  function Finish(text: string, tag: Tag): string
  {
    match tag
    case Exporter => Replace(text, "export \n", "export ")
    case Attacher => Replace(text, "export \n", "")
  }

  function Joiner(tag: Tag): string
  {
    match tag
    case Exporter => "export "
    case Attacher => ""
  }

  lemma FinishIsReplace(text: string, tag: Tag)
    ensures Finish(text, tag) == Replace(text, "export \n", Joiner(tag))
  {
  }

  /** `w` put in front of the first line, or the line `export ` alone after the last. */
  function PrefixFirst(w: string, ys: seq<string>): seq<string>
  {
    if |ys| == 0 then ["export "] else [w + ys[0]] + ys[1..]
  }

  /**
   * The object's lines as the replacement leaves them: each marked closer
   * followed by its next line with `export ` (exporter) or nothing
   * (attacher) in front; a marked closer that ends the chunk keeps a last
   * line `export ` under either tag.
   */
  function Spliced(items: seq<Item>, tag: Tag): seq<string>
  {
    if |items| == 0 then []
    else if items[0].marked then [items[0].line] + PrefixFirst(Joiner(tag), Spliced(items[1..], tag))
    else [items[0].line] + Spliced(items[1..], tag)
  }

  /** One line of a chunk: no newline, and not ending in `export `. */
  predicate PlainLine(l: string)
  {
    NoNewline(l) && !EndsWith(l, "export ")
  }

  /** No `export \n` starts within a plain line or at the newline after it. */
  lemma NoPatternBefore(a: string, b: string)
    requires PlainLine(a)
    ensures forall j :: 0 <= j <= |a| ==> !OccursAt(a + "\n" + b, "export \n", j)
  {
    var s := a + "\n" + b;
    var pat := "export \n";
    forall j | 0 <= j <= |a| ensures !OccursAt(s, pat, j) {
      if j + 8 > |s| {
      } else if j + 7 < |a| {
        assert s[j..j + 8][7] == a[j + 7];
        assert a[j + 7] != '\n';
      } else if j + 7 == |a| {
        assert s[j..j + 8][..7] == a[|a| - 7..];
        assert a[|a| - 7..] != "export ";
      } else {
        assert s[j..j + 8][|a| - j] == '\n';
        assert pat[|a| - j] != '\n';
      }
    }
  }

  lemma FinishLastMarked(l: string, w: string)
    requires PlainLine(l)
    ensures Replace(l + "\n" + "export ", "export \n", w) == l + "\n" + "export "
  {
    NoPatternBefore(l, "export ");
    assert forall j :: j > |l| ==> !OccursAt(l + "\n" + "export ", "export \n", j);
    ReplaceAbsent(l + "\n" + "export ", "export \n", w);
  }

  lemma FinishLastPlain(l: string, w: string)
    requires PlainLine(l)
    ensures Replace(l, "export \n", w) == l
  {
    forall j ensures !OccursAt(l, "export \n", j) {
      if 0 <= j && j + 8 <= |l| {
        assert l[j..j + 8][7] == l[j + 7];
      }
    }
    ReplaceAbsent(l, "export \n", w);
  }

  lemma FinishConsPlain(l: string, rest: string, w: string)
    requires PlainLine(l)
    ensures Replace(l + "\n" + rest, "export \n", w) == l + "\n" + Replace(rest, "export \n", w)
  {
    NoPatternBefore(l, rest);
    assert l + "\n" + rest == (l + "\n") + rest;
    ReplaceSkip(l + "\n", rest, "export \n", w);
  }

  lemma FinishConsMarked(l: string, rest: string, w: string)
    requires PlainLine(l)
    ensures Replace((l + "\nexport ") + "\n" + rest, "export \n", w) == l + "\n" + (w + Replace(rest, "export \n", w))
  {
    var pat := "export \n";
    NoPatternBefore(l, pat + rest);
    assert (l + "\nexport ") + "\n" + rest == (l + "\n") + (pat + rest);
    ReplaceSkip(l + "\n", pat + rest, pat, w);
    ReplaceFront(rest, pat, w);
  }

  lemma {:induction false} JoinPrefixFirst(w: string, ys: seq<string>)
    requires |ys| >= 1
    ensures Join(PrefixFirst(w, ys), "\n") == w + Join(ys, "\n")
  {
    var zs := PrefixFirst(w, ys);
    if |ys| > 1 {
      var rest := Join(ys[1..], "\n");
      assert zs[1..] == ys[1..];
      assert Join(zs, "\n") == (w + ys[0]) + "\n" + rest;
      assert Join(ys, "\n") == ys[0] + "\n" + rest;
    }
  }

  /**
   * The replacement undoes the marking as the source intends: joined with
   * newlines and replaced, the rendered items are the spliced lines joined.
   */
  lemma {:induction false} FinishSplices(items: seq<Item>, tag: Tag)
    requires forall k :: 0 <= k < |items| ==> PlainLine(items[k].line)
    ensures Finish(Join(RenderAll(items), "\n"), tag) == Join(Spliced(items, tag), "\n")
  {
    var w := Joiner(tag);
    FinishIsReplace(Join(RenderAll(items), "\n"), tag);
    if |items| > 0 {
      var it := items[0];
      var l := it.line;
      var tail := items[1..];
      if |items| == 1 {
        assert Join(RenderAll(items), "\n") == Render(it);
        if it.marked {
          FinishLastMarked(l, w);
          assert Render(it) == l + "\n" + "export ";
          assert Spliced(items, tag) == [l, "export "];
          assert Join([l, "export "], "\n") == l + "\n" + "export ";
        } else {
          FinishLastPlain(l, w);
          assert Spliced(items, tag) == [l];
        }
      } else {
        assert RenderAll(items)[1..] == RenderAll(tail);
        FinishSplices(tail, tag);
        FinishIsReplace(Join(RenderAll(tail), "\n"), tag);
        var jt := Join(RenderAll(tail), "\n");
        assert Join(RenderAll(items), "\n") == Render(it) + "\n" + jt;
        var st := Spliced(tail, tag);
        assert |st| >= 1;
        if it.marked {
          FinishConsMarked(l, jt, w);
          JoinPrefixFirst(w, st);
          assert Spliced(items, tag) == [l] + PrefixFirst(w, st);
          assert Join(Spliced(items, tag), "\n") == l + "\n" + Join(PrefixFirst(w, st), "\n");
        } else {
          FinishConsPlain(l, jt, w);
          assert Spliced(items, tag) == [l] + st;
          assert Join(Spliced(items, tag), "\n") == l + "\n" + Join(st, "\n");
        }
      }
    }
  }

  // ---- the replacement on any lines ----

  /**
   * What `.replace('export \n', w)` leaves of newline-free pieces joined on
   * newlines: a piece ending in `export ` loses that ending and is joined to
   * the next piece by `w`. The tool's marker line `export ` and a line of the
   * file that happens to end in `export ` are treated alike.
   */
  function Glued(ps: seq<string>, w: string): string
  {
    if |ps| == 0 then ""
    else if |ps| == 1 then ps[0]
    else if EndsWith(ps[0], "export ") then ps[0][..|ps[0]| - 7] + w + Glued(ps[1..], w)
    else ps[0] + "\n" + Glued(ps[1..], w)
  }

  lemma NoNewlineNoPattern(l: string)
    requires NoNewline(l)
    ensures forall j :: !OccursAt(l, "export \n", j)
  {
    forall j ensures !OccursAt(l, "export \n", j) {
      if 0 <= j && j + 8 <= |l| {
        assert l[j..j + 8][7] == l[j + 7];
      }
    }
  }

  /** Before a piece's `export ` ending and the newline after it, no `export \n` starts. */
  lemma NoPatternInFront(q: string, rest: string)
    requires NoNewline(q)
    ensures forall j :: 0 <= j < |q| ==> !OccursAt(q + ("export \n" + rest), "export \n", j)
  {
    var s := q + ("export \n" + rest);
    forall j | 0 <= j < |q| ensures !OccursAt(s, "export \n", j) {
      if j + 8 <= |s| {
        assert s[j..j + 8][7] == s[j + 7];
        if j + 7 < |q| {
          assert s[j + 7] == q[j + 7];
        } else {
          assert s[j + 7] == "export \n"[j + 7 - |q|];
        }
      }
    }
  }

  /** The replacement glues every piece ending in `export ` to the next one, and changes nothing else. */
  lemma {:induction false} ReplaceGlued(ps: seq<string>, w: string)
    requires forall k :: 0 <= k < |ps| ==> NoNewline(ps[k])
    ensures Replace(Join(ps, "\n"), "export \n", w) == Glued(ps, w)
  {
    var pat := "export \n";
    if |ps| == 0 {
      ReplaceAbsent("", pat, w);
    } else if |ps| == 1 {
      NoNewlineNoPattern(ps[0]);
      ReplaceAbsent(ps[0], pat, w);
    } else {
      var p, rest := ps[0], Join(ps[1..], "\n");
      ReplaceGlued(ps[1..], w);
      assert Join(ps, "\n") == p + "\n" + rest;
      if EndsWith(p, "export ") {
        var q := p[..|p| - 7];
        assert p == q + "export ";
        assert NoNewline(q) by {
          forall j | 0 <= j < |q| ensures q[j] != '\n' { assert q[j] == p[j]; }
        }
        assert p + "\n" + rest == q + (pat + rest) by {
          ConcatAssoc(q, "export ", "\n");
          ConcatAssoc(q, pat, rest);
        }
        NoPatternInFront(q, rest);
        ReplaceSkip(q, pat + rest, pat, w);
        ReplaceFront(rest, pat, w);
      } else {
        FinishConsPlain(p, rest, w);
      }
    }
  }

  /** The lines a rendered item stands for: a marked closer is followed by the line `export `. */
  function Pieces(items: seq<Item>): (r: seq<string>)
    ensures |r| >= |items|
  {
    if |items| == 0 then []
    else (if items[0].marked then [items[0].line, "export "] else [items[0].line]) + Pieces(items[1..])
  }

  lemma {:induction false} JoinPieces(items: seq<Item>)
    ensures Join(RenderAll(items), "\n") == Join(Pieces(items), "\n")
  {
    if |items| > 0 {
      var it, rest := items[0], items[1..];
      var l := it.line;
      assert [it] + rest == items;
      RenderAllCons(it, rest);
      assert Render(it) == l + "\n" + "export " || Render(it) == l by {
        if it.marked {
          ConcatAssoc(l, "\n", "export ");
        }
      }
      var front := if it.marked then [l, "export "] else [l];
      assert Pieces(items) == front + Pieces(rest);
      if |rest| == 0 {
        assert Pieces(items) == front;
      } else {
        JoinPieces(rest);
        var j := Join(Pieces(rest), "\n");
        JoinFront(Render(it), RenderAll(rest), "\n");
        if it.marked {
          assert front + Pieces(rest) == [l] + (["export "] + Pieces(rest));
          JoinFront("export ", Pieces(rest), "\n");
          JoinFront(l, ["export "] + Pieces(rest), "\n");
          assert l + "\n" + ("export " + "\n" + j) == (l + "\n" + "export ") + "\n" + j;
        } else {
          JoinFront(l, Pieces(rest), "\n");
        }
      }
    }
  }

  lemma {:induction false} PiecesClean(items: seq<Item>)
    requires forall k :: 0 <= k < |items| ==> NoNewline(items[k].line)
    ensures forall k :: 0 <= k < |Pieces(items)| ==> NoNewline(Pieces(items)[k])
  {
    if |items| > 0 {
      PiecesClean(items[1..]);
      var front := if items[0].marked then [items[0].line, "export "] else [items[0].line];
      assert Pieces(items) == front + Pieces(items[1..]);
      assert NoNewline("export ");
    }
  }

  /** One object as `_get_export_objects` builds it from a tagged chunk. */
  function ExportObject(chunk: string, tag: Tag): string
  {
    var lines := ChunkLines(chunk);
    Finish(Join(DropTagLines(RenderAll(MarkScan(lines, tag, |lines|).0), tag), "\n"), tag)
  }

  function Lines(items: seq<Item>): (r: seq<string>)
    ensures |r| == |items|
  {
    seq(|items|, k requires 0 <= k < |items| => items[k].line)
  }

  lemma DropTagItemsLines(items: seq<Item>, tag: Tag)
    ensures Lines(DropTagItems(items, tag)) == DropTagLines(Lines(items), tag)
    ensures forall it :: it in DropTagItems(items, tag) ==> it in items && !IsTagLine(it.line, tag)
  {
    DropTagItemsText(items, tag);
    DropTagItemsKept(items, tag);
  }

  lemma {:induction false} DropTagItemsText(items: seq<Item>, tag: Tag)
    ensures Lines(DropTagItems(items, tag)) == DropTagLines(Lines(items), tag)
  {
    if |items| > 0 {
      DropTagItemsText(items[1..], tag);
      assert Lines(items)[1..] == Lines(items[1..]);
      LinesCons(items[0], DropTagItems(items[1..], tag));
    }
  }

  lemma LinesCons(it: Item, rest: seq<Item>)
    ensures Lines([it] + rest) == [it.line] + Lines(rest)
  {
  }

  lemma {:induction false} DropTagItemsKept(items: seq<Item>, tag: Tag)
    ensures forall it :: it in DropTagItems(items, tag) ==> it in items && !IsTagLine(it.line, tag)
  {
    if |items| > 0 {
      DropTagItemsKept(items[1..], tag);
      assert forall it :: it in items[1..] ==> it in items;
    }
  }

  /** Every spliced line is a kept line, a kept line behind the joiner, or `export ` alone. */
  lemma {:induction false} SplicedLines(items: seq<Item>, tag: Tag)
    ensures forall y :: y in Spliced(items, tag) ==>
      y == "export " || exists k :: 0 <= k < |items| && (y == items[k].line || y == Joiner(tag) + items[k].line)
  {
    if |items| > 0 {
      SplicedLines(items[1..], tag);
      var st := Spliced(items[1..], tag);
      forall y | y in Spliced(items, tag)
        ensures y == "export " || exists k :: 0 <= k < |items| && (y == items[k].line || y == Joiner(tag) + items[k].line)
      {
        if y != items[0].line && y != "export " {
          if items[0].marked && |st| > 0 && y == Joiner(tag) + st[0] {
            assert st[0] == items[1].line;
          } else {
            assert y in st;
            var k :| 0 <= k < |items[1..]| && (y == items[1..][k].line || y == Joiner(tag) + items[1..][k].line);
            assert items[1..][k] == items[k + 1];
          }
        }
      }
    }
  }

  /** With no marked line last, the attacher's splice gives the lines back unchanged. */
  lemma {:induction false} SplicedAttacher(items: seq<Item>)
    requires |items| == 0 || !items[|items| - 1].marked
    ensures Spliced(items, Attacher) == Lines(items)
  {
    if |items| > 0 {
      SplicedAttacher(items[1..]);
      assert Lines(items) == [items[0].line] + Lines(items[1..]);
      if items[0].marked {
        var st := Spliced(items[1..], Attacher);
        assert |items| > 1;
        assert PrefixFirst("", st) == ["" + st[0]] + st[1..];
        assert "" + st[0] == st[0];
      }
    }
  }

  /**
   * With no marked line last, the exporter's splice keeps every line and
   * puts `export ` in front of each line that follows a marked closer.
   */
  lemma {:induction false} SplicedExporter(items: seq<Item>)
    requires |items| == 0 || !items[|items| - 1].marked
    ensures |Spliced(items, Exporter)| == |items|
    ensures forall k :: 0 <= k < |items| ==>
      Spliced(items, Exporter)[k] == (if k > 0 && items[k - 1].marked then "export " + items[k].line else items[k].line)
  {
    if |items| > 0 {
      var tail := items[1..];
      SplicedExporter(tail);
      var st := Spliced(tail, Exporter);
      var r := Spliced(items, Exporter);
      var front := if items[0].marked then PrefixFirst("export ", st) else st;
      assert r == [items[0].line] + front;
      if items[0].marked {
        PrefixFirstAt("export ", st);
      }
      forall k | 1 <= k < |items|
        ensures r[k] == (if items[k - 1].marked then "export " + items[k].line else items[k].line)
      {
        assert r[k] == front[k - 1];
        assert tail[k - 1] == items[k];
        if k > 1 {
          assert tail[k - 2] == items[k - 1];
        }
      }
    }
  }

  lemma PrefixFirstAt(w: string, ys: seq<string>)
    requires |ys| > 0
    ensures |PrefixFirst(w, ys)| == |ys|
    ensures PrefixFirst(w, ys)[0] == w + ys[0]
    ensures forall k :: 0 < k < |ys| ==> PrefixFirst(w, ys)[k] == ys[k]
  {
  }

  /** The kept items of a chunk: its non-empty lines, scanned, without tag lines. */
  function KeptItems(chunk: string, tag: Tag): seq<Item>
  {
    var lines := ChunkLines(chunk);
    DropTagItems(MarkScan(lines, tag, |lines|).0, tag)
  }

  /** No kept line of the chunk ends in `export ` (the text the replacement looks for). */
  predicate KeptNoExportAtEnd(chunk: string, tag: Tag)
  {
    forall k :: 0 <= k < |KeptItems(chunk, tag)| ==> !EndsWith(KeptItems(chunk, tag)[k].line, "export ")
  }

  /**
   * An object is its chunk's kept lines, spliced: the tool's marker
   * `\nexport ` followed by a newline is turned into the intended prefix.
   */
  lemma ExportObjectSpliced(chunk: string, tag: Tag)
    requires KeptNoExportAtEnd(chunk, tag)
    ensures ExportObject(chunk, tag) == Join(Spliced(KeptItems(chunk, tag), tag), "\n")
    ensures forall k :: 0 <= k < |KeptItems(chunk, tag)| ==> PlainLine(KeptItems(chunk, tag)[k].line)
    ensures Lines(KeptItems(chunk, tag)) == DropTagLines(ChunkLines(chunk), tag)
  {
    var lines := ChunkLines(chunk);
    var items := MarkScan(lines, tag, |lines|).0;
    var kept := KeptItems(chunk, tag);
    KeptNoNewline(chunk, tag);
    assert forall k :: 0 <= k < |kept| ==> PlainLine(kept[k].line);
    MarkScanMeaning(lines, tag, |lines|);
    DropRendered(items, tag);
    DropTagItemsLines(items, tag);
    FinishSplices(kept, tag);
    assert Lines(items) == lines;
  }

  /** The kept lines of a chunk hold no newline. */
  lemma KeptNoNewline(chunk: string, tag: Tag)
    ensures forall k :: 0 <= k < |KeptItems(chunk, tag)| ==> NoNewline(KeptItems(chunk, tag)[k].line)
  {
    var lines := ChunkLines(chunk);
    var items := MarkScan(lines, tag, |lines|).0;
    MarkScanMeaning(lines, tag, |lines|);
    NonEmptyMember(Split(chunk, "\n"));
    forall k | 0 <= k < |items| ensures NoNewline(items[k].line) {
      assert lines[k] in lines;
      NoNewlineOfFree(lines[k]);
    }
    DropTagItemsLines(items, tag);
    var kept := DropTagItems(items, tag);
    forall k | 0 <= k < |kept| ensures NoNewline(kept[k].line) {
      assert kept[k] in kept;
    }
  }

  /**
   * Any object, whatever its lines: the kept lines, each marked closer
   * followed by the line `export `, joined on newlines, with every line that
   * ends in `export ` joined to the next one.
   */
  lemma ExportObjectGlued(chunk: string, tag: Tag)
    ensures ExportObject(chunk, tag) == Glued(Pieces(KeptItems(chunk, tag)), Joiner(tag))
    ensures Lines(KeptItems(chunk, tag)) == DropTagLines(ChunkLines(chunk), tag)
  {
    var lines := ChunkLines(chunk);
    var items := MarkScan(lines, tag, |lines|).0;
    MarkScanMeaning(lines, tag, |lines|);
    NonEmptyMember(Split(chunk, "\n"));
    forall k | 0 <= k < |items| ensures NoNewline(items[k].line) {
      assert lines[k] in lines;
      NoNewlineOfFree(lines[k]);
    }
    DropRendered(items, tag);
    DropTagItemsLines(items, tag);
    var kept := DropTagItems(items, tag);
    forall k | 0 <= k < |kept| ensures NoNewline(kept[k].line) {
      assert kept[k] in kept;
    }
    JoinPieces(kept);
    PiecesClean(kept);
    FinishIsReplace(Join(RenderAll(kept), "\n"), tag);
    ReplaceGlued(Pieces(kept), Joiner(tag));
    assert Lines(items) == lines;
  }

  /** Only closers are marked among the kept items. */
  lemma KeptMarksCloser(chunk: string, tag: Tag)
    ensures forall k :: 0 <= k < |KeptItems(chunk, tag)| && KeptItems(chunk, tag)[k].marked ==>
      IsCloser(KeptItems(chunk, tag)[k].line)
  {
    var lines := ChunkLines(chunk);
    var items := MarkScan(lines, tag, |lines|).0;
    MarkScanMeaning(lines, tag, |lines|);
    DropTagItemsLines(items, tag);
    var kept := KeptItems(chunk, tag);
    forall k | 0 <= k < |kept| && kept[k].marked ensures IsCloser(kept[k].line) {
      assert kept[k] in items;
    }
  }

  predicate EndsInCloser(xs: seq<string>)
  {
    |xs| > 0 && IsCloser(xs[|xs| - 1])
  }

  /** The object of an attacher chunk is its non-empty, non-tag lines, unless they end in a closer. */
  lemma AttacherKeepsLines(chunk: string)
    requires KeptNoExportAtEnd(chunk, Attacher)
    requires !EndsInCloser(DropTagLines(ChunkLines(chunk), Attacher))
    ensures ExportObject(chunk, Attacher) == Join(DropTagLines(ChunkLines(chunk), Attacher), "\n")
  {
    ExportObjectSpliced(chunk, Attacher);
    KeptMarksCloser(chunk, Attacher);
    var kept := KeptItems(chunk, Attacher);
    if |kept| > 0 {
      assert Lines(kept)[|kept| - 1] == kept[|kept| - 1].line;
    }
    SplicedAttacher(kept);
  }

  /**
   * An attacher chunk that ends in a marked closer keeps the tool's
   * `export ` at its end.
   */
  lemma AttacherDanglingExport(chunk: string)
    requires KeptNoExportAtEnd(chunk, Attacher)
    requires var kept := KeptItems(chunk, Attacher); |kept| > 0 && kept[|kept| - 1].marked
    ensures EndsWith(ExportObject(chunk, Attacher), "\nexport ")
  {
    var kept := KeptItems(chunk, Attacher);
    var sp := Spliced(kept, Attacher);
    assert ExportObject(chunk, Attacher) == Join(sp, "\n") by {
      ExportObjectSpliced(chunk, Attacher);
    }
    SplicedEndsMarked(kept, Attacher);
    JoinEndsExport(sp);
  }

  lemma {:induction false} SplicedEndsMarked(items: seq<Item>, tag: Tag)
    requires |items| > 0 && items[|items| - 1].marked
    ensures |Spliced(items, tag)| >= 2 && Spliced(items, tag)[|Spliced(items, tag)| - 1] == "export "
  {
    if |items| > 1 {
      SplicedEndsMarked(items[1..], tag);
    }
  }

  lemma JoinEndsExport(xs: seq<string>)
    requires |xs| >= 2 && xs[|xs| - 1] == "export "
    ensures EndsWith(Join(xs, "\n"), "\nexport ")
  {
    JoinLast(xs);
    assert "\n" + xs[|xs| - 1] == "\nexport ";
  }

  lemma {:induction false} JoinLast(xs: seq<string>)
    requires |xs| >= 2
    ensures EndsWith(Join(xs, "\n"), "\n" + xs[|xs| - 1])
  {
    if |xs| > 2 {
      JoinLast(xs[1..]);
      var t := Join(xs[1..], "\n");
      assert Join(xs, "\n") == xs[0] + "\n" + t;
      var e := "\n" + xs[|xs| - 1];
      assert (xs[0] + "\n" + t)[|xs[0] + "\n" + t| - |e|..] == t[|t| - |e|..];
    }
  }

  /**
   * Read back line by line, an object has exactly its spliced lines, and
   * none of them is a tag line.
   */
  lemma ObjectLinesRoundTrip(chunk: string, tag: Tag)
    requires KeptNoExportAtEnd(chunk, tag)
    ensures |Spliced(KeptItems(chunk, tag), tag)| > 0 ==>
      Split(ExportObject(chunk, tag), "\n") == Spliced(KeptItems(chunk, tag), tag)
    ensures forall y :: y in Spliced(KeptItems(chunk, tag), tag) ==> !IsTagLine(y, tag)
  {
    ExportObjectSpliced(chunk, tag);
    var kept := KeptItems(chunk, tag);
    var lines := ChunkLines(chunk);
    DropTagItemsLines(MarkScan(lines, tag, |lines|).0, tag);
    forall k | 0 <= k < |kept| ensures !IsTagLine(kept[k].line, tag) {
      assert kept[k] in kept;
    }
    SplicedClean(kept, tag);
    var sp := Spliced(kept, tag);
    if |sp| > 0 {
      forall k | 0 <= k < |sp| ensures Find(sp[k] + "\n", "\n") == Some(|sp[k]|) {
        assert sp[k] in sp;
        NewlineFree(sp[k]);
      }
      JoinThenSplit(sp, "\n");
    }
  }

  lemma SplicedClean(items: seq<Item>, tag: Tag)
    requires forall k :: 0 <= k < |items| ==> PlainLine(items[k].line) && !IsTagLine(items[k].line, tag)
    ensures forall y :: y in Spliced(items, tag) ==> NoNewline(y) && !IsTagLine(y, tag)
  {
    SplicedLines(items, tag);
    forall y | y in Spliced(items, tag) ensures NoNewline(y) && !IsTagLine(y, tag) {
      if y == "export " {
        assert y[2] != (" * " + TagText(tag))[2];
      } else {
        var k :| 0 <= k < |items| && (y == items[k].line || y == Joiner(tag) + items[k].line);
        JoinedLineClean(items[k].line, tag);
      }
    }
  }

  /** A kept line, bare or behind the joiner, has no newline and is no tag line. */
  lemma JoinedLineClean(l: string, tag: Tag)
    requires PlainLine(l) && !IsTagLine(l, tag)
    ensures NoNewline(Joiner(tag) + l) && !IsTagLine(Joiner(tag) + l, tag)
  {
    var y := Joiner(tag) + l;
    if tag == Exporter {
      assert y[0] != (" * " + TagText(tag))[0];
    } else {
      assert y == l;
    }
  }

  lemma NewlineFree(y: string)
    requires NoNewline(y)
    ensures Find(y + "\n", "\n") == Some(|y|)
  {
    forall j ensures !OccursAt(y, "\n", j) {
      if 0 <= j < |y| {
        assert y[j..j + 1][0] == y[j];
      }
    }
    FreeOfSeparator(y, "\n");
  }

  /** `_get_export_objects(x, tag)`: one object per tagged chunk, in file order. */
  function ExportObjects(x: seq<string>, tag: Tag): (r: seq<string>)
  {
    var tagged := Tagged(Chunks(x), tag);
    seq(|tagged|, k requires 0 <= k < |tagged| => ExportObject(tagged[k], tag))
  }

  method GetExportObjects(x: seq<string>, tag: Tag) returns (container: seq<string>)
    ensures container == ExportObjects(x, tag)
  {
    var cache := Split(Flatten(x), "\n\n");
    var exportObjs := Tagged(cache, tag);
    ghost var want := ExportObjects(x, tag);
    assert |want| == |exportObjs|;
    container := [];
    for k := 0 to |exportObjs|
      invariant container == want[..k]
    {
      var obj := NonEmpty(Split(exportObjs[k], "\n"));
      var res := MarkExportPoints(obj, tag);
      var text := Join(DropTagLines(res, tag), "\n");
      var piece := Finish(text, tag);
      assert piece == want[k] by {
        assert obj == ChunkLines(exportObjs[k]);
      }
      PrefixSnoc(container, want, k, piece);
      container := container + [piece];
    }
    assert want[..|exportObjs|] == want;
  }
}
