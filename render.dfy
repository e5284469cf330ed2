/**
 * Structure rendering: the parts and chapters found by the scan become the
 * lines `\part{P}`, then `\chapter{C}` and `\input{ideas/P/C}` for each
 * chapter, then one empty line per part, joined with "\n".
 */
module Rendering {
  import opened Text
  import opened Structure

  /** Python's `"\n".join(lines)`. */
  function Join(lines: seq<string>): string
    decreases |lines|
  {
    if |lines| == 0 then ""
    else if |lines| == 1 then lines[0]
    else lines[0] + "\n" + Join(lines[1..])
  }

  /** Python's `text.split("\n")`: always at least one piece. */
  function Split(text: string): (r: seq<string>)
    ensures |r| > 0
    decreases |text|
  {
    match FindFrom(text, "\n", 0)
    case None => [text]
    case Some(k) => [text[..k]] + Split(text[k + 1..])
  }

  predicate NoNewline(line: string)
  {
    '\n' !in line
  }

  /** Joining lines that hold no newline can be undone by splitting. */
  lemma {:induction false} SplitJoin(lines: seq<string>)
    requires |lines| > 0
    requires forall k :: 0 <= k < |lines| ==> NoNewline(lines[k])
    ensures Split(Join(lines)) == lines
    decreases |lines|
  {
    var first := lines[0];
    var text := Join(lines);
    forall k | 0 <= k < |first| ensures !OccursAt(text, "\n", k) {
      assert text[k] == first[k];
      assert first[k] in first;
      if k + 1 <= |text| {
        assert text[k..k + 1] == [text[k]];
      }
    }
    if |lines| == 1 {
      assert text == first;
    } else {
      var rest := lines[1..];
      assert text == first + "\n" + Join(rest);
      assert text[|first|..|first| + 1] == "\n";
      assert OccursAt(text, "\n", |first|);
      var k := FindFrom(text, "\n", 0).value;
      assert k == |first|;
      assert text[..k] == first;
      assert text[k + 1..] == Join(rest);
      forall j | 0 <= j < |rest| ensures NoNewline(rest[j]) {
        assert rest[j] == lines[j + 1];
      }
      SplitJoin(rest);
      assert lines == [first] + rest;
    }
  }

  /** Appending an empty line adds one trailing newline. */
  lemma {:induction false} JoinThenEmptyLine(lines: seq<string>)
    requires |lines| > 0
    ensures Join(lines + [""]) == Join(lines) + "\n"
    decreases |lines|
  {
    if |lines| == 1 {
      assert (lines + [""])[1..] == [""];
    } else {
      assert (lines + [""])[1..] == lines[1..] + [""];
      JoinThenEmptyLine(lines[1..]);
    }
  }

  // ---------------------------------------------------------------------
  // The lines of the structure section

  function PartHeading(part: string): string
  {
    "\\part{" + part + "}"
  }

  function ChapterHeading(chapter: string): string
  {
    "\\chapter{" + chapter + "}"
  }

  function ChapterInput(part: string, chapter: string): string
  {
    "\\input{ideas/" + part + "/" + chapter + "}"
  }

  /** Two lines per chapter, in chapter order. */
  function ChapterLines(part: string, chapters: seq<string>): seq<string>
    decreases |chapters|
  {
    if chapters == [] then []
    else
      var c := chapters[|chapters| - 1];
      ChapterLines(part, chapters[..|chapters| - 1]) + [ChapterHeading(c), ChapterInput(part, c)]
  }

  /** One part block: its heading, its chapters, and an empty line. */
  function PartLines(p: Part): seq<string>
  {
    [PartHeading(p.name)] + ChapterLines(p.name, p.chapters) + [""]
  }

  /** The list `latex_content` that `generate_latex_content` builds. */
  function RenderLines(parts: seq<Part>): seq<string>
    decreases |parts|
  {
    if parts == [] then []
    else RenderLines(parts[..|parts| - 1]) + PartLines(parts[|parts| - 1])
  }

  /** The rendered section as a string. */
  function Render(parts: seq<Part>): string
  {
    Join(RenderLines(parts))
  }

  /** The body of the outer loop of `generate_latex_content`: append one
      part block to the list. */
  method AppendPartLines(lines: seq<string>, part: Part) returns (out: seq<string>)
    ensures out == lines + PartLines(part)
  {
    out := lines + [PartHeading(part.name)];
    var j := 0;
    while j < |part.chapters|
      invariant 0 <= j <= |part.chapters|
      invariant out == lines + [PartHeading(part.name)] + ChapterLines(part.name, part.chapters[..j])
    {
      var chapter := part.chapters[j];
      out := out + [ChapterHeading(chapter)];
      out := out + [ChapterInput(part.name, chapter)];
      assert part.chapters[..j + 1][..j] == part.chapters[..j];
      j := j + 1;
    }
    out := out + [""];
    assert part.chapters[..j] == part.chapters;
  }

  /** `generate_latex_content`: a loop over the parts appending their blocks
      to a list, then a join. */
  method GenerateLatexContent(parts: seq<Part>) returns (text: string)
    ensures text == Render(parts)
  {
    var latexContent: seq<string> := [];
    var i := 0;
    while i < |parts|
      invariant 0 <= i <= |parts|
      invariant latexContent == RenderLines(parts[..i])
    {
      latexContent := AppendPartLines(latexContent, parts[i]);
      assert parts[..i + 1][..i] == parts[..i];
      i := i + 1;
    }
    assert parts[..i] == parts;
    text := Join(latexContent);
  }
}

module RenderingFacts {
  import opened Text
  import opened Structure
  import opened Rendering

  /** Two lines per part (heading and closing empty line) and two per chapter. */
  function LineCount(parts: seq<Part>): nat
    decreases |parts|
  {
    if parts == [] then 0
    else LineCount(parts[..|parts| - 1]) + 2 + 2 * |parts[|parts| - 1].chapters|
  }

  lemma {:induction false} ChapterLinesAt(part: string, chapters: seq<string>)
    ensures |ChapterLines(part, chapters)| == 2 * |chapters|
    ensures forall k :: 0 <= k < |chapters| ==>
      ChapterLines(part, chapters)[2 * k] == ChapterHeading(chapters[k]) &&
      ChapterLines(part, chapters)[2 * k + 1] == ChapterInput(part, chapters[k])
    decreases |chapters|
  {
    if chapters != [] {
      var init := chapters[..|chapters| - 1];
      ChapterLinesAt(part, init);
      forall k | 0 <= k < |chapters|
        ensures ChapterLines(part, chapters)[2 * k] == ChapterHeading(chapters[k])
        ensures ChapterLines(part, chapters)[2 * k + 1] == ChapterInput(part, chapters[k])
      {
        if k < |init| {
          assert init[k] == chapters[k];
        }
      }
    }
  }

  lemma {:induction false} RenderLinesConcat(a: seq<Part>, b: seq<Part>)
    ensures RenderLines(a + b) == RenderLines(a) + RenderLines(b)
    decreases |b|
  {
    if b == [] {
      assert a + b == a;
    } else {
      var init := b[..|b| - 1];
      var last := b[|b| - 1];
      RenderLinesConcat(a, init);
      assert (a + b)[..|a + b| - 1] == a + init;
      assert (a + b)[|a + b| - 1] == last;
      calc {
        RenderLines(a + b);
        RenderLines(a + init) + PartLines(last);
        RenderLines(a) + RenderLines(init) + PartLines(last);
        RenderLines(a) + (RenderLines(init) + PartLines(last));
      }
    }
  }

  /** The rendered list holds sum over parts of 2 + 2 * (number of chapters) lines. */
  lemma {:induction false} RenderedLineCount(parts: seq<Part>)
    ensures |RenderLines(parts)| == LineCount(parts)
    decreases |parts|
  {
    if parts != [] {
      RenderedLineCount(parts[..|parts| - 1]);
      ChapterLinesAt(parts[|parts| - 1].name, parts[|parts| - 1].chapters);
    }
  }

  /** The rendered list splits into the lines of the parts before part i,
      the block of part i, and the lines of the parts after it. */
  lemma BlockPosition(parts: seq<Part>, i: nat)
    requires i < |parts|
    ensures RenderLines(parts) == RenderLines(parts[..i]) + (PartLines(parts[i]) + RenderLines(parts[i + 1..]))
  {
    var before, rest := parts[..i], [parts[i]] + parts[i + 1..];
    SplitAround(parts, i);
    RenderLinesConcat(before, rest);
    RenderLinesConcat([parts[i]], parts[i + 1..]);
    RenderSingle(parts[i]);
  }

  lemma SplitAround<T>(s: seq<T>, i: nat)
    requires i < |s|
    ensures s == s[..i] + ([s[i]] + s[i + 1..])
  {
  }

  lemma RenderSingle(p: Part)
    ensures RenderLines([p]) == PartLines(p)
  {
    assert [p][..0] == [];
  }

  /** Part i occupies the lines starting at the count of the parts before
      it: its heading, then for each chapter in order its heading immediately
      followed by its `\input`, then an empty line. Names are copied
      verbatim. */
  lemma PartBlockAt(parts: seq<Part>, i: nat)
    requires i < |parts|
    ensures LineCount(parts[..i]) + 2 + 2 * |parts[i].chapters| <= |RenderLines(parts)|
    ensures RenderLines(parts)[LineCount(parts[..i])] == PartHeading(parts[i].name)
    ensures forall k :: 0 <= k < |parts[i].chapters| ==>
      RenderLines(parts)[LineCount(parts[..i]) + 1 + 2 * k] == ChapterHeading(parts[i].chapters[k]) &&
      RenderLines(parts)[LineCount(parts[..i]) + 2 + 2 * k] == ChapterInput(parts[i].name, parts[i].chapters[k])
    ensures RenderLines(parts)[LineCount(parts[..i]) + 1 + 2 * |parts[i].chapters|] == ""
  {
    var p := parts[i];
    PartLinesAt(p);
    BlockLine(parts, i, 0);
    BlockLine(parts, i, 1 + 2 * |p.chapters|);
    forall k | 0 <= k < |p.chapters|
      ensures RenderLines(parts)[LineCount(parts[..i]) + 1 + 2 * k] == ChapterHeading(p.chapters[k])
      ensures RenderLines(parts)[LineCount(parts[..i]) + 2 + 2 * k] == ChapterInput(p.name, p.chapters[k])
    {
      BlockLine(parts, i, 1 + 2 * k);
      BlockLine(parts, i, 2 + 2 * k);
    }
  }

  /** Line m of part i's block, read off the whole list. */
  lemma BlockLine(parts: seq<Part>, i: nat, m: nat)
    requires i < |parts| && m < |PartLines(parts[i])|
    ensures LineCount(parts[..i]) + |PartLines(parts[i])| <= |RenderLines(parts)|
    ensures RenderLines(parts)[LineCount(parts[..i]) + m] == PartLines(parts[i])[m]
  {
    BlockPosition(parts, i);
    RenderedLineCount(parts[..i]);
    IndexMiddle(RenderLines(parts), RenderLines(parts[..i]), PartLines(parts[i]), RenderLines(parts[i + 1..]), m);
  }

  /** Indexing into the middle of three concatenated sequences. */
  lemma IndexMiddle<T>(r: seq<T>, x: seq<T>, y: seq<T>, z: seq<T>, m: nat)
    requires r == x + (y + z) && m < |y|
    ensures |x| + |y| <= |r| && r[|x| + m] == y[m]
  {
  }

  /** The lines of one part block, position by position. */
  lemma PartLinesAt(p: Part)
    ensures |PartLines(p)| == 2 + 2 * |p.chapters|
    ensures PartLines(p)[0] == PartHeading(p.name)
    ensures forall k :: 0 <= k < |p.chapters| ==>
      PartLines(p)[1 + 2 * k] == ChapterHeading(p.chapters[k]) &&
      PartLines(p)[2 + 2 * k] == ChapterInput(p.name, p.chapters[k])
    ensures PartLines(p)[1 + 2 * |p.chapters|] == ""
  {
    ChapterLinesAt(p.name, p.chapters);
    var chapterLines := ChapterLines(p.name, p.chapters);
    forall k | 0 <= k < |p.chapters|
      ensures PartLines(p)[1 + 2 * k] == ChapterHeading(p.chapters[k])
      ensures PartLines(p)[2 + 2 * k] == ChapterInput(p.name, p.chapters[k])
    {
      assert PartLines(p)[1 + 2 * k] == chapterLines[2 * k];
      assert PartLines(p)[2 + 2 * k] == chapterLines[2 * k + 1];
    }
  }

  /** The rendered section is empty exactly when there are no parts. */
  lemma RenderEmptyIff(parts: seq<Part>)
    ensures Render(parts) == "" <==> parts == []
  {
    if parts != [] {
      PartBlockAt(parts, 0);
      var lines := RenderLines(parts);
      assert |lines| >= 2;
      assert Join(lines) == lines[0] + "\n" + Join(lines[1..]);
    }
  }

  /** A non-empty section ends with a newline: each part block ends with an
      empty line. */
  lemma RenderEndsWithNewline(parts: seq<Part>)
    requires parts != []
    ensures EndsWith(Render(parts), "\n")
  {
    var last := parts[|parts| - 1];
    var body := RenderLines(parts[..|parts| - 1]) + [PartHeading(last.name)] + ChapterLines(last.name, last.chapters);
    assert RenderLines(parts) == body + [""];
    JoinThenEmptyLine(body);
  }

  predicate NamesWithoutNewline(parts: seq<Part>)
  {
    forall i :: 0 <= i < |parts| ==>
      NoNewline(parts[i].name) && forall k :: 0 <= k < |parts[i].chapters| ==> NoNewline(parts[i].chapters[k])
  }

  lemma {:induction false} NoNewlineInLines(parts: seq<Part>)
    requires NamesWithoutNewline(parts)
    ensures forall k :: 0 <= k < |RenderLines(parts)| ==> NoNewline(RenderLines(parts)[k])
  {
    var lines := RenderLines(parts);
    RenderedLineCount(parts);
    forall k | 0 <= k < |lines| ensures NoNewline(lines[k]) {
      var i := LineIndexPart(parts, k);
      PartLinesAt(parts[i]);
      BlockLine(parts, i, k - LineCount(parts[..i]));
      PartLineNoNewline(parts[i], k - LineCount(parts[..i]));
    }
  }

  /** No line of a part block holds a newline when its names hold none. */
  lemma PartLineNoNewline(p: Part, m: nat)
    requires m < |PartLines(p)|
    requires NoNewline(p.name) && forall k :: 0 <= k < |p.chapters| ==> NoNewline(p.chapters[k])
    ensures NoNewline(PartLines(p)[m])
  {
    PartLinesAt(p);
    NoNewlineInHeadings(p.name, "");
    if 0 < m < 1 + 2 * |p.chapters| {
      var c := (m - 1) / 2;
      NoNewlineInHeadings(p.name, p.chapters[c]);
      assert m == 1 + 2 * c || m == 2 + 2 * c;
    }
  }

  lemma NoNewlineInHeadings(part: string, chapter: string)
    requires NoNewline(part) && NoNewline(chapter)
    ensures NoNewline(PartHeading(part))
    ensures NoNewline(ChapterHeading(chapter))
    ensures NoNewline(ChapterInput(part, chapter))
  {
  }

  /** The part whose block holds line k. */
  lemma LineIndexPart(parts: seq<Part>, k: nat) returns (i: nat)
    requires k < LineCount(parts)
    ensures i < |parts|
    ensures LineCount(parts[..i]) <= k < LineCount(parts[..i]) + 2 + 2 * |parts[i].chapters|
    decreases |parts|
  {
    var init := parts[..|parts| - 1];
    if k < LineCount(init) {
      i := LineIndexPart(init, k);
      assert parts[..i] == init[..i];
    } else {
      i := |parts| - 1;
      assert parts[..i] == init;
    }
  }

  /** When no name holds a newline, splitting the section at "\n" gives back
      exactly the rendered lines, sum of 2 + 2 * (chapters) of them. */
  lemma RenderSplitsIntoLines(parts: seq<Part>)
    requires parts != [] && NamesWithoutNewline(parts)
    ensures Split(Render(parts)) == RenderLines(parts)
    ensures |Split(Render(parts))| == LineCount(parts)
  {
    NoNewlineInLines(parts);
    RenderedLineCount(parts);
    PartBlockAt(parts, 0);
    SplitJoin(RenderLines(parts));
  }
}
