/**
 * The anchor splice of `update_latex_structure`: the search for
 *   (.*?\\tableofcontents\s*\n)(.*?)(\\end\{document\}.*?)
 * with DOTALL, written as an explicit scanner, and the concatenation
 *   header + "\n" + section + "\n\n" + footer.
 * The scanner tries matches in the order the backtracking engine does, and
 * that order is stated separately as a predicate on candidate matches.
 */
module Splice {
  import opened Wrappers
  import opened Text

  const TableOfContents: string := "\\tableofcontents"
  const EndDocument: string := "\\end{document}"

  /** `\s` in a `str` pattern: the characters for which `str.isspace` holds.
      These are tab, newline, vertical tab, form feed and carriage return
      (U+0009 to U+000D), the four separators U+001C to U+001F, space,
      U+0085, no-break space, U+1680, the spaces U+2000 to U+200A, the line
      and paragraph separators U+2028 and U+2029, and U+202F, U+205F and
      U+3000. */
  predicate IsSpace(c: char)
  {
    || '\t' <= c <= '\r'
    || '\U{001C}' <= c <= '\U{001F}'
    || c == ' ' || c == '\U{0085}' || c == '\U{00A0}' || c == '\U{1680}'
    || '\U{2000}' <= c <= '\U{200A}'
    || c == '\U{2028}' || c == '\U{2029}' || c == '\U{202F}' || c == '\U{205F}'
    || c == '\U{3000}'
  }

  /** The end of the longest whitespace run that starts at j (greedy `\s*`). */
  function SpaceRunEnd(s: string, j: nat): (r: nat)
    requires j <= |s|
    ensures j <= r <= |s|
    ensures forall k :: j <= k < r ==> IsSpace(s[k])
    ensures r == |s| || !IsSpace(s[r])
    decreases |s| - j
  {
    if j < |s| && IsSpace(s[j]) then SpaceRunEnd(s, j + 1) else j
  }

  /** The last newline in s[lo..hi], if any. */
  function LastNewline(s: string, lo: nat, hi: nat): (r: Option<nat>)
    requires lo <= hi <= |s|
    ensures r.Some? ==> lo <= r.value < hi && s[r.value] == '\n'
    ensures r.Some? ==> forall k :: r.value < k < hi ==> s[k] != '\n'
    ensures r.None? ==> forall k :: lo <= k < hi ==> s[k] != '\n'
    decreases hi - lo
  {
    if lo == hi then None
    else if s[hi - 1] == '\n' then Some(hi - 1)
    else LastNewline(s, lo, hi - 1)
  }

  /** For a `\tableofcontents` at i, where group 1 ends: `\s*` first takes
      the whole whitespace run and then gives characters back until a
      newline follows, so group 1 ends right after the run's last newline. */
  function HeaderEnd(s: string, i: nat): Option<nat>
    requires OccursAt(s, TableOfContents, i)
  {
    var lo := i + |TableOfContents|;
    match LastNewline(s, lo, SpaceRunEnd(s, lo))
    case None => None
    case Some(k) => Some(k + 1)
  }

  /** A match: where `\tableofcontents` starts, where group 1 (the header)
      ends, and where group 3 (the footer) starts. */
  datatype Section = Section(toc: nat, headerEnd: nat, footer: nat)

  /** The pattern matches the whole prefix doc[..footer + 14] this way. */
  predicate IsMatch(s: string, m: Section)
  {
    && OccursAt(s, TableOfContents, m.toc)
    && m.toc + |TableOfContents| < m.headerEnd <= |s|
    && s[m.headerEnd - 1] == '\n'
    && (forall k :: m.toc + |TableOfContents| <= k < m.headerEnd ==> IsSpace(s[k]))
    && m.headerEnd <= m.footer
    && OccursAt(s, EndDocument, m.footer)
  }

  /** The order in which the engine tries candidate matches: the lazy first
      group grows one character at a time, the greedy `\s*` shrinks, and the
      lazy second group grows. */
  predicate TriedBefore(m: Section, n: Section)
  {
    m.toc < n.toc ||
    (m.toc == n.toc && (m.headerEnd > n.headerEnd ||
                        (m.headerEnd == n.headerEnd && m.footer < n.footer)))
  }

  /** The match `re.search` reports: the first one tried. */
  ghost predicate FirstMatch(s: string, m: Section)
  {
    IsMatch(s, m) && forall n :: IsMatch(s, n) ==> !TriedBefore(n, m)
  }

  /** The candidate for a `\tableofcontents` at i: the longest header,
      then the first `\end{document}` at or after its end. */
  function TryToc(s: string, i: nat): Option<Section>
    requires OccursAt(s, TableOfContents, i)
  {
    match HeaderEnd(s, i)
    case None => None
    case Some(h) =>
      match FindFrom(s, EndDocument, h)
      case None => None
      case Some(e) => Some(Section(i, h, e))
  }

  /** The search, starting the first group's `\tableofcontents` at or after
      `from`. */
  function MatchFrom(s: string, from: nat): Option<Section>
    decreases |s| - from
  {
    match FindFrom(s, TableOfContents, from)
    case None => None
    case Some(i) =>
      match TryToc(s, i)
      case Some(m) => Some(m)
      case None => MatchFrom(s, i + 1)
  }

  /** A whitespace run from j to h lies within the longest one. */
  lemma {:induction false} SpaceRunMaximal(s: string, j: nat, h: nat)
    requires j <= h <= |s|
    requires forall k :: j <= k < h ==> IsSpace(s[k])
    ensures h <= SpaceRunEnd(s, j)
    decreases h - j
  {
    if j < h {
      SpaceRunMaximal(s, j + 1, h);
    }
  }

  /** Every match's header ends no later than the one the scanner picks for
      the same `\tableofcontents`; in particular the scanner finds one. */
  lemma HeaderAtMostLongest(s: string, n: Section)
    requires IsMatch(s, n)
    ensures HeaderEnd(s, n.toc).Some? && n.headerEnd <= HeaderEnd(s, n.toc).value
  {
    SpaceRunMaximal(s, n.toc + |TableOfContents|, n.headerEnd);
  }

  /** `\end{document}` cannot start inside a whitespace run. */
  lemma EndDocumentNotSpace(s: string, k: nat)
    requires OccursAt(s, EndDocument, k)
    ensures !IsSpace(s[k])
  {
    assert s[k] == s[k..k + |EndDocument|][0] == '\\';
  }

  /** The header the scanner picks is all whitespace after its
      `\tableofcontents`. */
  lemma HeaderEndIsMatchHeader(s: string, i: nat, h: nat)
    requires OccursAt(s, TableOfContents, i) && HeaderEnd(s, i) == Some(h)
    ensures i + |TableOfContents| < h <= |s| && s[h - 1] == '\n'
    ensures forall k :: i + |TableOfContents| <= k < h ==> IsSpace(s[k])
  {
  }

  /** Every match's footer starts no earlier than the longest header for its
      `\tableofcontents`. */
  lemma FooterAfterLongestHeader(s: string, n: Section, h: nat)
    requires IsMatch(s, n) && HeaderEnd(s, n.toc) == Some(h)
    ensures h <= n.footer
  {
    HeaderAtMostLongest(s, n);
    HeaderEndIsMatchHeader(s, n.toc, h);
    EndDocumentNotSpace(s, n.footer);
  }

  /** The candidate for toc i, when there is one, is a match, and no match
      with toc i is tried before it. */
  lemma TryTocIsFirst(s: string, i: nat, m: Section)
    requires OccursAt(s, TableOfContents, i) && TryToc(s, i) == Some(m)
    ensures IsMatch(s, m) && m.toc == i
    ensures forall n :: IsMatch(s, n) && n.toc == i ==> !TriedBefore(n, m)
  {
    var h := HeaderEnd(s, i).value;
    HeaderEndIsMatchHeader(s, i, h);
    forall n | IsMatch(s, n) && n.toc == i
      ensures !TriedBefore(n, m)
    {
      HeaderAtMostLongest(s, n);
    }
  }

  /** No match starts at a `\tableofcontents` whose whitespace run holds no
      newline. */
  lemma NoMatchWithoutHeader(s: string, i: nat)
    requires OccursAt(s, TableOfContents, i) && HeaderEnd(s, i).None?
    ensures forall n :: IsMatch(s, n) ==> n.toc != i
  {
    forall n | IsMatch(s, n) ensures n.toc != i {
      HeaderAtMostLongest(s, n);
    }
  }

  /** No match starts at a `\tableofcontents` with no `\end{document}` at or
      after the end of its longest header. */
  lemma NoMatchWithoutFooter(s: string, i: nat, h: nat)
    requires OccursAt(s, TableOfContents, i) && HeaderEnd(s, i) == Some(h)
    requires forall k :: h <= k ==> !OccursAt(s, EndDocument, k)
    ensures forall n :: IsMatch(s, n) ==> n.toc != i
  {
    forall n | IsMatch(s, n) && n.toc == i ensures h <= n.footer {
      FooterAfterLongestHeader(s, n, h);
    }
  }

  /** Without a candidate for toc i, no match has toc i. */
  lemma NoMatchAtToc(s: string, i: nat)
    requires OccursAt(s, TableOfContents, i) && TryToc(s, i).None?
    ensures forall n :: IsMatch(s, n) ==> n.toc != i
  {
    match HeaderEnd(s, i)
    case None =>
      NoMatchWithoutHeader(s, i);
    case Some(h) =>
      NoMatchWithoutFooter(s, i, h);
  }

  /** m is the first match tried among those whose `\tableofcontents`
      starts at or after `from`. */
  ghost predicate FirstMatchFrom(s: string, from: nat, m: Section)
  {
    IsMatch(s, m) && from <= m.toc &&
    forall n :: IsMatch(s, n) && from <= n.toc ==> !TriedBefore(n, m)
  }

  /** No match has its `\tableofcontents` at or after `from`. */
  ghost predicate NoMatchFrom(s: string, from: nat)
  {
    forall n :: IsMatch(s, n) ==> n.toc < from
  }

  /** The scanner is right from `from`: when it returns a match, that match
      is the first one the engine tries among those whose `\tableofcontents`
      starts at or after `from`; when it returns nothing, no match starts
      there. The lemmas below state it as `ScanCorrect(s, from) == true`,
      which asserts the same. */
  ghost predicate ScanCorrect(s: string, from: nat)
  {
    match MatchFrom(s, from)
    case Some(m) => FirstMatchFrom(s, from, m)
    case None => NoMatchFrom(s, from)
  }

  /** When the scanner settles on the first `\tableofcontents` i at or after
      `from`, its candidate is the first match from `from`: no match starts
      between `from` and i, and those after i are tried later. */
  lemma FoundIsFirst(s: string, from: nat, i: nat, m: Section)
    requires FindFrom(s, TableOfContents, from) == Some(i)
    requires TryToc(s, i) == Some(m)
    ensures MatchFrom(s, from) == Some(m)
    ensures ScanCorrect(s, from) == true
  {
    TryTocIsFirst(s, i, m);
    assert FirstMatchFrom(s, from, m);
  }

  /** Without a `\tableofcontents` at or after `from` there is no match from
      there, and the scanner finds none. */
  lemma NoTocLeft(s: string, from: nat)
    requires FindFrom(s, TableOfContents, from).None?
    ensures ScanCorrect(s, from) == true
  {
    assert NoMatchFrom(s, from);
  }

  /** When no match uses the first `\tableofcontents` i at or after `from`,
      the matches from `from` are those from i + 1, and the scanner returns
      the same from both places. */
  lemma SkipToc(s: string, from: nat, i: nat)
    requires FindFrom(s, TableOfContents, from) == Some(i)
    requires TryToc(s, i).None?
    ensures ScanCorrect(s, from) == ScanCorrect(s, i + 1)
  {
    NoMatchAtToc(s, i);
    assert MatchFrom(s, from) == MatchFrom(s, i + 1);
    assert forall n :: IsMatch(s, n) && from <= n.toc ==> i + 1 <= n.toc;
  }

  /** The scanner returns the first match tried among those whose
      `\tableofcontents` starts at or after `from`, and nothing when there
      is none. */
  lemma {:induction false} MatchFromIsFirst(s: string, from: nat)
    ensures ScanCorrect(s, from) == true
    decreases |s| - from
  {
    match FindFrom(s, TableOfContents, from)
    case None =>
      NoTocLeft(s, from);
    case Some(i) =>
      match TryToc(s, i)
      case Some(m) =>
        FoundIsFirst(s, from, i, m);
      case None =>
        MatchFromIsFirst(s, i + 1);
        SkipToc(s, from, i);
  }

  /** `re.search(pattern, doc, re.DOTALL)`: the first match, or none. */
  function FindContentSection(doc: string): (r: Option<Section>)
    ensures r.Some? ==> FirstMatch(doc, r.value)
    ensures r.None? <==> forall n :: !IsMatch(doc, n)
  {
    MatchFromIsFirst(doc, 0);
    assert ScanCorrect(doc, 0);
    MatchFrom(doc, 0)
  }

  /** The text written back: the header, then "\n", the new section, "\n\n"
      and the footer. */
  function Reassemble(header: string, section: string): string
  {
    header + "\n" + section + "\n\n" + EndDocument
  }

  /** The splice. Group 3 is exactly `\end{document}`, because its trailing
      `.*?` matches the empty string. */
  function SpliceSection(doc: string, section: string): (r: Option<string>)
    ensures r.None? <==> forall n :: !IsMatch(doc, n)
    ensures r.Some? ==> exists m :: FirstMatch(doc, m) && r.value == Reassemble(doc[..m.headerEnd], section)
  {
    match FindContentSection(doc)
    case None => None
    case Some(m) =>
      var header := doc[..m.headerEnd];
      var footer := doc[m.footer..m.footer + |EndDocument|];
      assert footer == EndDocument;
      Some(header + "\n" + section + "\n\n" + footer)
  }
}

/** Properties of the splice that the update relies on. */
module SpliceFacts {
  import opened Wrappers
  import opened Text
  import opened Splice

  /** The engine's order is total, so at most one match is first. */
  lemma FirstMatchUnique(s: string, m1: Section, m2: Section)
    requires FirstMatch(s, m1) && FirstMatch(s, m2)
    ensures m1 == m2
  {
  }

  /** The reassembled text is the header followed by the new part. */
  lemma ReassembleParts(header: string, section: string)
    ensures |Reassemble(header, section)| == |header| + |section| + 3 + |EndDocument|
    ensures Reassemble(header, section)[..|header|] == header
    ensures Reassemble(header, section)[..|header| + 1] == header + "\n"
    ensures Reassemble(header, section)[|header|..] == "\n" + section + "\n\n" + EndDocument
    ensures Reassemble(header, section)[|header| + 1..] == section + "\n\n" + EndDocument
    ensures EndsWith(Reassemble(header, section), EndDocument)
  {
    var r := Reassemble(header, section);
    assert r == header + ("\n" + section + "\n\n" + EndDocument);
    ConcatSlices(header, "\n" + section + "\n\n" + EndDocument);
    assert r == (header + "\n") + (section + "\n\n" + EndDocument);
    ConcatSlices(header + "\n", section + "\n\n" + EndDocument);
    ConcatSlices(header + "\n" + section + "\n\n", EndDocument);
  }

  lemma ConcatSlices<T>(x: seq<T>, y: seq<T>)
    ensures (x + y)[..|x|] == x && (x + y)[|x|..] == y
  {
  }

  /** The header, a prefix of the original that contains a
      `\tableofcontents` and ends with a newline, is kept byte for byte, and
      the rest of the result is the new section between fixed separators. */
  lemma SpliceKeepsHeader(doc: string, section: string, m: Section)
    requires FirstMatch(doc, m)
    ensures SpliceSection(doc, section).Some?
    ensures var r := SpliceSection(doc, section).value;
      && OccursAt(doc, TableOfContents, m.toc)
      && m.toc + |TableOfContents| < m.headerEnd <= |doc|
      && doc[m.headerEnd - 1] == '\n'
      && m.headerEnd <= |r|
      && r[..m.headerEnd] == doc[..m.headerEnd]
      && r[m.headerEnd..] == "\n" + section + "\n\n" + EndDocument
  {
    assert IsMatch(doc, m);
    assert OccursAt(doc, TableOfContents, m.toc) && doc[m.headerEnd - 1] == '\n';
    var header := doc[..m.headerEnd];
    SpliceAtFirstMatch(doc, section, m, header);
    ReassembleParts(header, section);
  }

  /** Whatever followed the replaced section is gone: the result ends with
      `\end{document}`. */
  lemma SpliceEndsWithEndDocument(doc: string, section: string, m: Section)
    requires FirstMatch(doc, m)
    ensures SpliceSection(doc, section).Some?
    ensures EndsWith(SpliceSection(doc, section).value, EndDocument)
  {
    var header := doc[..m.headerEnd];
    SpliceAtFirstMatch(doc, section, m, header);
    ReassembleParts(header, section);
  }

  /** The text replaced is everything from the end of the header up to the
      first `\end{document}` after it. */
  lemma FooterIsFirstEndAfterHeader(doc: string, m: Section)
    requires FirstMatch(doc, m)
    ensures forall k :: m.headerEnd <= k < m.footer ==> !OccursAt(doc, EndDocument, k)
  {
    forall k | m.headerEnd <= k < m.footer
      ensures !OccursAt(doc, EndDocument, k)
    {
      if OccursAt(doc, EndDocument, k) {
        assert IsMatch(doc, Section(m.toc, m.headerEnd, k));
      }
    }
  }

  /** Any first match determines the splice. */
  lemma SpliceAtFirstMatch(doc: string, section: string, m: Section, header: string)
    requires FirstMatch(doc, m) && header == doc[..m.headerEnd]
    ensures SpliceSection(doc, section) == Some(Reassemble(header, section))
  {
    var r := SpliceSection(doc, section).value;
    var m' :| FirstMatch(doc, m') && r == Reassemble(doc[..m'.headerEnd], section);
    FirstMatchUnique(doc, m, m');
  }

  /** A match is the first when no match starts at an earlier
      `\tableofcontents`, its header cannot grow because a non-whitespace
      character follows, and no `\end{document}` comes earlier after the
      header. */
  lemma FirstMatchByShape(s: string, m: Section)
    requires IsMatch(s, m)
    requires forall n :: IsMatch(s, n) ==> m.toc <= n.toc
    requires m.headerEnd < |s| && !IsSpace(s[m.headerEnd])
    requires forall k :: m.headerEnd <= k < m.footer ==> !OccursAt(s, EndDocument, k)
    ensures FirstMatch(s, m)
  {
  }

  /** Occurrences in the second half of a concatenation are occurrences in
      that half. */
  lemma OccursAtInSuffix(s: string, t: string, pat: string, k: nat)
    ensures OccursAt(s + t, pat, |s| + k) <==> OccursAt(t, pat, k)
  {
    if k + |pat| <= |t| {
      assert (s + t)[|s| + k..|s| + k + |pat|] == t[k..k + |pat|];
    }
  }

  /** Texts that agree up to h have the same occurrences ending by h. */
  lemma SamePrefixSameOccurrences(a: string, b: string, h: nat, pat: string, k: nat)
    requires h <= |a| && h <= |b| && a[..h] == b[..h] && k + |pat| <= h
    ensures OccursAt(a, pat, k) <==> OccursAt(b, pat, k)
  {
    assert a[k..k + |pat|] == a[..h][k..k + |pat|];
    assert b[k..k + |pat|] == b[..h][k..k + |pat|];
  }

  /** A `\tableofcontents` cannot start inside another one: its backslash
      is its only one. */
  lemma TocNoOverlap(s: string, a: nat, b: nat)
    requires OccursAt(s, TableOfContents, a) && OccursAt(s, TableOfContents, b) && a < b
    ensures a + |TableOfContents| <= b
  {
    assert s[b] == s[b..b + |TableOfContents|][0] == '\\';
    forall k | a < k < a + |TableOfContents| ensures s[k] != '\\' {
      assert s[k] == s[a..a + |TableOfContents|][k - a] == TableOfContents[k - a];
    }
  }

  /** A match in a text that agrees with doc up to m's header, starting
      before m's `\tableofcontents`, gives a match in doc with the same
      start and header and with m's footer: its whitespace cannot cover
      m's `\tableofcontents`, so it lies in the common prefix. */
  lemma EarlierMatchCarriesBack(doc: string, r: string, m: Section, n: Section)
    requires IsMatch(doc, m) && m.headerEnd <= |r| && r[..m.headerEnd] == doc[..m.headerEnd]
    requires IsMatch(r, n)
    ensures n.toc < m.toc ==> IsMatch(doc, Section(n.toc, n.headerEnd, m.footer))
  {
    var h := m.headerEnd;
    if n.toc < m.toc {
      SamePrefixSameOccurrences(doc, r, h, TableOfContents, m.toc);
      TocNoOverlap(r, n.toc, m.toc);
      assert r[m.toc] == r[m.toc..m.toc + |TableOfContents|][0] == '\\';
      assert n.headerEnd <= m.toc;
      SamePrefixSameOccurrences(doc, r, h, TableOfContents, n.toc);
      forall k | 0 <= k < h ensures doc[k] == r[k] {
        assert doc[k] == doc[..h][k];
        assert r[k] == r[..h][k];
      }
    }
  }

  /** In the text a splice wrote, the original header is still there, so
      no match starts before its `\tableofcontents`, and the header can now
      extend over the inserted "\n" up to the section. */
  lemma ResplicedHeader(doc: string, section: string, m: Section)
    requires FirstMatch(doc, m)
    requires section != [] && !IsSpace(section[0])
    ensures var r := Reassemble(doc[..m.headerEnd], section);
      && OccursAt(r, TableOfContents, m.toc)
      && (forall n :: IsMatch(r, n) ==> m.toc <= n.toc)
      && m.headerEnd + 1 < |r| && r[m.headerEnd] == '\n' && !IsSpace(r[m.headerEnd + 1])
      && (forall k :: m.toc + |TableOfContents| <= k < m.headerEnd + 1 ==> IsSpace(r[k]))
  {
    var h := m.headerEnd;
    var r := Reassemble(doc[..h], section);
    ReassembleParts(doc[..h], section);
    assert doc[..h][..h] == doc[..h];
    SamePrefixSameOccurrences(r, doc, h, TableOfContents, m.toc);
    forall n | IsMatch(r, n) ensures m.toc <= n.toc {
      EarlierMatchCarriesBack(doc, r, m, n);
    }
    assert r[h] == r[..h + 1][h];
    assert r[h + 1] == r[h + 1..][0];
    forall k | 0 <= k < h ensures r[k] == doc[k] {
      assert r[k] == r[..h][k];
    }
  }

  /** In the text a splice wrote, the first `\end{document}` after the
      inserted "\n" is the one the splice put at the end. */
  lemma ReassembledFooter(header: string, section: string)
    requires forall k :: 0 <= k < |section| + 2 ==> !OccursAt(section + "\n\n" + EndDocument, EndDocument, k)
    ensures var r := Reassemble(header, section);
      && OccursAt(r, EndDocument, |header| + 3 + |section|)
      && forall k :: |header| + 1 <= k < |header| + 3 + |section| ==> !OccursAt(r, EndDocument, k)
  {
    var r := Reassemble(header, section);
    var front := header + "\n";
    var tail := section + "\n\n" + EndDocument;
    assert r == front + tail;
    assert tail[|section| + 2..] == EndDocument;
    OccursAtInSuffix(front, tail, EndDocument, |section| + 2);
    assert OccursAt(r, EndDocument, |header| + 3 + |section|);
    forall k | |header| + 1 <= k < |header| + 3 + |section| ensures !OccursAt(r, EndDocument, k) {
      OccursAtInSuffix(front, tail, EndDocument, k - |front|);
    }
  }

  /** The match that a second splice finds in the text the first one wrote:
      the same `\tableofcontents`, with the header grown by the "\n" the
      first splice inserted. */
  lemma ResplicedMatch(doc: string, section: string, m: Section)
    requires FirstMatch(doc, m)
    requires section != [] && !IsSpace(section[0])
    requires forall k :: 0 <= k < |section| + 2 ==> !OccursAt(section + "\n\n" + EndDocument, EndDocument, k)
    ensures var r := Reassemble(doc[..m.headerEnd], section);
      FirstMatch(r, Section(m.toc, m.headerEnd + 1, m.headerEnd + 3 + |section|))
  {
    ResplicedHeader(doc, section, m);
    ReassembledFooter(doc[..m.headerEnd], section);
    var r := Reassemble(doc[..m.headerEnd], section);
    var m2 := Section(m.toc, m.headerEnd + 1, m.headerEnd + 3 + |section|);
    assert IsMatch(r, m2);
    FirstMatchByShape(r, m2);
  }

  /** Splicing is not idempotent: splicing the same section into the text a
      splice wrote keeps one more "\n" after the header each time. This holds
      whenever the section starts with a character other than whitespace and contains no
      `\end{document}`, as a rendered section does. */
  lemma ResplicingAddsNewline(doc: string, section: string, m: Section)
    requires FirstMatch(doc, m)
    requires section != [] && !IsSpace(section[0])
    requires forall k :: 0 <= k < |section| + 2 ==> !OccursAt(section + "\n\n" + EndDocument, EndDocument, k)
    ensures SpliceSection(Reassemble(doc[..m.headerEnd], section), section)
         == Some(Reassemble(doc[..m.headerEnd] + "\n", section))
    ensures Reassemble(doc[..m.headerEnd] + "\n", section) != Reassemble(doc[..m.headerEnd], section)
  {
    var h := m.headerEnd;
    var header := doc[..h];
    var r := Reassemble(header, section);
    ResplicedMatch(doc, section, m);
    ReassembleParts(header, section);
    SpliceAtFirstMatch(r, section, Section(m.toc, h + 1, h + 3 + |section|), header + "\n");
    assert |Reassemble(header + "\n", section)| == |r| + 1;
  }
}
