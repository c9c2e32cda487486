/**
 * The response presenter: the heading-based section splitter of the recommendation
 * card and the choice between a sectioned card, the raw markdown, and nothing at all.
 */
module GeminiResponse {
  import opened Wrappers
  import opened Text

  datatype Section = Section(title: string, content: string)

  const StrainTitle := "Algae Strain Recommendations"
  const HarvestTitle := "Harvesting Schedule"
  const LipidTitle := "Lipid Optimization Techniques"
  const YieldTitle := "Biofuel Yield Potential"
  const ImageTitle := "Image Analysis"

  /** The expected section titles in their fixed order; "Image Analysis" only with an image. */
  function Titles(hasImage: bool): (titles: seq<string>)
    ensures |titles| == if hasImage then 5 else 4
    ensures ImageTitle in titles <==> hasImage
    ensures forall a, b :: 0 <= a < b < |titles| ==> titles[a] != titles[b]
  {
    [StrainTitle, HarvestTitle, LipidTitle, YieldTitle] + if hasImage then [ImageTitle] else []
  }

  /** Index of the first occurrence of `t` in `titles`, or `|titles|` when absent. */
  function Position(titles: seq<string>, t: string): (p: nat)
    ensures p <= |titles|
    ensures p < |titles| ==> titles[p] == t
    decreases |titles|
  {
    if titles == [] then 0 else if titles[0] == t then 0 else 1 + Position(titles[1..], t)
  }

  lemma {:induction false} PositionOfDistinct(titles: seq<string>, i: nat)
    requires i < |titles|
    requires forall a, b :: 0 <= a < b < |titles| ==> titles[a] != titles[b]
    ensures Position(titles, titles[i]) == i
    decreases |titles|
  {
    if i > 0 {
      PositionOfDistinct(titles[1..], i - 1);
    }
  }

  // ---------------------------------------------------------------------------
  // The heading pattern ^#+\s*(.+)$ (no flags: `^` and `$` anchor the whole line)
  // ---------------------------------------------------------------------------

  /** `h` matches `#+\s*`: one or more '#', then white space only. */
  predicate IsHashesThenSpaces(h: string)
  {
    && |h| >= 1 && h[0] == '#'
    && (forall i :: 0 <= i < |h| ==> h[i] == '#' || IsSpace(h[i]))
    && (forall i :: 0 < i < |h| && h[i] == '#' ==> h[i - 1] == '#')
  }

  /** `c` matches `.+`: at least one character, none of them a line terminator. */
  predicate IsCapture(c: string)
  {
    |c| >= 1 && forall i :: 0 <= i < |c| ==> !IsLineTerminator(c[i])
  }

  /** The whole line matches the pattern with the capture group starting at `p`. */
  predicate HeadingSplitAt(line: string, p: int)
  {
    0 < p < |line| && IsHashesThenSpaces(line[..p]) && IsCapture(line[p..])
  }

  function LeadingHashes(s: string): (n: nat)
    ensures n <= |s| && (forall i :: 0 <= i < n ==> s[i] == '#') && (n < |s| ==> s[n] != '#')
    decreases |s|
  {
    if s != [] && s[0] == '#' then 1 + LeadingHashes(s[1..]) else 0
  }

  function LeadingSpaces(s: string): (n: nat)
    ensures n <= |s| && (forall i :: 0 <= i < n ==> IsSpace(s[i])) && (n < |s| ==> !IsSpace(s[n]))
    decreases |s|
  {
    if s != [] && IsSpace(s[0]) then 1 + LeadingSpaces(s[1..]) else 0
  }

  /** Where a backtracking matcher starts the capture group: after all leading '#' and the
      white space that follows them, unless that leaves nothing, then at the last character. */
  function CaptureStart(line: string): (p: int)
    ensures p < |line|
  {
    var k := LeadingHashes(line);
    var w := LeadingSpaces(line[k..]);
    if k + w < |line| then k + w else |line| - 1
  }

  /** `line.match(/^#+\s*(.+)$/)?.[1]`: the captured heading text, if the line is a heading. */
  function HeadingText(line: string): Option<string>
  {
    if line == [] || line[0] != '#' then None
    else
      var p := CaptureStart(line);
      if 0 < p && IsCapture(line[p..]) then Some(line[p..]) else None
  }

  /** What stands where the leading '#' run and the white space after it end. */
  lemma RunEnd(line: string)
    ensures var k := LeadingHashes(line); var w := LeadingSpaces(line[k..]);
      k + w < |line| ==>
        && !IsSpace(line[k + w])
        && (w == 0 ==> line[k + w] != '#')
        && (w > 0 ==> IsSpace(line[k + w - 1]))
  {
    var k := LeadingHashes(line);
    var w := LeadingSpaces(line[k..]);
    if k + w < |line| {
      assert line[k + w] == line[k..][w];
      if w > 0 { assert line[k + w - 1] == line[k..][w - 1]; }
    }
  }

  /** No split point lies beyond the capture start, and the capture start then is one too. */
  lemma CaptureStartIsLargest(line: string, q: int)
    requires HeadingSplitAt(line, q)
    ensures line[0] == '#' && q <= CaptureStart(line) && IsCapture(line[CaptureStart(line)..])
  {
    RunEnd(line);
    var h := line[..q];
    assert forall i :: 0 <= i < q ==> h[i] == line[i];
    var p := CaptureStart(line);
    assert line[p..] == line[q..][p - q..];
  }

  lemma CaptureStartSplits(line: string)
    requires line != [] && line[0] == '#'
    requires 0 < CaptureStart(line) && IsCapture(line[CaptureStart(line)..])
    ensures HeadingSplitAt(line, CaptureStart(line))
  {
    var k := LeadingHashes(line);
    var p := CaptureStart(line);
    var h := line[..p];
    forall i | 0 <= i < |h| ensures (i < k ==> h[i] == '#') && (k <= i ==> IsSpace(h[i])) {
      if i >= k { assert h[i] == line[k..][i - k]; }
    }
  }

  /** The capture is the one a backtracking matcher finds: the split point is the largest possible. */
  lemma HeadingTextIsGreedyMatch(line: string)
    ensures HeadingText(line).None? <==> forall q :: !HeadingSplitAt(line, q)
    ensures HeadingText(line).Some? ==>
      var c := HeadingText(line).value;
      && |c| < |line| && c == line[|line| - |c|..]
      && HeadingSplitAt(line, |line| - |c|)
      && forall q :: HeadingSplitAt(line, q) ==> q <= |line| - |c|
  {
    forall q | HeadingSplitAt(line, q)
      ensures HeadingText(line) == Some(line[CaptureStart(line)..]) && q <= CaptureStart(line)
    {
      CaptureStartIsLargest(line, q);
    }
    if HeadingText(line).Some? {
      CaptureStartSplits(line);
    }
  }

  // ---------------------------------------------------------------------------
  // Matching a heading against the titles
  // ---------------------------------------------------------------------------

  /** Both strings mention `keyword`. */
  predicate SharesKeyword(headerText: string, sectionTitle: string, keyword: string)
  {
    Contains(headerText, keyword) && Contains(sectionTitle, keyword)
  }

  /** The test of one lower-cased heading text against one lower-cased title. */
  predicate TitleMatches(headerText: string, sectionTitle: string)
  {
    || Contains(headerText, sectionTitle)
    || Contains(sectionTitle, headerText)
    || SharesKeyword(headerText, sectionTitle, "strain")
    || SharesKeyword(headerText, sectionTitle, "harvest")
    || SharesKeyword(headerText, sectionTitle, "lipid")
    || SharesKeyword(headerText, sectionTitle, "yield")
    || SharesKeyword(headerText, sectionTitle, "image")
  }

  predicate HeaderMatchesTitle(headerText: string, title: string)
  {
    TitleMatches(headerText, ToLower(title))
  }

  /** The first title, in list order, that the heading text matches. */
  function FirstMatch(headerText: string, titles: seq<string>): (r: Option<nat>)
    ensures r.Some? ==> r.value < |titles| && HeaderMatchesTitle(headerText, titles[r.value])
    ensures r.Some? ==> forall j :: 0 <= j < r.value ==> !HeaderMatchesTitle(headerText, titles[j])
    ensures r.None? ==> forall j :: 0 <= j < |titles| ==> !HeaderMatchesTitle(headerText, titles[j])
    decreases |titles|
  {
    if titles == [] then None
    else if HeaderMatchesTitle(headerText, titles[0]) then Some(0)
    else match FirstMatch(headerText, titles[1..])
      case None => None
      case Some(j) => Some(j + 1)
  }

  /** The index of the title a line switches to, or None when the line is not a matching heading. */
  function Classify(line: string, titles: seq<string>): (r: Option<nat>)
    ensures r.Some? ==> r.value < |titles|
  {
    match HeadingText(line)
    case None => None
    case Some(captured) => FirstMatch(ToLower(Trim(captured)), titles)
  }

  /** A heading whose text is blank (such as "# ") matches the first title, which contains "". */
  lemma BlankHeadingSelectsFirstTitle(line: string, titles: seq<string>)
    requires |titles| > 0
    requires HeadingText(line).Some? && IsBlank(HeadingText(line).value)
    ensures Classify(line, titles) == Some(0)
  {
    var headerText := ToLower(Trim(HeadingText(line).value));
    assert headerText == "";
    assert StartsWith(ToLower(titles[0]), headerText);
  }

  // ---------------------------------------------------------------------------
  // Reference definition of the split
  // ---------------------------------------------------------------------------

  /** The title index each line switches the split to; None for every other line. */
  function Classes(lines: seq<string>, titles: seq<string>): (cls: seq<Option<nat>>)
    ensures |cls| == |lines|
    ensures forall k :: 0 <= k < |lines| ==> cls[k] == Classify(lines[k], titles)
  {
    seq(|lines|, k requires 0 <= k < |lines| => Classify(lines[k], titles))
  }

  /** The section chosen by the last matching heading, given each line's classification. */
  function LastMatch(cls: seq<Option<nat>>): Option<nat>
    decreases |cls|
  {
    if cls == [] then None
    else match cls[|cls| - 1]
      case Some(i) => Some(i)
      case None => LastMatch(cls[..|cls| - 1])
  }

  lemma {:induction false} LastMatchNoneIff(cls: seq<Option<nat>>)
    ensures LastMatch(cls).None? <==> forall k :: 0 <= k < |cls| ==> cls[k].None?
    decreases |cls|
  {
    if cls != [] {
      var init := cls[..|cls| - 1];
      LastMatchNoneIff(init);
      assert forall k :: 0 <= k < |init| ==> init[k] == cls[k];
    }
  }

  /** The last matching heading decides the section: it is line `j`, and no later line is a matching heading. */
  lemma {:induction false} LastMatchSomeIff(cls: seq<Option<nat>>, i: nat)
    ensures LastMatch(cls) == Some(i) <==>
      exists j :: 0 <= j < |cls| && cls[j] == Some(i) && forall m :: j < m < |cls| ==> cls[m].None?
    decreases |cls|
  {
    if cls != [] {
      var n := |cls| - 1;
      var init := cls[..n];
      LastMatchSomeIff(init, i);
      assert forall k :: 0 <= k < |init| ==> init[k] == cls[k];
      if cls[n].None? {
        if j :| 0 <= j < |cls| && cls[j] == Some(i) && (forall m :: j < m < |cls| ==> cls[m].None?) {
          assert j < n;
          assert forall m :: j < m < |init| ==> init[m].None?;
        }
      }
    }
  }

  /** The section line `k` is appended to: a plain (not matching) non-blank line after a matching heading. */
  function Attributed(lines: seq<string>, cls: seq<Option<nat>>, k: nat): Option<nat>
    requires |cls| == |lines| && k < |lines|
  {
    if cls[k].None? && Trim(lines[k]) != "" then LastMatch(cls[..k]) else None
  }

  /** A line belongs to section `i` exactly when it is a non-blank line that is not a matching heading,
      and the nearest matching heading above it selected `i`. */
  lemma AttributedToNearestHeading(lines: seq<string>, cls: seq<Option<nat>>, k: nat, i: nat)
    requires |cls| == |lines| && k < |lines|
    ensures Attributed(lines, cls, k) == Some(i) <==>
      && cls[k].None? && !IsBlank(lines[k])
      && exists j :: 0 <= j < k && cls[j] == Some(i) && forall m :: j < m < k ==> cls[m].None?
  {
    var init := cls[..k];
    LastMatchSomeIff(init, i);
    assert forall j :: 0 <= j < k ==> init[j] == cls[j];
  }

  /** Lines before the first matching heading belong to no section. */
  lemma LinesBeforeFirstHeadingDropped(lines: seq<string>, cls: seq<Option<nat>>, k: nat)
    requires |cls| == |lines| && k < |lines|
    requires forall j :: 0 <= j < k ==> cls[j].None?
    ensures Attributed(lines, cls, k).None?
  {
    var init := cls[..k];
    LastMatchNoneIff(init);
    assert forall j :: 0 <= j < k ==> init[j] == cls[j];
  }

  /** Body of section `i`: every line attributed to it, each followed by "\n", in source order. */
  function BodyOf(lines: seq<string>, cls: seq<Option<nat>>, i: nat): string
    requires |cls| == |lines|
    decreases |lines|
  {
    if lines == [] then ""
    else
      var k := |lines| - 1;
      BodyOf(lines[..k], cls[..k], i) + (if Attributed(lines, cls, k) == Some(i) then lines[k] + "\n" else "")
  }

  /** A body is blank exactly when no line is attributed to its section. */
  lemma {:induction false} BodyBlankIff(lines: seq<string>, cls: seq<Option<nat>>, i: nat)
    requires |cls| == |lines|
    ensures IsBlank(BodyOf(lines, cls, i)) <==>
      forall k :: 0 <= k < |lines| ==> Attributed(lines, cls, k) != Some(i)
    decreases |lines|
  {
    if lines != [] {
      var n := |lines| - 1;
      BodyBlankIff(lines[..n], cls[..n], i);
      forall k | 0 <= k < n ensures Attributed(lines[..n], cls[..n], k) == Attributed(lines, cls, k) {
        assert cls[..n][..k] == cls[..k];
      }
      var tail := if Attributed(lines, cls, n) == Some(i) then lines[n] + "\n" else "";
      BlankConcat(BodyOf(lines[..n], cls[..n], i), tail);
      if Attributed(lines, cls, n) == Some(i) {
        BlankConcat(lines[n], "\n");
      }
    }
  }

  /** The sections with their accumulated bodies, in title order. */
  function Accumulated(lines: seq<string>, cls: seq<Option<nat>>, titles: seq<string>): (ss: seq<Section>)
    requires |cls| == |lines|
    ensures |ss| == |titles|
  {
    seq(|titles|, i requires 0 <= i < |titles| => Section(titles[i], BodyOf(lines, cls, i)))
  }

  /** `sections.filter(section => section.content.trim())`. */
  function NonEmptySections(ss: seq<Section>): (r: seq<Section>)
    ensures |r| <= |ss|
    ensures forall b :: 0 <= b < |r| ==> Trim(r[b].content) != ""
    decreases |ss|
  {
    if ss == [] then []
    else (if Trim(ss[0].content) != "" then [ss[0]] else []) + NonEmptySections(ss[1..])
  }

  /** The filter keeps exactly the sections with non-blank content. */
  lemma {:induction false} NonEmptySectionsMembers(ss: seq<Section>, s: Section)
    ensures s in NonEmptySections(ss) <==> s in ss && Trim(s.content) != ""
    decreases |ss|
  {
    if ss != [] {
      NonEmptySectionsMembers(ss[1..], s);
      assert ss == [ss[0]] + ss[1..];
    }
  }

  lemma {:induction false} NonEmptySectionsAbove(ss: seq<Section>, titles: seq<string>, lo: int)
    requires forall a :: 0 <= a < |ss| ==> lo < Position(titles, ss[a].title)
    ensures forall b :: 0 <= b < |NonEmptySections(ss)| ==> lo < Position(titles, NonEmptySections(ss)[b].title)
    decreases |ss|
  {
    if ss != [] {
      var rest := NonEmptySections(ss[1..]);
      NonEmptySectionsAbove(ss[1..], titles, lo);
      var r := NonEmptySections(ss);
      if Trim(ss[0].content) != "" {
        assert r == [ss[0]] + rest;
        forall b | 0 <= b < |r| ensures lo < Position(titles, r[b].title) {
          if b > 0 { assert r[b] == rest[b - 1]; }
        }
      } else {
        assert r == rest;
      }
    }
  }

  /** The titles of `ss` stand in strictly increasing positions of `titles`. */
  predicate InTitleOrder(ss: seq<Section>, titles: seq<string>)
  {
    forall a, b :: 0 <= a < b < |ss| ==> Position(titles, ss[a].title) < Position(titles, ss[b].title)
  }

  lemma {:induction false} NonEmptySectionsKeepOrder(ss: seq<Section>, titles: seq<string>)
    requires InTitleOrder(ss, titles)
    ensures InTitleOrder(NonEmptySections(ss), titles)
    decreases |ss|
  {
    if ss != [] {
      var tail := ss[1..];
      NonEmptySectionsKeepOrder(tail, titles);
      NonEmptySectionsAbove(tail, titles, Position(titles, ss[0].title));
      var rest := NonEmptySections(tail);
      var r := NonEmptySections(ss);
      if Trim(ss[0].content) != "" {
        assert r == [ss[0]] + rest;
        forall a, b | 0 <= a < b < |r| ensures Position(titles, r[a].title) < Position(titles, r[b].title) {
          assert r[b] == rest[b - 1];
          if a > 0 {
            assert r[a] == rest[a - 1];
          } else {
            assert r[a] == ss[0];
          }
        }
      } else {
        assert r == rest;
      }
    }
  }

  /** What splitting `content` along `titles` yields: None when no heading matched, else the
      non-empty sections in title order. */
  function SplitWith(content: string, titles: seq<string>): Option<seq<Section>>
  {
    var lines := Split(content, '\n');
    var cls := Classes(lines, titles);
    if LastMatch(cls).None? then None
    else Some(NonEmptySections(Accumulated(lines, cls, titles)))
  }

  /** Unfolds `SplitWith` in its own small proof, so the callers do not unfold it in theirs. */
  lemma SplitWithFallsBack(content: string, titles: seq<string>)
    ensures SplitWith(content, titles).None? <==> LastMatch(Classes(Split(content, '\n'), titles)).None?
  {
  }

  lemma SplitWithSections(content: string, titles: seq<string>)
    requires SplitWith(content, titles).Some?
    ensures var lines := Split(content, '\n'); var cls := Classes(lines, titles);
      SplitWith(content, titles).value == NonEmptySections(Accumulated(lines, cls, titles))
  {
  }

  /** What `splitSections` yields for a response. */
  function SplitSpec(content: string, hasImage: bool): Option<seq<Section>>
  {
    SplitWith(content, Titles(hasImage))
  }

  // ---------------------------------------------------------------------------
  // Properties of the split
  // ---------------------------------------------------------------------------

  /** The split falls back (None) exactly when no line is a heading that matches a title. */
  lemma FallbackIffNoMatchingHeading(content: string, titles: seq<string>)
    ensures var lines := Split(content, '\n');
      SplitWith(content, titles).None? <==>
        forall k :: 0 <= k < |lines| ==> Classify(lines[k], titles).None?
  {
    SplitWithFallsBack(content, titles);
    LastMatchNoneIff(Classes(Split(content, '\n'), titles));
  }

  /** Returned titles are expected titles, in the fixed order, without repeats, and every body is non-blank. */
  lemma SectionsFollowTitleOrder(content: string, titles: seq<string>)
    requires forall a, b :: 0 <= a < b < |titles| ==> titles[a] != titles[b]
    requires SplitWith(content, titles).Some?
    ensures var ss := SplitWith(content, titles).value;
      && (forall a :: 0 <= a < |ss| ==> ss[a].title in titles && Trim(ss[a].content) != "")
      && InTitleOrder(ss, titles)
      && (forall a, b :: 0 <= a < b < |ss| ==> ss[a].title != ss[b].title)
  {
    var lines := Split(content, '\n');
    var cls := Classes(lines, titles);
    var acc := Accumulated(lines, cls, titles);
    forall a | 0 <= a < |acc| ensures Position(titles, acc[a].title) == a {
      PositionOfDistinct(titles, a);
    }
    assert InTitleOrder(acc, titles);
    NonEmptySectionsKeepOrder(acc, titles);
    SplitWithSections(content, titles);
    var ss := NonEmptySections(acc);
    forall a | 0 <= a < |ss| ensures ss[a].title in titles {
      NonEmptySectionsMembers(acc, ss[a]);
      var b :| 0 <= b < |acc| && acc[b] == ss[a];
    }
  }

  /** The image section appears only when an image was sent. */
  lemma ImageSectionOnlyWithImage(content: string, hasImage: bool)
    requires SplitSpec(content, hasImage).Some?
    ensures var ss := SplitSpec(content, hasImage).value;
      && InTitleOrder(ss, Titles(hasImage))
      && (forall a :: 0 <= a < |ss| ==> ss[a].title in Titles(hasImage))
      && (forall a :: 0 <= a < |ss| ==> ss[a].title == ImageTitle ==> hasImage)
  {
    SectionsFollowTitleOrder(content, Titles(hasImage));
  }

  /** After the filter, section `i` is present exactly when some line is attributed to it, and then
      with its whole body. */
  lemma SectionPresentIffAttributed(lines: seq<string>, cls: seq<Option<nat>>, titles: seq<string>, i: nat)
    requires |cls| == |lines| && i < |titles|
    requires forall a, b :: 0 <= a < b < |titles| ==> titles[a] != titles[b]
    ensures var ss := NonEmptySections(Accumulated(lines, cls, titles));
      && ((exists a :: 0 <= a < |ss| && ss[a].title == titles[i]) <==>
           exists k :: 0 <= k < |lines| && Attributed(lines, cls, k) == Some(i))
      && forall a :: 0 <= a < |ss| && ss[a].title == titles[i] ==> ss[a].content == BodyOf(lines, cls, i)
  {
    var acc := Accumulated(lines, cls, titles);
    var ss := NonEmptySections(acc);
    BodyBlankIff(lines, cls, i);
    forall a | 0 <= a < |ss| && ss[a].title == titles[i] ensures ss[a] == acc[i] {
      NonEmptySectionsMembers(acc, ss[a]);
      var b :| 0 <= b < |acc| && acc[b] == ss[a];
      assert titles[b] == titles[i];
    }
    NonEmptySectionsMembers(acc, acc[i]);
    if exists k :: 0 <= k < |lines| && Attributed(lines, cls, k) == Some(i) {
      assert acc[i] in acc;
      var a :| 0 <= a < |ss| && ss[a] == acc[i];
    }
  }

  /** Section `i` is returned exactly when some line of the response is attributed to it. */
  lemma SectionPresentIff(content: string, titles: seq<string>, i: nat)
    requires forall a, b :: 0 <= a < b < |titles| ==> titles[a] != titles[b]
    requires SplitWith(content, titles).Some?
    requires i < |titles|
    ensures var lines := Split(content, '\n');
      var cls := Classes(lines, titles); var ss := SplitWith(content, titles).value;
      && ((exists a :: 0 <= a < |ss| && ss[a].title == titles[i]) <==>
           exists k :: 0 <= k < |lines| && Attributed(lines, cls, k) == Some(i))
      && forall a :: 0 <= a < |ss| && ss[a].title == titles[i] ==> ss[a].content == BodyOf(lines, cls, i)
  {
    var lines := Split(content, '\n');
    SplitWithSections(content, titles);
    SectionPresentIffAttributed(lines, Classes(lines, titles), titles, i);
  }

  // ---------------------------------------------------------------------------
  // The splitter and the renderer
  // ---------------------------------------------------------------------------

  /** One more line: the last matching heading is this line's match, if it has one. */
  lemma LastMatchStep(cls: seq<Option<nat>>, k: nat)
    requires k < |cls|
    ensures LastMatch(cls[..k + 1]) == if cls[k].Some? then cls[k] else LastMatch(cls[..k])
  {
    assert cls[..k + 1][..k] == cls[..k];
  }

  /** One more line: a body grows by that line exactly when the line is attributed to it. */
  lemma BodyOfStep(lines: seq<string>, cls: seq<Option<nat>>, k: nat, i: nat)
    requires |cls| == |lines| && k < |lines|
    ensures BodyOf(lines[..k + 1], cls[..k + 1], i) ==
      BodyOf(lines[..k], cls[..k], i) + (if Attributed(lines, cls, k) == Some(i) then lines[k] + "\n" else "")
  {
    assert lines[..k + 1][..k] == lines[..k];
    assert cls[..k + 1][..k] == cls[..k];
    assert cls[..k + 1][..k + 1][..k] == cls[..k];
  }

  /** Any result with the first-match property is the first match. */
  lemma FirstMatchUnique(headerText: string, titles: seq<string>, m: Option<nat>)
    requires m.Some? ==> m.value < |titles| && HeaderMatchesTitle(headerText, titles[m.value])
    requires m.Some? ==> forall j :: 0 <= j < m.value ==> !HeaderMatchesTitle(headerText, titles[j])
    requires m.None? ==> forall j :: 0 <= j < |titles| ==> !HeaderMatchesTitle(headerText, titles[j])
    ensures m == FirstMatch(headerText, titles)
  {
  }

  /** The loop over the sections for one heading: the first section whose title the heading matches. */
  method MatchHeading(headerText: string, sections: seq<Section>) returns (m: Option<nat>)
    ensures m.Some? ==> m.value < |sections| && HeaderMatchesTitle(headerText, sections[m.value].title)
    ensures m.Some? ==> forall j :: 0 <= j < m.value ==> !HeaderMatchesTitle(headerText, sections[j].title)
    ensures m.None? ==> forall j :: 0 <= j < |sections| ==> !HeaderMatchesTitle(headerText, sections[j].title)
  {
    var i := 0;
    while i < |sections|
      invariant 0 <= i <= |sections|
      invariant forall j :: 0 <= j < i ==> !HeaderMatchesTitle(headerText, sections[j].title)
    {
      var sectionTitle := ToLower(sections[i].title);
      if TitleMatches(headerText, sectionTitle) {
        return Some(i);
      }
      i := i + 1;
    }
    return None;
  }

  /** `splitSections`: the sections in their fixed order, the image one only when an image was sent. */
  method SplitSections(content: string, hasImage: bool) returns (r: Option<seq<Section>>)
    ensures r == SplitSpec(content, hasImage)
  {
    var titles := [StrainTitle, HarvestTitle, LipidTitle, YieldTitle];
    if hasImage {
      titles := titles + [ImageTitle];
    }
    assert titles == Titles(hasImage);
    r := SplitAlong(content, titles);
  }

  /** What the callback does to the walk's state for one line. */
  predicate LineStep(line: string, titles: seq<string>, sections: seq<Section>, current: int, found: bool,
                     sections': seq<Section>, current': int, found': bool)
  {
    match Classify(line, titles)
    case Some(i) => current' == i && found' && sections' == sections
    case None =>
      && current' == current && found' == found
      && sections' == if 0 <= current < |sections| && Trim(line) != "" then
           sections[current := sections[current].(content := sections[current].content + line + "\n")]
         else sections
  }

  /** The `lines.map` callback of `splitSections` for one line: a matching heading switches the
      current section and is dropped; any other non-blank line is appended to the current section. */
  method ProcessLine(line: string, sections: seq<Section>, current: int, sectionsFound: bool, ghost titles: seq<string>)
    returns (sections': seq<Section>, current': int, sectionsFound': bool)
    requires |sections| == |titles| && forall i :: 0 <= i < |titles| ==> sections[i].title == titles[i]
    requires -1 <= current < |sections|
    ensures LineStep(line, titles, sections, current, sectionsFound, sections', current', sectionsFound')
  {
    sections', current', sectionsFound' := sections, current, sectionsFound;
    var headerMatch := HeadingText(line);
    if headerMatch.Some? {
      var headerText := ToLower(Trim(headerMatch.value));
      var m := MatchHeading(headerText, sections);
      FirstMatchUnique(headerText, titles, m);
      if m.Some? {
        current' := m.value;
        sectionsFound' := true;
        return;
      }
    }
    if current >= 0 && Trim(line) != "" {
      sections' := sections[current := sections[current].(content := sections[current].content + line + "\n")];
    }
  }

  /** The walk's state after the first `k` lines: each body holds the lines attributed to it so far,
      and the current section is the one the last matching heading selected. */
  ghost predicate WalkState(lines: seq<string>, cls: seq<Option<nat>>, titles: seq<string>, k: nat,
                            sections: seq<Section>, current: int, found: bool)
  {
    && |cls| == |lines| && k <= |lines|
    && |sections| == |titles| && -1 <= current < |titles|
    && (forall i :: 0 <= i < |titles| ==> sections[i].title == titles[i])
    && (forall i :: 0 <= i < |titles| ==> sections[i].content == BodyOf(lines[..k], cls[..k], i))
    && (found <==> LastMatch(cls[..k]).Some?)
    && (found ==> 0 <= current < |titles| && LastMatch(cls[..k]) == Some(current as nat))
    && (!found ==> current == -1)
  }

  lemma WalkStart(lines: seq<string>, cls: seq<Option<nat>>, titles: seq<string>, sections: seq<Section>)
    requires |cls| == |lines|
    requires |sections| == |titles| && forall i :: 0 <= i < |titles| ==> sections[i] == Section(titles[i], "")
    ensures WalkState(lines, cls, titles, 0, sections, -1, false)
  {
    assert LastMatch(cls[..0]).None?;
  }

  /** One line processed by the callback extends the walk's state by that line. */
  lemma WalkStep(lines: seq<string>, cls: seq<Option<nat>>, titles: seq<string>, k: nat,
                 sections: seq<Section>, current: int, found: bool,
                 sections': seq<Section>, current': int, found': bool)
    requires |cls| == |lines| && k < |lines| && cls[k] == Classify(lines[k], titles)
    requires WalkState(lines, cls, titles, k, sections, current, found)
    requires LineStep(lines[k], titles, sections, current, found, sections', current', found')
    ensures WalkState(lines, cls, titles, k + 1, sections', current', found')
  {
    LastMatchStep(cls, k);
    forall i | 0 <= i < |titles|
      ensures sections'[i].title == titles[i]
      ensures sections'[i].content == BodyOf(lines[..k + 1], cls[..k + 1], i)
    {
      BodyOfStep(lines, cls, k, i);
    }
  }

  /** After the last line, the walk's result is the reference split. */
  lemma WalkDone(content: string, titles: seq<string>, sections: seq<Section>, current: int, found: bool)
    requires var lines := Split(content, '\n');
      WalkState(lines, Classes(lines, titles), titles, |lines|, sections, current, found)
    ensures SplitWith(content, titles) == if found then Some(NonEmptySections(sections)) else None
  {
    var lines := Split(content, '\n');
    var cls := Classes(lines, titles);
    assert lines[..|lines|] == lines;
    assert cls[..|lines|] == cls;
    SplitWithFallsBack(content, titles);
    if found {
      SplitWithSections(content, titles);
      assert sections == Accumulated(lines, cls, titles);
    }
  }

  /** The body of `splitSections`: walks the lines once, switching section on each matching heading. */
  method SplitAlong(content: string, titles: seq<string>) returns (r: Option<seq<Section>>)
    ensures r == SplitWith(content, titles)
  {
    var sections := seq(|titles|, i requires 0 <= i < |titles| => Section(titles[i], ""));
    var current := -1;
    var lines := Split(content, '\n');
    var sectionsFound := false;
    ghost var cls := Classes(lines, titles);
    WalkStart(lines, cls, titles, sections);

    var k := 0;
    while k < |lines|
      invariant 0 <= k <= |lines|
      invariant WalkState(lines, cls, titles, k, sections, current, sectionsFound)
    {
      var sections', current', sectionsFound' := ProcessLine(lines[k], sections, current, sectionsFound, titles);
      WalkStep(lines, cls, titles, k, sections, current, sectionsFound, sections', current', sectionsFound');
      sections, current, sectionsFound := sections', current', sectionsFound';
      k := k + 1;
    }

    WalkDone(content, titles, sections, current, sectionsFound);
    if !sectionsFound {
      return None;
    }
    return Some(NonEmptySections(sections));
  }

  datatype Body = Unsectioned(markdown: string) | Sectioned(sections: seq<Section>)

  /** What the recommendation card shows. */
  datatype View = Nothing | Card(body: Body, imageNotice: bool)

  /** The component: nothing for an empty response; otherwise the sections, or the raw text when
      no heading matched, with the image notice exactly when an image was sent. */
  method Render(response: string, hasImage: bool) returns (v: View)
    ensures v == Nothing <==> response == ""
    ensures v.Card? ==> v.imageNotice == hasImage
    ensures v.Card? ==> v.body == match SplitSpec(response, hasImage)
      case None => Unsectioned(response)
      case Some(sections) => Sectioned(sections)
  {
    if response == "" {
      return Nothing;
    }
    var sections := SplitSections(response, hasImage);
    var body := if sections.None? then Unsectioned(response) else Sectioned(sections.value);
    v := Card(body, hasImage);
  }
}
