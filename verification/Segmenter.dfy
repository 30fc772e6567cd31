/**
 Splitting a document at its headings: the line segmenter of agents/segment_text.py and the block
 segmenter of agents/read_agent.py. What counts as white space, as a line break and as a heading
 is left open.
 */
module Segmenter {
  import opened Lists
  import opened Options
  import opened Segments

  datatype Layout = Layout(space: char -> bool, breaks: char -> bool, heading: string -> bool)

  const TITLE_CHARS: nat := 120

  // ---- grouping ---------------------------------------------------------

  predicate NonEmpty<T>(gs: seq<seq<T>>) {
    forall k | 0 <= k < |gs| :: |gs[k]| > 0
  }

  /** A new group starts at each heading, and at the first item. */
  function Group<T>(items: seq<T>, head: T -> bool): (gs: seq<seq<T>>)
    ensures NonEmpty(gs)
    ensures items != [] ==> gs != []
  {
    if items == [] then []
    else
      var gs, x := Group(items[..|items| - 1], head), items[|items| - 1];
      if gs == [] || head(x) then gs + [[x]]
      else gs[..|gs| - 1] + [gs[|gs| - 1] + [x]]
  }

  /** Grouping loses and reorders nothing. */
  lemma {:induction false} GroupConcat<T>(items: seq<T>, head: T -> bool)
    ensures Concat(Group(items, head)) == items
  {
    if items != [] {
      var n := |items| - 1;
      var gs, x := Group(items[..n], head), items[n];
      GroupConcat(items[..n], head);
      assert items == items[..n] + [x];
      if gs == [] || head(x) {
        assert (gs + [[x]])[..|gs|] == gs;
      } else {
        var rest := gs[..|gs| - 1];
        assert (rest + [gs[|gs| - 1] + [x]])[..|rest|] == rest;
      }
    }
  }

  /** Only the first group may start without a heading, and headings occur only at the start. */
  predicate WellHeaded<T>(gs: seq<seq<T>>, head: T -> bool) {
    forall k, i | 0 <= k < |gs| && 0 <= i < |gs[k]| :: if i == 0 then k == 0 || head(gs[k][0]) else !head(gs[k][i])
  }

  lemma {:induction false} GroupWellHeaded<T>(items: seq<T>, head: T -> bool)
    ensures WellHeaded(Group(items, head), head)
  {
    if items != [] {
      GroupWellHeaded(items[..|items| - 1], head);
    }
  }

  // ---- text -------------------------------------------------------------

  function StripLeft(s: string, space: char -> bool): string {
    if s != "" && space(s[0]) then StripLeft(s[1..], space) else s
  }

  function StripRight(s: string, space: char -> bool): string {
    if s != "" && space(s[|s| - 1]) then StripRight(s[..|s| - 1], space) else s
  }

  function Strip(s: string, space: char -> bool): string {
    StripRight(StripLeft(s, space), space)
  }

  function Split(s: string, breaks: char -> bool): (lines: seq<string>)
    ensures lines != []
  {
    if s == "" then [""]
    else
      var rest := Split(s[1..], breaks);
      if breaks(s[0]) then [""] + rest else [[s[0]] + rest[0]] + rest[1..]
  }

  /** Lines stripped, blank ones dropped. */
  function Tidy(lines: seq<string>, space: char -> bool): seq<string> {
    if lines == [] then []
    else
      var l := Strip(lines[0], space);
      (if l != "" then [l] else []) + Tidy(lines[1..], space)
  }

  function CleanLines(text: string, l: Layout): seq<string> {
    Tidy(Split(text, l.breaks), l.space)
  }

  function Join(lines: seq<string>): string {
    if lines == [] then ""
    else if |lines| == 1 then lines[0]
    else Join(lines[..|lines| - 1]) + "\n" + lines[|lines| - 1]
  }

  function Take(s: string): string {
    if |s| <= TITLE_CHARS then s else s[..TITLE_CHARS]
  }

  function IsHeading(l: Layout): string -> bool {
    (line: string) => l.heading(Take(line))
  }

  function LineSegment(g: seq<string>, k: nat, l: Layout): TextSegment
    requires g != []
  {
    TextSegment(if l.heading(Take(g[0])) then Some(Take(g[0])) else None, Strip(Join(g), l.space), 0, 0, k)
  }

  function LineSegments(gs: seq<seq<string>>, l: Layout): seq<TextSegment>
    requires NonEmpty(gs)
  {
    seq(|gs|, k requires 0 <= k < |gs| => LineSegment(gs[k], k, l))
  }

  function SegmentsOf(lines: seq<string>, l: Layout): seq<TextSegment> {
    LineSegments(Group(lines, IsHeading(l)), l)
  }

  /** The loop of the line segmenter. */
  method SegmentText(text: string, l: Layout) returns (segments: seq<TextSegment>)
    ensures segments == SegmentsOf(CleanLines(text, l), l)
  {
    var lines := CleanLines(text, l);
    segments := [];
    var open, title: Option<string>, cur, idx, i := false, None, "", 0, 0;
    while i < |lines|
      invariant 0 <= i <= |lines|
      invariant Holding(lines[..i], l, segments, open, title, cur)
      invariant idx == |segments|
    {
      var ln := lines[i];
      if l.heading(Take(ln)) {
        StartNextLine(lines, i, l, segments, open, title, cur);
        if open {
          segments := segments + [TextSegment(title, Strip(cur, l.space), 0, 0, idx)];
          idx := idx + 1;
        }
        open, title, cur := true, Some(Take(ln)), ln;
      } else if !open {
        StartNextLine(lines, i, l, segments, open, title, cur);
        open, title, cur := true, None, ln;
      } else {
        GrowNextLine(lines, i, l, segments, title, cur);
        cur := cur + "\n" + ln;
      }
      i := i + 1;
    }
    assert lines[..i] == lines;
    if open {
      segments := segments + [TextSegment(title, Strip(cur, l.space), 0, 0, idx)];
    }
  }

  /** Closed segments are the closed groups; the open title and text are those of the last group. */
  ghost predicate Holding(done: seq<string>, l: Layout, segments: seq<TextSegment>, open: bool,
                          title: Option<string>, cur: string) {
    if open then
      var gs := Group(done, IsHeading(l));
      && gs != []
      && SegmentsOf(done, l) == segments + [TextSegment(title, Strip(cur, l.space), 0, 0, |segments|)]
      && cur == Join(gs[|gs| - 1])
    else done == [] && segments == []
  }

  lemma GroupSnoc<T>(done: seq<T>, x: T, head: T -> bool)
    ensures var gs := Group(done, head);
            Group(done + [x], head) ==
              if gs == [] || head(x) then gs + [[x]] else gs[..|gs| - 1] + [gs[|gs| - 1] + [x]]
  {
    assert (done + [x])[..|done|] == done;
  }

  lemma StartLine(done: seq<string>, ln: string, l: Layout, segments: seq<TextSegment>, open: bool,
                  title: Option<string>, cur: string)
    requires Holding(done, l, segments, open, title, cur) && (l.heading(Take(ln)) || !open)
    ensures var last := TextSegment(title, Strip(cur, l.space), 0, 0, |segments|);
            var closed := if open then segments + [last] else segments;
            Holding(done + [ln], l, closed, true, if l.heading(Take(ln)) then Some(Take(ln)) else None, ln)
  {
    var gs := Group(done, IsHeading(l));
    GroupSnoc(done, ln, IsHeading(l));
    assert gs == [] || IsHeading(l)(ln);
    AppendLines(gs, [ln], l);
    assert Join([ln]) == ln;
  }

  lemma AppendLines(gs: seq<seq<string>>, g: seq<string>, l: Layout)
    requires NonEmpty(gs) && g != []
    ensures LineSegments(gs + [g], l) == LineSegments(gs, l) + [LineSegment(g, |gs|, l)]
  {
  }

  lemma StartNextLine(lines: seq<string>, i: nat, l: Layout, segments: seq<TextSegment>, open: bool,
                      title: Option<string>, cur: string)
    requires i < |lines| && Holding(lines[..i], l, segments, open, title, cur) && (l.heading(Take(lines[i])) || !open)
    ensures var last := TextSegment(title, Strip(cur, l.space), 0, 0, |segments|);
            var closed := if open then segments + [last] else segments;
            Holding(lines[..i + 1], l, closed, true, if l.heading(Take(lines[i])) then Some(Take(lines[i])) else None,
                    lines[i])
  {
    assert lines[..i + 1] == lines[..i] + [lines[i]];
    StartLine(lines[..i], lines[i], l, segments, open, title, cur);
  }

  lemma GrowNextLine(lines: seq<string>, i: nat, l: Layout, segments: seq<TextSegment>, title: Option<string>,
                     cur: string)
    requires i < |lines| && Holding(lines[..i], l, segments, true, title, cur) && !l.heading(Take(lines[i]))
    ensures Holding(lines[..i + 1], l, segments, true, title, cur + "\n" + lines[i])
  {
    assert lines[..i + 1] == lines[..i] + [lines[i]];
    GrowLine(lines[..i], lines[i], l, segments, title, cur);
  }

  lemma JoinSnoc(lines: seq<string>, ln: string)
    requires lines != []
    ensures Join(lines + [ln]) == Join(lines) + "\n" + ln
  {
    assert (lines + [ln])[..|lines|] == lines;
  }

  lemma ReplaceLast(gs: seq<seq<string>>, g: seq<string>, l: Layout)
    requires NonEmpty(gs) && gs != [] && g != []
    ensures var n := |gs| - 1;
            LineSegments(gs[..n] + [g], l) == LineSegments(gs, l)[..n] + [LineSegment(g, n, l)]
  {
  }

  lemma GrowLine(done: seq<string>, ln: string, l: Layout, segments: seq<TextSegment>, title: Option<string>,
                 cur: string)
    requires Holding(done, l, segments, true, title, cur) && !l.heading(Take(ln))
    ensures Holding(done + [ln], l, segments, true, title, cur + "\n" + ln)
  {
    var gs := Group(done, IsHeading(l));
    var last := gs[|gs| - 1];
    GroupSnoc(done, ln, IsHeading(l));
    assert !IsHeading(l)(ln);
    JoinSnoc(last, ln);
    ReplaceLast(gs, last + [ln], l);
    assert LineSegments(gs, l)[|gs| - 1] == LineSegment(last, |gs| - 1, l);
    assert segments == LineSegments(gs, l)[..|gs| - 1];
  }

  // ---- round trip -------------------------------------------------------

  /** A line as cleaning leaves it: not blank, no white space at its ends, no break inside. */
  predicate CleanLine(s: string, l: Layout) {
    && s != "" && !l.space(s[0]) && !l.space(s[|s| - 1])
    && forall c | c in s :: !l.breaks(c)
  }

  predicate AllClean(lines: seq<string>, l: Layout) {
    forall i | 0 <= i < |lines| :: CleanLine(lines[i], l)
  }

  lemma {:induction false} StripLeftClean(s: string, space: char -> bool)
    ensures var r := StripLeft(s, space);
            (r != "" ==> !space(r[0])) && (forall c | c in r :: c in s) && (r != "" ==> r[|r| - 1] == s[|s| - 1])
  {
    if s != "" && space(s[0]) {
      StripLeftClean(s[1..], space);
    }
  }

  lemma {:induction false} StripRightClean(s: string, space: char -> bool)
    ensures var r := StripRight(s, space);
            (r != "" ==> !space(r[|r| - 1])) && (forall c | c in r :: c in s) && (r != "" ==> r[0] == s[0])
  {
    if s != "" && space(s[|s| - 1]) {
      StripRightClean(s[..|s| - 1], space);
    }
  }

  lemma {:induction false} SplitHasNoBreaks(s: string, breaks: char -> bool)
    ensures forall line, c | line in Split(s, breaks) && c in line :: !breaks(c)
  {
    if s != "" {
      SplitHasNoBreaks(s[1..], breaks);
    }
  }

  lemma {:induction false} TidyIsClean(lines: seq<string>, l: Layout)
    requires forall line, c | line in lines && c in line :: !l.breaks(c)
    ensures AllClean(Tidy(lines, l.space), l)
  {
    if lines != [] {
      StripLeftClean(lines[0], l.space);
      StripRightClean(StripLeft(lines[0], l.space), l.space);
      assert lines[0] in lines;
      TidyIsClean(lines[1..], l);
    }
  }

  lemma {:induction false} TidyOfClean(lines: seq<string>, l: Layout)
    requires AllClean(lines, l)
    ensures Tidy(lines, l.space) == lines
  {
    if lines != [] {
      assert Strip(lines[0], l.space) == lines[0];
      TidyOfClean(lines[1..], l);
    }
  }

  lemma {:induction false} SplitPlain(s: string, breaks: char -> bool)
    requires forall c | c in s :: !breaks(c)
    ensures Split(s, breaks) == [s]
  {
    if s != "" {
      assert s[0] in s;
      SplitPlain(s[1..], breaks);
      assert [s[0]] + s[1..] == s;
    }
  }

  lemma {:induction false} SplitAtBreak(a: string, b: string, breaks: char -> bool)
    requires breaks('\n')
    ensures Split(a + "\n" + b, breaks) == Split(a, breaks) + Split(b, breaks)
  {
    var s := a + "\n" + b;
    if a == "" {
      assert s[1..] == b;
    } else {
      assert s[1..] == a[1..] + "\n" + b;
      SplitAtBreak(a[1..], b, breaks);
    }
  }

  lemma {:induction false} SplitJoin(lines: seq<string>, l: Layout)
    requires l.breaks('\n') && lines != [] && AllClean(lines, l)
    ensures Split(Join(lines), l.breaks) == lines
  {
    var n := |lines| - 1;
    SplitPlain(lines[n], l.breaks);
    if n > 0 {
      SplitJoin(lines[..n], l);
      SplitAtBreak(Join(lines[..n]), lines[n], l.breaks);
      assert lines == lines[..n] + [lines[n]];
    } else {
      assert lines == [lines[0]];
    }
  }

  lemma CleanJoin(lines: seq<string>, l: Layout)
    requires l.breaks('\n') && AllClean(lines, l)
    ensures CleanLines(Join(lines), l) == lines
  {
    if lines == [] {
      assert Split("", l.breaks) == [""];
      assert Tidy([""], l.space) == [] by {
        assert Strip("", l.space) == "";
        assert [""][1..] == [];
      }
    } else {
      SplitJoin(lines, l);
      TidyOfClean(lines, l);
    }
  }

  lemma {:induction false} JoinEnds(lines: seq<string>)
    requires lines != [] && forall i | 0 <= i < |lines| :: lines[i] != ""
    ensures var s := Join(lines);
            s != "" && s[0] == lines[0][0] && s[|s| - 1] == lines[|lines| - 1][|lines[|lines| - 1]| - 1]
  {
    var n := |lines| - 1;
    if n > 0 {
      JoinEnds(lines[..n]);
    }
  }

  lemma {:induction false} JoinInTwo(a: seq<string>, b: seq<string>)
    requires a != [] && b != []
    ensures Join(a + b) == Join(a) + "\n" + Join(b)
  {
    var n := |b| - 1;
    if n == 0 {
      assert (a + b)[..|a|] == a && (a + b)[|a|] == b[0];
    } else {
      assert (a + b)[..|a + b| - 1] == a + b[..n];
      JoinInTwo(a, b[..n]);
      assert Join(a) + "\n" + Join(b[..n]) + "\n" + b[n] == Join(a) + "\n" + (Join(b[..n]) + "\n" + b[n]);
    }
  }

  function TextsOf(segments: seq<TextSegment>): seq<string> {
    seq(|segments|, k requires 0 <= k < |segments| => segments[k].text)
  }

  function JoinEach(gs: seq<seq<string>>): seq<string> {
    seq(|gs|, k requires 0 <= k < |gs| => Join(gs[k]))
  }

  lemma {:induction false} JoinOfJoins(gs: seq<seq<string>>)
    requires NonEmpty(gs)
    ensures Join(JoinEach(gs)) == Join(Concat(gs))
    ensures gs != [] ==> Concat(gs) != []
  {
    if gs != [] {
      var n := |gs| - 1;
      JoinOfJoins(gs[..n]);
      assert JoinEach(gs) == JoinEach(gs[..n]) + [Join(gs[n])];
      if n > 0 {
        JoinInTwo(JoinEach(gs[..n]), [Join(gs[n])]);
        JoinInTwo(Concat(gs[..n]), gs[n]);
      } else {
        assert gs[..0] == [] && Concat(gs) == [] + gs[0] == gs[0];
        assert JoinEach(gs) == [Join(gs[0])];
      }
    }
  }

  /** The segments of clean lines carry exactly those lines: their texts join back to the document. */
  lemma TextsJoinBack(lines: seq<string>, l: Layout)
    requires AllClean(lines, l)
    ensures Join(TextsOf(SegmentsOf(lines, l))) == Join(lines)
  {
    var gs := Group(lines, IsHeading(l));
    GroupConcat(lines, IsHeading(l));
    forall k | 0 <= k < |gs|
      ensures Strip(Join(gs[k]), l.space) == Join(gs[k])
    {
      InConcat(gs, k);
      forall i | 0 <= i < |gs[k]|
        ensures CleanLine(gs[k][i], l)
      {
        assert gs[k][i] in lines;
      }
      JoinEnds(gs[k]);
    }
    assert TextsOf(SegmentsOf(lines, l)) == JoinEach(gs);
    JoinOfJoins(gs);
  }

  /** Joining the segment texts gives back the cleaned lines, and segmenting that text again changes nothing. */
  lemma SegmentationRoundTrip(text: string, l: Layout)
    requires l.breaks('\n')
    ensures var segments := SegmentsOf(CleanLines(text, l), l);
            var again := Join(TextsOf(segments));
            CleanLines(again, l) == CleanLines(text, l) && SegmentsOf(CleanLines(again, l), l) == segments
  {
    var lines := CleanLines(text, l);
    SplitHasNoBreaks(text, l.breaks);
    TidyIsClean(Split(text, l.breaks), l);
    TextsJoinBack(lines, l);
    CleanJoin(lines, l);
  }

  /** Segments are numbered from 0; only the first may be untitled; a titled one starts at its only heading. */
  lemma SegmentShape(lines: seq<string>, l: Layout, k: nat)
    requires k < |Group(lines, IsHeading(l))|
    ensures var s, g := SegmentsOf(lines, l)[k], Group(lines, IsHeading(l))[k];
            && s.index == k
            && (s.title.None? ==> k == 0)
            && (s.title.Some? <==> l.heading(Take(g[0])))
            && (s.title.Some? ==> s.title.value == (if |g[0]| <= 120 then g[0] else g[0][..120]))
            && (forall i | 1 <= i < |g| :: !l.heading(Take(g[i])))
  {
    var gs := Group(lines, IsHeading(l));
    GroupWellHeaded(lines, IsHeading(l));
    assert k == 0 || IsHeading(l)(gs[k][0]);
    forall i | 1 <= i < |gs[k]|
      ensures !l.heading(Take(gs[k][i]))
    {
      assert !IsHeading(l)(gs[k][i]);
    }
  }

  // ---- nothing visible is lost -----------------------------------------

  /** What is printed: everything but white space and line breaks. */
  function Ink(s: string, l: Layout): string {
    if s == "" then ""
    else (if l.space(s[0]) || l.breaks(s[0]) then "" else [s[0]]) + Ink(s[1..], l)
  }

  function InkOf(lines: seq<string>, l: Layout): string {
    if lines == [] then "" else Ink(lines[0], l) + InkOf(lines[1..], l)
  }

  lemma {:induction false} InkConcat(a: string, b: string, l: Layout)
    ensures Ink(a + b, l) == Ink(a, l) + Ink(b, l)
  {
    if a == "" {
      assert a + b == b;
    } else {
      assert (a + b)[1..] == a[1..] + b;
      InkConcat(a[1..], b, l);
    }
  }

  lemma {:induction false} InkOfConcat(a: seq<string>, b: seq<string>, l: Layout)
    ensures InkOf(a + b, l) == InkOf(a, l) + InkOf(b, l)
  {
    if a == [] {
      assert a + b == b;
    } else {
      assert (a + b)[1..] == a[1..] + b;
      InkOfConcat(a[1..], b, l);
    }
  }

  lemma {:induction false} StripKeepsInk(s: string, l: Layout)
    ensures Ink(StripLeft(s, l.space), l) == Ink(s, l)
    ensures Ink(StripRight(s, l.space), l) == Ink(s, l)
  {
    if s != "" {
      StripKeepsInk(s[1..], l);
      var n := |s| - 1;
      StripKeepsInk(s[..n], l);
      InkConcat(s[..n], [s[n]], l);
      assert s == s[..n] + [s[n]] && [s[n]][1..] == "";
    }
  }

  lemma {:induction false} SplitKeepsInk(s: string, l: Layout)
    ensures InkOf(Split(s, l.breaks), l) == Ink(s, l)
  {
    if s != "" {
      SplitKeepsInk(s[1..], l);
      var rest := Split(s[1..], l.breaks);
      if l.breaks(s[0]) {
        assert ([""] + rest)[1..] == rest;
      } else {
        InkConcat([s[0]], rest[0], l);
        assert [s[0]][1..] == "";
        assert ([[s[0]] + rest[0]] + rest[1..])[1..] == rest[1..];
      }
    }
  }

  lemma {:induction false} TidyKeepsInk(lines: seq<string>, l: Layout)
    ensures InkOf(Tidy(lines, l.space), l) == InkOf(lines, l)
  {
    if lines != [] {
      TidyKeepsInk(lines[1..], l);
      StripKeepsInk(lines[0], l);
      StripKeepsInk(StripLeft(lines[0], l.space), l);
      var one, rest := Strip(lines[0], l.space), Tidy(lines[1..], l.space);
      if one == "" {
        assert Tidy(lines, l.space) == rest && Ink(one, l) == "";
      } else {
        assert Tidy(lines, l.space) == [one] + rest && ([one] + rest)[1..] == rest;
      }
    }
  }

  lemma {:induction false} JoinKeepsInk(lines: seq<string>, l: Layout)
    requires l.breaks('\n')
    ensures Ink(Join(lines), l) == InkOf(lines, l)
  {
    if |lines| == 1 {
      assert lines[1..] == [];
    } else if lines != [] {
      var n := |lines| - 1;
      JoinKeepsInk(lines[..n], l);
      BreakHasNoInk(Join(lines[..n]), lines[n], l);
      InkOfSnoc(lines[..n], lines[n], l);
      assert lines == lines[..n] + [lines[n]];
    }
  }

  lemma NoInk(l: Layout)
    requires l.breaks('\n')
    ensures Ink("\n", l) == ""
  {
    assert "\n"[1..] == "";
  }

  lemma BreakHasNoInk(a: string, b: string, l: Layout)
    requires l.breaks('\n')
    ensures Ink(a + "\n" + b, l) == Ink(a, l) + Ink(b, l)
  {
    var line := a + "\n";
    InkConcat(line, b, l);
    InkConcat(a, "\n", l);
    NoInk(l);
  }

  lemma InkOfSnoc(lines: seq<string>, line: string, l: Layout)
    ensures InkOf(lines + [line], l) == InkOf(lines, l) + Ink(line, l)
  {
    InkOfConcat(lines, [line], l);
    assert [line][1..] == [];
  }

  /** From the raw text to its segments, no printed character is lost, added or moved. */
  lemma NothingPrintedIsLost(text: string, l: Layout)
    requires l.breaks('\n')
    ensures InkOf(TextsOf(SegmentsOf(CleanLines(text, l), l)), l) == Ink(text, l)
  {
    var lines := CleanLines(text, l);
    var texts := TextsOf(SegmentsOf(lines, l));
    SplitKeepsInk(text, l);
    TidyKeepsInk(Split(text, l.breaks), l);
    SplitHasNoBreaks(text, l.breaks);
    TidyIsClean(Split(text, l.breaks), l);
    TextsJoinBack(lines, l);
    JoinKeepsInk(texts, l);
    JoinKeepsInk(lines, l);
  }

  // ---- blocks -----------------------------------------------------------

  datatype Block = Block(page: nat, text: string)

  function FirstLine(b: Block, l: Layout): string {
    if b.text != "" then Take(Split(b.text, l.breaks)[0]) else ""
  }

  function StartsBlock(l: Layout): Block -> bool {
    (b: Block) => l.heading(FirstLine(b, l))
  }

  function BlockTexts(g: seq<Block>): seq<string> {
    seq(|g|, k requires 0 <= k < |g| => g[k].text)
  }

  function BlockSegment(g: seq<Block>, k: nat, l: Layout): TextSegment
    requires g != []
  {
    TextSegment(if l.heading(FirstLine(g[0], l)) then Some(Strip(FirstLine(g[0], l), l.space)) else None,
                Strip(Join(BlockTexts(g)), l.space), g[0].page, g[|g| - 1].page, k)
  }

  function BlockSegments(gs: seq<seq<Block>>, l: Layout): seq<TextSegment>
    requires NonEmpty(gs)
  {
    seq(|gs|, k requires 0 <= k < |gs| => BlockSegment(gs[k], k, l))
  }

  function SegmentsOfBlocks(blocks: seq<Block>, l: Layout): seq<TextSegment> {
    BlockSegments(Group(blocks, StartsBlock(l)), l)
  }

  /** The loop of the block segmenter. */
  method SegmentBlocks(blocks: seq<Block>, l: Layout) returns (segments: seq<TextSegment>)
    ensures segments == SegmentsOfBlocks(blocks, l)
  {
    segments := [];
    var open, cur, idx, i := false, TextSegment(None, "", 0, 0, 0), 0, 0;
    while i < |blocks|
      invariant 0 <= i <= |blocks|
      invariant HoldingBlocks(blocks[..i], l, segments, open, cur)
      invariant idx == |segments|
    {
      var b := blocks[i];
      if l.heading(FirstLine(b, l)) {
        StartNextBlock(blocks, i, l, segments, open, cur);
        if open {
          segments := segments + [Finish(cur, idx, l)];
          idx := idx + 1;
        }
        open, cur := true, TextSegment(Some(Strip(FirstLine(b, l), l.space)), b.text, b.page, b.page, 0);
      } else if !open {
        StartNextBlock(blocks, i, l, segments, open, cur);
        open, cur := true, TextSegment(None, b.text, b.page, b.page, 0);
      } else {
        GrowNextBlock(blocks, i, l, segments, cur);
        cur := cur.(text := cur.text + "\n" + b.text, pageEnd := b.page);
      }
      i := i + 1;
    }
    assert blocks[..i] == blocks;
    if open {
      segments := segments + [Finish(cur, idx, l)];
    }
  }

  function Finish(cur: TextSegment, k: nat, l: Layout): TextSegment {
    cur.(text := Strip(cur.text, l.space), index := k)
  }

  ghost predicate HoldingBlocks(done: seq<Block>, l: Layout, segments: seq<TextSegment>, open: bool, cur: TextSegment) {
    if open then
      var gs := Group(done, StartsBlock(l));
      && gs != []
      && SegmentsOfBlocks(done, l) == segments + [Finish(cur, |segments|, l)]
      && cur.text == Join(BlockTexts(gs[|gs| - 1])) && cur.index == 0
    else done == [] && segments == []
  }

  lemma StartBlock(done: seq<Block>, b: Block, l: Layout, segments: seq<TextSegment>, open: bool, cur: TextSegment)
    requires HoldingBlocks(done, l, segments, open, cur) && (l.heading(FirstLine(b, l)) || !open)
    ensures var closed := if open then segments + [Finish(cur, |segments|, l)] else segments;
            var title := if l.heading(FirstLine(b, l)) then Some(Strip(FirstLine(b, l), l.space)) else None;
            HoldingBlocks(done + [b], l, closed, true, TextSegment(title, b.text, b.page, b.page, 0))
  {
    var gs := Group(done, StartsBlock(l));
    GroupSnoc(done, b, StartsBlock(l));
    assert gs == [] || StartsBlock(l)(b);
    AppendBlocks(gs, [b], l);
    FirstOfSegment(b, |gs|, l);
  }

  lemma StartNextBlock(blocks: seq<Block>, i: nat, l: Layout, segments: seq<TextSegment>, open: bool, cur: TextSegment)
    requires i < |blocks| && HoldingBlocks(blocks[..i], l, segments, open, cur)
    requires l.heading(FirstLine(blocks[i], l)) || !open
    ensures var b := blocks[i];
            var closed := if open then segments + [Finish(cur, |segments|, l)] else segments;
            var title := if l.heading(FirstLine(b, l)) then Some(Strip(FirstLine(b, l), l.space)) else None;
            HoldingBlocks(blocks[..i + 1], l, closed, true, TextSegment(title, b.text, b.page, b.page, 0))
  {
    assert blocks[..i + 1] == blocks[..i] + [blocks[i]];
    StartBlock(blocks[..i], blocks[i], l, segments, open, cur);
  }

  lemma GrowNextBlock(blocks: seq<Block>, i: nat, l: Layout, segments: seq<TextSegment>, cur: TextSegment)
    requires i < |blocks| && HoldingBlocks(blocks[..i], l, segments, true, cur) && !l.heading(FirstLine(blocks[i], l))
    ensures var b := blocks[i];
            HoldingBlocks(blocks[..i + 1], l, segments, true, cur.(text := cur.text + "\n" + b.text, pageEnd := b.page))
  {
    assert blocks[..i + 1] == blocks[..i] + [blocks[i]];
    GrowBlock(blocks[..i], blocks[i], l, segments, cur);
  }

  lemma AppendBlocks(gs: seq<seq<Block>>, g: seq<Block>, l: Layout)
    requires NonEmpty(gs) && g != []
    ensures BlockSegments(gs + [g], l) == BlockSegments(gs, l) + [BlockSegment(g, |gs|, l)]
  {
  }

  lemma FirstOfSegment(b: Block, k: nat, l: Layout)
    ensures var title := if l.heading(FirstLine(b, l)) then Some(Strip(FirstLine(b, l), l.space)) else None;
            Finish(TextSegment(title, b.text, b.page, b.page, 0), k, l) == BlockSegment([b], k, l)
    ensures Join(BlockTexts([b])) == b.text
  {
    assert BlockTexts([b]) == [b.text];
  }

  lemma ReplaceLastBlocks(gs: seq<seq<Block>>, g: seq<Block>, l: Layout)
    requires NonEmpty(gs) && gs != [] && g != []
    ensures var n := |gs| - 1;
            BlockSegments(gs[..n] + [g], l) == BlockSegments(gs, l)[..n] + [BlockSegment(g, n, l)]
  {
  }

  lemma GrowSegment(g: seq<Block>, b: Block, k: nat, l: Layout, cur: TextSegment)
    requires g != [] && Finish(cur, k, l) == BlockSegment(g, k, l) && cur.text == Join(BlockTexts(g))
    ensures var next := cur.(text := cur.text + "\n" + b.text, pageEnd := b.page);
            Finish(next, k, l) == BlockSegment(g + [b], k, l) && next.text == Join(BlockTexts(g + [b]))
  {
    assert BlockTexts(g + [b]) == BlockTexts(g) + [b.text];
    JoinSnoc(BlockTexts(g), b.text);
  }

  lemma GrowBlock(done: seq<Block>, b: Block, l: Layout, segments: seq<TextSegment>, cur: TextSegment)
    requires HoldingBlocks(done, l, segments, true, cur) && !l.heading(FirstLine(b, l))
    ensures HoldingBlocks(done + [b], l, segments, true, cur.(text := cur.text + "\n" + b.text, pageEnd := b.page))
  {
    var gs := Group(done, StartsBlock(l));
    var last := gs[|gs| - 1];
    GroupSnoc(done, b, StartsBlock(l));
    assert !StartsBlock(l)(b);
    assert BlockSegments(gs, l)[|gs| - 1] == BlockSegment(last, |gs| - 1, l);
    assert segments == BlockSegments(gs, l)[..|gs| - 1];
    GrowSegment(last, b, |gs| - 1, l, cur);
    ReplaceLastBlocks(gs, last + [b], l);
  }

  predicate PagesInOrder(blocks: seq<Block>) {
    forall i, j | 0 <= i < j < |blocks| :: blocks[i].page <= blocks[j].page
  }

  lemma {:induction false} GroupsInOrder(gs: seq<seq<Block>>, k: nat)
    requires NonEmpty(gs) && PagesInOrder(Concat(gs)) && k < |gs|
    ensures gs[k][0].page <= gs[k][|gs[k]| - 1].page
    ensures k + 1 < |gs| ==> gs[k][|gs[k]| - 1].page <= gs[k + 1][0].page
  {
    var n := |gs| - 1;
    var front, last := Concat(gs[..n]), gs[n];
    assert Concat(gs) == front + last;
    assert forall i | 0 <= i < |front| :: front[i] == Concat(gs)[i];
    if k < n {
      GroupsInOrder(gs[..n], k);
      if k == n - 1 {
        assert front[|front| - 1] == gs[k][|gs[k]| - 1] by {
          assert gs[..n][n - 1] == gs[k];
        }
        assert Concat(gs)[|front| - 1].page <= Concat(gs)[|front|].page;
      }
    } else {
      assert Concat(gs)[|front|] == last[0] && Concat(gs)[|front| + |last| - 1] == last[|last| - 1];
    }
  }

  /** For blocks in page order the page ranges of successive segments are in order. */
  lemma PageRangesOrdered(blocks: seq<Block>, l: Layout, k: nat)
    requires PagesInOrder(blocks) && k < |SegmentsOfBlocks(blocks, l)|
    ensures var ss := SegmentsOfBlocks(blocks, l);
            && ss[k].index == k
            && ss[k].pageStart <= ss[k].pageEnd
            && (k + 1 < |ss| ==> ss[k].pageEnd <= ss[k + 1].pageStart)
  {
    GroupConcat(blocks, StartsBlock(l));
    GroupsInOrder(Group(blocks, StartsBlock(l)), k);
  }

  /** Each block segment is a group: its title, pages and printed text are those of its blocks. */
  lemma BlockSegmentShape(blocks: seq<Block>, l: Layout, k: nat)
    requires k < |Group(blocks, StartsBlock(l))| && l.breaks('\n')
    ensures var s, g := SegmentsOfBlocks(blocks, l)[k], Group(blocks, StartsBlock(l))[k];
            && s.index == k && s.pageStart == g[0].page && s.pageEnd == g[|g| - 1].page
            && (s.title.None? ==> k == 0)
            && (s.title.Some? <==> l.heading(FirstLine(g[0], l)))
            && (forall i | 1 <= i < |g| :: !l.heading(FirstLine(g[i], l)))
            && Ink(s.text, l) == InkOf(BlockTexts(g), l)
  {
    var g := Group(blocks, StartsBlock(l))[k];
    GroupWellHeaded(blocks, StartsBlock(l));
    assert k == 0 || StartsBlock(l)(g[0]);
    forall i | 1 <= i < |g|
      ensures !l.heading(FirstLine(g[i], l))
    {
      assert !StartsBlock(l)(g[i]);
    }
    StripKeepsInk(Join(BlockTexts(g)), l);
    StripKeepsInk(StripLeft(Join(BlockTexts(g)), l.space), l);
    JoinKeepsInk(BlockTexts(g), l);
  }

  /** Over all segments no printed character of the blocks is lost, added or moved. */
  lemma NothingPrintedIsLostInBlocks(blocks: seq<Block>, l: Layout)
    requires l.breaks('\n')
    ensures InkOf(TextsOf(SegmentsOfBlocks(blocks, l)), l) == InkOf(BlockTexts(blocks), l)
  {
    var gs := Group(blocks, StartsBlock(l));
    GroupConcat(blocks, StartsBlock(l));
    var texts := TextsOf(SegmentsOfBlocks(blocks, l));
    forall k | 0 <= k < |gs|
      ensures SameInk(texts[k], gs[k], l)
    {
      BlockSegmentShape(blocks, l, k);
    }
    InkOfGroups(gs, texts, |gs|, l);
    assert texts[..|gs|] == texts && gs[..|gs|] == gs;
  }

  predicate SameInk(text: string, g: seq<Block>, l: Layout) {
    Ink(text, l) == InkOf(BlockTexts(g), l)
  }

  lemma {:induction false} InkOfGroups(gs: seq<seq<Block>>, texts: seq<string>, n: nat, l: Layout)
    requires n <= |texts| == |gs| && forall k | 0 <= k < |gs| :: SameInk(texts[k], gs[k], l)
    ensures InkOf(texts[..n], l) == InkOf(BlockTexts(Concat(gs[..n])), l)
  {
    if n > 0 {
      InkOfGroups(gs, texts, n - 1, l);
      assert texts[..n] == texts[..n - 1] + [texts[n - 1]] && gs[..n][..n - 1] == gs[..n - 1];
      assert SameInk(texts[n - 1], gs[n - 1], l);
      InkOfOneMore(Concat(gs[..n - 1]), gs[n - 1], texts[..n - 1], texts[n - 1], l);
    }
  }

  lemma InkOfOneMore(done: seq<Block>, g: seq<Block>, texts: seq<string>, text: string, l: Layout)
    requires InkOf(texts, l) == InkOf(BlockTexts(done), l) && Ink(text, l) == InkOf(BlockTexts(g), l)
    ensures InkOf(texts + [text], l) == InkOf(BlockTexts(done + g), l)
  {
    InkOfSnoc(texts, text, l);
    InkOfBlocks(done, g, l);
  }

  lemma InkOfBlocks(a: seq<Block>, b: seq<Block>, l: Layout)
    ensures InkOf(BlockTexts(a + b), l) == InkOf(BlockTexts(a), l) + InkOf(BlockTexts(b), l)
  {
    InkOfConcat(BlockTexts(a), BlockTexts(b), l);
    assert BlockTexts(a + b) == BlockTexts(a) + BlockTexts(b);
  }

  /** The first line of a block, cut at 120 characters: up to the first break and no further. */
  lemma FirstLineMeans(b: Block, l: Layout)
    ensures var line := Split(b.text, l.breaks)[0];
            && line <= b.text && (forall i | 0 <= i < |line| :: !l.breaks(line[i]))
            && (line == b.text || l.breaks(b.text[|line|]))
            && FirstLine(b, l) == (if |line| <= 120 then line else line[..120])
  {
    FirstOfSplit(b.text, l.breaks);
  }

  lemma {:induction false} FirstOfSplit(s: string, breaks: char -> bool)
    ensures var line := Split(s, breaks)[0];
            && line <= s && (forall i | 0 <= i < |line| :: !breaks(line[i]))
            && (line == s || breaks(s[|line|]))
  {
    if s != "" && !breaks(s[0]) {
      FirstOfSplit(s[1..], breaks);
      var rest := Split(s[1..], breaks)[0];
      assert s == [s[0]] + s[1..];
      assert Split(s, breaks)[0] == [s[0]] + rest;
    }
  }
}
