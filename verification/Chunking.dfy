/**
 Packing a document into requests (agentic/specialists.py) and selecting its segments for one
 prompt (agents/extract_agent.py), with the two different sizes the code gives a segment.
 */
module Chunking {
  import opened Lists
  import opened Options
  import opened Segments
  import opened Selection
  import opened Sorting
  import Decimal

  /** What the packer assumes a segment's prompt block takes beyond its text. */
  const ASSUMED_OVERHEAD: nat := 80

  function Cost(s: TextSegment): nat {
    |s.text| + ASSUMED_OVERHEAD
  }

  function CostSize(): TextSegment -> nat {
    (s: TextSegment) => Cost(s)
  }

  function Weight(chunk: seq<TextSegment>): nat {
    Total(chunk, CostSize())
  }

  /** A chunk may exceed the budget only if it is a single segment. */
  predicate Fits(chunk: seq<TextSegment>, budget: int) {
    |chunk| == 1 || (chunk != [] && Weight(chunk) <= budget)
  }

  predicate Packing(chunks: seq<seq<TextSegment>>, budget: int) {
    forall c | c in chunks :: Fits(c, budget)
  }

  /** Each chunk is full: the segment after it would not have fitted. */
  predicate Tight(chunks: seq<seq<TextSegment>>, budget: int) {
    forall k | 1 <= k < |chunks| :: Full(chunks[k - 1], chunks[k], budget)
  }

  predicate Full(chunk: seq<TextSegment>, next: seq<TextSegment>, budget: int) {
    next != [] && Weight(chunk) + Cost(next[0]) > budget
  }

  /** Full chunks are as few as possible, even against a packing that starts earlier. */
  lemma {:induction false} TightIsFewest(cs: seq<seq<TextSegment>>, ps: seq<seq<TextSegment>>,
                                         pre: seq<TextSegment>, budget: int)
    requires Tight(cs, budget) && (forall c | c in cs :: c != []) && Packing(ps, budget)
    requires Concat(ps) == pre + Concat(cs)
    ensures |cs| <= |ps|
    decreases |cs|
  {
    if cs != [] {
      var c, all := cs[0], pre + Concat(cs);
      ConcatHead(cs);
      assert c in cs && forall x | x in cs[1..] :: x in cs;
      FirstChunk(cs, ps, pre);
      ConcatHead(ps);
      var p := ps[0];
      assert Fits(p, budget);
      assert all == (pre + c) + Concat(cs[1..]) && all == p + Concat(ps[1..]);
      if |p| > |pre + c| {
        FirstTooLong(cs, p, Concat(ps[1..]), pre, budget);
      } else {
        DropFront(p, Concat(ps[1..]), pre + c, Concat(cs[1..]));
        TailIsTight(cs, budget);
        TightIsFewest(cs[1..], ps[1..], (pre + c)[|p|..], budget);
      }
    }
  }

  lemma DropFront(p: seq<TextSegment>, rest: seq<TextSegment>, a: seq<TextSegment>, b: seq<TextSegment>)
    requires p + rest == a + b && |p| <= |a|
    ensures rest == a[|p|..] + b
  {
    assert rest == (p + rest)[|p|..] && a[|p|..] + b == (a + b)[|p|..];
  }

  lemma TailIsTight(cs: seq<seq<TextSegment>>, budget: int)
    requires cs != [] && Tight(cs, budget)
    ensures Tight(cs[1..], budget)
  {
    forall k | 1 <= k < |cs[1..]|
      ensures Full(cs[1..][k - 1], cs[1..][k], budget)
    {
      assert Full(cs[k], cs[k + 1], budget);
    }
  }

  /** A chunk that reaches past the end of a full one is over the budget. */
  lemma FirstTooLong(cs: seq<seq<TextSegment>>, p: seq<TextSegment>, rest: seq<TextSegment>, pre: seq<TextSegment>,
                     budget: int)
    requires Tight(cs, budget) && (forall c | c in cs :: c != [])
    requires cs != [] && |p| > |pre + cs[0]| && p + rest == (pre + cs[0]) + Concat(cs[1..])
    ensures !Fits(p, budget)
  {
    var done, all := pre + cs[0], p + rest;
    assert cs[0] in cs && Full(cs[0], cs[1], budget);
    var next := cs[1][0];
    ConcatHead(cs[1..]);
    assert Concat(cs[1..])[0] == next;
    assert p == all[..|p|] && p[|done|] == all[|done|] == next && p[..|done|] == done;
    assert p == done + [next] + p[|done| + 1..];
    TooMuch(pre, cs[0], next, p[|done| + 1..], budget);
  }

  lemma FirstChunk(cs: seq<seq<TextSegment>>, ps: seq<seq<TextSegment>>, pre: seq<TextSegment>)
    requires cs != [] && cs[0] != [] && Concat(ps) == pre + Concat(cs)
    ensures ps != []
  {
    ConcatHead(cs);
  }

  lemma TooMuch(pre: seq<TextSegment>, c: seq<TextSegment>, next: TextSegment, rest: seq<TextSegment>, budget: int)
    requires c != [] && Weight(c) + Cost(next) > budget
    ensures !Fits((pre + c) + [next] + rest, budget)
  {
    TotalConcat(pre + c + [next], rest, CostSize());
    TotalConcat(pre, c, CostSize());
    TotalConcat(pre + c, [next], CostSize());
    assert Weight([next]) == Cost(next);
  }

  ghost predicate Fewest(chunks: seq<seq<TextSegment>>, segments: seq<TextSegment>, budget: int) {
    forall ps | Packing(ps, budget) && Concat(ps) == segments :: |chunks| <= |ps|
  }

  /** Nothing is lost or reordered, every chunk fits or is a singleton, and no such packing has fewer chunks. */
  method ChunkSegments(segments: seq<TextSegment>, budget: int) returns (chunks: seq<seq<TextSegment>>)
    ensures Concat(chunks) == segments
    ensures segments == [] ==> chunks == [[]]
    ensures segments != [] ==> Packing(chunks, budget) && Fewest(chunks, segments, budget)
  {
    chunks := [];
    var cur: seq<TextSegment>, curLen, i := [], 0, 0;
    while i < |segments|
      invariant 0 <= i <= |segments|
      invariant Progress(chunks, cur, segments[..i], budget)
      invariant curLen == Weight(cur)
    {
      var seg := segments[i];
      assert segments[..i + 1] == segments[..i] + [seg];
      if cur != [] && curLen + Cost(seg) > budget {
        Flush(chunks, cur, segments[..i], seg, budget);
        chunks := chunks + [cur];
        cur, curLen := [], 0;
        assert cur + [seg] == [seg];
      } else {
        Grow(chunks, cur, segments[..i], seg, budget);
      }
      OneMore(cur, seg);
      cur := cur + [seg];
      curLen := curLen + Cost(seg);
      i := i + 1;
    }
    assert segments[..i] == segments;
    Finish(chunks, cur, segments, budget);
    if cur != [] {
      chunks := chunks + [cur];
    }
    if chunks == [] {
      chunks := [[]];
    }
  }

  lemma OneMore(cur: seq<TextSegment>, seg: TextSegment)
    ensures Weight(cur + [seg]) == Weight(cur) + Cost(seg)
  {
  }

  lemma Finish(chunks: seq<seq<TextSegment>>, cur: seq<TextSegment>, segments: seq<TextSegment>, budget: int)
    requires Progress(chunks, cur, segments, budget)
    ensures cur == [] ==> chunks == [] && segments == []
    ensures cur != [] ==> Concat(chunks + [cur]) == segments && segments != []
                          && Packing(chunks + [cur], budget) && Fewest(chunks + [cur], segments, budget)
  {
    assert (chunks + [cur])[..|chunks|] == chunks;
    if cur != [] {
      FewestOfAll(chunks + [cur], segments, budget);
    }
  }

  /** The closed chunks and the open one hold what was read, packed tightly. */
  predicate Progress(chunks: seq<seq<TextSegment>>, cur: seq<TextSegment>, done: seq<TextSegment>, budget: int) {
    && Concat(chunks) + cur == done
    && (cur == [] ==> chunks == [])
    && (cur != [] ==> Packing(chunks + [cur], budget) && Tight(chunks + [cur], budget))
  }

  lemma Flush(chunks: seq<seq<TextSegment>>, cur: seq<TextSegment>, done: seq<TextSegment>, seg: TextSegment,
              budget: int)
    requires Progress(chunks, cur, done, budget) && cur != [] && Weight(cur) + Cost(seg) > budget
    ensures Progress(chunks + [cur], [seg], done + [seg], budget)
  {
    assert (chunks + [cur])[..|chunks|] == chunks;
    var before, after := chunks + [cur], chunks + [cur] + [[seg]];
    forall k | 1 <= k < |after|
      ensures Full(after[k - 1], after[k], budget)
    {
      if k < |before| {
        assert Full(before[k - 1], before[k], budget);
      }
    }
  }

  lemma Grow(chunks: seq<seq<TextSegment>>, cur: seq<TextSegment>, done: seq<TextSegment>, seg: TextSegment,
             budget: int)
    requires Progress(chunks, cur, done, budget) && (cur == [] || Weight(cur) + Cost(seg) <= budget)
    ensures Progress(chunks, cur + [seg], done + [seg], budget)
  {
    TotalConcat(cur, [seg], CostSize());
    assert Weight([seg]) == Cost(seg);
    var before, after := chunks + [cur], chunks + [cur + [seg]];
    assert forall c | c in after :: c in before || c == cur + [seg];
    forall k | 1 <= k < |after|
      ensures Full(after[k - 1], after[k], budget)
    {
      assert Full(before[k - 1], before[k], budget);
    }
  }

  lemma FewestOfAll(chunks: seq<seq<TextSegment>>, segments: seq<TextSegment>, budget: int)
    requires Concat(chunks) == segments && Packing(chunks, budget) && Tight(chunks, budget)
    ensures Fewest(chunks, segments, budget)
  {
    forall ps | Packing(ps, budget) && Concat(ps) == segments
      ensures |chunks| <= |ps|
    {
      assert Concat(ps) == [] + Concat(chunks);
      TightIsFewest(chunks, ps, [], budget);
    }
  }

  // ---- the prompt -------------------------------------------------------

  function Header(s: TextSegment): string {
    "\n[" + (Decimal.Print(s.index) + AfterIndex(s))
  }

  function AfterIndex(s: TextSegment): string {
    "] (p." + Decimal.Print(s.pageStart) + "-" + Decimal.Print(s.pageEnd) + ") "
    + (if s.title.Some? && s.title.value != "" then s.title.value else "(untitled)") + "\n"
  }

  function Block(s: TextSegment): string {
    Header(s) + s.text
  }

  predicate Starts(s: string, prefixes: seq<string>) {
    exists i | 0 <= i < |prefixes| :: prefixes[i] <= s
  }

  /** Annexes first, then articles, then chapters and sections, then the rest. */
  function Priority(s: TextSegment, lower: string -> string): nat {
    var title := lower(if s.title.Some? then s.title.value else "");
    if Starts(title, ["annex"]) then 0
    else if Starts(title, ["article", "art.", "art "]) then 1
    else if Starts(title, ["chapter", "section"]) then 2
    else 3
  }

  function Urgent(lower: string -> string): (TextSegment, TextSegment) -> bool {
    (a: TextSegment, b: TextSegment) =>
      Priority(a, lower) < Priority(b, lower)
      || (Priority(a, lower) == Priority(b, lower) && a.index <= b.index)
  }

  function Earlier(): (TextSegment, TextSegment) -> bool {
    (a: TextSegment, b: TextSegment) => a.index <= b.index
  }

  function BlockSize(): TextSegment -> nat {
    (s: TextSegment) => |Block(s)|
  }

  /** What the prompt shows, in document order. */
  function Shown(segments: seq<TextSegment>, budget: int, lower: string -> string): seq<TextSegment> {
    SortBy(Pick(SortBy(segments, Urgent(lower)), budget, BlockSize()), Earlier())
  }

  function Omitted(segments: seq<TextSegment>, budget: int, lower: string -> string): seq<TextSegment> {
    Omit(SortBy(segments, Urgent(lower)), budget, BlockSize())
  }

  /** The selection loop: the blocks shown, in order, and how many segments were left out. */
  method SelectBlocks(segments: seq<TextSegment>, maxChars: int, lower: string -> string)
    returns (blocks: seq<string>, omitted: nat)
    ensures var shown := Shown(segments, maxChars, lower);
            blocks == seq(|shown|, i requires 0 <= i < |shown| => Block(shown[i]))
    ensures omitted == |Omitted(segments, maxChars, lower)|
  {
    var ranked := SortBy(segments, Urgent(lower));
    var budget, i := maxChars, 0;
    var chosen: seq<TextSegment> := [];
    omitted := 0;
    while i < |ranked|
      invariant 0 <= i <= |ranked|
      invariant chosen == Pick(ranked[..i], maxChars, BlockSize())
      invariant omitted == |Omit(ranked[..i], maxChars, BlockSize())|
      invariant budget == maxChars - Total(chosen, BlockSize())
    {
      PickStep(ranked, i, maxChars, BlockSize());
      var block := Block(ranked[i]);
      assert |block| == BlockSize()(ranked[i]);
      if |block| > budget {
        omitted := omitted + 1;
      } else {
        budget := budget - |block|;
        chosen := chosen + [ranked[i]];
      }
      i := i + 1;
    }
    assert ranked[..i] == ranked;
    var shown := SortBy(chosen, Earlier());
    blocks := seq(|shown|, k requires 0 <= k < |shown| => Block(shown[k]));
  }

  /**
   Shown and omitted segments partition the document, the blocks shown stay within the budget, they
   are in document order, and no omitted block would fit in what is left.
   */
  lemma SelectionPartitions(segments: seq<TextSegment>, budget: int, lower: string -> string)
    ensures var shown, omitted := Shown(segments, budget, lower), Omitted(segments, budget, lower);
            && multiset(shown) + multiset(omitted) == multiset(segments)
            && (shown == [] || Total(shown, BlockSize()) <= budget)
            && (forall i, j | 0 <= i < j < |shown| :: shown[i].index <= shown[j].index)
            && forall s | s in omitted :: |Block(s)| > budget - Total(shown, BlockSize())
  {
    var ranked := SortBy(segments, Urgent(lower));
    var taken := Pick(ranked, budget, BlockSize());
    SortPermutes(segments, Urgent(lower));
    PickPartitions(ranked, budget, BlockSize());
    PickBounds(ranked, budget, BlockSize());
    SortPermutes(taken, Earlier());
    SortSorts(taken, Earlier());
    TotalPermutes(taken, Shown(segments, budget, lower), BlockSize());
  }

  /** The title as the prompt builder reads it. */
  function FoldedTitle(s: TextSegment, lower: string -> string): string {
    lower(if s.title.Some? then s.title.value else "")
  }

  predicate IsAnnex(s: TextSegment, lower: string -> string) {
    "annex" <= FoldedTitle(s, lower)
  }

  predicate IsArticle(s: TextSegment, lower: string -> string) {
    var t := FoldedTitle(s, lower);
    "article" <= t || "art." <= t || "art " <= t
  }

  predicate IsChapter(s: TextSegment, lower: string -> string) {
    var t := FoldedTitle(s, lower);
    "chapter" <= t || "section" <= t
  }

  predicate SameKind(s: TextSegment, e: TextSegment, lower: string -> string) {
    && (IsAnnex(s, lower) <==> IsAnnex(e, lower))
    && (IsArticle(s, lower) <==> IsArticle(e, lower))
    && (IsChapter(s, lower) <==> IsChapter(e, lower))
  }

  /**
   s is kept before e: an annex before anything else, an article before anything but those two, a
   chapter or section before the untitled rest; within one kind, the earlier segment.
   */
  predicate Outranks(s: TextSegment, e: TextSegment, lower: string -> string) {
    || (IsAnnex(s, lower) && !IsAnnex(e, lower))
    || (IsArticle(s, lower) && !IsAnnex(e, lower) && !IsArticle(e, lower))
    || (IsChapter(s, lower) && !IsAnnex(e, lower) && !IsArticle(e, lower) && !IsChapter(e, lower))
    || (SameKind(s, e, lower) && s.index < e.index)
  }

  lemma KindsExclude(s: TextSegment, lower: string -> string)
    ensures IsAnnex(s, lower) ==> !IsArticle(s, lower) && !IsChapter(s, lower)
    ensures IsArticle(s, lower) ==> !IsChapter(s, lower)
  {
    var t := FoldedTitle(s, lower);
    if IsAnnex(s, lower) {
      assert t[0] == 'a' && t[1] == 'n';
    } else if IsArticle(s, lower) {
      assert t[0] == 'a' && t[1] == 'r';
    }
  }

  lemma StartsWritten(s: string)
    ensures Starts(s, ["annex"]) <==> "annex" <= s
    ensures Starts(s, ["article", "art.", "art "]) <==> "article" <= s || "art." <= s || "art " <= s
    ensures Starts(s, ["chapter", "section"]) <==> "chapter" <= s || "section" <= s
  {
    assert ["annex"][0] == "annex";
    var articles := ["article", "art.", "art "];
    assert articles[0] == "article" && articles[1] == "art." && articles[2] == "art ";
    var chapters := ["chapter", "section"];
    assert chapters[0] == "chapter" && chapters[1] == "section";
  }

  lemma OutranksIsUrgent(s: TextSegment, e: TextSegment, lower: string -> string)
    requires Outranks(s, e, lower)
    ensures !Urgent(lower)(e, s)
  {
    KindsExclude(s, lower);
    KindsExclude(e, lower);
    StartsWritten(FoldedTitle(s, lower));
    StartsWritten(FoldedTitle(e, lower));
  }

  /** Text that is outranked, however much of it, never pushes a segment out of the prompt. */
  lemma OutrankedNeverDisplace(segments: seq<TextSegment>, extra: seq<TextSegment>, budget: int,
                               lower: string -> string)
    requires forall s, e | s in segments && e in extra :: Outranks(s, e, lower)
    ensures forall s | s in Shown(segments, budget, lower) :: s in Shown(segments + extra, budget, lower)
  {
    var le, size := Urgent(lower), BlockSize();
    var first, all := SortBy(segments, le), SortBy(segments + extra, le);
    forall s, e | s in segments && e in extra
      ensures !le(e, s)
    {
      OutranksIsUrgent(s, e, lower);
    }
    SortApart(segments, extra, le);
    LaterDoesNotDisplace(first, SortBy(extra, le), budget, size);
    SortKeepsMembers(Pick(first, budget, size), Earlier());
    SortKeepsMembers(Pick(all, budget, size), Earlier());
    assert forall x | x in Pick(first, budget, size) :: x in Pick(all, budget, size);
  }

  /** "Annex I" after an untitled preamble of the same size: with room for one, the annex is shown. */
  lemma AnnexBeforePreamble(preamble: TextSegment, annex: TextSegment, lower: string -> string)
    requires FoldedTitle(preamble, lower) == "" && FoldedTitle(annex, lower) == "annex i"
    ensures var b := |Block(annex)|;
            annex in Shown([annex] + [preamble], b, lower)
  {
    assert "annex" <= "annex i";
    OutrankedNeverDisplace([annex], [preamble], |Block(annex)|, lower);
    SelectionPartitions([annex], |Block(annex)|, lower);
    OmitsNothingExactly([annex], |Block(annex)|, lower);
    TotalOne(annex, BlockSize());
    assert annex in multiset(Shown([annex], |Block(annex)|, lower));
  }

  /** The number between the first brackets of a block. */
  function ReadIndex(block: string): Option<nat> {
    if |block| < 2 then None else Decimal.Parse(UpTo(block[2..], ']'))
  }

  function UpTo(s: string, c: char): string {
    if s == "" || s[0] == c then "" else [s[0]] + UpTo(s[1..], c)
  }

  lemma {:induction false} UpToStops(s: string, tail: string, c: char)
    requires c !in s && tail != "" && tail[0] == c
    ensures UpTo(s + tail, c) == s
  {
    if s == "" {
      assert s + tail == tail;
    } else {
      assert (s + tail)[1..] == s[1..] + tail;
      UpToStops(s[1..], tail, c);
    }
  }

  /** A block gives its segment's index, pages, title and text. */
  lemma BlockText(s: TextSegment)
    ensures var title := if s.title.Some? && s.title.value != "" then s.title.value else "(untitled)";
            Block(s) == "\n[" + Decimal.Print(s.index) + "] (p." + Decimal.Print(s.pageStart) + "-"
                        + Decimal.Print(s.pageEnd) + ") " + title + "\n" + s.text
  {
  }

  /** A block can be referred back to: the number it opens with is its segment's index. */
  lemma BlockRefersBack(s: TextSegment)
    ensures ReadIndex(Block(s)) == Some(s.index)
  {
    var n, tail := Decimal.Print(s.index), AfterIndex(s) + s.text;
    Decimal.ParsePrint(s.index);
    UpToStops(n, tail, ']');
    assert Block(s) == "\n[" + (n + tail);
    assert Block(s)[2..] == n + tail;
  }

  /** What the packer counts for a chunk: 80 characters and the text of each segment. */
  lemma WeightAddsUp(chunk: seq<TextSegment>, s: TextSegment)
    ensures Weight(chunk + [s]) == Weight(chunk) + |s.text| + 80
    ensures Weight([]) == 0
  {
    assert (chunk + [s])[..|chunk|] == chunk;
  }

  /** A prompt omits nothing exactly when its blocks, headers included, fit the budget together. */
  lemma OmitsNothingExactly(segments: seq<TextSegment>, budget: int, lower: string -> string)
    ensures Omitted(segments, budget, lower) == [] <==> segments == [] || Total(segments, BlockSize()) <= budget
  {
    var ranked := SortBy(segments, Urgent(lower));
    SortKeepsMembers(segments, Urgent(lower));
    SortPermutes(segments, Urgent(lower));
    PickAll(ranked, budget, BlockSize());
    TotalPermutes(ranked, segments, BlockSize());
  }

  lemma {:induction false} TotalAtMostWeight(chunk: seq<TextSegment>)
    requires forall s | s in chunk :: |Header(s)| <= 80
    ensures Total(chunk, BlockSize()) <= Weight(chunk)
  {
    if chunk != [] {
      assert chunk[|chunk| - 1] in chunk;
      TotalAtMostWeight(chunk[..|chunk| - 1]);
    }
  }

  /** With headers no longer than assumed, a chunk within the budget is shown whole. */
  lemma ChunkShownWhole(chunk: seq<TextSegment>, budget: int, lower: string -> string)
    requires Weight(chunk) <= budget && forall s | s in chunk :: |Header(s)| <= 80
    ensures Omitted(chunk, budget, lower) == []
  {
    TotalAtMostWeight(chunk);
    OmitsNothingExactly(chunk, budget, lower);
  }

  /** A title has up to 120 characters, so a header can exceed the assumption: the chunk fits, yet nothing is shown. */
  lemma LongTitleLosesChunk(s: TextSegment, lower: string -> string)
    requires s.title.Some? && |s.title.value| > 80
    ensures Fits([s], Weight([s])) && Weight([s]) <= Cost(s)
    ensures Shown([s], Weight([s]), lower) == [] && Omitted([s], Weight([s]), lower) == [s]
  {
    OmitsNothingExactly([s], Weight([s]), lower);
    SelectionPartitions([s], Weight([s]), lower);
    TotalOne(s, CostSize());
    TotalOne(s, BlockSize());
    assert Weight([s]) == Cost(s) && Total([s], BlockSize()) == |Block(s)| > Cost(s);
    OneOrTheOther(Shown([s], Weight([s]), lower), Omitted([s], Weight([s]), lower), s);
  }

  lemma OneOrTheOther(a: seq<TextSegment>, b: seq<TextSegment>, s: TextSegment)
    requires multiset(a) + multiset(b) == multiset([s]) && b != []
    ensures a == [] && b == [s]
  {
    assert |multiset(a)| + |multiset(b)| == 1;
    assert b[0] in multiset([s]);
  }
}
