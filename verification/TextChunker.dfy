/** src/vector/TextChunker.cpp: the sliding-window chunker. */
module TextChunker {
  import opened Strings

  datatype Chunk = Chunk(content: string, index: nat, fileId: int, filename: string)

  /** size_t is 64 bits wide and subtraction on it wraps around. */
  const WORD := 0x1_0000_0000_0000_0000
  /** The longest string libstdc++ can hold. */
  const MAX_STRING := 0x7fff_ffff_ffff_ffff

  // ---------------------------------------------------------------- the window

  function Max(a: nat, b: nat): nat { if a < b then b else a }

  function EffectiveSize(chunkSize: nat): nat { if chunkSize == 0 then 1000 else chunkSize }

  function EffectiveOverlap(chunkSize: nat, overlap: nat): nat {
    var cs := EffectiveSize(chunkSize);
    if overlap >= cs then cs / 4 else overlap
  }

  /** Where the window that opens at `start` ends. */
  function Cut(text: string, start: nat, cs: nat): nat {
    var end := Min(start + cs, |text|);
    if end < |text| then
      match RFind(text, '\n', end)
      case Some(p) => if p > start + cs / 2 then p + 1 else end
      case None => end
    else end
  }

  /** Where the next window opens, in size_t arithmetic. */
  function NextStart(end: nat, cs: nat, overlap: nat): nat {
    var start := (end - overlap) % WORD;
    if (start + cs / 4) % WORD >= end then (end - cs / 4) % WORD else start
  }

  /** The four outcomes, without modular arithmetic: back by the overlap or by a quarter of the
      size, whichever is more; and when the overlap reaches back beyond the text, by a quarter,
      or to a position near 2^64 that ends the loop. */
  lemma NextStartCases(end: nat, cs: nat, overlap: nat)
    requires cs / 4 <= end <= MAX_STRING && cs <= MAX_STRING && overlap < cs
    ensures var r := NextStart(end, cs, overlap);
            if overlap <= end then r == end - Max(overlap, cs / 4)
            else if overlap - end > cs / 4 then r == end - cs / 4
            else r == 0x1_0000_0000_0000_0000 - (overlap - end)
  {}

  /** The overlap that results between neighbouring chunks. */
  function Shared(cs: nat, overlap: nat): nat { Max(overlap, cs / 4) }

  /** The overlaps for which the window always moves forward. */
  predicate MovesForward(cs: nat, overlap: nat) {
    cs > 0 && overlap < cs && overlap <= cs / 2 + 1
  }

  /** The least length of a window that is not the last. */
  function LeastWindow(cs: nat): nat { Min(cs, cs / 2 + 2) }

  /** A window that is not the last ends just after the last newline of its second half,
      the character past the window included, or else after exactly `cs` characters. */
  lemma CutIsLastNewline(text: string, start: nat, cs: nat)
    requires cs > 0 && start < |text|
    ensures var e := Cut(text, start, cs);
            if start + cs >= |text| then e == |text|
            else if exists p {:trigger text[p]} :: start + cs / 2 < p <= start + cs && text[p] == '\n'
            then && start + cs / 2 + 1 < e <= start + cs + 1
                 && text[e - 1] == '\n'
                 && forall p :: e <= p <= start + cs ==> text[p] != '\n'
            else e == start + cs
  {}

  lemma CutBounds(text: string, start: nat, cs: nat)
    requires cs > 0 && start < |text|
    ensures var e := Cut(text, start, cs);
            && start < e <= |text|
            && e - start <= cs + 1
            && (e < |text| ==> e - start >= LeastWindow(cs))
  {}

  lemma NextStartInRange(end: nat, cs: nat, overlap: nat)
    requires overlap <= end <= MAX_STRING && cs <= MAX_STRING
    requires cs / 4 <= end
    ensures NextStart(end, cs, overlap) == end - Shared(cs, overlap)
  {
    var start := end - overlap;
    assert start % WORD == start;
    var q := cs / 4;
    assert 0 <= q && (start + q) % WORD == start + q;
    assert (end - q) % WORD == end - q;
  }

  lemma OverlapBelowWindow(cs: nat, overlap: nat)
    requires MovesForward(cs, overlap)
    ensures Shared(cs, overlap) < LeastWindow(cs)
  {}

  /** Inside the safe range no subtraction wraps and the step back is `Shared`. */
  lemma NextStartStepsBack(text: string, start: nat, cs: nat, overlap: nat)
    requires MovesForward(cs, overlap) && start < |text| <= MAX_STRING
    requires Cut(text, start, cs) < |text|
    ensures var e := Cut(text, start, cs);
            && NextStart(e, cs, overlap) == e - Shared(cs, overlap)
            && NextStart(e, cs, overlap) >= start + LeastWindow(cs) - Shared(cs, overlap)
            && LeastWindow(cs) > Shared(cs, overlap)
  {
    CutBounds(text, start, cs);
    OverlapBelowWindow(cs, overlap);
    NextStartInRange(Cut(text, start, cs), cs, overlap);
  }

  /** A text on which the first window is as short as a window that is not the last can be. */
  function ShortWindowText(cs: nat): string {
    seq(cs + 2, i => if i == cs / 2 + 1 && cs / 2 + 2 < cs then '\n' else 'a')
  }

  lemma ShortWindow(cs: nat)
    requires cs > 0
    ensures var text := ShortWindowText(cs);
            |text| == cs + 2 && Cut(text, 0, cs) == LeastWindow(cs)
  {
    var text := ShortWindowText(cs);
    if cs / 2 + 2 < cs { assert text[cs / 2 + 1] == '\n'; }
    CutIsLastNewline(text, 0, cs);
    hide Cut;
  }

  /** Each turn advances by at least a quarter window exactly when overlap and quarter fit
      together into the shortest window. */
  lemma QuarterAdvanceExactly(cs: nat, overlap: nat)
    requires MovesForward(cs, overlap) && cs < MAX_STRING - 2
    ensures (forall text: string, start: nat | start < |text| <= MAX_STRING && Cut(text, start, cs) < |text| ::
               NextStart(Cut(text, start, cs), cs, overlap) >= start + cs / 4)
            <==> overlap + cs / 4 <= LeastWindow(cs)
  {
    hide Cut, NextStart;
    if overlap + cs / 4 <= LeastWindow(cs) {
      forall text: string, start: nat | start < |text| <= MAX_STRING && Cut(text, start, cs) < |text|
        ensures NextStart(Cut(text, start, cs), cs, overlap) >= start + cs / 4
      {
        NextStartStepsBack(text, start, cs, overlap);
      }
    } else {
      var text := ShortWindowText(cs);
      ShortWindow(cs);
      NextStartStepsBack(text, 0, cs, overlap);
      assert NextStart(Cut(text, 0, cs), cs, overlap) < 0 + cs / 4;
    }
  }

  // ------------------------------------------------------------- termination

  /** One turn of the loop: the next position, or None when the loop is left. */
  function Turn(text: string, cs: nat, overlap: nat, start: nat): Option<nat> {
    if start >= |text| || Cut(text, start, cs) >= |text| then None
    else Some(NextStart(Cut(text, start, cs), cs, overlap))
  }

  function After(text: string, cs: nat, overlap: nat, turns: nat): Option<nat> {
    if turns == 0 then Some(0)
    else match After(text, cs, overlap, turns - 1)
      case None => None
      case Some(start) => Turn(text, cs, overlap, start)
  }

  ghost predicate Halts(text: string, cs: nat, overlap: nat) {
    exists turns: nat :: After(text, cs, overlap, turns).None?
  }

  lemma {:induction false} AdvancesEachTurn(text: string, cs: nat, overlap: nat, turns: nat)
    requires MovesForward(cs, overlap) && |text| <= MAX_STRING
    ensures var p := After(text, cs, overlap, turns); p.Some? ==> p.value >= turns
  {
    if turns > 0 {
      AdvancesEachTurn(text, cs, overlap, turns - 1);
      var p := After(text, cs, overlap, turns - 1);
      if p.Some? && p.value < |text| && Cut(text, p.value, cs) < |text| {
        NextStartStepsBack(text, p.value, cs, overlap);
      }
    }
  }

  /** A text whose only newline sits just where the overlap reaches back to the start. */
  function StuckText(cs: nat, overlap: nat): string {
    seq(cs + 1, i => if i == overlap - 1 then '\n' else 'a')
  }

  lemma StuckCut(cs: nat, overlap: nat)
    requires cs / 2 + 2 <= overlap < cs < MAX_STRING
    ensures Cut(StuckText(cs, overlap), 0, cs) == overlap && |StuckText(cs, overlap)| == cs + 1
  {
    var text := StuckText(cs, overlap);
    assert text[overlap - 1] == '\n';
    CutIsLastNewline(text, 0, cs);
    hide Cut;
  }

  lemma StuckTurn(cs: nat, overlap: nat)
    requires cs / 2 + 2 <= overlap < cs < MAX_STRING
    ensures Turn(StuckText(cs, overlap), cs, overlap, 0) == Some(0)
  {
    StuckCut(cs, overlap);
    NextStartInRange(overlap, cs, overlap);
    hide Cut, StuckText, NextStart;
  }

  lemma {:induction false} StaysAtStart(cs: nat, overlap: nat, turns: nat)
    requires cs / 2 + 2 <= overlap < cs < MAX_STRING
    ensures After(StuckText(cs, overlap), cs, overlap, turns) == Some(0)
  {
    hide Turn, StuckText;
    if turns > 0 {
      StaysAtStart(cs, overlap, turns - 1);
      StuckTurn(cs, overlap);
    }
  }

  /** The loop stops on every text exactly when the overlap is at most half the window
      plus one; larger overlaps below the window size admit texts that never finish. */
  lemma HaltsOnEveryText(cs: nat, overlap: nat)
    requires overlap < cs < MAX_STRING
    ensures (forall text: string | |text| <= MAX_STRING :: Halts(text, cs, overlap))
            <==> MovesForward(cs, overlap)
  {
    if MovesForward(cs, overlap) {
      forall text: string | |text| <= MAX_STRING ensures Halts(text, cs, overlap) {
        AdvancesEachTurn(text, cs, overlap, |text|);
        assert After(text, cs, overlap, |text| + 1).None?;
      }
    } else {
      var text := StuckText(cs, overlap);
      forall turns: nat ensures After(text, cs, overlap, turns).Some? {
        StaysAtStart(cs, overlap, turns);
      }
      assert |text| <= MAX_STRING && !Halts(text, cs, overlap);
    }
  }

  // ------------------------------------------------------- what the chunks hold

  /** The part `text[lo..hi]`. */
  datatype Window = Window(lo: nat, hi: nat)

  /** The windows the loop cuts from `text[start..]`. */
  function Windows(text: string, start: nat, cs: nat, overlap: nat): (r: seq<Window>)
    requires MovesForward(cs, overlap) && start < |text| <= MAX_STRING
    decreases |text| - start
  {
    var e := Cut(text, start, cs);
    CutBounds(text, start, cs);
    if e == |text| then [Window(start, e)]
    else
      NextStartStepsBack(text, start, cs, overlap);
      [Window(start, e)] + Windows(text, NextStart(e, cs, overlap), cs, overlap)
  }

  /** `ws` covers `start..end`: neighbours overlap by `w`, windows have at most `most` and,
      but for the last, at least `least` characters. */
  ghost predicate Chained(ws: seq<Window>, start: nat, end: nat, w: nat, least: nat, most: nat) {
    && ws != []
    && ws[0].lo == start && ws[|ws| - 1].hi == end
    && (forall i :: 0 <= i < |ws| ==> ws[i].lo < ws[i].hi <= end && ws[i].hi - ws[i].lo <= most)
    && (forall i :: 0 < i < |ws| ==> ws[i].lo + w < ws[i].hi)
    && (forall i :: 0 <= i < |ws| - 1 ==> least <= ws[i].hi - ws[i].lo && ws[i + 1].lo == ws[i].hi - w)
  }

  lemma {:induction false} WindowsChained(text: string, start: nat, cs: nat, overlap: nat)
    requires MovesForward(cs, overlap) && start < |text| <= MAX_STRING
    ensures var w := Shared(cs, overlap);
            && Chained(Windows(text, start, cs, overlap), start, |text|, w, LeastWindow(cs), cs + 1)
            && w < LeastWindow(cs)
    decreases |text| - start
  {
    hide Cut, NextStart, Shared, LeastWindow;
    OverlapBelowWindow(cs, overlap);
    CutBounds(text, start, cs);
    var e := Cut(text, start, cs);
    if e < |text| {
      NextStartStepsBack(text, start, cs, overlap);
      var next := NextStart(e, cs, overlap);
      WindowsChained(text, next, cs, overlap);
      ChainedCons(start, e, Windows(text, next, cs, overlap), |text|, Shared(cs, overlap), LeastWindow(cs), cs + 1);
    }
  }

  lemma ChainedCons(start: nat, e: nat, ws: seq<Window>, end: nat, w: nat, least: nat, most: nat)
    requires w < least && start + least <= e < end && e - start <= most
    requires Chained(ws, e - w, end, w, least, most)
    requires ws[0].hi == end || ws[0].hi - ws[0].lo >= least
    ensures Chained([Window(start, e)] + ws, start, end, w, least, most)
  {
    var all := [Window(start, e)] + ws;
    assert forall i :: 0 < i < |all| ==> all[i] == ws[i - 1];
  }

  function Slices(text: string, ws: seq<Window>): (r: seq<string>)
    requires forall i :: 0 <= i < |ws| ==> ws[i].lo <= ws[i].hi <= |text|
  {
    seq(|ws|, i requires 0 <= i < |ws| => text[ws[i].lo..ws[i].hi])
  }

  function DropPrefix(s: string, n: nat): string { if n <= |s| then s[n..] else "" }

  function JoinDropping(pieces: seq<string>, n: nat): string {
    if pieces == [] then "" else DropPrefix(pieces[0], n) + JoinDropping(pieces[1..], n)
  }

  /** The first piece, then every later one without its first `n` characters. */
  function Rebuild(pieces: seq<string>, n: nat): string {
    if pieces == [] then "" else pieces[0] + JoinDropping(pieces[1..], n)
  }

  lemma RebuildStep(text: string, ps: seq<string>, lo: nat, hi: nat, w: nat)
    requires |ps| > 1 && w <= |ps[1]| && w <= hi && lo <= hi <= |text|
    requires ps[0] == text[lo..hi] && Rebuild(ps[1..], w) == text[hi - w..]
    ensures Rebuild(ps, w) == text[lo..]
  {
    var first, rest := ps[1], JoinDropping(ps[1..][1..], w);
    assert first[w..] + rest == (first + rest)[w..] == text[hi..];
    assert text[lo..hi] + text[hi..] == text[lo..];
  }

  lemma ChainTail(ws: seq<Window>, start: nat, end: nat, w: nat, least: nat, most: nat)
    requires Chained(ws, start, end, w, least, most) && |ws| > 1
    ensures ws[0].hi >= w && Chained(ws[1..], ws[0].hi - w, end, w, least, most)
  {
    assert ws[1].lo == ws[0].hi - w;
  }

  lemma ChainSlices(text: string, ws: seq<Window>, start: nat, w: nat, least: nat, most: nat)
    requires Chained(ws, start, |text|, w, least, most)
    ensures var ps := Slices(text, ws);
            && start <= ws[0].hi <= |text| && ps[0] == text[start..ws[0].hi]
            && (|ws| == 1 ==> ws[0].hi == |text|)
            && (|ws| > 1 ==>
                  && w <= |ps[1]|
                  && (forall i :: 0 <= i < |ws[1..]| ==> ws[1..][i].lo <= ws[1..][i].hi <= |text|)
                  && ps[1..] == Slices(text, ws[1..]))
  {}

  lemma {:induction false} ChainRebuilds(text: string, ws: seq<Window>, start: nat, w: nat, least: nat, most: nat)
    requires Chained(ws, start, |text|, w, least, most)
    ensures Rebuild(Slices(text, ws), w) == text[start..]
    decreases |ws|
  {
    var ps := Slices(text, ws);
    ChainSlices(text, ws, start, w, least, most);
    if |ws| > 1 {
      ChainTail(ws, start, |text|, w, least, most);
      assert |ps| == |ws|;
      hide Chained, Slices, Rebuild;
      ChainRebuilds(text, ws[1..], ws[0].hi - w, w, least, most);
      RebuildStep(text, ps, start, ws[0].hi, w);
    } else {
      hide Chained, Slices;
      assert ps[1..] == [];
    }
  }

  /** `n` advances of `advance` characters are shorter than `length`. */
  predicate Fits(n: nat, advance: nat, length: int) { n * advance < length }

  lemma NoWindow(advance: nat, length: int)
    requires length > 0
    ensures Fits(0, advance, length)
  {}

  lemma OneMoreWindow(n: nat, advance: nat, shorter: int, longer: int)
    requires Fits(n, advance, shorter) && shorter + advance <= longer
    ensures Fits(n + 1, advance, longer)
  {
    assert (n + 1) * advance == n * advance + advance;
  }

  lemma ChainStart(ws: seq<Window>, start: nat, end: nat, w: nat, least: nat, most: nat)
    requires Chained(ws, start, end, w, least, most)
    ensures ws != [] && start < end && (|ws| > 1 ==> start + least <= ws[0].hi)
  {}

  lemma {:induction false} ChainCount(ws: seq<Window>, start: nat, end: nat, w: nat, least: nat, most: nat)
    requires Chained(ws, start, end, w, least, most) && w < least
    ensures Fits(|ws| - 1, least - w, end - start)
    decreases |ws|
  {
    hide Fits, Chained;
    ChainStart(ws, start, end, w, least, most);
    if |ws| > 1 {
      ChainTail(ws, start, end, w, least, most);
      ChainCount(ws[1..], ws[0].hi - w, end, w, least, most);
      OneMoreWindow(|ws| - 2, least - w, end - (ws[0].hi - w), end - start);
    } else {
      NoWindow(least - w, end - start);
    }
  }

  /** The contents of the chunks from `start` on. */
  function Pieces(text: string, start: nat, cs: nat, overlap: nat): (r: seq<string>)
    requires MovesForward(cs, overlap) && start < |text| <= MAX_STRING
  {
    WindowsChained(text, start, cs, overlap);
    Slices(text, Windows(text, start, cs, overlap))
  }

  /** The chunks alone determine the text. */
  lemma PiecesRebuild(text: string, cs: nat, overlap: nat)
    requires MovesForward(cs, overlap) && 0 < |text| <= MAX_STRING
    ensures Rebuild(Pieces(text, 0, cs, overlap), Shared(cs, overlap)) == text
  {
    WindowsChained(text, 0, cs, overlap);
    ChainRebuilds(text, Windows(text, 0, cs, overlap), 0, Shared(cs, overlap), LeastWindow(cs), cs + 1);
    assert text[0..] == text;
  }

  /** The last `w` characters of `a` are the first `w` of `b`. */
  ghost predicate ShareEdge(a: string, b: string, w: nat) {
    w < |a| && w < |b| && a[|a| - w..] == b[..w]
  }

  lemma ChainNeighbours(text: string, ws: seq<Window>, start: nat, w: nat, least: nat, most: nat)
    requires Chained(ws, start, |text|, w, least, most) && w < least
    ensures var ps := Slices(text, ws);
            && (forall i :: 0 <= i < |ps| ==> 0 < |ps[i]| <= most)
            && (forall i :: 0 <= i < |ps| - 1 ==> least <= |ps[i]|)
            && (forall i :: 0 < i < |ps| ==> ShareEdge(ps[i - 1], ps[i], w))
  {
    var ps := Slices(text, ws);
    forall i | 0 < i < |ps| ensures ShareEdge(ps[i - 1], ps[i], w) {
      var a, b := ws[i - 1], ws[i];
      assert ps[i - 1] == text[a.lo..a.hi] && ps[i] == text[b.lo..b.hi];
      assert b.lo == a.hi - w && a.lo + w < a.hi && b.lo + w < b.hi;
      EdgeOfSlices(text, a.lo, a.hi, b.hi, w);
    }
  }

  lemma EdgeOfSlices(text: string, lo: nat, mid: nat, hi: nat, w: nat)
    requires lo + w < mid < hi <= |text|
    ensures ShareEdge(text[lo..mid], text[mid - w..hi], w)
  {
    assert text[lo..mid][mid - lo - w..] == text[mid - w..mid] == text[mid - w..hi][..w];
  }

  /** No chunk is empty or longer than the window plus one; all but the last fill more than
      half a window; neighbours share exactly the overlap; and the number of chunks is
      bounded by the text length over the least advance. */
  lemma PiecesShape(text: string, cs: nat, overlap: nat)
    requires MovesForward(cs, overlap) && 0 < |text| <= MAX_STRING
    ensures var ps := Pieces(text, 0, cs, overlap);
            var w := Shared(cs, overlap);
            && ps != []
            && (forall i :: 0 <= i < |ps| ==> 0 < |ps[i]| <= cs + 1)
            && (forall i :: 0 <= i < |ps| - 1 ==> LeastWindow(cs) <= |ps[i]|)
            && (forall i :: 0 < i < |ps| ==> ShareEdge(ps[i - 1], ps[i], w))
            && (|ps| - 1) * (LeastWindow(cs) - w) < |text|
  {
    hide Cut, Windows, MovesForward, Shared, LeastWindow;
    WindowsChained(text, 0, cs, overlap);
    var ws, w, least := Windows(text, 0, cs, overlap), Shared(cs, overlap), LeastWindow(cs);
    ChainCount(ws, 0, |text|, w, least, cs + 1);
    ChainNeighbours(text, ws, 0, w, least, cs + 1);
  }

  /** Every window ends where the text says. */
  lemma {:induction false} WindowsAreCuts(text: string, start: nat, cs: nat, overlap: nat)
    requires MovesForward(cs, overlap) && start < |text| <= MAX_STRING
    ensures var ws := Windows(text, start, cs, overlap);
            forall i :: 0 <= i < |ws| ==> ws[i].lo < |text| && ws[i].hi == Cut(text, ws[i].lo, cs)
    decreases |text| - start
  {
    hide Cut, NextStart;
    CutBounds(text, start, cs);
    var e := Cut(text, start, cs);
    if e < |text| {
      NextStartStepsBack(text, start, cs, overlap);
      var next := NextStart(e, cs, overlap);
      WindowsAreCuts(text, next, cs, overlap);
      assert forall j :: 0 <= j < |Windows(text, next, cs, overlap)| ==>
        Windows(text, next, cs, overlap)[j].lo < |text|
        && Windows(text, next, cs, overlap)[j].hi == Cut(text, Windows(text, next, cs, overlap)[j].lo, cs);
      var ws, rest := Windows(text, start, cs, overlap), Windows(text, next, cs, overlap);
      assert ws == [Window(start, e)] + rest;
      forall i | 0 <= i < |ws| ensures ws[i].lo < |text| && ws[i].hi == Cut(text, ws[i].lo, cs) {
        if i > 0 { assert ws[i] == rest[i - 1]; }
      }
    }
  }

  /** Every chunk but the last ends just after a newline in its second half, or is a full
      window without one. */
  lemma PiecesEndAtNewlines(text: string, cs: nat, overlap: nat)
    requires MovesForward(cs, overlap) && 0 < |text| <= MAX_STRING
    ensures var ps := Pieces(text, 0, cs, overlap);
            forall i :: 0 <= i < |ps| - 1 ==> EndsWell(ps[i], cs)
  {
    var ws, ps := Windows(text, 0, cs, overlap), Pieces(text, 0, cs, overlap);
    WindowsChained(text, 0, cs, overlap);
    WindowsAreCuts(text, 0, cs, overlap);
    assert ps == Slices(text, ws);
    hide Windows, Pieces, Cut, MovesForward, EndsWell;
    forall i | 0 <= i < |ps| - 1 ensures EndsWell(ps[i], cs) {
      NotTheLast(ws, 0, |text|, Shared(cs, overlap), LeastWindow(cs), cs + 1, i);
      hide Chained, Slices, Shared, LeastWindow;
      CutAtNewline(text, ws[i].lo, cs);
    }
  }

  lemma NotTheLast(ws: seq<Window>, start: nat, end: nat, w: nat, least: nat, most: nat, i: nat)
    requires Chained(ws, start, end, w, least, most) && i + 1 < |ws|
    ensures ws[i].lo < ws[i].hi < end
  {
    assert ws[i + 1].lo == ws[i].hi - w && ws[i + 1].lo + w < ws[i + 1].hi;
  }

  /** Ends just after a newline in the second half of the window, or is full without one. */
  predicate EndsWell(p: string, cs: nat) {
    || (|p| > cs / 2 + 1 && p[|p| - 1] == '\n')
    || (|p| == cs && forall j :: cs / 2 < j < cs ==> p[j] != '\n')
  }

  lemma CutAtNewline(text: string, start: nat, cs: nat)
    requires cs > 0 && start < |text| && Cut(text, start, cs) < |text|
    ensures start < Cut(text, start, cs)
    ensures EndsWell(text[start..Cut(text, start, cs)], cs)
  {
    CutBounds(text, start, cs);
    CutIsLastNewline(text, start, cs);
    hide Cut;
    if forall q {:trigger text[q]} :: start + cs / 2 < q <= start + cs && q < |text| ==> text[q] != '\n' {
      var p := text[start..start + cs];
      forall j | cs / 2 < j < cs ensures p[j] != '\n' { assert p[j] == text[start + j]; }
    }
  }

  // ------------------------------------------------------------- chunkBySize

  function Label(contents: seq<string>, first: nat, fileId: int, filename: string): (r: seq<Chunk>)
    ensures |r| == |contents|
  {
    seq(|contents|, i requires 0 <= i < |contents| => Chunk(contents[i], first + i, fileId, filename))
  }

  /** The contents of the chunks; a text that fits the window is one chunk. */
  function BySize(text: string, cs: nat, overlap: nat): (r: seq<string>)
    requires |text| <= MAX_STRING && (|text| <= cs || MovesForward(cs, overlap))
  {
    if text == "" then [] else if |text| <= cs then [text] else Pieces(text, 0, cs, overlap)
  }

  /** The shortcut gives what the loop would give. */
  lemma ShortTextIsOnePiece(text: string, cs: nat, overlap: nat)
    requires MovesForward(cs, overlap) && 0 < |text| <= MAX_STRING && |text| <= cs
    ensures Pieces(text, 0, cs, overlap) == [text]
  {
    assert Windows(text, 0, cs, overlap) == [Window(0, |text|)];
    assert text[0..|text|] == text;
  }

  lemma LabelSnoc(contents: seq<string>, x: string, first: nat, fileId: int, filename: string)
    ensures Label(contents + [x], first, fileId, filename)
            == Label(contents, first, fileId, filename) + [Chunk(x, first + |contents|, fileId, filename)]
  {}

  method WindowEnd(text: string, start: nat, cs: nat) returns (end: nat)
    requires start < |text|
    ensures end == Cut(text, start, cs)
  {
    end := Min(start + cs, |text|);
    if end < |text| {
      var newline := RFind(text, '\n', end);
      if newline.Some? && newline.value > start + cs / 2 {
        end := newline.value + 1;
      }
    }
  }

  method StepBack(end: nat, cs: nat, overlap: nat) returns (start: nat)
    ensures start == NextStart(end, cs, overlap)
  {
    start := (end - overlap) % WORD;
    if (start + cs / 4) % WORD >= end {
      start := (end - cs / 4) % WORD;
    }
  }

  lemma SlicesCons(text: string, w: Window, ws: seq<Window>)
    requires w.lo <= w.hi <= |text|
    requires forall i :: 0 <= i < |ws| ==> ws[i].lo <= ws[i].hi <= |text|
    ensures (forall i :: 0 <= i < |[w] + ws| ==> ([w] + ws)[i].lo <= ([w] + ws)[i].hi <= |text|)
    ensures Slices(text, [w] + ws) == [text[w.lo..w.hi]] + Slices(text, ws)
  {}

  lemma PiecesStep(text: string, start: nat, cs: nat, overlap: nat)
    requires MovesForward(cs, overlap) && start < |text| <= MAX_STRING
    ensures var e := Cut(text, start, cs);
            && start < e <= |text|
            && (e == |text| ==> Pieces(text, start, cs, overlap) == [text[start..e]])
            && (e < |text| ==>
                  && start < NextStart(e, cs, overlap) < |text|
                  && Pieces(text, start, cs, overlap)
                     == [text[start..e]] + Pieces(text, NextStart(e, cs, overlap), cs, overlap))
  {
    hide Cut, NextStart, Shared, LeastWindow;
    CutBounds(text, start, cs);
    WindowsChained(text, start, cs, overlap);
    var e := Cut(text, start, cs);
    if e < |text| {
      NextStartStepsBack(text, start, cs, overlap);
      var next := NextStart(e, cs, overlap);
      WindowsChained(text, next, cs, overlap);
      SlicesCons(text, Window(start, e), Windows(text, next, cs, overlap));
    }
  }

  method Normalise(chunkSize: nat, overlap: nat) returns (cs: nat, ov: nat)
    ensures cs == EffectiveSize(chunkSize) && ov == EffectiveOverlap(chunkSize, overlap)
  {
    cs, ov := chunkSize, overlap;
    if cs == 0 {
      cs := 1000;
    }
    if ov >= cs {
      ov := cs / 4;
    }
  }

  // ------------------------------------------------ the chunks of every run that stops

  /** The contents of the chunks emitted in the first `turns` turns of the loop. */
  function TurnPieces(text: string, cs: nat, overlap: nat, turns: nat): (r: seq<string>)
    requires cs > 0
  {
    if turns == 0 then []
    else
      var done := TurnPieces(text, cs, overlap, turns - 1);
      match After(text, cs, overlap, turns - 1)
      case None => done
      case Some(start) =>
        if start >= |text| then done
        else
          CutBounds(text, start, cs);
          done + [text[start..Cut(text, start, cs)]]
  }

  /** What the loop has emitted when it stops. */
  ghost function LoopPieces(text: string, cs: nat, overlap: nat): seq<string>
    requires cs > 0 && Halts(text, cs, overlap)
  {
    var turns: nat :| After(text, cs, overlap, turns).None?;
    TurnPieces(text, cs, overlap, turns)
  }

  /** Once the loop has stopped nothing changes. */
  lemma {:induction false} StoppedStays(text: string, cs: nat, overlap: nat, a: nat, b: nat)
    requires cs > 0 && a <= b && After(text, cs, overlap, a).None?
    ensures After(text, cs, overlap, b).None?
    ensures TurnPieces(text, cs, overlap, b) == TurnPieces(text, cs, overlap, a)
    decreases b - a
  {
    hide Cut, Turn;
    if a < b { StoppedStays(text, cs, overlap, a, b - 1); }
  }

  lemma LoopPiecesAt(text: string, cs: nat, overlap: nat, turns: nat)
    requires cs > 0 && After(text, cs, overlap, turns).None?
    ensures Halts(text, cs, overlap) && LoopPieces(text, cs, overlap) == TurnPieces(text, cs, overlap, turns)
  {
    hide After, TurnPieces;
    assert Halts(text, cs, overlap);
    var n: nat :| After(text, cs, overlap, n).None?
                  && LoopPieces(text, cs, overlap) == TurnPieces(text, cs, overlap, n);
    if n <= turns { StoppedStays(text, cs, overlap, n, turns); } else { StoppedStays(text, cs, overlap, turns, n); }
  }

  /** In the safe range what the loop emits is what the theorems on `Pieces` speak of. */
  lemma LoopIsPieces(text: string, cs: nat, overlap: nat)
    requires MovesForward(cs, overlap) && 0 < |text| <= MAX_STRING
    ensures Halts(text, cs, overlap) && LoopPieces(text, cs, overlap) == Pieces(text, 0, cs, overlap)
  {
    hide After, TurnPieces, Pieces, Halts, LoopPieces;
    var turns := |text| + 1;
    TurnsMakePieces(text, cs, overlap, turns);
    LoopPiecesAt(text, cs, overlap, turns);
  }

  lemma {:induction false} TurnsMakePieces(text: string, cs: nat, overlap: nat, turns: nat)
    requires MovesForward(cs, overlap) && 0 < |text| <= MAX_STRING
    ensures var p := After(text, cs, overlap, turns);
            var done := TurnPieces(text, cs, overlap, turns);
            && (p.Some? ==> turns <= p.value < |text|
                            && done + Pieces(text, p.value, cs, overlap) == Pieces(text, 0, cs, overlap))
            && (p.None? ==> done == Pieces(text, 0, cs, overlap))
  {
    hide Cut, NextStart, Pieces;
    if turns > 0 {
      TurnsMakePieces(text, cs, overlap, turns - 1);
      AdvancesEachTurn(text, cs, overlap, turns);
      var p := After(text, cs, overlap, turns - 1);
      if p.Some? { PiecesStep(text, p.value, cs, overlap); }
    }
  }

  // ------------------------------------------------ when a run that stops keeps the text

  lemma {:induction false} DroppingSnoc(pieces: seq<string>, p: string, n: nat)
    requires n <= |p|
    ensures JoinDropping(pieces + [p], n) == JoinDropping(pieces, n) + p[n..]
  {
    if pieces == [] {
      assert [p][1..] == [];
    } else {
      assert (pieces + [p])[1..] == pieces[1..] + [p];
      DroppingSnoc(pieces[1..], p, n);
    }
  }

  /** One more window that starts `w` characters before what has been rebuilt. */
  lemma RebuildSnoc(text: string, pieces: seq<string>, start: nat, end: nat, w: nat)
    requires start + w <= end <= |text| && pieces != [] && Rebuild(pieces, w) == text[..start + w]
    ensures Rebuild(pieces + [text[start..end]], w) == text[..end]
  {
    var p := text[start..end];
    assert (pieces + [p])[1..] == pieces[1..] + [p];
    hide JoinDropping;
    DroppingSnoc(pieces[1..], p, w);
    GrowPrefix(text, start, end, w);
    assert pieces[0] + (JoinDropping(pieces[1..], w) + p[w..]) == pieces[0] + JoinDropping(pieces[1..], w) + p[w..];
  }

  lemma GrowPrefix(text: string, start: nat, end: nat, w: nat)
    requires start + w <= end <= |text|
    ensures text[..start + w] + text[start..end][w..] == text[..end]
  {}

  lemma RebuildOne(p: string, w: nat)
    ensures Rebuild([p], w) == p
  {}

  /** The overlaps that no window falls short of. */
  predicate NeverWraps(cs: nat, overlap: nat) { 0 < cs && overlap < cs && overlap <= cs / 2 + 2 }

  lemma NextStartNoWrap(text: string, start: nat, cs: nat, overlap: nat)
    requires NeverWraps(cs, overlap) && start < |text| <= MAX_STRING
    ensures var e, w := Cut(text, start, cs), Shared(cs, overlap);
            && start < e <= |text|
            && (e < |text| ==> start + w <= e && NextStart(e, cs, overlap) == e - w)
  {
    CutBounds(text, start, cs);
    if Cut(text, start, cs) < |text| { NextStartInRange(Cut(text, start, cs), cs, overlap); }
  }

  /** After each turn the chunks rebuild the text up to the overlap behind the next start. */
  lemma {:induction false} TurnsKeepText(text: string, cs: nat, overlap: nat, turns: nat)
    requires NeverWraps(cs, overlap) && 0 < |text| <= MAX_STRING
    ensures var p, w := After(text, cs, overlap, turns), Shared(cs, overlap);
            var done := TurnPieces(text, cs, overlap, turns);
            && (turns == 0 ==> p == Some(0) && done == [])
            && (turns > 0 && p.Some? ==> done != [] && p.value + w < |text| && Rebuild(done, w) == text[..p.value + w])
            && (p.None? ==> Rebuild(done, w) == text)
  {
    hide Cut, NextStart, Shared, Rebuild;
    if turns > 0 {
      TurnsKeepText(text, cs, overlap, turns - 1);
      var p, w := After(text, cs, overlap, turns - 1), Shared(cs, overlap);
      if p.Some? {
        var done := TurnPieces(text, cs, overlap, turns - 1);
        NextStartNoWrap(text, p.value, cs, overlap);
        var e := Cut(text, p.value, cs);
        if done == [] {
          RebuildOne(text[p.value..e], w);
          assert done + [text[p.value..e]] == [text[p.value..e]];
        } else {
          RebuildSnoc(text, done, p.value, e, w);
        }
        assert text[..|text|] == text;
      }
    }
  }

  /** A text whose only newline ends the first window one short of the overlap. */
  function LostText(cs: nat, overlap: nat): string {
    seq(cs + 1, i => if i == overlap - 2 then '\n' else 'a')
  }

  lemma RestIsLost(cs: nat, overlap: nat)
    requires cs / 2 + 3 <= overlap < cs < MAX_STRING
    ensures var text := LostText(cs, overlap);
            |text| == cs + 1 && Halts(text, cs, overlap) && LoopPieces(text, cs, overlap) == [text[..overlap - 1]]
  {
    var text := LostText(cs, overlap);
    assert text[overlap - 2] == '\n';
    CutIsLastNewline(text, 0, cs);
    hide Cut, LostText;
    assert Cut(text, 0, cs) == overlap - 1;
    WrapsAround(cs, overlap);
    hide NextStart;
    assert After(text, cs, overlap, 0) == Some(0);
    assert After(text, cs, overlap, 1) == Some(WORD - 1);
    assert After(text, cs, overlap, 2) == None;
    assert TurnPieces(text, cs, overlap, 1) == [text[..overlap - 1]];
    LoopPiecesAt(text, cs, overlap, 2);
  }

  lemma WrapsAround(cs: nat, overlap: nat)
    requires cs / 2 + 3 <= overlap < cs < MAX_STRING
    ensures NextStart(overlap - 1, cs, overlap) == WORD - 1
  {
    assert -1 % WORD == WORD - 1;
    assert (WORD - 1 + cs / 4) % WORD == cs / 4 - 1;
  }

  /** On every text for which the loop stops the chunks rebuild the text exactly when the
      overlap is at most half the window plus two. A larger overlap can wrap the start
      around, which ends the loop and drops the rest of the text. */
  lemma TextKeptExactly(cs: nat, overlap: nat)
    requires overlap < cs < MAX_STRING
    ensures (forall text: string | 0 < |text| <= MAX_STRING && Halts(text, cs, overlap) ::
               Rebuild(LoopPieces(text, cs, overlap), Shared(cs, overlap)) == text)
            <==> overlap <= cs / 2 + 2
  {
    hide After, TurnPieces, LoopPieces, Rebuild;
    if overlap <= cs / 2 + 2 {
      forall text: string | 0 < |text| <= MAX_STRING && Halts(text, cs, overlap)
        ensures Rebuild(LoopPieces(text, cs, overlap), Shared(cs, overlap)) == text
      {
        var turns: nat :| After(text, cs, overlap, turns).None?;
        TurnsKeepText(text, cs, overlap, turns);
        LoopPiecesAt(text, cs, overlap, turns);
      }
    } else {
      var text := LostText(cs, overlap);
      RestIsLost(cs, overlap);
      RebuildOne(text[..overlap - 1], Shared(cs, overlap));
      assert |text[..overlap - 1]| < |text|;
    }
  }

  /** The loop, on every text for which it stops. */
  method Slide(text: string, sourceFile: string, fileId: int, cs: nat, ov: nat) returns (chunks: seq<Chunk>)
    requires cs > 0 && |text| <= MAX_STRING && Halts(text, cs, ov)
    ensures chunks == Label(LoopPieces(text, cs, ov), 0, fileId, sourceFile)
  {
    hide Cut, NextStart, Label, LoopPieces;
    chunks := [];
    var start, idx := 0, 0;
    ghost var last: nat :| After(text, cs, ov, last).None?;
    ghost var turns := 0;
    NothingLabelled(fileId, sourceFile);
    while start < |text|
      invariant After(text, cs, ov, turns) == Some(start)
      invariant idx == |TurnPieces(text, cs, ov, turns)|
      invariant chunks == Label(TurnPieces(text, cs, ov, turns), 0, fileId, sourceFile)
      decreases last - turns
    {
      if last <= turns { StoppedStays(text, cs, ov, last, turns); }
      CutBounds(text, start, cs);
      var end := WindowEnd(text, start, cs);
      LabelSnoc(TurnPieces(text, cs, ov, turns), text[start..end], 0, fileId, sourceFile);
      chunks := chunks + [Chunk(text[start..end], idx, fileId, sourceFile)];
      idx := idx + 1;
      if end >= |text| {
        LoopPiecesAt(text, cs, ov, turns + 1);
        return;
      }
      start := StepBack(end, cs, ov);
      turns := turns + 1;
    }
    LoopPiecesAt(text, cs, ov, turns + 1);
  }

  lemma NothingLabelled(fileId: int, filename: string)
    ensures Label([], 0, fileId, filename) == []
  {}

  lemma LabelFields(contents: seq<string>, first: nat, fileId: int, filename: string)
    ensures forall i :: 0 <= i < |contents| ==>
              Label(contents, first, fileId, filename)[i] == Chunk(contents[i], first + i, fileId, filename)
  {}

  method ChunkBySize(text: string, sourceFile: string, fileId: int, chunkSize: nat, overlap: nat)
    returns (chunks: seq<Chunk>)
    requires |text| <= MAX_STRING
    requires |text| <= EffectiveSize(chunkSize)
             || Halts(text, EffectiveSize(chunkSize), EffectiveOverlap(chunkSize, overlap))
    ensures var cs := if chunkSize == 0 then 1000 else chunkSize;
            var ov := if overlap >= cs then cs / 4 else overlap;
            var contents := if text == "" then [] else if |text| <= cs then [text] else LoopPieces(text, cs, ov);
            && chunks == Label(contents, 0, fileId, sourceFile)
            && |chunks| == |contents|
            && forall i :: 0 <= i < |chunks| ==> chunks[i] == Chunk(contents[i], i, fileId, sourceFile)
  {
    chunks := [];
    if text == "" {
      return;
    }
    var cs, ov := Normalise(chunkSize, overlap);
    if |text| <= cs {
      return [Chunk(text, 0, fileId, sourceFile)];
    }
    chunks := Slide(text, sourceFile, fileId, cs, ov);
    LabelFields(LoopPieces(text, cs, ov), 0, fileId, sourceFile);
  }
}
