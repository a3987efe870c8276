/** src/vector/TextChunker.cpp: chunkByParagraph, which splits at blank lines, packs the
    paragraphs greedily and hands over-long ones to the sliding window. */
module ParagraphChunker {
  import opened Strings
  import opened TextChunker

  // ------------------------------------------------------------ the paragraphs

  /** The lines std::getline reads; a final newline opens no further line. */
  function Lines(text: string): (r: seq<string>)
    decreases |text|
  {
    if text == "" then []
    else match Find(text, "\n", 0)
      case None => [text]
      case Some(p) => [text[..p]] + Lines(text[p + 1..])
  }

  /** The paragraphs of `lines` when `current` has been collected already. */
  function Paragraphs(lines: seq<string>, current: string): (r: seq<string>) {
    if lines == [] then (if current == "" then [] else [current])
    else if lines[0] == "" && current != "" then [current] + Paragraphs(lines[1..], "")
    else Paragraphs(lines[1..], current + lines[0] + "\n")
  }

  function Terminated(lines: seq<string>): string {
    if lines == [] then "" else lines[0] + "\n" + Terminated(lines[1..])
  }

  /** The text with a final newline added when a non-empty text lacks one. */
  function Closed(text: string): string {
    if text == "" || text[|text| - 1] == '\n' then text else text + "\n"
  }

  /** Reading lines loses nothing but a missing final newline. */
  lemma {:induction false} LinesKeepText(text: string)
    ensures Terminated(Lines(text)) == Closed(text)
    ensures forall i :: 0 <= i < |Lines(text)| ==> Lacks(Lines(text)[i], '\n')
    decreases |text|
  {
    if text != "" {
      assert "\n" == ['\n'];
      FindChar(text, '\n', 0);
      var f := Find(text, "\n", 0);
      if f.Some? {
        SplitAround(text, f.value);
        assert Lacks(text[..f.value], '\n');
        var rest := text[f.value + 1..];
        LinesKeepText(rest);
        assert Lines(text) == [text[..f.value]] + Lines(rest);
        assert Closed(text) == text[..f.value] + "\n" + Closed(rest);
      } else {
        assert Lacks(text, '\n') && text[|text| - 1] != '\n';
        assert Terminated([text]) == text + "\n" + Terminated([]);
      }
    }
  }

  /** Every paragraph followed by one blank line. */
  function Spaced(paras: seq<string>): string {
    if paras == [] then "" else paras[0] + "\n" + Spaced(paras[1..])
  }

  /** A paragraph ends in a newline and holds no blank line. */
  ghost predicate IsParagraph(p: string) {
    && p != "" && p[|p| - 1] == '\n'
    && forall i :: 0 < i < |p| ==> !(p[i - 1] == '\n' && p[i] == '\n')
  }

  lemma AppendLine(current: string, line: string)
    requires current == "" || IsParagraph(current)
    requires Lacks(line, '\n') && (line != "" || current == "")
    ensures IsParagraph(current + line + "\n")
  {}

  lemma {:induction false} ParagraphsAreParagraphs(lines: seq<string>, current: string)
    requires forall i :: 0 <= i < |lines| ==> Lacks(lines[i], '\n')
    requires current == "" || IsParagraph(current)
    ensures forall i :: 0 <= i < |Paragraphs(lines, current)| ==> IsParagraph(Paragraphs(lines, current)[i])
  {
    hide IsParagraph;
    if lines == [] {
    } else if lines[0] == "" && current != "" {
      ParagraphsAreParagraphs(lines[1..], "");
    } else {
      AppendLine(current, lines[0]);
      ParagraphsAreParagraphs(lines[1..], current + lines[0] + "\n");
    }
  }

  /** Writing a blank line after every paragraph restores the lines, up to one newline at
      the very end. */
  lemma {:induction false} ParagraphsKeepLines(lines: seq<string>, current: string)
    ensures var all := current + Terminated(lines);
            || Spaced(Paragraphs(lines, current)) == all
            || Spaced(Paragraphs(lines, current)) == all + "\n"
  {
    var ps := Paragraphs(lines, current);
    if lines == [] {
      assert current != "" ==> Spaced([current]) == current + "\n" + Spaced([]);
    } else if lines[0] == "" && current != "" {
      ParagraphsKeepLines(lines[1..], "");
      assert "" + Terminated(lines[1..]) == Terminated(lines[1..]);
      assert ps[1..] == Paragraphs(lines[1..], "");
      assert Terminated(lines) == "\n" + Terminated(lines[1..]);
      assert forall a: string, b: string :: current + "\n" + (a + b) == current + ("\n" + a) + b;
    } else {
      ParagraphsKeepLines(lines[1..], current + lines[0] + "\n");
      assert current + lines[0] + "\n" + Terminated(lines[1..]) == current + Terminated(lines);
    }
  }

  // ---------------------------------------------------------- the greedy packing

  /** A stretch of the output: paragraphs packed into one chunk, or one over-long
      paragraph that the sliding window cuts up. */
  datatype Segment = Packed(paras: seq<string>) | Split(para: string)

  function Covered(seg: Segment): seq<string> {
    match seg case Packed(ps) => ps case Split(p) => [p]
  }

  function Paras(plan: seq<Segment>): seq<string> {
    if plan == [] then [] else Covered(plan[0]) + Paras(plan[1..])
  }

  /** Packed chunks stay within the limit; only over-long paragraphs are cut up. */
  predicate Allowed(seg: Segment, max: nat) {
    match seg
    case Packed(ps) => ps != [] && |Concat(ps)| <= max
    case Split(p) => |p| > max
  }

  /** An in-order grouping of `paras` that keeps to the limit. */
  ghost predicate IsPlan(plan: seq<Segment>, paras: seq<string>, max: nat) {
    && Paras(plan) == paras
    && forall i :: 0 <= i < |plan| ==> Allowed(plan[i], max)
  }

  /** What the loop does with the paragraphs still to come, `current` being packed. */
  function Pack(paras: seq<string>, current: seq<string>, max: nat): (r: seq<Segment>) {
    if paras == [] then Flush(current)
    else if |paras[0]| > max then Flush(current) + [Split(paras[0])] + Pack(paras[1..], [], max)
    else if current != [] && |Concat(current)| + |paras[0]| > max then
      [Packed(current)] + Pack(paras[1..], [paras[0]], max)
    else Pack(paras[1..], current + [paras[0]], max)
  }

  function Flush(current: seq<string>): seq<Segment> {
    if current == [] then [] else [Packed(current)]
  }

  /** The chunk contents of a segment; `max > 0` makes the window of size `max` with overlap
      `max / 5` move forward. */
  function Render(seg: Segment, max: nat): (r: seq<string>)
    requires max > 0
  {
    match seg
    case Packed(ps) => [Concat(ps)]
    case Split(p) => if |p| <= MAX_STRING then BySize(p, max, max / 5) else []
  }

  function RenderAll(plan: seq<Segment>, max: nat): (r: seq<string>)
    requires max > 0
  {
    if plan == [] then [] else Render(plan[0], max) + RenderAll(plan[1..], max)
  }

  lemma {:induction false} RenderAppend(a: seq<Segment>, b: seq<Segment>, max: nat)
    requires max > 0
    ensures RenderAll(a + b, max) == RenderAll(a, max) + RenderAll(b, max)
  {
    if a == [] {
      assert a + b == b;
    } else {
      assert (a + b)[1..] == a[1..] + b;
      RenderAppend(a[1..], b, max);
    }
  }

  lemma PlanCons(seg: Segment, plan: seq<Segment>, paras: seq<string>, max: nat)
    requires Allowed(seg, max) && IsPlan(plan, paras, max)
    ensures IsPlan([seg] + plan, Covered(seg) + paras, max)
  {
    assert ([seg] + plan)[1..] == plan;
  }

  lemma FlushCons(current: seq<string>, plan: seq<Segment>, paras: seq<string>, max: nat)
    requires |Concat(current)| <= max && IsPlan(plan, paras, max)
    ensures IsPlan(Flush(current) + plan, current + paras, max)
  {
    if current == [] {
      assert [] + plan == plan && current + paras == paras;
    } else {
      PlanCons(Packed(current), plan, paras, max);
    }
  }

  lemma NoPlan(max: nat)
    ensures IsPlan([], [], max)
  {}

  lemma PlanTail(plan: seq<Segment>, paras: seq<string>, max: nat)
    requires IsPlan(plan, paras, max) && paras != []
    ensures plan != []
    ensures Covered(plan[0]) != [] && Covered(plan[0]) <= paras && Allowed(plan[0], max)
    ensures IsPlan(plan[1..], paras[|Covered(plan[0])|..], max)
  {}

  /** The greedy packing is a plan: nothing lost, nothing reordered, nothing too long. */
  lemma {:induction false} PackIsPlan(paras: seq<string>, current: seq<string>, max: nat)
    requires |Concat(current)| <= max
    ensures IsPlan(Pack(paras, current, max), current + paras, max)
  {
    hide IsPlan;
    if paras == [] {
      NoPlan(max);
      FlushCons(current, [], [], max);
      assert Flush(current) + [] == Flush(current);
    } else {
      var p, rest := paras[0], paras[1..];
      assert paras == [p] + rest;
      if |p| > max {
        PackIsPlan(rest, [], max);
        assert [] + rest == rest;
        PlanCons(Split(p), Pack(rest, [], max), rest, max);
        FlushCons(current, [Split(p)] + Pack(rest, [], max), paras, max);
        assert Pack(paras, current, max) == Flush(current) + ([Split(p)] + Pack(rest, [], max));
      } else if current != [] && |Concat(current)| + |p| > max {
        assert Concat([p]) == p + Concat([]);
        PackIsPlan(rest, [p], max);
        PlanCons(Packed(current), Pack(rest, [p], max), [p] + rest, max);
      } else {
        ConcatSnoc(current, p);
        PackIsPlan(rest, current + [p], max);
        assert current + [p] + rest == current + paras;
      }
    }
  }

  // ------------------------------------------------------------------ optimality

  /** `plan` without its first `k` paragraphs. */
  function Dropped(plan: seq<Segment>, k: nat): (r: seq<Segment>) {
    if k == 0 || plan == [] then plan
    else
      var c := Covered(plan[0]);
      if k >= |c| then Dropped(plan[1..], k - |c|) else [Packed(c[k..])] + plan[1..]
  }

  lemma ConcatPrefix(a: seq<string>, b: seq<string>)
    requires a <= b
    ensures |Concat(a)| <= |Concat(b)| && |Concat(b[|a|..])| <= |Concat(b)|
  {
    assert b == a + b[|a|..];
    ConcatAppend(a, b[|a|..]);
  }

  lemma FirstFits(ps: seq<string>)
    requires ps != []
    ensures |ps[0]| <= |Concat(ps)|
  {}

  lemma OneMoreIsLonger(current: seq<string>, p: string, c: seq<string>)
    requires current + [p] <= c
    ensures |Concat(current)| + |p| <= |Concat(c)|
  {
    ConcatSnoc(current, p);
    ConcatPrefix(current + [p], c);
  }

  lemma {:induction false} DroppedIsPlan(plan: seq<Segment>, paras: seq<string>, k: nat, max: nat)
    requires max > 0 && IsPlan(plan, paras, max) && k <= |paras|
    ensures IsPlan(Dropped(plan, k), paras[k..], max)
    ensures |RenderAll(Dropped(plan, k), max)| <= |RenderAll(plan, max)|
  {
    hide Concat, IsPlan;
    if k == 0 {
      assert paras[0..] == paras;
    } else {
      PlanTail(plan, paras, max);
      var c, rest := Covered(plan[0]), paras[|Covered(plan[0])|..];
      if k >= |c| {
        DroppedIsPlan(plan[1..], rest, k - |c|, max);
        assert rest[k - |c|..] == paras[k..];
      } else {
        ConcatPrefix(c[..k], c);
        PlanCons(Packed(c[k..]), plan[1..], rest, max);
        assert c[k..] + rest == paras[k..];
        assert Dropped(plan, k)[1..] == plan[1..];
      }
    }
  }

  lemma OneChunk(plan: seq<Segment>, max: nat)
    requires max > 0 && plan != []
    ensures plan[0].Packed? ==> |RenderAll(plan, max)| == 1 + |RenderAll(plan[1..], max)|
  {}

  /** When `current` cannot take the next paragraph, any plan spends a chunk before it. */
  lemma AnyPlanFlushes(plan: seq<Segment>, current: seq<string>, paras: seq<string>, max: nat)
    returns (rest: seq<Segment>)
    requires max > 0 && current != [] && paras != []
    requires |Concat(current)| <= max < |Concat(current)| + |paras[0]|
    requires IsPlan(plan, current + paras, max)
    ensures IsPlan(rest, paras, max)
    ensures 1 + |RenderAll(rest, max)| <= |RenderAll(plan, max)|
  {
    hide IsPlan, RenderAll, Concat, Dropped, Paras;
    var all := current + paras;
    PlanTail(plan, all, max);
    OneChunk(plan, max);
    var c := Covered(plan[0]);
    assert c[0] == current[0];
    FirstFits(current);
    if |c| > |current| {
      assert current + [paras[0]] == c[..|current| + 1];
      OneMoreIsLonger(current, paras[0], c);
      assert false;
    }
    DroppedIsPlan(plan[1..], all[|c|..], |current| - |c|, max);
    assert all[|c|..][|current| - |c|..] == paras;
    rest := Dropped(plan[1..], |current| - |c|);
  }

  /** No in-order grouping within the limit gives fewer chunks than the greedy one. */
  lemma {:induction false} PackIsOptimal(paras: seq<string>, current: seq<string>, plan: seq<Segment>, max: nat)
    requires max > 0 && |Concat(current)| <= max
    requires IsPlan(plan, current + paras, max)
    ensures |RenderAll(Pack(paras, current, max), max)| <= |RenderAll(plan, max)|
    decreases |paras|, |current|
  {
    hide IsPlan, Pack, RenderAll, Concat;
    NothingPacked();
    if paras == [] {
      LastFlush(current, plan, max);
    } else {
      var p, rest := paras[0], paras[1..];
      assert paras == [p] + rest;
      if current != [] && |Concat(current)| + |p| > max {
        var later := AnyPlanFlushes(plan, current, paras, max);
        assert [] + paras == paras;
        PackIsOptimal(paras, [], later, max);
        PackFlushes(paras, current, max);
      } else if |p| > max {
        assert current + paras == [p] + rest;
        assert [] + rest == rest;
        SplitComesFirst(plan, p, rest, max);
        PackIsOptimal(rest, [], plan[1..], max);
        PackSplits(rest, p, max);
      } else {
        ConcatSnoc(current, p);
        PackJoins(rest, p, current, max);
        assert current + [p] + rest == current + paras;
        PackIsOptimal(rest, current + [p], plan, max);
      }
    }
  }

  lemma NothingPacked()
    ensures Concat([]) == ""
  {}

  lemma LastFlush(current: seq<string>, plan: seq<Segment>, max: nat)
    requires max > 0 && |Concat(current)| <= max && IsPlan(plan, current + [], max)
    ensures |RenderAll(Pack([], current, max), max)| <= |RenderAll(plan, max)|
  {
    if current != [] {
      FirstFits(current);
      PlanTail(plan, current + [], max);
    }
  }

  lemma PackSplits(rest: seq<string>, p: string, max: nat)
    requires max > 0 && |p| > max
    ensures RenderAll(Pack([p] + rest, [], max), max)
            == Render(Split(p), max) + RenderAll(Pack(rest, [], max), max)
  {
    assert Pack([p] + rest, [], max) == [Split(p)] + Pack(rest, [], max);
  }

  lemma PackJoins(rest: seq<string>, p: string, current: seq<string>, max: nat)
    requires |p| <= max && (current != [] ==> |Concat(current)| + |p| <= max)
    ensures Pack([p] + rest, current, max) == Pack(rest, current + [p], max)
  {}

  /** Closing `current` first costs exactly its one chunk. */
  lemma PackFlushes(paras: seq<string>, current: seq<string>, max: nat)
    requires max > 0 && paras != [] && current != [] && |Concat(current)| + |paras[0]| > max
    ensures RenderAll(Pack(paras, current, max), max)
            == [Concat(current)] + RenderAll(Pack(paras, [], max), max)
  {
    hide Concat, Pack;
    PackCloses(paras, current, max);
    RenderAppend([Packed(current)], Pack(paras, [], max), max);
    assert RenderAll([Packed(current)], max) == [Concat(current)];
  }

  lemma SplitComesFirst(plan: seq<Segment>, p: string, rest: seq<string>, max: nat)
    requires IsPlan(plan, [p] + rest, max) && |p| > max
    ensures plan != [] && plan[0] == Split(p) && IsPlan(plan[1..], rest, max)
    ensures max > 0 ==> RenderAll(plan, max) == Render(Split(p), max) + RenderAll(plan[1..], max)
  {
    PlanTail(plan, [p] + rest, max);
    var c := Covered(plan[0]);
    assert c[0] == p;
    FirstFits(c);
    assert ([p] + rest)[1..] == rest;
  }

  // --------------------------------------------------- the one plan the packing makes

  /** No packed chunk could have taken the paragraph that follows it. */
  ghost predicate Tight(plan: seq<Segment>, max: nat) {
    forall i :: 0 < i < |plan| && plan[i - 1].Packed? && Covered(plan[i]) != [] ==>
                  |Concat(plan[i - 1].paras)| + |Covered(plan[i])[0]| > max
  }

  /** `plan` continues the chunk that `current` has begun. */
  predicate Continues(plan: seq<Segment>, current: seq<string>) {
    current == [] || (plan != [] && plan[0].Packed? && current <= plan[0].paras)
  }

  lemma TightTail(plan: seq<Segment>, max: nat)
    requires Tight(plan, max) && plan != []
    ensures Tight(plan[1..], max)
  {
    forall i | 0 < i < |plan[1..]| && plan[1..][i - 1].Packed? && Covered(plan[1..][i]) != []
      ensures |Concat(plan[1..][i - 1].paras)| + |Covered(plan[1..][i])[0]| > max
    {
      assert plan[1..][i - 1] == plan[i] && plan[1..][i] == plan[i + 1];
      assert plan[i + 1 - 1] == plan[i];
    }
  }

  /** The chunk begun by `current` cannot take the next paragraph: it is the whole first
      chunk of the plan. */
  lemma ClosedChunk(plan: seq<Segment>, paras: seq<string>, current: seq<string>, max: nat)
    requires IsPlan(plan, current + paras, max) && current != [] && Continues(plan, current)
    requires paras == [] || |Concat(current)| + |paras[0]| > max
    ensures plan[0] == Packed(current) && IsPlan(plan[1..], paras, max)
  {
    PlanTail(plan, current + paras, max);
    var ps := plan[0].paras;
    assert ps <= current + paras;
    if ps != current {
      assert |ps| > |current| && ps[|current|] == (current + paras)[|current|] == paras[0];
      assert ps[..|current|] == current;
      assert current + [paras[0]] <= ps;
      OneMoreIsLonger(current, paras[0], ps);
    }
    assert (current + paras)[|current|..] == paras;
  }

  /** The chunk begun by `current` can take the next paragraph: in a tight plan it does. */
  lemma OpenChunk(plan: seq<Segment>, paras: seq<string>, current: seq<string>, max: nat)
    requires IsPlan(plan, current + paras, max) && Continues(plan, current) && Tight(plan, max)
    requires paras != [] && |paras[0]| <= max && (current != [] ==> |Concat(current)| + |paras[0]| <= max)
    ensures Continues(plan, current + [paras[0]])
  {
    PlanTail(plan, current + paras, max);
    if current == [] {
      assert current + paras == paras;
      assert Covered(plan[0])[0] == paras[0];
    } else {
      var ps := plan[0].paras;
      if ps == current {
        TightFollows(plan, paras, current, max);
      } else {
        assert ps[|current|] == (current + paras)[|current|] == paras[0];
        assert ps[..|current|] == current;
      }
    }
  }

  lemma TightFollows(plan: seq<Segment>, paras: seq<string>, current: seq<string>, max: nat)
    requires IsPlan(plan, current + paras, max) && Tight(plan, max) && paras != []
    requires plan != [] && plan[0] == Packed(current)
    ensures |Concat(current)| + |paras[0]| > max
  {
    PlanHead(plan, current + paras, max);
    assert (current + paras)[|current|..] == paras;
    PlanTail(plan[1..], paras, max);
    assert plan[1] == plan[1..][0] && plan[1 - 1] == plan[0];
    assert Covered(plan[1])[0] == paras[0];
  }

  lemma PackCloses(paras: seq<string>, current: seq<string>, max: nat)
    requires paras != [] && current != [] && |Concat(current)| + |paras[0]| > max
    ensures Pack(paras, current, max) == [Packed(current)] + Pack(paras, [], max)
  {
    hide Concat;
    var p, rest := paras[0], paras[1..];
    assert [] + [p] == [p];
    if |p| > max {
      Regroup([], Packed(current), Split(p), Pack(rest, [], max));
      Regroup([], Split(p), Split(p), Pack(rest, [], max));
      assert [] + [Packed(current)] == [Packed(current)] && [] + [Split(p)] == [Split(p)];
    }
  }

  /** Of all in-order groupings within the limit exactly one is tight: the greedy one. */
  lemma {:induction false} TightPlanIsGreedy(paras: seq<string>, current: seq<string>, plan: seq<Segment>, max: nat)
    requires IsPlan(plan, current + paras, max) && Continues(plan, current) && Tight(plan, max)
    requires |Concat(current)| <= max
    ensures plan == Pack(paras, current, max)
    decreases |paras|, |current|
  {
    hide Concat, IsPlan, Tight, Continues, Pack;
    if paras == [] || (current != [] && |Concat(current)| + |paras[0]| > max) {
      if current == [] {
        assert current + paras == [];
        OnlyEmptyPlan(plan, max);
        PackNothing(max);
      } else {
        ClosedChunk(plan, paras, current, max);
        ContinuesFirst(plan, current);
        TightTail(plan, max);
        NothingPacked();
        assert [] + paras == paras;
        ContinuesNothing(plan[1..]);
        TightPlanIsGreedy(paras, [], plan[1..], max);
        if paras != [] { PackCloses(paras, current, max); } else { PackLast(current, max); }
        assert plan == [plan[0]] + plan[1..];
      }
    } else {
      var p, rest := paras[0], paras[1..];
      if |p| > max && current == [] {
        assert current + paras == [p] + rest;
        SplitComesFirst(plan, p, rest, max);
        TightTail(plan, max);
        NothingPacked();
        assert [] + rest == rest;
        ContinuesNothing(plan[1..]);
        TightPlanIsGreedy(rest, [], plan[1..], max);
        PackSplitFirst(p, rest, max);
        assert plan == [plan[0]] + plan[1..] && paras == [p] + rest;
      } else {
        OpenChunk(plan, paras, current, max);
        ConcatSnoc(current, p);
        assert current + [p] + rest == current + paras && paras == [p] + rest;
        if current == [] { NothingPacked(); }
        TightPlanIsGreedy(rest, current + [p], plan, max);
        PackJoins(rest, p, current, max);
      }
    }
  }

  lemma OnlyEmptyPlan(plan: seq<Segment>, max: nat)
    requires IsPlan(plan, [], max)
    ensures plan == []
  {
    if plan != [] { PlanCoversSomething(plan, [], max); }
  }

  lemma PlanCoversSomething(plan: seq<Segment>, paras: seq<string>, max: nat)
    requires IsPlan(plan, paras, max) && plan != []
    ensures paras != []
  {
    assert Allowed(plan[0], max) && Covered(plan[0]) != [];
  }

  lemma PackNothing(max: nat)
    ensures Pack([], [], max) == []
  {}

  lemma PackLast(current: seq<string>, max: nat)
    requires current != []
    ensures Pack([], current, max) == [Packed(current)] + Pack([], [], max)
  {}

  lemma PackSplitFirst(p: string, rest: seq<string>, max: nat)
    requires |p| > max
    ensures Pack([p] + rest, [], max) == [Split(p)] + Pack(rest, [], max)
  {}

  lemma ContinuesFirst(plan: seq<Segment>, current: seq<string>)
    requires Continues(plan, current) && current != []
    ensures plan != []
  {}

  lemma ContinuesNothing(plan: seq<Segment>)
    ensures Continues(plan, [])
  {}

  lemma {:induction false} GreedyIsTight(paras: seq<string>, current: seq<string>, max: nat)
    requires |Concat(current)| <= max
    ensures Tight(Pack(paras, current, max), max) && Continues(Pack(paras, current, max), current)
    decreases |paras|, |current|
  {
    hide Concat, IsPlan;
    if paras != [] {
      var p, rest := paras[0], paras[1..];
      NothingPacked();
      if current != [] && |Concat(current)| + |p| > max {
        PackCloses(paras, current, max);
        GreedyIsTight(paras, [], max);
        FirstOfPack(paras, max);
        TightCons(Packed(current), Pack(paras, [], max), max);
      } else if |p| > max {
        assert paras == [p] + rest;
        PackSplitFirst(p, rest, max);
        GreedyIsTight(rest, [], max);
        TightCons(Split(p), Pack(rest, [], max), max);
      } else {
        assert paras == [p] + rest;
        ConcatSnoc(current, p);
        PackJoins(rest, p, current, max);
        GreedyIsTight(rest, current + [p], max);
      }
    }
  }

  lemma TightCons(seg: Segment, plan: seq<Segment>, max: nat)
    requires Tight(plan, max)
    requires seg.Packed? && plan != [] && Covered(plan[0]) != [] ==> |Concat(seg.paras)| + |Covered(plan[0])[0]| > max
    ensures Tight([seg] + plan, max)
  {
    var all := [seg] + plan;
    forall i | 0 < i < |all| && all[i - 1].Packed? && Covered(all[i]) != []
      ensures |Concat(all[i - 1].paras)| + |Covered(all[i])[0]| > max
    {
      assert all[i] == plan[i - 1];
      if i > 1 { assert all[i - 1] == plan[i - 1 - 1]; }
    }
  }

  lemma FirstOfPack(paras: seq<string>, max: nat)
    requires paras != []
    ensures var plan := Pack(paras, [], max); plan != [] && Covered(plan[0]) != [] && Covered(plan[0])[0] == paras[0]
  {
    NothingPacked();
    PackIsPlan(paras, [], max);
    assert [] + paras == paras;
    PlanTail(Pack(paras, [], max), paras, max);
  }

  // ---------------------------------------------------------- what the chunks hold

  function NonNewlines(s: string): string {
    if s == "" then "" else (if s[0] == '\n' then "" else [s[0]]) + NonNewlines(s[1..])
  }

  lemma {:induction false} NonNewlinesAppend(a: string, b: string)
    ensures NonNewlines(a + b) == NonNewlines(a) + NonNewlines(b)
  {
    if a == "" {
      assert a + b == b;
    } else {
      assert (a + b)[1..] == a[1..] + b;
      NonNewlinesAppend(a[1..], b);
    }
  }

  lemma {:induction false} SpacingAddsNewlines(paras: seq<string>)
    ensures NonNewlines(Spaced(paras)) == NonNewlines(Concat(paras))
  {
    if paras != [] {
      SpacingAddsNewlines(paras[1..]);
      NonNewlinesAppend(paras[0] + "\n", Spaced(paras[1..]));
      NonNewlinesAppend(paras[0], "\n");
      NonNewlinesAppend(paras[0], Concat(paras[1..]));
      assert NonNewlines("\n") == "";
    }
  }

  /** The chunks of a plan with the known overlap inside split paragraphs dropped. */
  function Body(plan: seq<Segment>, max: nat): string
    requires max > 0
  {
    if plan == [] then ""
    else Rebuild(Render(plan[0], max), Shared(max, max / 5)) + Body(plan[1..], max)
  }

  lemma RenderKeepsSegment(seg: Segment, max: nat)
    requires max > 0 && Allowed(seg, max) && (seg.Split? ==> |seg.para| <= MAX_STRING)
    ensures Rebuild(Render(seg, max), Shared(max, max / 5)) == Concat(Covered(seg))
    ensures forall i :: 0 <= i < |Render(seg, max)| ==> |Render(seg, max)[i]| <= max + 1
    ensures (forall i :: 0 <= i < |Covered(seg)| ==> Covered(seg)[i] != "") ==>
              forall i :: 0 <= i < |Render(seg, max)| ==> Render(seg, max)[i] != ""
  {
    match seg
    case Packed(ps) =>
      assert Rebuild([Concat(ps)], Shared(max, max / 5)) == Concat(ps);
      FirstFits(ps);
    case Split(p) =>
      PiecesRebuild(p, max, max / 5);
      PiecesShape(p, max, max / 5);
      assert Concat([p]) == p + Concat([]);
  }

  lemma {:induction false} BodyIsParas(plan: seq<Segment>, paras: seq<string>, max: nat)
    requires max > 0 && IsPlan(plan, paras, max)
    requires forall i :: 0 <= i < |paras| ==> 0 < |paras[i]| <= MAX_STRING
    ensures Body(plan, max) == Concat(paras)
    ensures forall i :: 0 <= i < |RenderAll(plan, max)| ==> 0 < |RenderAll(plan, max)[i]| <= max + 1
  {
    hide Render, Rebuild, Shared, IsPlan, Concat;
    if plan == [] {
      EmptyPlan(paras, max);
    } else {
      var c := Covered(plan[0]);
      PlanHead(plan, paras, max);
      BodyIsParas(plan[1..], paras[|c|..], max);
      RenderKeepsSegment(plan[0], max);
      ConcatAppend(c, paras[|c|..]);
      assert c + paras[|c|..] == paras;
    }
  }

  lemma EmptyPlan(paras: seq<string>, max: nat)
    requires IsPlan([], paras, max)
    ensures paras == [] && Concat(paras) == ""
  {}

  lemma PlanHead(plan: seq<Segment>, paras: seq<string>, max: nat)
    requires IsPlan(plan, paras, max) && plan != []
    ensures Allowed(plan[0], max) && Covered(plan[0]) <= paras
    ensures plan[0].Split? ==> plan[0].para in paras
    ensures IsPlan(plan[1..], paras[|Covered(plan[0])|..], max)
  {
    assert plan[0].Split? ==> paras[0] == plan[0].para;
  }

  /** The chunk contents of a text. */
  function ByParagraph(text: string, max: nat): (r: seq<string>)
    requires max > 0
  {
    if text == "" then []
    else if |text| <= max then [text]
    else RenderAll(Greedy(text, max), max)
  }

  function Greedy(text: string, max: nat): seq<Segment> {
    Pack(Paragraphs(Lines(text), ""), [], max)
  }

  lemma {:induction false} SpacedBounds(paras: seq<string>)
    ensures forall i :: 0 <= i < |paras| ==> |paras[i]| < |Spaced(paras)|
  {
    if paras != [] { SpacedBounds(paras[1..]); }
  }

  lemma ParagraphsFit(text: string)
    ensures var ps := Paragraphs(Lines(text), "");
            && (forall i :: 0 <= i < |ps| ==> 0 < |ps[i]| <= |text| + 1 && IsParagraph(ps[i]))
            && NonNewlines(Concat(ps)) == NonNewlines(text)
            && (Spaced(ps) == Closed(text) || Spaced(ps) == Closed(text) + "\n")
  {
    var ps := Paragraphs(Lines(text), "");
    LinesKeepText(text);
    assert "" + Terminated(Lines(text)) == Terminated(Lines(text));
    ParagraphsKeepLines(Lines(text), "");
    ParagraphsAreParagraphs(Lines(text), "");
    SpacedBounds(ps);
    SpacingAddsNewlines(ps);
    NonNewlinesAppend(text, "\n");
    NonNewlinesAppend(Closed(text), "\n");
    assert NonNewlines("\n") == "";
  }

  /** The chunks of a long text, the overlap inside split paragraphs dropped, hold the text
      in order up to newlines; none is empty or longer than the limit plus one; and no
      in-order grouping of the paragraphs within the limit has fewer chunks. */
  lemma ByParagraphKeepsText(text: string, max: nat)
    requires 0 < max < |text| < MAX_STRING
    ensures var paras := Paragraphs(Lines(text), "");
            var plan := Greedy(text, max);
            && IsPlan(plan, paras, max)
            && NonNewlines(Body(plan, max)) == NonNewlines(text)
            && (forall i :: 0 <= i < |ByParagraph(text, max)| ==> 0 < |ByParagraph(text, max)[i]| <= max + 1)
            && (forall other | IsPlan(other, paras, max) ::
                  |ByParagraph(text, max)| <= |RenderAll(other, max)|)
  {
    hide IsPlan, Pack, RenderAll, Paragraphs, Lines, NonNewlines, Concat, Body, IsParagraph, Closed;
    var paras, plan := Paragraphs(Lines(text), ""), Greedy(text, max);
    ParagraphsFit(text);
    NothingPacked();
    PackIsPlan(paras, [], max);
    assert [] + paras == paras;
    BodyIsParas(plan, paras, max);
    forall other | IsPlan(other, paras, max)
      ensures |ByParagraph(text, max)| <= |RenderAll(other, max)|
    {
      PackIsOptimal(paras, [], other, max);
    }
  }

  // ------------------------------------------------------------ chunkByParagraph

  /** `std::getline` on the unread text. */
  method GetLine(unread: string) returns (line: string, rest: string)
    requires unread != ""
    ensures Lines(unread) == [line] + Lines(rest) && |rest| < |unread|
  {
    var newline := Find(unread, "\n", 0);
    if newline.Some? {
      line, rest := unread[..newline.value], unread[newline.value + 1..];
    } else {
      line, rest := unread, "";
    }
  }

  method ReadParagraphs(text: string) returns (paragraphs: seq<string>)
    ensures paragraphs == Paragraphs(Lines(text), "")
  {
    paragraphs := [];
    var unread, currentPara := text, "";
    while unread != ""
      invariant Paragraphs(Lines(text), "") == paragraphs + Paragraphs(Lines(unread), currentPara)
      decreases |unread|
    {
      var line, rest := GetLine(unread);
      assert ([line] + Lines(rest))[1..] == Lines(rest);
      if line == "" && currentPara != "" {
        paragraphs := paragraphs + [currentPara];
        currentPara := "";
      } else {
        currentPara := currentPara + line + "\n";
      }
      unread := rest;
    }
    if currentPara != "" {
      paragraphs := paragraphs + [currentPara];
    }
  }

  lemma LabelAppend(a: seq<string>, b: seq<string>, first: nat, fileId: int, filename: string)
    ensures Label(a + b, first, fileId, filename)
            == Label(a, first, fileId, filename) + Label(b, first + |a|, fileId, filename)
  {}

  /** The chunks of a split paragraph get running indices. */
  method Renumber(sub: seq<Chunk>, ghost contents: seq<string>, first: nat, fileId: int, filename: string)
    returns (chunks: seq<Chunk>)
    requires sub == Label(contents, 0, fileId, filename)
    ensures chunks == Label(contents, first, fileId, filename)
  {
    chunks := [];
    for i := 0 to |sub|
      invariant chunks == Label(contents[..i], first, fileId, filename)
    {
      chunks := chunks + [sub[i].(index := first + i)];
    }
    assert contents[..|sub|] == contents;
  }

  method SplitParagraph(para: string, sourceFile: string, fileId: int, max: nat, first: nat)
    returns (chunks: seq<Chunk>)
    requires max > 0 && |para| <= MAX_STRING
    ensures chunks == Label(Render(Split(para), max), first, fileId, sourceFile)
  {
    hide Label, Pieces, LoopPieces, Halts;
    if |para| > max { LoopIsPieces(para, max, max / 5); }
    chunks := ChunkBySize(para, sourceFile, fileId, max, max / 5);
    chunks := Renumber(chunks, Render(Split(para), max), first, fileId, sourceFile);
  }

  /** What one paragraph does to the packing: close the chunk it would overflow, then be cut
      up if it is over-long, or else join the open chunk. */
  lemma PackStep(paras: seq<string>, current: seq<string>, max: nat)
    requires paras != [] && (|paras[0]| > max && current != [] ==> |Concat(current)| + |paras[0]| > max)
    ensures var p, rest := paras[0], paras[1..];
            var full := current != [] && |Concat(current)| + |p| > max;
            var closed := if full then [Packed(current)] else [];
            var open := if full then [] else current;
            Pack(paras, current, max)
            == if |p| > max then closed + ([Split(p)] + Pack(rest, [], max)) else closed + Pack(rest, open + [p], max)
  {
    var p, rest := paras[0], paras[1..];
    assert [] + [p] == [p];
    assert [] + Pack(rest, current + [p], max) == Pack(rest, current + [p], max);
    assert Flush(current) + [Split(p)] + Pack(rest, [], max) == Flush(current) + ([Split(p)] + Pack(rest, [], max));
  }

  /** The same, seen from the loop: what is done and what is still to come. */
  lemma PackTurn(paragraphs: seq<string>, i: nat, done: seq<Segment>, current: seq<string>, max: nat)
    requires i < |paragraphs| && (|paragraphs[i]| > max && current != [] ==> |Concat(current)| + |paragraphs[i]| > max)
    ensures var p, next := paragraphs[i], paragraphs[i + 1..];
            var full := current != [] && |Concat(current)| + |p| > max;
            var done' := if full then done + [Packed(current)] else done;
            done + Pack(paragraphs[i..], current, max)
            == if |p| > max then done' + [Split(p)] + Pack(next, [], max)
               else done' + Pack(next, (if full then [] else current) + [p], max)
  {
    hide Pack, Concat;
    var p, next := paragraphs[i], paragraphs[i + 1..];
    assert paragraphs[i..][0] == p && paragraphs[i..][1..] == next;
    PackStep(paragraphs[i..], current, max);
    hide *;
    Regroup(done, Packed(current), Split(p), Pack(next, [], max));
    Regroup(done, Packed(current), Split(p), Pack(next, current + [p], max));
    Regroup(done, Packed(current), Split(p), Pack(next, [] + [p], max));
  }

  lemma Regroup(done: seq<Segment>, a: Segment, b: Segment, rest: seq<Segment>)
    ensures done + ([] + rest) == done + rest
    ensures done + ([a] + rest) == done + [a] + rest
    ensures done + ([] + ([b] + rest)) == done + [b] + rest
    ensures done + ([a] + ([b] + rest)) == done + [a] + [b] + rest
  {}

  /** `chunks` is the output for the segments `done`. */
  ghost predicate Emitted(chunks: seq<Chunk>, done: seq<Segment>, max: nat, fileId: int, filename: string)
    requires max > 0
  {
    chunks == Label(RenderAll(done, max), 0, fileId, filename)
  }

  lemma EmitSegment(chunks: seq<Chunk>, done: seq<Segment>, seg: Segment, max: nat, fileId: int, filename: string)
    requires max > 0 && Emitted(chunks, done, max, fileId, filename)
    ensures Emitted(chunks + Label(Render(seg, max), |chunks|, fileId, filename), done + [seg], max, fileId, filename)
  {
    hide Render, Label;
    RenderAppend(done, [seg], max);
    assert RenderAll([seg], max) == Render(seg, max) + RenderAll([], max) == Render(seg, max);
    LabelAppend(RenderAll(done, max), Render(seg, max), 0, fileId, filename);
  }

  lemma EmitPacked(chunks: seq<Chunk>, done: seq<Segment>, current: seq<string>, max: nat,
                   fileId: int, filename: string)
    requires max > 0 && Emitted(chunks, done, max, fileId, filename)
    ensures Emitted(chunks + [Chunk(Concat(current), |chunks|, fileId, filename)], done + [Packed(current)],
                    max, fileId, filename)
  {
    EmitSegment(chunks, done, Packed(current), max, fileId, filename);
    hide Concat, Emitted;
    assert Label([Concat(current)], |chunks|, fileId, filename) == [Chunk(Concat(current), |chunks|, fileId, filename)];
  }

  lemma NothingDone(paragraphs: seq<string>, fileId: int, filename: string, max: nat)
    requires max > 0
    ensures [] + Pack(paragraphs[0..], [], max) == Pack(paragraphs, [], max)
    ensures Emitted([], [], max, fileId, filename)
  {
    assert paragraphs[0..] == paragraphs;
  }

  lemma PackEnd(done: seq<Segment>, current: seq<string>, max: nat)
    ensures done + Pack([], current, max) == if current == [] then done else done + [Packed(current)]
  {}

  method PackParagraphs(paragraphs: seq<string>, sourceFile: string, fileId: int, max: nat)
    returns (chunks: seq<Chunk>)
    requires max > 0
    requires forall i :: 0 <= i < |paragraphs| ==> 0 < |paragraphs[i]| <= MAX_STRING
    ensures chunks == Label(RenderAll(Pack(paragraphs, [], max), max), 0, fileId, sourceFile)
  {
    hide Pack, Emitted, Label, Render, RenderAll, Concat;
    chunks := [];
    var idx, currentChunk := 0, "";
    ghost var current: seq<string>, done: seq<Segment> := [], [];
    ghost var all := Pack(paragraphs, [], max);
    NothingPacked();
    NothingDone(paragraphs, fileId, sourceFile, max);
    for i := 0 to |paragraphs|
      invariant done + Pack(paragraphs[i..], current, max) == all
      invariant currentChunk == Concat(current) && |currentChunk| <= max
      invariant current != [] <==> currentChunk != ""
      invariant Emitted(chunks, done, max, fileId, sourceFile) && idx == |chunks|
    {
      var para := paragraphs[i];
      PackTurn(paragraphs, i, done, current, max);
      if |currentChunk| + |para| > max && currentChunk != "" {
        EmitPacked(chunks, done, current, max, fileId, sourceFile);
        chunks := chunks + [Chunk(currentChunk, idx, fileId, sourceFile)];
        idx := idx + 1;
        currentChunk := "";
        done, current := done + [Packed(current)], [];
      }
      if |para| > max {
        EmitSegment(chunks, done, Split(para), max, fileId, sourceFile);
        var sub := SplitParagraph(para, sourceFile, fileId, max, idx);
        chunks := chunks + sub;
        idx := idx + |sub|;
        done := done + [Split(para)];
      } else {
        ConcatSnoc(current, para);
        currentChunk := currentChunk + para;
        current := current + [para];
      }
    }
    assert paragraphs[|paragraphs|..] == [];
    PackEnd(done, current, max);
    if currentChunk != "" {
      EmitPacked(chunks, done, current, max, fileId, sourceFile);
      chunks := chunks + [Chunk(currentChunk, idx, fileId, sourceFile)];
      done := done + [Packed(current)];
    }
    WhatWasEmitted(chunks, done, max, fileId, sourceFile);
  }

  lemma WhatWasEmitted(chunks: seq<Chunk>, done: seq<Segment>, max: nat, fileId: int, filename: string)
    requires max > 0 && Emitted(chunks, done, max, fileId, filename)
    ensures chunks == Label(RenderAll(done, max), 0, fileId, filename)
  {}

  method ChunkByParagraph(text: string, sourceFile: string, fileId: int, maxChunkSize: nat)
    returns (chunks: seq<Chunk>)
    requires |text| < MAX_STRING
    ensures var contents := ByParagraph(text, if maxChunkSize == 0 then 2000 else maxChunkSize);
            && |chunks| == |contents|
            && forall i :: 0 <= i < |chunks| ==> chunks[i] == Chunk(contents[i], i, fileId, sourceFile)
    ensures var max := if maxChunkSize == 0 then 2000 else maxChunkSize;
            && (text == "" ==> chunks == [])
            && (0 < |text| <= max ==> chunks == [Chunk(text, 0, fileId, sourceFile)])
            && (|text| > max ==> chunks != [])
            && forall i :: 0 <= i < |chunks| ==> 0 < |chunks[i].content| <= max + 1
  {
    if text == "" {
      return [];
    }
    var max := maxChunkSize;
    if max == 0 {
      max := 2000;
    }
    if |text| <= max {
      return [Chunk(text, 0, fileId, sourceFile)];
    }
    var paragraphs := ReadParagraphs(text);
    ParagraphsFit(text);
    chunks := PackParagraphs(paragraphs, sourceFile, fileId, max);
    LabelFields(ByParagraph(text, max), 0, fileId, sourceFile);
    ByParagraphKeepsText(text, max);
    LongTextHasChunks(text, max);
  }

  lemma LongTextHasChunks(text: string, max: nat)
    requires 0 < max < |text| < MAX_STRING
    ensures ByParagraph(text, max) != []
  {
    var paras := Paragraphs(Lines(text), "");
    ParagraphsFit(text);
    NothingPacked();
    PackIsPlan(paras, [], max);
    assert [] + paras == paras;
    hide Lines, Paragraphs, Concat;
    assert paras != [];
    PlanTail(Greedy(text, max), paras, max);
    PlanHead(Greedy(text, max), paras, max);
    RenderSomething(Greedy(text, max)[0], max);
  }

  lemma RenderSomething(seg: Segment, max: nat)
    requires max > 0 && Allowed(seg, max) && (seg.Split? ==> |seg.para| <= MAX_STRING)
    ensures Render(seg, max) != []
  {
    if seg.Split? { PiecesShape(seg.para, max, max / 5); }
  }
}
