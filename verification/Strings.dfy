/** The std::string operations the server relies on: find, rfind and what they find in
    concatenations. Characters stand for bytes. */
module Strings {
  datatype Option<+T> = None | Some(value: T)

  function Min(a: nat, b: nat): nat { if a < b then a else b }

  predicate IsSpace(c: char) { c == ' ' || '\t' <= c <= '\r' }

  /** `std::isspace`: space, tab, line feed, vertical tab, form feed, carriage return. */
  lemma SpaceCharacters(c: char)
    ensures IsSpace(c) <==> c as int in {32, 9, 10, 11, 12, 13}
  {}

  predicate MatchesAt(s: string, pat: string, i: int) {
    0 <= i && i + |pat| <= |s| && s[i..i + |pat|] == pat
  }

  /** `s.find(pat, from)`: the first occurrence at or after `from`. */
  function Find(s: string, pat: string, from: nat): (r: Option<nat>)
    ensures r.Some? ==>
              && from <= r.value
              && MatchesAt(s, pat, r.value)
              && forall j :: from <= j < r.value ==> !MatchesAt(s, pat, j)
    ensures r.None? ==> forall j :: from <= j ==> !MatchesAt(s, pat, j)
    decreases |s| - from
  {
    if from + |pat| > |s| then None
    else if MatchesAt(s, pat, from) then Some(from)
    else Find(s, pat, from + 1)
  }

  /** The position `Find` returns is determined by being the first match. */
  lemma FindIsFirst(s: string, pat: string, from: nat, k: nat)
    requires from <= k && MatchesAt(s, pat, k)
    requires forall j :: from <= j < k ==> !MatchesAt(s, pat, j)
    ensures Find(s, pat, from) == Some(k)
  {
    var r := Find(s, pat, from);
    assert r.Some?;
  }

  /** Matches are judged character by character. */
  lemma MatchIsPointwise(s: string, pat: string, i: nat)
    ensures MatchesAt(s, pat, i) <==>
            i + |pat| <= |s| && forall k :: 0 <= k < |pat| ==> s[i + k] == pat[k]
  {
    if i + |pat| <= |s| {
      var w := s[i..i + |pat|];
      assert forall k :: 0 <= k < |pat| ==> w[k] == s[i + k];
    }
  }

  lemma MatchOne(s: string, c: char, i: nat)
    ensures MatchesAt(s, [c], i) <==> i < |s| && s[i] == c
  {
    if i < |s| { assert s[i..i + 1] == [s[i]]; }
  }

  /** Whether a match lies at `i` depends only on the text from `i` on. */
  lemma MatchShift(pre: string, s: string, pat: string, i: int)
    requires i >= 0
    ensures MatchesAt(pre + s, pat, |pre| + i) <==> MatchesAt(s, pat, i)
  {
    if i + |pat| <= |s| {
      assert (pre + s)[|pre| + i..|pre| + i + |pat|] == s[i..i + |pat|];
    }
  }

  lemma FindShift(pre: string, s: string, pat: string, from: nat)
    ensures Find(pre + s, pat, |pre| + from) ==
            match Find(s, pat, from) case None => None case Some(k) => Some(|pre| + k)
    decreases |s| - from
  {
    if from + |pat| <= |s| {
      MatchShift(pre, s, pat, from);
      if !MatchesAt(s, pat, from) { FindShift(pre, s, pat, from + 1); }
    }
  }

  /** What follows the first match does not change it. */
  lemma FindExtend(s: string, t: string, pat: string, from: nat)
    requires Find(s, pat, from).Some?
    ensures Find(s + t, pat, from) == Find(s, pat, from)
  {
    var k := Find(s, pat, from).value;
    forall j: nat | j <= k ensures MatchesAt(s + t, pat, j) <==> MatchesAt(s, pat, j) {
      assert (s + t)[j..j + |pat|] == s[j..j + |pat|];
    }
    FindIsFirst(s + t, pat, from, k);
  }

  /** A pattern whose first character does not recur in it is first found where it was
      written, when the text before does not contain it. */
  lemma FindWritten(s: string, pat: string, t: string)
    requires !Contains(s, pat) && pat != ""
    requires forall i :: 0 < i < |pat| ==> pat[i] != pat[0]
    ensures Find(s + pat + t, pat, 0) == Some(|s|)
  {
    var all := s + pat + t;
    assert all[|s|..|s| + |pat|] == pat;
    forall j: nat | j < |s| ensures !MatchesAt(all, pat, j) {
      NoEarlierMatch(s, pat, t, j);
    }
    FindIsFirst(all, pat, 0, |s|);
  }

  lemma FindWrittenAfter(lead: string, s: string, pat: string, t: string)
    requires !Contains(s, pat) && pat != ""
    requires forall i :: 0 < i < |pat| ==> pat[i] != pat[0]
    ensures Find(lead + (s + pat + t), pat, |lead|) == Some(|lead| + |s|)
  {
    hide Find, MatchesAt, Contains;
    FindWritten(s, pat, t);
    FindShift(lead, s + pat + t, pat, 0);
  }

  lemma FindPastAfter(lead: string, s: string, pat: string, t: string)
    requires pat != "" && Lacks(s, pat[0])
    ensures Find(lead + (s + (pat + t)), pat, |lead|) == Some(|lead| + |s|)
  {
    hide Find, MatchesAt, Lacks;
    FindPast(s, pat, t);
    FindShift(lead, s + (pat + t), pat, 0);
  }

  /** A text that continues with another character does not match a longer pattern. */
  lemma MismatchAfter(lead: string, s: string, pat: string, t: string)
    requires t != "" && pat != "" && t[0] != pat[0]
    ensures !MatchesAt(lead + (s + t), s + pat, |lead|)
  {
    MatchShift(lead, s + t, s + pat, 0);
    MatchIsPointwise(s + t, s + pat, 0);
    assert (s + pat)[|s|] == pat[0] && (s + t)[0 + |s|] == t[0];
  }

  lemma NoEarlierMatch(s: string, pat: string, t: string, j: nat)
    requires !Contains(s, pat) && pat != "" && j < |s|
    requires forall i :: 0 < i < |pat| ==> pat[i] != pat[0]
    ensures !MatchesAt(s + pat + t, pat, j)
  {
    var all := s + pat + t;
    if j + |pat| <= |s| {
      assert all[j..j + |pat|] == s[j..j + |pat|];
      assert !MatchesAt(s, pat, j);
    } else {
      assert all[j..j + |pat|][|s| - j] == all[|s|] == pat[0];
    }
  }

  /** Text without the first character of the pattern is skipped. */
  lemma FindPast(s: string, pat: string, t: string)
    requires pat != "" && Lacks(s, pat[0])
    ensures Find(s + (pat + t), pat, 0) == Some(|s|)
  {
    var all := s + (pat + t);
    assert all[|s|..|s| + |pat|] == pat;
    forall j: nat | j < |s| ensures !MatchesAt(all, pat, j) {
      assert all[j] == s[j];
      if j + |pat| <= |all| { assert all[j..j + |pat|][0] == s[j]; }
    }
    FindIsFirst(all, pat, 0, |s|);
  }

  predicate Lacks(s: string, c: char) { forall j :: 0 <= j < |s| ==> s[j] != c }

  /** Searching for a single character. */
  lemma FindChar(s: string, c: char, from: nat)
    ensures match Find(s, [c], from)
            case Some(k) => from <= k < |s| && s[k] == c && forall j :: from <= j < k ==> s[j] != c
            case None => forall j :: from <= j < |s| ==> s[j] != c
  {
    forall j: nat ensures MatchesAt(s, [c], j) <==> j < |s| && s[j] == c {
      MatchOne(s, c, j);
    }
    hide MatchesAt;
  }

  lemma SplitAround(s: string, k: nat)
    requires k < |s|
    ensures s == s[..k] + [s[k]] + s[k + 1..]
  {}

  lemma SliceMiddle(a: string, b: string, c: string)
    ensures (a + (b + c))[|a|..|a| + |b|] == b
  {}

  lemma MatchAfter(lead: string, pat: string, rest: string)
    ensures MatchesAt(lead + pat + rest, pat, |lead|)
  {
    assert (lead + pat + rest)[|lead|..|lead| + |pat|] == pat;
  }

  predicate Contains(s: string, pat: string) {
    Find(s, pat, 0).Some?
  }

  lemma NotFound(s: string, pat: string)
    requires !Contains(s, pat)
    ensures Find(s, pat, 0) == None
  {}

  /** `s.rfind(c, limit)`: the last occurrence at or before `limit`. */
  function RFind(s: string, c: char, limit: int): (r: Option<nat>)
    ensures r.Some? ==>
              && r.value <= limit
              && r.value < |s|
              && s[r.value] == c
              && forall j :: r.value < j <= limit && j < |s| ==> s[j] != c
    ensures r.None? ==> forall j :: 0 <= j <= limit && j < |s| ==> s[j] != c
    decreases limit + 1
  {
    if limit < 0 then None
    else if limit < |s| && s[limit] == c then Some(limit)
    else RFind(s, c, limit - 1)
  }

  function Concat(parts: seq<string>): string {
    if parts == [] then "" else parts[0] + Concat(parts[1..])
  }

  lemma {:induction false} ConcatAppend(a: seq<string>, b: seq<string>)
    ensures Concat(a + b) == Concat(a) + Concat(b)
  {
    if a == [] {
      assert a + b == b;
    } else {
      assert (a + b)[1..] == a[1..] + b;
      ConcatAppend(a[1..], b);
    }
  }

  lemma ConcatSnoc(a: seq<string>, x: string)
    ensures Concat(a + [x]) == Concat(a) + x
  {
    ConcatAppend(a, [x]);
    assert Concat([x]) == x + Concat([]);
  }

  /** The first quote after an opening one closes the quoted text, or an earlier quote
      inside the text does. */
  lemma ClosingQuote(lead: string, quoted: string, after: string)
    ensures var f := Find(lead + (quoted + ("\"" + after)), "\"", |lead|);
            && f.Some? && |lead| <= f.value <= |lead| + |quoted|
            && (f.value == |lead| + |quoted| <==> Lacks(quoted, '"'))
            && Lacks(quoted[..f.value - |lead|], '"')
            && (f.value < |lead| + |quoted| ==> quoted[f.value - |lead|] == '"')
  {
    hide Find, MatchesAt, Lacks;
    FindShift(lead, quoted + ("\"" + after), "\"", 0);
    FirstQuote(quoted, after);
  }

  /** The text before the first quote, or all of it. */
  predicate UpToQuote(read: string, text: string) {
    && read <= text && Lacks(read, '"')
    && (read == text <==> Lacks(text, '"')) && (read != text ==> text[|read|] == '"')
  }

  /** Reading up to the next quote. */
  lemma QuotedText(lead: string, quoted: string, after: string)
    ensures var s := lead + (quoted + ("\"" + after));
            var f := Find(s, "\"", |lead|);
            f.Some? && |lead| <= f.value <= |s| && UpToQuote(s[|lead|..f.value], quoted)
  {
    hide Find, MatchesAt, Lacks;
    ClosingQuote(lead, quoted, after);
    var s := lead + (quoted + ("\"" + after));
    var n := Find(s, "\"", |lead|).value - |lead|;
    assert s[|lead|..|lead| + n] == quoted[..n];
  }

  lemma FirstQuote(quoted: string, after: string)
    ensures var f := Find(quoted + ("\"" + after), "\"", 0);
            && f.Some? && f.value <= |quoted|
            && (f.value == |quoted| <==> Lacks(quoted, '"'))
            && Lacks(quoted[..f.value], '"')
            && (f.value < |quoted| ==> quoted[f.value] == '"')
  {
    assert "\"" == ['"'];
    var rest := quoted + ("\"" + after);
    FindChar(rest, '"', 0);
    assert rest[|quoted|] == '"';
    assert forall j :: 0 <= j < |quoted| ==> rest[j] == quoted[j];
  }

  /** Text in which no match begins is skipped. */
  lemma {:induction false} FindSkip(lead: string, s: string, pat: string, from: nat)
    requires from <= |lead|
    requires forall j: nat :: from <= j < |lead| ==> !MatchesAt(lead + s, pat, j)
    ensures Find(lead + s, pat, from) == Find(lead + s, pat, |lead|)
    decreases |lead| - from
  {
    if from < |lead| {
      assert !MatchesAt(lead + s, pat, from);
      FindSkip(lead, s, pat, from + 1);
    }
  }

  /** A longer pattern that matches where the shorter one is first found is found there. */
  lemma FindLonger(s: string, pat: string, ext: string, from: nat)
    requires Find(s, pat, from).Some? && MatchesAt(s, pat + ext, Find(s, pat, from).value)
    ensures Find(s, pat + ext, from) == Find(s, pat, from)
  {
    var p := Find(s, pat, from).value;
    forall j: nat | from <= j < p ensures !MatchesAt(s, pat + ext, j) {
      assert !MatchesAt(s, pat, j);
      MatchIsPointwise(s, pat, j);
      MatchIsPointwise(s, pat + ext, j);
      assert forall k :: 0 <= k < |pat| ==> (pat + ext)[k] == pat[k];
    }
    FindIsFirst(s, pat + ext, from, p);
  }
}
