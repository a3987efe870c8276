/** src/server/FastCgiServer.cpp: the multipart/form-data parser, against an encoder for
    section 5.1.1 of RFC 2046 (the multipart body syntax RFC 7578 uses). */
module Multipart {
  import opened Strings

  datatype MultipartFile = MultipartFile(filename: string, contentType: string, content: string)

  const CRLF := "\r\n"
  const BLANK := "\r\n\r\n"
  const NAME_KEY := "filename=\""
  const TYPE_KEY := "Content-Type:"

  function Delimiter(boundary: string): string { "--" + boundary }

  // ------------------------------------------------------------------- one part

  function StripCrlf(content: string): string {
    if |content| >= 2 && content[|content| - 2..] == CRLF then content[..|content| - 2] else content
  }

  predicate EndsWithCrlf(content: string) {
    |content| >= 2 && content[|content| - 2] == '\r' && content[|content| - 1] == '\n'
  }

  /** The quoted text after the first `filename="`. */
  function FilenameOf(headers: string): string {
    match Find(headers, "filename=\"", 0)
    case None => ""
    case Some(p) =>
      match Find(headers, "\"", p + 10)
      case None => ""
      case Some(q) => headers[p + 10..q]
  }

  function SkipSpaces(s: string, i: nat): (r: nat)
    requires i <= |s|
    ensures i <= r <= |s| && (r < |s| ==> s[r] != ' ') && forall j :: i <= j < r ==> s[j] == ' '
    decreases |s| - i
  {
    if i < |s| && s[i] == ' ' then SkipSpaces(s, i + 1) else i
  }

  /** The rest of the line after the first `Content-Type:`; lost when no line follows. */
  function ContentTypeOf(headers: string): string {
    match Find(headers, "Content-Type:", 0)
    case None => ""
    case Some(p) =>
      var from := SkipSpaces(headers, p + 13);
      match Find(headers, CRLF, from)
      case None => ""
      case Some(q) => headers[from..q]
  }

  function ParsePart(part: string): Option<MultipartFile> {
    match Find(part, BLANK, 0)
    case None => None
    case Some(h) =>
      var headers := part[..h];
      Some(MultipartFile(FilenameOf(headers), ContentTypeOf(headers), StripCrlf(part[h + 4..])))
  }

  // ------------------------------------------------------------------- the body

  /** Where the part after the delimiter at or after `pos` lies; None when there is none. */
  function NextPart(body: string, delim: string, pos: nat): (r: Option<(nat, nat)>)
    ensures r.Some? ==> pos < r.value.0 <= r.value.1 <= |body|
  {
    match Find(body, delim, pos)
    case None => None
    case Some(at) =>
      if MatchesAt(body, delim + "--", at) then None
      else match Find(body, CRLF, at)
        case None => None
        case Some(eol) =>
          var start := eol + 2;
          var end := match Find(body, CRLF + delim, start)
            case Some(e) => e
            case None =>
              match Find(body, delim + "--", start)
              case Some(e) => e
              case None => |body|;
          Some((start, end))
  }

  /** The files found from `pos` on; `pos` strictly grows, so every body is finished. */
  function ParseFrom(body: string, delim: string, pos: nat): (r: seq<MultipartFile>)
    decreases |body| - pos
  {
    match NextPart(body, delim, pos)
    case None => []
    case Some((start, end)) =>
      match ParsePart(body[start..end])
      case None => ParseFrom(body, delim, end)
      case Some(file) => [file] + ParseFrom(body, delim, end)
  }

  /** A part from `start` on ends before the first delimiter line; without one, before the first
      closing delimiter; without either, with the body. */
  predicate EndsPart(body: string, delim: string, start: nat, end: nat) {
    var line, close := CRLF + delim, delim + "--";
    || Find(body, line, start) == Some(end)
    || (Find(body, line, start) == None && Find(body, close, start) == Some(end))
    || (Find(body, line, start) == None && Find(body, close, start) == None && end == |body|)
  }

  method LocatePart(body: string, delim: string, pos: nat) returns (part: Option<(nat, nat)>)
    ensures part == NextPart(body, delim, pos)
    ensures Find(body, delim, pos).None? ==> part.None?
    ensures Find(body, delim, pos).Some? ==>
              var at := Find(body, delim, pos).value;
              && (part.None? <==> MatchesAt(body, delim + "--", at) || Find(body, CRLF, at).None?)
              && (part.Some? ==>
                    var (start, end) := part.value;
                    && MatchesAt(body, CRLF, start - 2)
                    && Find(body, CRLF, at) == Some(start - 2)
                    && EndsPart(body, delim, start, end))
  {
    hide MatchesAt;
    var found := Find(body, delim, pos);
    if found.None? {
      return None;
    }
    var start := found.value;
    if MatchesAt(body, delim + "--", start) {
      return None;
    }
    found := Find(body, CRLF, start);
    if found.None? {
      return None;
    }
    start := found.value + 2;
    var end := |body|;
    found := Find(body, CRLF + delim, start);
    if found.Some? {
      end := found.value;
    } else {
      found := Find(body, delim + "--", start);
      if found.Some? {
        end := found.value;
      }
    }
    part := Some((start, end));
  }

  method ReadFilename(headers: string) returns (filename: string)
    ensures filename == FilenameOf(headers)
  {
    filename := "";
    var name := Find(headers, "filename=\"", 0);
    if name.Some? {
      var close := Find(headers, "\"", name.value + 10);
      if close.Some? {
        filename := headers[name.value + 10..close.value];
      }
    }
  }

  method ReadContentType(headers: string) returns (contentType: string)
    ensures contentType == ContentTypeOf(headers)
  {
    contentType := "";
    var ct := Find(headers, "Content-Type:", 0);
    if ct.Some? {
      var from := ct.value + 13;
      while from < |headers| && headers[from] == ' '
        invariant ct.value + 13 <= from <= |headers|
        invariant SkipSpaces(headers, ct.value + 13) == SkipSpaces(headers, from)
      {
        from := from + 1;
      }
      var eol := Find(headers, CRLF, from);
      if eol.Some? {
        contentType := headers[from..eol.value];
      }
    }
  }

  method ReadPart(part: string) returns (file: Option<MultipartFile>)
    ensures file == ParsePart(part)
    ensures file.None? <==> !Contains(part, BLANK)
    ensures forall h :: Find(part, BLANK, 0) == Some(h) ==>
              && file.value.filename == FilenameOf(part[..h])
              && file.value.contentType == ContentTypeOf(part[..h])
              && part[h + 4..] == file.value.content + if EndsWithCrlf(part[h + 4..]) then CRLF else ""
  {
    hide FilenameOf, ContentTypeOf;
    var headerEnd := Find(part, BLANK, 0);
    if headerEnd.None? {
      return None;
    }
    var headers := part[..headerEnd.value];
    var content := part[headerEnd.value + 4..];
    if |content| >= 2 && content[|content| - 2..] == CRLF {
      content := content[..|content| - 2];
    }
    var filename := ReadFilename(headers);
    var contentType := ReadContentType(headers);
    StripCrlfExactly(part[headerEnd.value + 4..]);
    file := Some(MultipartFile(filename, contentType, content));
  }

  method ParseMultipartFormData(body: string, boundary: string) returns (files: seq<MultipartFile>)
    ensures files == ParseFrom(body, Delimiter(boundary), 0)
  {
    hide NextPart, ParsePart;
    files := [];
    var delim := "--" + boundary;
    var pos := 0;
    while true
      invariant ParseFrom(body, delim, 0) == files + ParseFrom(body, delim, pos)
      decreases |body| - pos
    {
      var part := LocatePart(body, delim, pos);
      if part.None? {
        break;
      }
      var (start, end) := part.value;
      var file := ReadPart(body[start..end]);
      if file.Some? {
        files := files + [file.value];
      }
      pos := end;
    }
  }

  // ------------------------------------------------------------------ round trip

  /** A section: what stands between two delimiter lines. */
  function EncodeSection(section: string, boundary: string): string {
    Delimiter(boundary) + CRLF + section + CRLF
  }

  /** The body: every section after a delimiter line, then the closing delimiter. */
  function EncodeSections(sections: seq<string>, boundary: string, epilogue: string): string {
    if sections == [] then Delimiter(boundary) + "--" + epilogue
    else EncodeSection(sections[0], boundary) + EncodeSections(sections[1..], boundary, epilogue)
  }

  /** The delimiter line does not occur inside the section. */
  predicate Inside(section: string, boundary: string) {
    !Contains(section, CRLF + Delimiter(boundary))
  }

  /** The files of the sections that have a blank line, in order. */
  function FilesIn(sections: seq<string>): (r: seq<MultipartFile>) {
    if sections == [] then []
    else
      match ParsePart(sections[0])
      case None => FilesIn(sections[1..])
      case Some(file) => [file] + FilesIn(sections[1..])
  }

  datatype Part = Part(headers: string, content: string)

  function SectionOf(part: Part): string { part.headers + BLANK + part.content }

  function Sections(parts: seq<Part>): (r: seq<string>) {
    seq(|parts|, i requires 0 <= i < |parts| => SectionOf(parts[i]))
  }

  function Encode(parts: seq<Part>, boundary: string, epilogue: string): string {
    EncodeSections(Sections(parts), boundary, epilogue)
  }

  /** The delimiter line does not occur inside the part, and the headers end at their first
      blank line. */
  predicate Separable(part: Part, boundary: string) {
    && Inside(SectionOf(part), boundary)
    && Find(part.headers + BLANK, BLANK, 0) == Some(|part.headers|)
  }

  /** What the parser reports for a part. */
  function Seen(part: Part): MultipartFile {
    MultipartFile(FilenameOf(part.headers), ContentTypeOf(part.headers), StripCrlf(part.content))
  }

  function SeenAll(parts: seq<Part>): (r: seq<MultipartFile>) {
    seq(|parts|, i requires 0 <= i < |parts| => Seen(parts[i]))
  }

  lemma ParsePartSeen(part: Part)
    requires Find(part.headers + BLANK, BLANK, 0) == Some(|part.headers|)
    ensures ParsePart(SectionOf(part)) == Some(Seen(part))
  {
    hide FilenameOf, ContentTypeOf, StripCrlf;
    var all := SectionOf(part);
    FindExtend(part.headers + BLANK, part.content, BLANK, 0);
    assert all[..|part.headers|] == part.headers && all[|part.headers| + 4..] == part.content;
  }

  lemma DelimiterLacksCr(boundary: string)
    requires Lacks(boundary, '\r')
    ensures Lacks(Delimiter(boundary), '\r')
  {}

  /** The end of a delimiter line. */
  lemma LineEnds(lead: string, line: string, rest: string)
    requires Lacks(line, '\r')
    ensures Find(lead + (line + (CRLF + rest)), CRLF, |lead|) == Some(|lead| + |line|)
  {
    FindPastAfter(lead, line, CRLF, rest);
  }

  lemma NotTheClosingDelimiter(lead: string, boundary: string, rest: string)
    ensures !MatchesAt(lead + (Delimiter(boundary) + (CRLF + rest)), Delimiter(boundary) + "--", |lead|)
  {
    hide MatchesAt, Delimiter;
    var t := CRLF + rest;
    assert t[0] == '\r';
    MismatchAfter(lead, Delimiter(boundary), "--", t);
  }

  lemma NeedleHasOneCr(boundary: string)
    requires Lacks(boundary, '\r')
    ensures var needle := CRLF + Delimiter(boundary);
            needle[0] == '\r' && forall i :: 0 < i < |needle| ==> needle[i] != needle[0]
  {
    DelimiterLacksCr(boundary);
  }

  /** The next delimiter after a part is the one written after it. */
  lemma PartEnds(lead: string, inner: string, boundary: string, rest: string)
    requires Lacks(boundary, '\r') && !Contains(inner, CRLF + Delimiter(boundary))
    ensures Find(lead + (inner + (CRLF + Delimiter(boundary)) + rest), CRLF + Delimiter(boundary), |lead|)
            == Some(|lead| + |inner|)
  {
    NeedleHasOneCr(boundary);
    hide *;
    FindWrittenAfter(lead, inner, CRLF + Delimiter(boundary), rest);
  }

  /** Looking for a delimiter from the CRLF before it. */
  lemma DelimiterAfterCrlf(lead: string, rest: string, boundary: string)
    ensures Find(lead + (CRLF + (Delimiter(boundary) + rest)), Delimiter(boundary), |lead|) == Some(|lead| + 2)
  {
    var d := Delimiter(boundary);
    assert d[0] == '-' && Lacks(CRLF, '-');
    hide *;
    FindPastAfter(lead, CRLF, d, rest);
  }

  lemma EncodeStartsWithDelimiter(sections: seq<string>, boundary: string, epilogue: string)
    ensures Delimiter(boundary) <= EncodeSections(sections, boundary, epilogue)
  {}

  /** One encoded section is located exactly. */
  lemma NextPartFound(lead: string, section: string, boundary: string, rest: string, pos: nat)
    requires Lacks(boundary, '\r') && Inside(section, boundary) && Delimiter(boundary) <= rest
    requires Find(lead + (EncodeSection(section, boundary) + rest), Delimiter(boundary), pos) == Some(|lead|)
    ensures var body := lead + (EncodeSection(section, boundary) + rest);
            var start := |lead| + |Delimiter(boundary)| + 2;
            var end := start + |section|;
            && NextPart(body, Delimiter(boundary), pos) == Some((start, end))
            && body[start..end] == section
            && Find(body, Delimiter(boundary), end) == Some(|lead| + |EncodeSection(section, boundary)|)
  {
    hide Find, MatchesAt, Contains, Delimiter, Lacks;
    var d := Delimiter(boundary);
    var body := lead + (EncodeSection(section, boundary) + rest);
    DelimiterLacksCr(boundary);
    LineEnds(lead, d, section + CRLF + rest);
    NotTheClosingDelimiter(lead, boundary, section + CRLF + rest);
    assert body == lead + (d + (CRLF + (section + CRLF + rest)));
    var after := rest[|d|..];
    assert rest == d + after;
    PartEnds(lead + d + CRLF, section, boundary, after);
    assert body == lead + d + CRLF + (section + (CRLF + d) + after);
    DelimiterAfterCrlf(lead + d + CRLF + section, after, boundary);
    assert body == lead + d + CRLF + section + (CRLF + (d + after));
  }

  lemma ClosingDelimiter(lead: string, boundary: string, epilogue: string, pos: nat)
    requires Find(lead + (Delimiter(boundary) + "--" + epilogue), Delimiter(boundary), pos) == Some(|lead|)
    ensures NextPart(lead + (Delimiter(boundary) + "--" + epilogue), Delimiter(boundary), pos) == None
  {
    var close := Delimiter(boundary) + "--";
    assert (close + epilogue)[0..|close|] == close;
    MatchShift(lead, close + epilogue, close, 0);
  }

  lemma {:induction false} ParseEncoded(lead: string, sections: seq<string>, boundary: string,
                                        epilogue: string, pos: nat)
    requires Lacks(boundary, '\r')
    requires forall i :: 0 <= i < |sections| ==> Inside(sections[i], boundary)
    requires Find(lead + EncodeSections(sections, boundary, epilogue), Delimiter(boundary), pos) == Some(|lead|)
    ensures ParseFrom(lead + EncodeSections(sections, boundary, epilogue), Delimiter(boundary), pos)
            == FilesIn(sections)
    decreases |sections|
  {
    hide Find, NextPart, ParsePart, Inside, EncodeSection;
    if sections == [] {
      ClosingDelimiter(lead, boundary, epilogue, pos);
    } else {
      var section, rest := sections[0], EncodeSections(sections[1..], boundary, epilogue);
      EncodeStartsWithDelimiter(sections[1..], boundary, epilogue);
      NextPartFound(lead, section, boundary, rest, pos);
      var lead' := lead + EncodeSection(section, boundary);
      assert lead + (EncodeSection(section, boundary) + rest) == lead' + rest;
      var next := |lead| + |Delimiter(boundary)| + 2 + |section|;
      ParseEncoded(lead', sections[1..], boundary, epilogue, next);
    }
  }

  /** Parsing an encoded body returns the files of its sections in order: preamble and epilogue
      are ignored, and a section without a blank line is passed over, not the end. */
  lemma ParseUndoesSections(preamble: string, sections: seq<string>, boundary: string, epilogue: string)
    requires Lacks(boundary, '\r')
    requires forall i :: 0 <= i < |sections| ==> Inside(sections[i], boundary)
    requires Find(preamble + Delimiter(boundary), Delimiter(boundary), 0) == Some(|preamble|)
    ensures ParseFrom(preamble + EncodeSections(sections, boundary, epilogue), Delimiter(boundary), 0)
            == FilesIn(sections)
  {
    hide Find, ParseFrom, EncodeSections, Contains, Inside, FilesIn, Delimiter, MatchesAt;
    var d, e := Delimiter(boundary), EncodeSections(sections, boundary, epilogue);
    EncodeStartsWithDelimiter(sections, boundary, epilogue);
    assert e == d + e[|d|..];
    assert preamble + d + e[|d|..] == preamble + e;
    FindExtend(preamble + d, e[|d|..], d, 0);
    ParseEncoded(preamble, sections, boundary, epilogue, 0);
  }

  lemma {:induction false} MalformedIsSkipped(before: seq<string>, section: string, after: seq<string>)
    requires !Contains(section, BLANK)
    ensures FilesIn(before + [section] + after) == FilesIn(before + after)
  {
    if before == [] {
      assert [section] + after == before + [section] + after && before + after == after;
    } else {
      hide ParsePart;
      MalformedIsSkipped(before[1..], section, after);
      assert (before + [section] + after)[1..] == before[1..] + [section] + after;
      assert (before + after)[1..] == before[1..] + after;
    }
  }

  lemma {:induction false} FilesAreSeen(parts: seq<Part>, boundary: string)
    requires forall i :: 0 <= i < |parts| ==> Separable(parts[i], boundary)
    ensures FilesIn(Sections(parts)) == SeenAll(parts)
  {
    hide ParsePart, SectionOf, Seen, Find, Inside;
    if parts != [] {
      assert Separable(parts[0], boundary);
      ParsePartSeen(parts[0]);
      hide Separable;
      FilesAreSeen(parts[1..], boundary);
      assert Sections(parts)[1..] == Sections(parts[1..]);
      assert SeenAll(parts) == [Seen(parts[0])] + SeenAll(parts[1..]);
    }
  }

  /** Parsing an encoded list of parts returns them in order. */
  lemma ParseUndoesEncode(preamble: string, parts: seq<Part>, boundary: string, epilogue: string)
    requires Lacks(boundary, '\r')
    requires forall i :: 0 <= i < |parts| ==> Separable(parts[i], boundary)
    requires Find(preamble + Delimiter(boundary), Delimiter(boundary), 0) == Some(|preamble|)
    ensures ParseFrom(preamble + Encode(parts, boundary, epilogue), Delimiter(boundary), 0) == SeenAll(parts)
  {
    hide Find, Inside, EncodeSections, FilesIn, ParseFrom, Delimiter;
    ParseUndoesSections(preamble, Sections(parts), boundary, epilogue);
    FilesAreSeen(parts, boundary);
  }

  /** A body that breaks off inside its last section still yields that section. */
  lemma UnterminatedLast(preamble: string, section: string, boundary: string)
    requires Lacks(boundary, '\r') && Inside(section, boundary) && !Contains(section, Delimiter(boundary) + "--")
    requires Find(preamble + Delimiter(boundary), Delimiter(boundary), 0) == Some(|preamble|)
    ensures var body := preamble + (Delimiter(boundary) + (CRLF + section));
            NextPart(body, Delimiter(boundary), 0) == Some((|body| - |section|, |body|))
  {
    hide Find, MatchesAt, Contains, Delimiter, Lacks;
    var d := Delimiter(boundary);
    var body, lead := preamble + (d + (CRLF + section)), preamble + d + CRLF;
    DelimiterLacksCr(boundary);
    FindExtend(preamble + d, CRLF + section, d, 0);
    assert preamble + d + (CRLF + section) == body == lead + section;
    LineEnds(preamble, d, section);
    NotTheClosingDelimiter(preamble, boundary, section);
    FindShift(lead, section, CRLF + d, 0);
    FindShift(lead, section, d + "--", 0);
    NotFound(section, CRLF + d);
    NotFound(section, d + "--");
  }

  // ---------------------------------------------------------------- the headers

  lemma StripCrlfExactly(content: string)
    ensures StripCrlf(content) == content <==> !EndsWithCrlf(content)
    ensures EndsWithCrlf(content) ==> StripCrlf(content) + CRLF == content
  {
    if |content| >= 2 {
      assert content[|content| - 2..] == [content[|content| - 2], content[|content| - 1]];
    }
  }

  /** The filename is read back exactly when it holds no quote; otherwise it is cut short. */
  lemma FilenameReadExactly(before: string, filename: string, after: string)
    requires !Contains(before, NAME_KEY)
    ensures UpToQuote(FilenameOf(before + NAME_KEY + (filename + ("\"" + after))), filename)
  {
    assert forall i :: 0 < i < |NAME_KEY| ==> NAME_KEY[i] != NAME_KEY[0];
    hide Find, Contains, MatchesAt, UpToQuote;
    FindWritten(before, NAME_KEY, filename + ("\"" + after));
    QuotedText(before + NAME_KEY, filename, after);
  }

  /** Without the key, or without a closing quote after it, there is no filename. */
  lemma NoFilename(headers: string, before: string, rest: string)
    ensures !Contains(headers, NAME_KEY) ==> FilenameOf(headers) == ""
    ensures !Contains(before, NAME_KEY) && Lacks(rest, '"') ==> FilenameOf(before + NAME_KEY + rest) == ""
  {
    if !Contains(before, NAME_KEY) && Lacks(rest, '"') {
      assert forall i :: 0 < i < |NAME_KEY| ==> NAME_KEY[i] != NAME_KEY[0];
      FindWritten(before, NAME_KEY, rest);
      FindShift(before + NAME_KEY, rest, "\"", 0);
      FindChar(rest, '"', 0);
      assert "\"" == ['"'];
    }
  }

  lemma NoContentType(headers: string)
    requires !Contains(headers, TYPE_KEY)
    ensures ContentTypeOf(headers) == ""
  {}

  lemma SkipAllSpaces(lead: string, spaces: string, rest: string)
    requires forall i :: 0 <= i < |spaces| ==> spaces[i] == ' '
    requires rest == "" || rest[0] != ' '
    ensures SkipSpaces(lead + spaces + rest, |lead|) == |lead| + |spaces|
  {
    var all := lead + spaces + rest;
    assert forall j :: |lead| <= j < |lead| + |spaces| ==> all[j] == spaces[j - |lead|];
    assert rest != "" ==> all[|lead| + |spaces|] == rest[0];
  }

  lemma TypeKeyFound(before: string, rest: string)
    requires !Contains(before, TYPE_KEY)
    ensures Find(before + TYPE_KEY + rest, TYPE_KEY, 0) == Some(|before|)
  {
    assert forall i :: 0 < i < |TYPE_KEY| ==> TYPE_KEY[i] != TYPE_KEY[0];
    FindWritten(before, TYPE_KEY, rest);
  }

  lemma CrlfRepeatsNothing()
    ensures forall i :: 0 < i < |CRLF| ==> CRLF[i] != CRLF[0]
  {}

  /** The content type is read back when another header line follows it ... */
  lemma ContentTypeRead(before: string, spaces: string, value: string, after: string)
    requires !Contains(before, TYPE_KEY) && !Contains(value, CRLF)
    requires forall i :: 0 <= i < |spaces| ==> spaces[i] == ' '
    requires value == "" || value[0] != ' '
    ensures ContentTypeOf(before + TYPE_KEY + spaces + (value + CRLF + after)) == value
  {
    var rest := value + CRLF + after;
    hide Find, Contains, MatchesAt, SkipSpaces;
    TypeKeyFound(before, spaces + rest);
    SkipAllSpaces(before + TYPE_KEY, spaces, rest);
    CrlfRepeatsNothing();
    FindWrittenAfter(before + TYPE_KEY + spaces, value, CRLF, after);
    SliceMiddle(before + TYPE_KEY + spaces, value, CRLF + after);
    ContentTypeText(before + TYPE_KEY, spaces, value, after);
  }

  lemma ContentTypeText(lead: string, spaces: string, value: string, after: string)
    ensures lead + spaces + (value + CRLF + after) == lead + (spaces + (value + CRLF + after))
    ensures lead + spaces + (value + CRLF + after) == lead + spaces + (value + (CRLF + after))
  {}

  /** ... and reported as empty when it is the last header. */
  lemma LastContentTypeLost(before: string, value: string)
    requires !Contains(before, TYPE_KEY) && !Contains(value, CRLF)
    ensures ContentTypeOf(before + TYPE_KEY + value) == ""
  {
    TypeKeyFound(before, value);
    var all := before + TYPE_KEY + value;
    var from := SkipSpaces(all, |before| + 13);
    forall j: nat | from <= j ensures !MatchesAt(all, CRLF, j) {
      MatchShift(before + TYPE_KEY, value, CRLF, j - |before + TYPE_KEY|);
      assert !MatchesAt(value, CRLF, j - |before + TYPE_KEY|);
    }
  }

  lemma SpacesHoldNoCrlf(spaces: string, value: string)
    requires forall i :: 0 <= i < |spaces| ==> spaces[i] == ' '
    requires !Contains(value, CRLF)
    ensures !Contains(spaces + value, CRLF)
  {
    forall j: nat ensures !MatchesAt(spaces + value, CRLF, j) {
      if j < |spaces| {
        MatchIsPointwise(spaces + value, CRLF, j);
        assert (spaces + value)[j + 0] == ' ' != CRLF[0];
      } else {
        MatchShift(spaces, value, CRLF, j - |spaces|);
      }
    }
  }

  /** A content type comes back exactly when another header line follows it. */
  lemma ContentTypeExactly(before: string, spaces: string, value: string, tail: string)
    requires !Contains(before, TYPE_KEY) && !Contains(value, CRLF)
    requires forall i :: 0 <= i < |spaces| ==> spaces[i] == ' '
    requires value != "" && value[0] != ' ' && (tail == "" || CRLF <= tail)
    ensures ContentTypeOf(before + TYPE_KEY + spaces + (value + tail)) == value <==> tail != ""
  {
    hide Contains, ContentTypeOf;
    if tail == "" {
      SpacesHoldNoCrlf(spaces, value);
      LastContentTypeLost(before, spaces + value);
      assert before + TYPE_KEY + spaces + (value + tail) == before + TYPE_KEY + (spaces + value);
    } else {
      ContentTypeRead(before, spaces, value, tail[2..]);
      assert value + CRLF + tail[2..] == value + tail;
    }
  }

  // --------------------------------------------------------------- file uploads

  /** A form file: the header text before and after the filename, and the content. */
  datatype FormFile = FormFile(before: string, filename: string, after: string, content: string)

  function ToPart(file: FormFile): Part {
    Part(file.before + NAME_KEY + (file.filename + ("\"" + file.after)), file.content)
  }

  function ToParts(files: seq<FormFile>): (r: seq<Part>) {
    seq(|files|, i requires 0 <= i < |files| => ToPart(files[i]))
  }

  /** Encoding any list of files and parsing the body gives the files back in order: each
      filename exactly when it holds no quote, each content exactly when it does not itself
      end in CRLF (then that CRLF is lost). */
  lemma UploadRoundTrip(preamble: string, files: seq<FormFile>, boundary: string, epilogue: string)
    requires Lacks(boundary, '\r')
    requires Find(preamble + Delimiter(boundary), Delimiter(boundary), 0) == Some(|preamble|)
    requires forall i :: 0 <= i < |files| ==>
               Separable(ToPart(files[i]), boundary) && !Contains(files[i].before, NAME_KEY)
    ensures var r := ParseFrom(preamble + Encode(ToParts(files), boundary, epilogue), Delimiter(boundary), 0);
            && |r| == |files|
            && forall i :: 0 <= i < |files| ==>
                 && (r[i].filename == files[i].filename <==> Lacks(files[i].filename, '"'))
                 && (r[i].content == files[i].content <==> !EndsWithCrlf(files[i].content))
                 && r[i].content == StripCrlf(files[i].content)
  {
    hide Find, Contains, Encode, ParseFrom, Separable, Delimiter, Lacks;
    ParseUndoesEncode(preamble, ToParts(files), boundary, epilogue);
    forall i | 0 <= i < |files|
      ensures FilenameOf(ToPart(files[i]).headers) == files[i].filename <==> Lacks(files[i].filename, '"')
      ensures StripCrlf(files[i].content) == files[i].content <==> !EndsWithCrlf(files[i].content)
    {
      FilenameReadExactly(files[i].before, files[i].filename, files[i].after);
      StripCrlfExactly(files[i].content);
    }
  }
}
