/** src/common/RedisCache.cpp: the hand-written record printer and the search-based reader
    of the Redis file and session caches. */
module RedisCache {
  import opened Strings
  import opened Decimal
  import opened Models

  // ----------------------------------------------------------------- the source

  function IntKey(key: string): string { "\"" + key + "\":" }
  function TextKey(key: string): string { IntKey(key) + "\"" }

  function SerializeRecord(r: FileRecord): string {
    "{"
    + (IntKey("id") + ToDecimal(r.id) + ",")
    + (IntKey("user_id") + ToDecimal(r.userId) + ",")
    + (TextKey("filename") + r.filename + "\",")
    + (TextKey("file_hash") + r.fileHash + "\",")
    + (IntKey("file_size") + ToDecimal(r.fileSize) + ",")
    + (TextKey("storage_path") + r.storagePath + "\",")
    + (IntKey("status") + ToDecimal(r.status) + ",")
    + (TextKey("created_at") + r.createdAt + "\"")
    + "}"
  }

  function SerializeSession(r: SessionRecord): string {
    "{"
    + (IntKey("id") + ToDecimal(r.id) + ",")
    + (IntKey("user_id") + ToDecimal(r.userId) + ",")
    + (TextKey("session_token") + r.sessionToken + "\",")
    + (TextKey("expires_at") + r.expiresAt + "\",")
    + (TextKey("created_at") + r.createdAt + "\"")
    + "}"
  }

  /** The number after the first `"key":`, 0 when the key is missing. */
  function FindInt(data: string, key: string): int {
    match Find(data, IntKey(key), 0)
    case None => 0
    case Some(p) => StrToLL(data, p + |key| + 3)
  }

  /** The text between the first `"key":"` and the next quote. */
  function FindStr(data: string, key: string): string {
    match Find(data, TextKey(key), 0)
    case None => ""
    case Some(p) =>
      match Find(data, "\"", p + |key| + 4)
      case None => ""
      case Some(q) => data[p + |key| + 4..q]
  }

  /** static_cast<int> of a 64-bit number keeps the low 32 bits. */
  function ToInt32(n: int): int {
    var low := n % 0x1_0000_0000;
    if low >= 0x8000_0000 then low - 0x1_0000_0000 else low
  }

  function DeserializeRecord(data: string): FileRecord {
    FileRecord(
      FindInt(data, "id"), FindInt(data, "user_id"), FindStr(data, "filename"),
      FindStr(data, "file_hash"), FindInt(data, "file_size"), FindStr(data, "storage_path"),
      ToInt32(FindInt(data, "status")), "", "", FindStr(data, "created_at"))
  }

  function DeserializeSession(data: string): SessionRecord {
    SessionRecord(
      FindInt(data, "id"), FindInt(data, "user_id"), FindStr(data, "session_token"),
      FindStr(data, "expires_at"), FindStr(data, "created_at"))
  }

  // --------------------------------------------------------- records as field lists

  datatype Field = IntField(key: string, number: int) | TextField(key: string, text: string)

  function RenderValue(f: Field): string {
    match f
    case IntField(_, n) => ToDecimal(n)
    case TextField(_, t) => "\"" + t + "\""
  }

  function RenderField(f: Field): string { IntKey(f.key) + RenderValue(f) }

  function RenderFields(fields: seq<Field>): string {
    if fields == [] then "}"
    else if |fields| == 1 then RenderField(fields[0]) + "}"
    else RenderField(fields[0]) + "," + RenderFields(fields[1..])
  }

  /** Keys are plain words: what the reader searches for contains no stray punctuation. */
  predicate IsKey(key: string) {
    key != "" && Lacks(key, '"') && key[0] != ':' && key[0] != ',' && key[0] != '}'
  }

  predicate QuoteFree(f: Field) { f.TextField? ==> Lacks(f.text, '"') }

  /** Text that can follow a value. */
  predicate ClosesValue(tail: string) { tail != "" && (tail[0] == ',' || tail[0] == '}') }

  // ------------------------------------------------------------- finding a field

  /** Where a quoted word stands, the reader's pattern matches only that word as a key. */
  lemma KeyMatch(s: string, j: nat, word: string, key: string)
    requires j + |word| + 2 <= |s|
    requires s[j] == '"' && s[j + 1..j + 1 + |word|] == word && s[j + 1 + |word|] == '"'
    requires Lacks(word, '"') && Lacks(key, '"')
    requires MatchesAt(s, IntKey(key), j)
    ensures word == key && j + |word| + 2 < |s| && s[j + |word| + 2] == ':'
  {
    var pat := IntKey(key);
    MatchIsPointwise(s, pat, j);
    assert pat[1 + |key|] == '"';
    assert forall k :: 0 <= k < |key| ==> pat[1 + k] == key[k] && s[j + (1 + k)] == key[k];
    assert s[j + (1 + |key|)] == '"';
    assert s[j + (2 + |key|)] == pat[2 + |key|] == ':';
    var w := s[j + 1..j + 1 + |word|];
    assert forall k :: 0 <= k < |word| ==> s[j + (1 + k)] == w[k] == word[k];
    assert |word| == |key| by { assert !(|word| < |key|) && !(|key| < |word|); }
  }

  /** No match begins at a character that is no quote or that is not followed by the key. */
  lemma NoMatchHere(s: string, j: nat, key: string)
    requires IsKey(key) && j + 1 < |s| && (s[j] != '"' || s[j + 1] != key[0])
    ensures !MatchesAt(s, IntKey(key), j)
  {
    MatchIsPointwise(s, IntKey(key), j);
    assert IntKey(key)[0] == '"' && IntKey(key)[1] == key[0];
    assert s[j + 0] == s[j];
  }

  /** The characters of a rendered field. */
  lemma FieldLayout(f: Field, rest: string)
    requires ClosesValue(rest)
    ensures var s := RenderField(f) + rest;
            var k := |f.key|;
            && s[0] == '"' && s[1..1 + k] == f.key && s[1 + k] == '"' && s[2 + k] == ':'
            && |RenderField(f)| == k + 3 + |RenderValue(f)| && s[k + 3 + |RenderValue(f)|] == rest[0]
            && s[k + 3..k + 3 + |RenderValue(f)|] == RenderValue(f)
  {
    var s, v := RenderField(f) + rest, RenderValue(f);
    assert s == IntKey(f.key) + (v + rest);
    SliceMiddle(IntKey(f.key), v, rest);
  }

  lemma KeyPartHidesKey(f: Field, key: string, rest: string, j: nat)
    requires IsKey(f.key) && IsKey(key) && f.key != key && ClosesValue(rest) && j < |f.key| + 3
    ensures !MatchesAt(RenderField(f) + rest, IntKey(key), j)
  {
    FieldLayout(f, rest);
    hide RenderField, RenderValue;
    var s, k := RenderField(f) + rest, |f.key|;
    if j == 0 {
      if MatchesAt(s, IntKey(key), 0) { KeyMatch(s, 0, f.key, key); }
    } else {
      assert 1 <= j <= k ==> s[j] == s[1..1 + k][j - 1];
      NoMatchHere(s, j, key);
    }
  }

  lemma ValueHidesKey(f: Field, key: string, rest: string, j: nat)
    requires IsKey(key) && QuoteFree(f) && ClosesValue(rest)
    requires |f.key| + 3 <= j < |RenderField(f)|
    ensures !MatchesAt(RenderField(f) + rest, IntKey(key), j)
  {
    FieldLayout(f, rest);
    hide RenderField;
    var s, v, i := RenderField(f) + rest, RenderValue(f), j - (|f.key| + 3);
    assert s[j] == v[i];
    if f.TextField? && i == 0 {
      assert v[1..1 + |f.text|] == f.text == s[j + 1..j + 1 + |f.text|];
      if MatchesAt(s, IntKey(key), j) { KeyMatch(s, j, f.text, key); }
    } else {
      NoMatchHere(s, j, key);
    }
  }

  /** The reader skips every field with another key. */
  lemma FieldSkipped(f: Field, key: string, rest: string)
    requires IsKey(f.key) && IsKey(key) && f.key != key && QuoteFree(f)
    ensures Find(RenderField(f) + "," + rest, IntKey(key), 0)
            == match Find(rest, IntKey(key), 0)
               case None => None
               case Some(p) => Some(|RenderField(f)| + 1 + p)
  {
    hide RenderField, Find, IntKey;
    var lead, tail := RenderField(f) + ",", "," + rest;
    assert lead + rest == RenderField(f) + tail;
    forall j: nat | j < |lead| ensures !MatchesAt(lead + rest, IntKey(key), j) {
      if j < |f.key| + 3 {
        KeyPartHidesKey(f, key, tail, j);
      } else if j < |RenderField(f)| {
        ValueHidesKey(f, key, tail, j);
      } else {
        CommaIsNoKey(lead + rest, key, j);
      }
    }
    FindSkip(lead, rest, IntKey(key), 0);
    FindShift(lead, rest, IntKey(key), 0);
  }

  lemma CommaIsNoKey(s: string, key: string, j: nat)
    requires j < |s| && s[j] == ','
    ensures !MatchesAt(s, IntKey(key), j)
  {
    MatchIsPointwise(s, IntKey(key), j);
    assert IntKey(key)[0] == '"' && s[j + 0] == s[j];
  }

  function Document(fields: seq<Field>): string { "{" + RenderFields(fields) }

  /** Field `i` can be read: no earlier field has its key or holds a quote. */
  predicate Readable(fields: seq<Field>, i: nat) {
    && i < |fields|
    && (forall j :: 0 <= j < |fields| ==> IsKey(fields[j].key))
    && forall j :: 0 <= j < i ==> fields[j].key != fields[i].key && QuoteFree(fields[j])
  }

  lemma FieldAtFront(f: Field, tail: string)
    requires ClosesValue(tail)
    ensures Find(RenderField(f) + tail, IntKey(f.key), 0) == Some(0)
  {
    var s := RenderField(f) + tail;
    assert s[0..|IntKey(f.key)|] == IntKey(f.key);
    FindIsFirst(s, IntKey(f.key), 0, 0);
  }

  lemma {:induction false} FieldFound(fields: seq<Field>, i: nat) returns (lead: string, tail: string)
    requires Readable(fields, i)
    ensures RenderFields(fields) == lead + (RenderField(fields[i]) + tail) && ClosesValue(tail)
    ensures Find(RenderFields(fields), IntKey(fields[i].key), 0) == Some(|lead|)
    decreases i
  {
    hide RenderField, Find, IntKey, IsKey, QuoteFree;
    if i == 0 {
      lead := "";
      tail := if |fields| == 1 then "}" else "," + RenderFields(fields[1..]);
      assert RenderFields(fields) == RenderField(fields[0]) + tail == lead + (RenderField(fields[0]) + tail);
      FieldAtFront(fields[0], tail);
    } else {
      assert fields[1..][i - 1] == fields[i];
      assert forall j :: 0 <= j < |fields| - 1 ==> fields[1..][j] == fields[j + 1];
      var lead', tail' := FieldFound(fields[1..], i - 1);
      FieldSkipped(fields[0], fields[i].key, RenderFields(fields[1..]));
      lead, tail := RenderField(fields[0]) + "," + lead', tail';
      assert RenderFields(fields) == RenderField(fields[0]) + "," + RenderFields(fields[1..]);
      assert RenderField(fields[0]) + "," + (lead' + (RenderField(fields[i]) + tail))
          == lead + (RenderField(fields[i]) + tail);
    }
  }

  /** In the whole document, the pattern of a readable field is first found at the field. */
  lemma FieldInDocument(fields: seq<Field>, i: nat) returns (lead: string, tail: string)
    requires Readable(fields, i)
    ensures Document(fields) == lead + (RenderField(fields[i]) + tail) && ClosesValue(tail)
    ensures Find(Document(fields), IntKey(fields[i].key), 0) == Some(|lead|)
  {
    hide RenderField, Find, RenderFields, MatchesAt;
    var lead', tail' := FieldFound(fields, i);
    lead, tail := "{" + lead', tail';
    assert "{" + (lead' + (RenderField(fields[i]) + tail)) == lead + (RenderField(fields[i]) + tail);
    var all, pat := RenderFields(fields), IntKey(fields[i].key);
    BraceIsNoKey(all, pat);
    FindSkip("{", all, pat, 0);
    FindShift("{", all, pat, 0);
  }

  lemma BraceIsNoKey(rest: string, pat: string)
    requires pat != "" && pat[0] == '"'
    ensures !MatchesAt("{" + rest, pat, 0)
  {
    MatchIsPointwise("{" + rest, pat, 0);
    assert ("{" + rest)[0 + 0] == '{';
  }

  lemma RegroupInt(lead: string, f: Field, tail: string)
    requires f.IntField?
    ensures lead + (RenderField(f) + tail) == lead + IntKey(f.key) + (ToDecimal(f.number) + tail)
  {
    hide IntKey;
    var k, v := IntKey(f.key), ToDecimal(f.number);
    assert lead + (k + v + tail) == lead + k + (v + tail);
  }

  lemma RegroupText(lead: string, f: Field, tail: string)
    requires f.TextField?
    ensures lead + (RenderField(f) + tail) == lead + TextKey(f.key) + (f.text + ("\"" + tail))
  {
    hide IntKey;
    var k, t, q := IntKey(f.key), f.text, "\"";
    assert lead + (k + (q + t + q) + tail) == lead + (k + q) + (t + (q + tail));
  }

  lemma KeyLength(key: string)
    ensures |IntKey(key)| == |key| + 3 && |TextKey(key)| == |key| + 4 && TextKey(key) == IntKey(key) + "\""
  {}

  lemma IntAt(lead: string, key: string, n: int, tail: string)
    requires INT64_MIN <= n <= INT64_MAX && ClosesValue(tail)
    requires Find(lead + IntKey(key) + (ToDecimal(n) + tail), IntKey(key), 0) == Some(|lead|)
    ensures FindInt(lead + IntKey(key) + (ToDecimal(n) + tail), key) == n
  {
    hide Find, StrToLL, ToDecimal, IntKey, MatchesAt, Lacks;
    KeyLength(key);
    ReadsBack(lead + IntKey(key), n, tail);
  }

  lemma TextKeyFound(lead: string, key: string, rest: string)
    requires Find(lead + TextKey(key) + rest, IntKey(key), 0) == Some(|lead|)
    ensures Find(lead + TextKey(key) + rest, TextKey(key), 0) == Some(|lead|)
  {
    hide Find, IntKey, TextKey, MatchesAt;
    KeyLength(key);
    MatchAfter(lead, TextKey(key), rest);
    FindLonger(lead + TextKey(key) + rest, IntKey(key), "\"", 0);
  }

  lemma TextAt(lead: string, key: string, text: string, tail: string)
    requires Find(lead + TextKey(key) + (text + ("\"" + tail)), IntKey(key), 0) == Some(|lead|)
    ensures UpToQuote(FindStr(lead + TextKey(key) + (text + ("\"" + tail)), key), text)
  {
    hide Find, Lacks, IntKey, TextKey, MatchesAt, UpToQuote;
    KeyLength(key);
    TextKeyFound(lead, key, text + ("\"" + tail));
    QuotedText(lead + TextKey(key), text, tail);
  }

  /** Every 64-bit number is read back. */
  lemma IntReadBack(fields: seq<Field>, i: nat)
    requires Readable(fields, i) && fields[i].IntField? && INT64_MIN <= fields[i].number <= INT64_MAX
    ensures FindInt(Document(fields), fields[i].key) == fields[i].number
  {
    hide Find, FindInt, RenderField, Document;
    var lead, tail := FieldInDocument(fields, i);
    RegroupInt(lead, fields[i], tail);
    IntAt(lead, fields[i].key, fields[i].number, tail);
  }

  /** A text is read back up to its first quote, so exactly when it holds none. */
  lemma TextReadBack(fields: seq<Field>, i: nat)
    requires Readable(fields, i) && fields[i].TextField?
    ensures UpToQuote(FindStr(Document(fields), fields[i].key), fields[i].text)
  {
    hide Find, FindStr, RenderField, Document, Lacks;
    var lead, tail := FieldInDocument(fields, i);
    RegroupText(lead, fields[i], tail);
    TextAt(lead, fields[i].key, fields[i].text, tail);
  }

  // ------------------------------------------------------------------ the records

  function RecordFields(r: FileRecord): seq<Field> {
    [ IntField("id", r.id), IntField("user_id", r.userId), TextField("filename", r.filename),
      TextField("file_hash", r.fileHash), IntField("file_size", r.fileSize),
      TextField("storage_path", r.storagePath), IntField("status", r.status),
      TextField("created_at", r.createdAt) ]
  }

  function SessionFields(r: SessionRecord): seq<Field> {
    [ IntField("id", r.id), IntField("user_id", r.userId), TextField("session_token", r.sessionToken),
      TextField("expires_at", r.expiresAt), TextField("created_at", r.createdAt) ]
  }

  /** An entry as the printer writes it, before the text of the fields still to come. */
  function Entry(f: Field): string {
    match f
    case IntField(key, n) => IntKey(key) + ToDecimal(n) + ","
    case TextField(key, text) => TextKey(key) + text + "\","
  }

  lemma EntryPrepends(done: string, f: Field, fields: seq<Field>)
    requires fields != []
    ensures done + Entry(f) + RenderFields(fields) == done + RenderFields([f] + fields)
  {
    assert ([f] + fields)[1..] == fields;
    EntryIsField(f);
    hide RenderField, Entry;
    assert RenderFields([f] + fields) == RenderField(f) + "," + RenderFields(fields);
  }

  lemma EntryIsField(f: Field)
    ensures Entry(f) == RenderField(f) + ","
  {
    match f
    case IntField(key, n) =>
    case TextField(key, text) =>
      hide IntKey;
      assert IntKey(key) + "\"" + text + "\"," == IntKey(key) + ("\"" + text + "\"") + ",";
  }

  lemma TextFieldText(key: string, text: string)
    ensures RenderField(TextField(key, text)) == TextKey(key) + text + "\""
  {
    hide IntKey;
    assert IntKey(key) + "\"" + text + "\"" == IntKey(key) + ("\"" + text + "\"");
  }

  lemma LastEntry(done: string, key: string, text: string)
    ensures done + (TextKey(key) + text + "\"") + "}" == done + RenderFields([TextField(key, text)])
  {
    TextFieldText(key, text);
    hide TextKey, RenderField;
    assert RenderFields([TextField(key, text)]) == RenderField(TextField(key, text)) + "}";
  }

  lemma EntryStep(done: string, f: seq<Field>, i: nat)
    requires i + 1 < |f|
    ensures done + RenderFields(f[i..]) == (done + Entry(f[i])) + RenderFields(f[i + 1..])
  {
    hide RenderFields, Entry;
    assert f[i..] == [f[i]] + f[i + 1..];
    EntryPrepends(done, f[i], f[i + 1..]);
  }

  lemma SessionIsDocument(r: SessionRecord)
    ensures SerializeSession(r) == Document(
              [ IntField("id", r.id), IntField("user_id", r.userId), TextField("session_token", r.sessionToken),
                TextField("expires_at", r.expiresAt), TextField("created_at", r.createdAt) ])
  {
    hide RenderFields, Entry, IntKey, TextKey, SerializeSession;
    var f := SessionFields(r);
    var d1 := "{" + Entry(f[0]);
    var d2 := d1 + Entry(f[1]);
    var d3 := d2 + Entry(f[2]);
    var d4 := d3 + Entry(f[3]);
    SessionEntries(r);
    EntryStep("{", f, 0);
    EntryStep(d1, f, 1);
    EntryStep(d2, f, 2);
    EntryStep(d3, f, 3);
    LastEntry(d4, "created_at", r.createdAt);
    assert f[4..] == [f[4]] && f[0..] == f;
  }

  lemma SessionEntries(r: SessionRecord)
    ensures var f := SessionFields(r);
            SerializeSession(r) == "{" + Entry(f[0]) + Entry(f[1]) + Entry(f[2]) + Entry(f[3])
                                   + (TextKey("created_at") + r.createdAt + "\"") + "}"
  {}

  lemma RecordEntries(r: FileRecord)
    ensures var f := RecordFields(r);
            SerializeRecord(r) == "{" + Entry(f[0]) + Entry(f[1]) + Entry(f[2]) + Entry(f[3]) + Entry(f[4])
                                  + Entry(f[5]) + Entry(f[6]) + (TextKey("created_at") + r.createdAt + "\"") + "}"
  {}

  lemma RecordIsDocument(r: FileRecord)
    ensures SerializeRecord(r) == Document(
              [ IntField("id", r.id), IntField("user_id", r.userId), TextField("filename", r.filename),
                TextField("file_hash", r.fileHash), IntField("file_size", r.fileSize),
                TextField("storage_path", r.storagePath), IntField("status", r.status),
                TextField("created_at", r.createdAt) ])
  {
    hide RenderFields, Entry, IntKey, TextKey, SerializeRecord;
    var f := RecordFields(r);
    var d1 := "{" + Entry(f[0]);
    var d2 := d1 + Entry(f[1]);
    var d3 := d2 + Entry(f[2]);
    var d4 := d3 + Entry(f[3]);
    var d5 := d4 + Entry(f[4]);
    var d6 := d5 + Entry(f[5]);
    var d7 := d6 + Entry(f[6]);
    RecordEntries(r);
    EntryStep("{", f, 0);
    EntryStep(d1, f, 1);
    EntryStep(d2, f, 2);
    EntryStep(d3, f, 3);
    EntryStep(d4, f, 4);
    EntryStep(d5, f, 5);
    EntryStep(d6, f, 6);
    LastEntry(d7, "created_at", r.createdAt);
    assert f[7..] == [f[7]] && f[0..] == f;
  }

  /** What the reader makes of a key that is missing or of a text that is never closed. */
  lemma UnreadableFields(data: string, key: string, lead: string, text: string)
    ensures !Contains(data, IntKey(key)) ==> FindInt(data, key) == 0
    ensures !Contains(data, TextKey(key)) ==> FindStr(data, key) == ""
    ensures Find(lead + TextKey(key) + text, TextKey(key), 0) == Some(|lead|) && Lacks(text, '"') ==>
              FindStr(lead + TextKey(key) + text, key) == ""
  {
    hide IntKey, TextKey, MatchesAt;
    KeyLength(key);
    FindShift(lead + TextKey(key), text, "\"", 0);
    assert "\"" == ['"'];
    FindChar(text, '"', 0);
  }

  /** Of a number that does not fit, the low 32 bits are kept. */
  lemma ToInt32Wraps(n: int)
    ensures -0x8000_0000 <= ToInt32(n) < 0x8000_0000 && (n - ToInt32(n)) % 0x1_0000_0000 == 0
  {}

  lemma ToInt32Exact(n: int)
    requires -0x8000_0000 <= n < 0x8000_0000
    ensures ToInt32(n) == n
  {}

  lemma RecordKeys(r: FileRecord)
    ensures var f := RecordFields(r);
            && (forall i :: 0 <= i < |f| ==> IsKey(f[i].key))
            && forall i, j :: 0 <= i < j < |f| ==> f[i].key != f[j].key
  {
    hide IsKey;
    RecordKeyNames();
    KeyNamesDiffer();
  }

  lemma RecordKeyNames()
    ensures IsKey("id") && IsKey("user_id") && IsKey("filename") && IsKey("file_hash")
    ensures IsKey("file_size") && IsKey("storage_path") && IsKey("status") && IsKey("created_at")
    ensures IsKey("session_token") && IsKey("expires_at")
  {}

  lemma KeyNamesDiffer()
    ensures |"id"| == 2 && |"user_id"| == 7 && |"filename"| == 8 && |"status"| == 6
    ensures |"storage_path"| == 12 && |"created_at"| == 10 == |"expires_at"| && |"session_token"| == 13
    ensures |"file_hash"| == 9 == |"file_size"| && "file_hash"[5] != "file_size"[5]
    ensures "created_at"[0] != "expires_at"[0]
  {}

  predicate IsInt64(n: int) { INT64_MIN <= n <= INT64_MAX }

  /** Distinct plain keys, 64-bit numbers. */
  ghost predicate WellFormed(fields: seq<Field>) {
    && (forall i :: 0 <= i < |fields| ==> IsKey(fields[i].key))
    && (forall i, j :: 0 <= i < j < |fields| ==> fields[i].key != fields[j].key)
    && (forall i :: 0 <= i < |fields| ==> fields[i].IntField? ==> IsInt64(fields[i].number))
  }

  ghost predicate ReadBack(data: string, f: Field) {
    match f
    case IntField(key, n) => FindInt(data, key) == n
    case TextField(key, text) => FindStr(data, key) == text
  }

  lemma FieldReadBack(fields: seq<Field>, i: nat)
    requires WellFormed(fields) && i < |fields| && forall j :: 0 <= j < i ==> QuoteFree(fields[j])
    ensures ReadBack(Document(fields), fields[i]) <==> QuoteFree(fields[i])
  {
    hide IsKey, Document, FindInt, FindStr, Lacks;
    assert Readable(fields, i);
    if fields[i].IntField? { IntReadBack(fields, i); } else { TextReadBack(fields, i); }
  }

  lemma {:induction false} ReadBackMeansQuoteFree(fields: seq<Field>, n: nat)
    requires WellFormed(fields) && n <= |fields|
    requires forall i :: 0 <= i < n ==> fields[i].TextField? ==> ReadBack(Document(fields), fields[i])
    ensures forall i :: 0 <= i < n ==> QuoteFree(fields[i])
  {
    hide WellFormed, ReadBack;
    if n > 0 {
      ReadBackMeansQuoteFree(fields, n - 1);
      FieldReadBack(fields, n - 1);
    }
  }

  /** The texts of a document are all read back exactly when none of them holds a quote, and
      then every number is read back too. */
  lemma DocumentReadExactly(fields: seq<Field>)
    requires WellFormed(fields)
    ensures (forall i :: 0 <= i < |fields| ==> fields[i].TextField? ==> ReadBack(Document(fields), fields[i]))
            <==> (forall i :: 0 <= i < |fields| ==> QuoteFree(fields[i]))
    ensures (forall i :: 0 <= i < |fields| ==> QuoteFree(fields[i])) ==>
              forall i :: 0 <= i < |fields| ==> ReadBack(Document(fields), fields[i])
  {
    hide WellFormed, ReadBack, QuoteFree;
    if forall i :: 0 <= i < |fields| ==> fields[i].TextField? ==> ReadBack(Document(fields), fields[i]) {
      ReadBackMeansQuoteFree(fields, |fields|);
    }
    if forall i :: 0 <= i < |fields| ==> QuoteFree(fields[i]) {
      forall i | 0 <= i < |fields| ensures ReadBack(Document(fields), fields[i]) {
        FieldReadBack(fields, i);
      }
    }
  }

  predicate NumbersFit(r: FileRecord) {
    && IsInt64(r.id) && IsInt64(r.userId) && IsInt64(r.fileSize)
    && -0x8000_0000 <= r.status < 0x8000_0000
  }

  /** The file record comes back, without the summary and the tags the printer leaves out,
      exactly when none of its printed strings holds a double quote. */
  lemma RecordRoundTrip(r: FileRecord)
    requires NumbersFit(r)
    ensures DeserializeRecord(SerializeRecord(r)) == r.(summary := "", tags := "")
            <==> Lacks(r.filename, '"') && Lacks(r.fileHash, '"')
                 && Lacks(r.storagePath, '"') && Lacks(r.createdAt, '"')
  {
    var f, data := RecordFields(r), SerializeRecord(r);
    RecordIsDocument(r);
    RecordKeys(r);
    hide IsKey, SerializeRecord, FindInt, FindStr, Document, Lacks;
    assert WellFormed(f);
    DocumentReadExactly(f);
    RecordFieldsReadBack(r, data);
    assert (forall i :: 0 <= i < |f| ==> QuoteFree(f[i]))
        <==> QuoteFree(f[2]) && QuoteFree(f[3]) && QuoteFree(f[5]) && QuoteFree(f[7]);
  }

  lemma RecordFieldsReadBack(r: FileRecord, data: string)
    requires NumbersFit(r)
    ensures var f := RecordFields(r);
            var same := DeserializeRecord(data) == r.(summary := "", tags := "");
            && ((forall i :: 0 <= i < |f| ==> ReadBack(data, f[i])) ==> same)
            && (same ==> forall i :: 0 <= i < |f| ==> f[i].TextField? ==> ReadBack(data, f[i]))
  {
    hide FindInt, FindStr;
    var f := RecordFields(r);
    if forall i :: 0 <= i < |f| ==> ReadBack(data, f[i]) {
      assert ReadBack(data, f[0]) && ReadBack(data, f[1]) && ReadBack(data, f[2]) && ReadBack(data, f[3]);
      assert ReadBack(data, f[4]) && ReadBack(data, f[5]) && ReadBack(data, f[6]) && ReadBack(data, f[7]);
      ToInt32Exact(r.status);
    }
  }

  lemma SessionKeys(r: SessionRecord)
    ensures var f := SessionFields(r);
            && (forall i :: 0 <= i < |f| ==> IsKey(f[i].key))
            && forall i, j :: 0 <= i < j < |f| ==> f[i].key != f[j].key
  {
    hide IsKey;
    RecordKeyNames();
    KeyNamesDiffer();
  }

  /** The session record comes back exactly when none of its strings holds a double quote. */
  lemma SessionRoundTrip(r: SessionRecord)
    requires IsInt64(r.id) && IsInt64(r.userId)
    ensures DeserializeSession(SerializeSession(r)) == r
            <==> Lacks(r.sessionToken, '"') && Lacks(r.expiresAt, '"') && Lacks(r.createdAt, '"')
  {
    var f, data := SessionFields(r), SerializeSession(r);
    SessionIsDocument(r);
    SessionKeys(r);
    hide IsKey, SerializeSession, FindInt, FindStr, Document, Lacks;
    assert WellFormed(f);
    DocumentReadExactly(f);
    SessionFieldsReadBack(r, data);
    assert (forall i :: 0 <= i < |f| ==> QuoteFree(f[i]))
        <==> QuoteFree(f[2]) && QuoteFree(f[3]) && QuoteFree(f[4]);
  }

  lemma SessionFieldsReadBack(r: SessionRecord, data: string)
    ensures var f := SessionFields(r);
            var same := DeserializeSession(data) == r;
            && ((forall i :: 0 <= i < |f| ==> ReadBack(data, f[i])) ==> same)
            && (same ==> forall i :: 0 <= i < |f| ==> f[i].TextField? ==> ReadBack(data, f[i]))
  {
    hide FindInt, FindStr;
    var f := SessionFields(r);
    if forall i :: 0 <= i < |f| ==> ReadBack(data, f[i]) {
      assert ReadBack(data, f[0]) && ReadBack(data, f[1]) && ReadBack(data, f[2]);
      assert ReadBack(data, f[3]) && ReadBack(data, f[4]);
    }
  }
}
