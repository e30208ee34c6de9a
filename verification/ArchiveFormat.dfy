/**
  The inbox archive's text format (examples/durability_hook.rs): tab-separated records, one
  per line, and the parser that rebuilds the set of committed keys at start-up.
 */
module ArchiveFormat {
  import opened Common

  /** Stanza ids are unique only within a chat and sender. */
  datatype Key = Key(chat: string, sender: string, id: string)

  datatype Record = Record(key: Key, preview: string)

  // ------------------------------------------------------------------
  // String operations of the standard library
  // ------------------------------------------------------------------

  /** The first position of `c`, or the length. */
  function IndexOf(s: string, c: char): (n: nat)
    ensures n <= |s| && c !in s[..n] && (n < |s| ==> s[n] == c)
  {
    if s == "" || s[0] == c then 0 else 1 + IndexOf(s[1..], c)
  }

  /** `split_inclusive('\n')` */
  function SplitInclusive(s: string): seq<string>
    decreases |s|
  {
    if s == "" then []
    else
      var n := IndexOf(s, '\n');
      if n == |s| then [s] else [s[..n + 1]] + SplitInclusive(s[n + 1..])
  }

  /** `splitn(limit, '\t')`: the last part keeps any further tabs. */
  function SplitN(s: string, limit: nat): seq<string>
    decreases limit
  {
    if limit == 0 then []
    else
      var n := IndexOf(s, '\t');
      if limit == 1 || n == |s| then [s] else [s[..n]] + SplitN(s[n + 1..], limit - 1)
  }

  function TrimEndNewlines(s: string): string {
    if s != "" && s[|s| - 1] == '\n' then TrimEndNewlines(s[..|s| - 1]) else s
  }

  predicate EndsWithNewline(s: string) {
    s != "" && s[|s| - 1] == '\n'
  }

  // ------------------------------------------------------------------
  // Printer and parser
  // ------------------------------------------------------------------

  /** Tabs and newlines of the preview become spaces. */
  function Sanitize(text: string): (r: string)
    ensures |r| == |text| && CleanText(r)
    ensures forall k :: 0 <= k < |text| && r[k] != text[k] ==> r[k] == ' ' && text[k] in {'\t', '\n'}
  {
    seq(|text|, k requires 0 <= k < |text| => if text[k] == '\t' || text[k] == '\n' then ' ' else text[k])
  }

  /** The tab-separated fields of a line. */
  function Fields(r: Record): string {
    r.key.chat + "\t" + (r.key.sender + "\t" + (r.key.id + "\t" + Sanitize(r.preview)))
  }

  function Line(r: Record): string {
    Fields(r) + "\n"
  }

  function Print(records: seq<Record>): string {
    if records == [] then "" else Print(records[..|records| - 1]) + Line(records[|records| - 1])
  }

  function Keys(records: seq<Record>): seq<Key> {
    seq(|records|, k requires 0 <= k < |records| => records[k].key)
  }

  /** A line without its newline is torn: its message was never committed. */
  function ParseLine(line: string): Option<Key> {
    if !EndsWithNewline(line) then None
    else
      var parts := SplitN(TrimEndNewlines(line), 4);
      if |parts| >= 3 then Some(Key(parts[0], parts[1], parts[2])) else None
  }

  function KeyOf(line: string): seq<Key> {
    match ParseLine(line)
    case Some(k) => [k]
    case None => []
  }

  /** The results of `f` on each element, in order. */
  function Collect<A, B>(f: A -> seq<B>, s: seq<A>): seq<B> {
    if s == [] then [] else Collect(f, s[..|s| - 1]) + f(s[|s| - 1])
  }

  function Parse(content: string): seq<Key> {
    Collect(KeyOf, SplitInclusive(content))
  }

  predicate CleanText(s: string) {
    '\t' !in s && '\n' !in s
  }

  predicate Clean(k: Key) {
    CleanText(k.chat) && CleanText(k.sender) && CleanText(k.id)
  }

  /** Everything before this point is whole records. */
  predicate AtBoundary(content: string) {
    content == "" || EndsWithNewline(content)
  }

  // ------------------------------------------------------------------
  // Splitting
  // ------------------------------------------------------------------

  lemma IndexOfUnique(s: string, c: char, n: nat)
    requires n <= |s| && c !in s[..n] && (n < |s| ==> s[n] == c)
    ensures IndexOf(s, c) == n
  {
  }

  /** A newline-terminated line. */
  predicate OneWholeLine(line: string) {
    EndsWithNewline(line) && '\n' !in line[..|line| - 1]
  }

  lemma SplitLine(line: string, rest: string)
    requires OneWholeLine(line)
    ensures SplitInclusive(line + rest) == [line] + SplitInclusive(rest)
  {
    var s, n := line + rest, |line| - 1;
    assert s[..n] == line[..n] && s[..n + 1] == line && s[n + 1..] == rest;
    IndexOfUnique(s, '\n', n);
  }

  lemma FirstLine(a: string) returns (line: string, rest: string)
    requires EndsWithNewline(a)
    ensures a == line + rest && OneWholeLine(line) && AtBoundary(rest)
  {
    var n := IndexOf(a, '\n');
    line, rest := a[..n + 1], a[n + 1..];
    assert line[..n] == a[..n];
  }

  /** Splitting a whole number of lines and something after it splits the two apart. */
  lemma {:induction false} SplitConcat(a: string, b: string)
    requires AtBoundary(a)
    ensures SplitInclusive(a + b) == SplitInclusive(a) + SplitInclusive(b)
    decreases |a|
  {
    if a == "" {
      assert a + b == b;
    } else {
      var line, rest := FirstLine(a);
      SplitLine(line, rest);
      SplitLine(line, rest + b);
      SplitConcat(rest, b);
      Associative(line, rest, b);
      Associative([line], SplitInclusive(rest), SplitInclusive(b));
    }
  }

  lemma Associative<T>(a: seq<T>, b: seq<T>, c: seq<T>)
    ensures a + (b + c) == (a + b) + c
  {
  }

  lemma {:induction false} CollectConcat<A, B>(f: A -> seq<B>, a: seq<A>, b: seq<A>)
    ensures Collect(f, a + b) == Collect(f, a) + Collect(f, b)
    decreases |b|
  {
    if b == [] {
      assert a + b == a;
    } else {
      var n := |b| - 1;
      assert (a + b)[..|a| + n] == a + b[..n];
      CollectConcat(f, a, b[..n]);
      Associative(Collect(f, a), Collect(f, b[..n]), f(b[n]));
    }
  }

  lemma ParseConcat(a: string, b: string)
    requires AtBoundary(a)
    ensures Parse(a + b) == Parse(a) + Parse(b)
  {
    SplitConcat(a, b);
    CollectConcat(KeyOf, SplitInclusive(a), SplitInclusive(b));
  }

  lemma ParseSingle(line: string)
    requires SplitInclusive(line) == [line]
    ensures Parse(line) == KeyOf(line)
  {
    assert [line][..0] == [];
    assert Collect(KeyOf, [line]) == [] + KeyOf(line);
  }

  /** A torn line commits nothing. */
  lemma TornCommitsNothing(tail: string)
    requires '\n' !in tail
    ensures Parse(tail) == []
  {
    if tail != "" {
      assert tail[..|tail|] == tail;
      IndexOfUnique(tail, '\n', |tail|);
      ParseSingle(tail);
      assert tail[|tail| - 1] in tail;
    }
  }

  /** One line, newline included, is one line. */
  lemma OneLine(text: string)
    requires '\n' !in text
    ensures Parse(text + "\n") == KeyOf(text + "\n")
    ensures TrimEndNewlines(text + "\n") == text
  {
    var line := text + "\n";
    assert line[..|text|] == text && line + "" == line;
    SplitLine(line, "");
    assert SplitInclusive(line) == [line];
    ParseSingle(line);
    assert text != "" ==> text[|text| - 1] in text;
  }

  // ------------------------------------------------------------------
  // Round trip
  // ------------------------------------------------------------------

  lemma SplitField(field: string, rest: string, limit: nat)
    requires '\t' !in field && limit >= 2
    ensures SplitN(field + "\t" + rest, limit) == [field] + SplitN(rest, limit - 1)
  {
    var s := field + "\t" + rest;
    assert s[..|field|] == field;
    IndexOfUnique(s, '\t', |field|);
    assert s[|field| + 1..] == rest;
  }

  lemma SplitTwo(a: string, rest: string)
    requires '\t' !in a
    ensures SplitN(a + "\t" + rest, 2) == [a, rest]
  {
    SplitField(a, rest, 2);
  }

  lemma SplitThree(a: string, b: string, rest: string)
    requires '\t' !in a && '\t' !in b
    ensures SplitN(a + "\t" + (b + "\t" + rest), 3) == [a, b, rest]
  {
    SplitField(a, b + "\t" + rest, 3);
    SplitTwo(b, rest);
  }

  lemma SplitFour(a: string, b: string, c: string, rest: string)
    requires '\t' !in a && '\t' !in b && '\t' !in c
    ensures SplitN(a + "\t" + (b + "\t" + (c + "\t" + rest)), 4) == [a, b, c, rest]
  {
    var tail := b + "\t" + (c + "\t" + rest);
    SplitThree(b, c, rest);
    SplitField(a, tail, 4);
    assert [a] + SplitN(tail, 3) == [a, b, c, rest];
  }

  /** A record with clean key fields parses back to its key, whatever its preview holds. */
  lemma LineRoundTrip(r: Record)
    requires Clean(r.key)
    ensures '\n' !in Fields(r)
    ensures SplitN(Fields(r), 4) == [r.key.chat, r.key.sender, r.key.id, Sanitize(r.preview)]
    ensures Parse(Line(r)) == [r.key] && AtBoundary(Line(r))
  {
    OneLine(Fields(r));
    SplitFour(r.key.chat, r.key.sender, r.key.id, Sanitize(r.preview));
  }

  predicate AllClean(records: seq<Record>) {
    forall k :: 0 <= k < |records| ==> Clean(records[k].key)
  }

  lemma BoundaryConcat(a: string, b: string)
    requires AtBoundary(a) && AtBoundary(b)
    ensures AtBoundary(a + b)
  {
    if b != "" {
      assert (a + b)[|a + b| - 1] == b[|b| - 1];
    }
  }

  lemma KeysSnoc(front: seq<Record>, r: Record)
    ensures Keys(front + [r]) == Keys(front) + [r.key]
  {
  }

  lemma PrintSnoc(front: seq<Record>, r: Record)
    ensures Print(front + [r]) == Print(front) + Line(r)
  {
    assert (front + [r])[..|front|] == front;
  }

  lemma {:induction false} PrintParses(records: seq<Record>)
    requires AllClean(records)
    ensures Parse(Print(records)) == Keys(records) && AtBoundary(Print(records))
    decreases |records|
  {
    if records != [] {
      var n := |records| - 1;
      var front, r := records[..n], records[n];
      assert records == front + [r];
      PrintParses(front);
      LineRoundTrip(r);
      PrintSnoc(front, r);
      KeysSnoc(front, r);
      ParseConcat(Print(front), Line(r));
      BoundaryConcat(Print(front), Line(r));
    }
  }

  /** Appended at a record boundary, whole records parse to exactly their keys, torn tail or not. */
  lemma AppendRoundTrip(before: string, records: seq<Record>, tail: string)
    requires AtBoundary(before) && AllClean(records) && '\n' !in tail
    ensures Parse(before + Print(records) + tail) == Parse(before) + Keys(records)
  {
    PrintParses(records);
    ParseConcat(before, Print(records));
    BoundaryConcat(before, Print(records));
    ParseConcat(before + Print(records), tail);
    TornCommitsNothing(tail);
  }

  /** A proper prefix of a line has no newline yet. */
  lemma TornLine(r: Record, cut: nat)
    requires Clean(r.key) && cut < |Line(r)|
    ensures '\n' !in Line(r)[..cut]
  {
    LineRoundTrip(r);
    assert Line(r)[..cut] == Fields(r)[..cut];
  }

  /** Cutting printed records leaves whole records and a torn rest of the next one. */
  lemma {:induction false} CutStructure(records: seq<Record>, cut: nat) returns (n: nat, tail: string)
    requires AllClean(records) && cut <= |Print(records)|
    ensures n <= |records| && |Print(records[..n])| <= cut
    ensures n < |records| ==> cut < |Print(records[..n + 1])|
    ensures Print(records)[..cut] == Print(records[..n]) + tail && '\n' !in tail
    decreases |records|
  {
    if cut == |Print(records)| {
      n, tail := |records|, "";
      assert records[..n] == records;
      return;
    }
    var last := |records| - 1;
    var front, r := records[..last], records[last];
    assert records == front + [r];
    if |Print(front)| <= cut {
      n := last;
      tail := CutInLine(front, r, cut);
      assert records[..n + 1] == records;
    } else {
      n, tail := CutStructure(front, cut);
      CutInFront(front, r, cut, n);
    }
  }

  lemma CutInLine(front: seq<Record>, r: Record, cut: nat) returns (tail: string)
    requires Clean(r.key) && |Print(front)| <= cut < |Print(front + [r])|
    ensures Print(front + [r])[..cut] == Print(front) + tail && '\n' !in tail
  {
    PrintSnoc(front, r);
    tail := Line(r)[..cut - |Print(front)|];
    TornLine(r, |tail|);
  }

  lemma CutInFront(front: seq<Record>, r: Record, cut: nat, n: nat)
    requires cut < |Print(front)| && n <= |front| && |Print(front[..n])| <= cut
    ensures n < |front|
    ensures front[..n] == (front + [r])[..n] && front[..n + 1] == (front + [r])[..n + 1]
    ensures Print(front + [r])[..cut] == Print(front)[..cut]
  {
    assert front[..|front|] == front;
    PrintSnoc(front, r);
  }

  /** Cut between two characters of an append, parsing recovers exactly the records before the cut. */
  lemma CutRecovery(before: string, records: seq<Record>, cut: nat) returns (n: nat)
    requires AtBoundary(before) && AllClean(records) && cut <= |Print(records)|
    ensures n <= |records| && |Print(records[..n])| <= cut
    ensures n < |records| ==> cut < |Print(records[..n + 1])|
    ensures Parse(before + Print(records)[..cut]) == Parse(before) + Keys(records[..n])
  {
    var tail: string;
    n, tail := CutStructure(records, cut);
    Associative(before, Print(records[..n]), tail);
    AppendRoundTrip(before, records[..n], tail);
  }

  // ------------------------------------------------------------------
  // Exactly when the format works
  // ------------------------------------------------------------------

  /** Whole lines, then the bytes after the last newline. */
  lemma {:induction false} SplitTail(content: string) returns (whole: string, tail: string)
    ensures content == whole + tail && AtBoundary(whole) && '\n' !in tail
    decreases |content|
  {
    var i := IndexOf(content, '\n');
    if i == |content| {
      whole, tail := "", content;
      assert content[..i] == content;
    } else {
      var line, rest := content[..i + 1], content[i + 1..];
      whole, tail := SplitTail(rest);
      assert content == line + rest;
      BoundaryConcat(line, whole);
      Associative(line, whole, tail);
      whole := line + whole;
    }
  }

  /** Glued to a tail that holds a tab, a line's first field ends inside the tail. */
  lemma GluedAfterTab(tail: string, text: string, limit: nat)
    requires '\t' in tail && limit >= 2
    ensures |SplitN(tail + text, limit)| >= 1 && |SplitN(tail + text, limit)[0]| <= |tail|
  {
    var s := tail + text;
    var c :| 0 <= c < |tail| && tail[c] == '\t';
    assert s[c] == '\t';
    assert IndexOf(s, '\t') <= c;
  }

  lemma GluedField(tail: string, field: string, rest: string)
    requires '\t' !in tail && '\t' !in field
    ensures var parts := SplitN(tail + (field + "\t" + rest), 4);
            |parts| >= 1 && parts[0] == tail + field
  {
    assert tail + (field + "\t" + rest) == (tail + field) + "\t" + rest;
    SplitField(tail + field, rest, 4);
  }

  /** Glued to a tail without a tab, its first field starts with the whole tail. */
  lemma GluedBeforeTab(tail: string, r: Record)
    requires '\t' !in tail && Clean(r.key)
    ensures |SplitN(tail + Fields(r), 4)| >= 1 && SplitN(tail + Fields(r), 4)[0] == tail + r.key.chat
  {
    var rest := r.key.sender + "\t" + (r.key.id + "\t" + Sanitize(r.preview));
    GluedField(tail, r.key.chat, rest);
  }

  /** The chat of a line's key is its first field. */
  lemma ParsedChat(text: string, k: Key)
    requires '\n' !in text && k in Parse(text + "\n")
    ensures |SplitN(text, 4)| >= 1 && k.chat == SplitN(text, 4)[0]
  {
    OneLine(text);
  }

  /** Glued to a torn tail, a line's first field is not its chat, if that is longer than the tail. */
  lemma GluedChat(tail: string, r: Record)
    requires tail != "" && Clean(r.key) && |r.key.chat| > |tail|
    ensures |SplitN(tail + Fields(r), 4)| >= 1 && SplitN(tail + Fields(r), 4)[0] != r.key.chat
  {
    if '\t' in tail {
      GluedAfterTab(tail, Fields(r), 4);
    } else {
      GluedBeforeTab(tail, r);
      assert |tail + r.key.chat| > |r.key.chat|;
    }
  }

  /** A key whose chat is longer than a torn tail is not recovered when glued to that tail. */
  lemma GluedKeyLost(tail: string, r: Record)
    requires tail != "" && '\n' !in tail && Clean(r.key) && |r.key.chat| > |tail|
    ensures r.key !in Parse(tail + Line(r))
  {
    LineRoundTrip(r);
    var text := tail + Fields(r);
    assert tail + Line(r) == text + "\n";
    GluedChat(tail, r);
    if r.key in Parse(text + "\n") {
      ParsedChat(text, r.key);
    }
  }

  lemma BoundaryAppend(content: string, r: Record)
    requires AtBoundary(content) && Clean(r.key)
    ensures Parse(content + Line(r)) == Parse(content) + [r.key]
  {
    ParseConcat(content, Line(r));
    LineRoundTrip(r);
  }

  lemma Cancel<T>(a: seq<T>, b: seq<T>, c: seq<T>)
    requires a + b == a + c
    ensures b == c
  {
    assert b == (a + b)[|a|..];
    assert c == (a + c)[|a|..];
  }

  lemma GluedRecordLost(whole: string, tail: string, r: Record)
    requires AtBoundary(whole) && tail != "" && '\n' !in tail && Clean(r.key) && |r.key.chat| > |tail|
    ensures Parse(whole + tail + Line(r)) != Parse(whole + tail) + [r.key]
  {
    Associative(whole, tail, Line(r));
    ParseConcat(whole, tail + Line(r));
    ParseConcat(whole, tail);
    TornCommitsNothing(tail);
    assert Parse(whole + tail) == Parse(whole);
    if Parse(whole + tail + Line(r)) == Parse(whole + tail) + [r.key] {
      Cancel(Parse(whole), Parse(tail + Line(r)), [r.key]);
      GluedKeyLost(tail, r);
      assert false;
    }
  }

  lemma TornAppend(content: string) returns (r: Record)
    requires !AtBoundary(content)
    ensures Clean(r.key) && Parse(content + Line(r)) != Parse(content) + [r.key]
  {
    var whole, tail := SplitTail(content);
    assert tail != "" by {
      assert whole + "" == whole;
    }
    r := Record(Key(seq(|tail| + 1, _ => 'x'), "", ""), "");
    GluedRecordLost(whole, tail, r);
  }

  /** Appending recovers its record for every clean key exactly when the file ends at a record boundary. */
  lemma AppendSafeIffBoundary(content: string)
    ensures AtBoundary(content) <==>
              forall r: Record :: Clean(r.key) ==> Parse(content + Line(r)) == Parse(content) + [r.key]
  {
    if AtBoundary(content) {
      forall r: Record | Clean(r.key) ensures Parse(content + Line(r)) == Parse(content) + [r.key] {
        BoundaryAppend(content, r);
      }
    } else {
      var r := TornAppend(content);
    }
  }

  lemma {:induction false} LinesAreLines(content: string)
    ensures forall l :: l in SplitInclusive(content) ==> l != "" && '\n' !in l[..|l| - 1]
    decreases |content|
  {
    if content != "" {
      var n := IndexOf(content, '\n');
      if n < |content| {
        LinesAreLines(content[n + 1..]);
        assert content[..n + 1][..n] == content[..n];
      } else {
        assert content[..n] == content;
      }
    }
  }

  /** No part holds a newline, and only the part at the limit may hold a tab. */
  predicate CleanParts(parts: seq<string>, limit: nat) {
    && |parts| <= limit
    && forall i :: 0 <= i < |parts| ==> '\n' !in parts[i] && (i + 1 < limit ==> '\t' !in parts[i])
  }

  lemma CleanPartsCons(first: string, rest: seq<string>, limit: nat)
    requires CleanText(first) && CleanParts(rest, limit)
    ensures CleanParts([first] + rest, limit + 1)
  {
  }

  lemma {:induction false} PartsClean(s: string, limit: nat)
    requires '\n' !in s
    ensures CleanParts(SplitN(s, limit), limit)
    decreases limit
  {
    if limit > 1 {
      var n := IndexOf(s, '\t');
      if n < |s| {
        PartsClean(s[n + 1..], limit - 1);
        CleanPartsCons(s[..n], SplitN(s[n + 1..], limit - 1), limit - 1);
      } else {
        assert s[..n] == s;
      }
    }
  }

  lemma KeyOfClean(line: string)
    requires line != "" && '\n' !in line[..|line| - 1]
    ensures forall k :: k in KeyOf(line) ==> Clean(k)
  {
    if EndsWithNewline(line) {
      var text := line[..|line| - 1];
      assert line == text + "\n";
      OneLine(text);
      PartsClean(text, 4);
    }
  }

  lemma {:induction false} ParsedKeysClean(lines: seq<string>)
    requires forall l :: l in lines ==> l != "" && '\n' !in l[..|l| - 1]
    ensures forall k :: k in Collect(KeyOf, lines) ==> Clean(k)
    decreases |lines|
  {
    if lines != [] {
      ParsedKeysClean(lines[..|lines| - 1]);
      KeyOfClean(lines[|lines| - 1]);
    }
  }

  lemma SplitLast(field: string, limit: nat)
    requires '\t' !in field && limit > 0
    ensures SplitN(field, limit) == [field]
  {
    assert field[..|field|] == field;
    IndexOfUnique(field, '\t', |field|);
  }

  lemma SplitLastTwo(a: string, b: string, limit: nat)
    requires '\t' !in a && '\t' !in b && limit > 1
    ensures SplitN(a + "\t" + b, limit) == [a, b]
  {
    SplitField(a, b, limit);
    SplitLast(b, limit - 1);
  }

  lemma SplitLastThree(a: string, b: string, c: string)
    requires '\t' !in a && '\t' !in b && '\t' !in c
    ensures SplitN(a + "\t" + (b + "\t" + c), 4) == [a, b, c]
  {
    SplitField(a, b + "\t" + c, 4);
    SplitLastTwo(b, c, 3);
  }

  /** A line of three fields is a record whatever wrote it. */
  lemma ThreeFieldsMakeRecord(k: Key)
    requires Clean(k)
    ensures Parse(k.chat + "\t" + (k.sender + "\t" + k.id) + "\n") == [k]
  {
    OneLine(k.chat + "\t" + (k.sender + "\t" + k.id));
    SplitLastThree(k.chat, k.sender, k.id);
  }

  /** So is one of three fields and any rest, further tabs included. */
  lemma MoreFieldsMakeRecord(k: Key, rest: string)
    requires Clean(k) && '\n' !in rest
    ensures Parse(k.chat + "\t" + (k.sender + "\t" + (k.id + "\t" + rest)) + "\n") == [k]
  {
    OneLine(k.chat + "\t" + (k.sender + "\t" + (k.id + "\t" + rest)));
    SplitFour(k.chat, k.sender, k.id, rest);
  }

  /** A line of fewer fields is none. */
  lemma TooFewFields(a: string, b: string)
    requires CleanText(a) && CleanText(b)
    ensures Parse(a + "\n") == [] && Parse(a + "\t" + b + "\n") == []
  {
    OneLine(a);
    SplitLast(a, 4);
    OneLine(a + "\t" + b);
    SplitLastTwo(a, b, 4);
  }

  /** A printed record's key is recovered exactly when its fields hold no tab and no newline. */
  lemma RecoveredIffClean(r: Record)
    ensures r.key in Parse(Line(r)) <==> Clean(r.key)
  {
    LinesAreLines(Line(r));
    ParsedKeysClean(SplitInclusive(Line(r)));
    if Clean(r.key) {
      LineRoundTrip(r);
    }
  }
}
