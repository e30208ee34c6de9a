/**
  The archive as the bytes of a file (examples/durability_hook.rs). Records are written as
  UTF-8, a crash or a failed write may stop anywhere, and the file is read back with
  `read_to_string`, which refuses it as a whole unless all of it is UTF-8.
 */
module ArchiveFile {
  import opened ArchiveFormat
  import opened Common
  import opened Utf8

  /** The keys opening the archive recovers; `None` if it cannot be opened. */
  function Reopen(file: Bytes): Option<seq<Key>> {
    match Decode(file)
    case Some(text) => Some(Parse(text))
    case None => None
  }

  /** The file reads as text and ends at a record boundary. */
  predicate Whole(file: Bytes) {
    Decode(file).Some? && AtBoundary(Decode(file).value)
  }

  function Printed(records: seq<Record>): Bytes {
    Encode(Print(records))
  }

  // ------------------------------------------------------------------
  // Crash recovery
  // ------------------------------------------------------------------

  lemma EncodePrefix(s: string, i: nat, j: nat)
    requires i <= j <= |s|
    ensures |Encode(s[..i])| <= |Encode(s[..j])|
  {
    assert s[..j] == s[..i] + s[i..j];
    EncodeConcat(s[..i], s[i..j]);
  }

  lemma {:induction false} PrintPrefix(records: seq<Record>, n: nat)
    requires n <= |records|
    ensures |Print(records[..n])| <= |Print(records)|
    ensures Print(records[..n]) == Print(records)[..|Print(records[..n])|]
    decreases |records|
  {
    if n == |records| {
      assert records[..n] == records;
    } else {
      var front := records[..|records| - 1];
      PrintPrefix(front, n);
      assert front[..n] == records[..n];
    }
  }

  /** Whole records in front are the bytes of the characters in front. */
  lemma PrintedPrefix(records: seq<Record>, n: nat) returns (k: nat)
    requires n <= |records|
    ensures k == |Print(records[..n])| <= |Print(records)|
    ensures Printed(records[..n]) == Encode(Print(records)[..k])
  {
    PrintPrefix(records, n);
    k := |Print(records[..n])|;
  }

  /** Records whole among the first `m` characters are those whole among the first `cut` bytes. */
  lemma WholeInBytes(records: seq<Record>, n: nat, m: nat, cut: nat)
    requires n <= |records| && |Print(records[..n])| <= m <= |Print(records)|
    requires n < |records| ==> m < |Print(records[..n + 1])|
    requires HoldsWhole(Print(records), cut, m)
    ensures |Printed(records[..n])| <= cut && (n < |records| ==> cut < |Printed(records[..n + 1])|)
  {
    NotPast(records, n, m);
    if n < |records| {
      NotBefore(records, n + 1, m + 1);
    }
  }

  lemma NotPast(records: seq<Record>, n: nat, m: nat)
    requires n <= |records| && |Print(records[..n])| <= m <= |Print(records)|
    ensures |Printed(records[..n])| <= |Encode(Print(records)[..m])|
  {
    var k := PrintedPrefix(records, n);
    EncodePrefix(Print(records), k, m);
  }

  lemma NotBefore(records: seq<Record>, n: nat, m: nat)
    requires n <= |records| && m <= |Print(records[..n])|
    ensures m <= |Print(records)| && |Encode(Print(records)[..m])| <= |Printed(records[..n])|
  {
    var k := PrintedPrefix(records, n);
    EncodePrefix(Print(records), m, k);
  }

  /**
    Crash recovery: however many bytes of an append reached the disk, the archive opens
    exactly if the last of them ends a character, and then with exactly the records that
    reached the disk whole. Otherwise nothing is recovered, of the append or from before it.
   */
  lemma CrashRecovery(before: Bytes, records: seq<Record>, cut: nat) returns (n: nat)
    requires Whole(before) && AllClean(records) && cut <= |Printed(records)|
    ensures n <= |records| && |Printed(records[..n])| <= cut
    ensures n < |records| ==> cut < |Printed(records[..n + 1])|
    ensures Reopen(before + Printed(records)[..cut]) ==
            if CharBoundary(Printed(records), cut) then Some(Reopen(before).value + Keys(records[..n])) else None
  {
    var text := Print(records);
    var m := DecodeCut(text, cut);
    n := CutRecovery(Decode(before).value, records, m);
    WholeInBytes(records, n, m, cut);
    EncodingStartsFresh(text);
    DecodeJoin(before, Printed(records)[..cut]);
  }

  /** Stopped after the first byte of any character that has more, an append makes the archive unreadable. */
  lemma TornCharacterBlocksOpen(before: Bytes, records: seq<Record>, k: nat) returns (cut: nat)
    requires Whole(before) && AllClean(records) && k < |Print(records)| && Print(records)[k] as nat >= 0x80
    ensures cut == |Encode(Print(records)[..k])| + 1 < |Printed(records)|
    ensures Reopen(before).Some? && Reopen(before + Printed(records)[..cut]) == None
  {
    var text := Print(records);
    var front, back := text[..k], text[k..];
    assert text == front + back;
    EncodeConcat(front, back);
    cut := |Encode(front)| + 1;
    assert IsContinuation(EncodeChar(text[k])[1]);
    assert Printed(records)[cut] == EncodeChar(text[k])[1];
    var _ := CrashRecovery(before, records, cut);
  }

  /** One such file: a record with preview U+00E9, stopped after seven of its nine bytes. */
  lemma TornAccentBlocksOpen(before: Bytes)
    requires Whole(before)
    ensures var r := Record(Key("c", "s", "i"), "\U{00E9}");
            |Printed([r])| > 7 && Reopen(before).Some? && Reopen(before + Printed([r])[..7]) == None
  {
    var r := Record(Key("c", "s", "i"), "\U{00E9}");
    AccentAt(r);
    var cut := TornCharacterBlocksOpen(before, [r], 6);
  }

  lemma AccentText(r: Record)
    requires r == Record(Key("c", "s", "i"), "\U{00E9}")
    ensures Print([r]) == "c\ts\ti\t\U{00E9}\n"
  {
    assert [r][..0] == [];
    assert Sanitize("\U{00E9}") == "\U{00E9}";
  }

  lemma AccentAt(r: Record)
    requires r == Record(Key("c", "s", "i"), "\U{00E9}")
    ensures |Print([r])| > 6 && Print([r])[6] as nat >= 0x80 && |Encode(Print([r])[..6])| == 6
  {
    AccentText(r);
    AsciiLength(Print([r])[..6]);
  }

  lemma {:induction false} AsciiLength(s: string)
    requires forall k :: 0 <= k < |s| ==> s[k] as nat < 0x80
    ensures |Encode(s)| == |s|
    decreases |s|
  {
    if s != "" {
      AsciiLength(s[1..]);
    }
  }

  // ------------------------------------------------------------------
  // Appending
  // ------------------------------------------------------------------

  lemma AppendText(file: Bytes, t: string)
    ensures Decode(file + Encode(t)) == Joined(Decode(file), Some(t))
  {
    EncodingStartsFresh(t);
    RoundTrip(t);
    DecodeJoin(file, Encode(t));
  }

  /** No later append, whole or partial, makes an unreadable archive readable again. */
  lemma UnreadableForever(file: Bytes, t: string, cut: nat)
    requires Reopen(file) == None && cut <= |Encode(t)|
    ensures Reopen(file + Encode(t)[..cut]) == None
  {
    EncodingStartsFresh(t);
    DecodeJoin(file, Encode(t)[..cut]);
  }

  /** Appending recovers its record for every clean key exactly when the file reads as whole records. */
  lemma AppendSafeIffWhole(file: Bytes)
    ensures Whole(file) <==>
              forall r: Record :: Clean(r.key) ==>
                Reopen(file).Some? && Reopen(file + Encode(Line(r))) == Some(Reopen(file).value + [r.key])
  {
    var nobody := Record(Key("", "", ""), "");
    assert Clean(nobody.key);
    if Decode(file).Some? {
      AppendSafeIffBoundary(Decode(file).value);
      forall r: Record ensures Reopen(file + Encode(Line(r))) == Some(Parse(Decode(file).value + Line(r))) {
        AppendText(file, Line(r));
      }
    }
  }

  /** Whole records appended to a whole file are recovered behind what was there. */
  lemma AppendWhole(file: Bytes, records: seq<Record>)
    requires Whole(file) && AllClean(records)
    ensures Whole(file + Printed(records))
    ensures Reopen(file + Printed(records)) == Some(Reopen(file).value + Keys(records))
  {
    var text := Decode(file).value;
    AppendText(file, Print(records));
    PrintParses(records);
    ParseConcat(text, Print(records));
    BoundaryConcat(text, Print(records));
  }

  // ------------------------------------------------------------------
  // Prefixes
  // ------------------------------------------------------------------

  /** Whatever can be read from a prefix of a text can be read from the text. */
  lemma PrefixParses(a: string, b: string)
    ensures forall k :: k in Parse(a) ==> k in Parse(a + b)
  {
    var whole, tail := SplitTail(a);
    Associative(whole, tail, b);
    ParseConcat(whole, tail);
    ParseConcat(whole, tail + b);
    TornCommitsNothing(tail);
  }

  /** Behind a readable part, a file opens exactly if the rest reads, and with no key of that part missing. */
  lemma PrefixReads(part: Bytes, rest: Bytes)
    requires Reopen(part).Some?
    ensures Reopen(part + rest).Some? <==> Decode(rest).Some?
    ensures Reopen(part + rest).Some? ==> forall k :: k in Reopen(part).value ==> k in Reopen(part + rest).value
  {
    DecodeExact(part);
    DecodeAfter(Decode(part).value, rest);
    if Decode(rest).Some? {
      PrefixParses(Decode(part).value, Decode(rest).value);
    }
  }
}
