/**
  The durable inbox (examples/durability_hook.rs): a hook that appends a batch of messages
  with one write and one sync before it returns `Ok`, and deduplicates by key.
 */
module InboxArchive {
  import opened ArchiveFile
  import opened ArchiveFormat
  import opened Common
  import opened Utf8

  datatype Message = Message(key: Key, conversation: Option<string>)

  /** What the disk does with one commit; a failed write may leave any bytes of it behind. */
  datatype Disk = Healthy | WriteFails(written: nat) | SyncFails

  /** What reading the archive at start-up finds. */
  datatype ReadResult = Content(bytes: Bytes) | NotFound | ReadError

  function Preview(m: Message): string {
    match m.conversation
    case Some(text) => text
    case None => "<non-text>"
  }

  function KeySet(keys: seq<Key>): set<Key> {
    set k | k in keys
  }

  function BatchKeys(batch: seq<Message>): set<Key> {
    set m | m in batch :: m.key
  }

  /** The records a batch adds: the first message of every key not committed before. */
  function FreshRecords(seen: set<Key>, batch: seq<Message>): seq<Record> {
    if batch == [] then []
    else
      var n := |batch| - 1;
      var front := FreshRecords(seen, batch[..n]);
      if batch[n].key in seen || batch[n].key in Keys(front) then front
      else front + [Record(batch[n].key, Preview(batch[n]))]
  }

  predicate NoDuplicates(keys: seq<Key>) {
    forall i, j :: 0 <= i < j < |keys| ==> keys[i] != keys[j]
  }

  predicate CleanBatch(batch: seq<Message>) {
    forall k :: 0 <= k < |batch| ==> Clean(batch[k].key)
  }

  lemma KeySetSnoc(keys: seq<Key>, k: Key)
    ensures KeySet(keys + [k]) == KeySet(keys) + {k}
  {
  }

  lemma BatchKeysSnoc(batch: seq<Message>, m: Message)
    ensures BatchKeys(batch + [m]) == BatchKeys(batch) + {m.key}
  {
  }

  /** The fresh records are duplicate-free, new, and cover the batch. */
  lemma {:induction false} FreshRecordsExact(seen: set<Key>, batch: seq<Message>)
    ensures var keys := Keys(FreshRecords(seen, batch));
            && NoDuplicates(keys)
            && KeySet(keys) == BatchKeys(batch) - seen
    ensures CleanBatch(batch) ==> AllClean(FreshRecords(seen, batch))
    decreases |batch|
  {
    if batch != [] {
      var n := |batch| - 1;
      var front := FreshRecords(seen, batch[..n]);
      FreshRecordsExact(seen, batch[..n]);
      assert batch == batch[..n] + [batch[n]];
      BatchKeysSnoc(batch[..n], batch[n]);
      KeysSnoc(front, Record(batch[n].key, Preview(batch[n])));
      KeySetSnoc(Keys(front), batch[n].key);
    }
  }

  /** Message `i` is the first of its key in the batch. */
  predicate FirstOfKey(batch: seq<Message>, i: nat) {
    i < |batch| && forall j :: 0 <= j < i ==> batch[j].key != batch[i].key
  }

  ghost predicate RecordsFirst(batch: seq<Message>, r: Record) {
    exists i: nat :: FirstOfKey(batch, i) && r == Record(batch[i].key, Preview(batch[i]))
  }

  /** A key neither committed before nor among the fresh records of the messages in front is new to the batch. */
  lemma NewKeyIsFirst(seen: set<Key>, front: seq<Message>, m: Message)
    requires m.key !in seen && m.key !in Keys(FreshRecords(seen, front))
    ensures FirstOfKey(front + [m], |front|)
  {
    FreshRecordsExact(seen, front);
    assert m.key !in KeySet(Keys(FreshRecords(seen, front)));
    forall j | 0 <= j < |front| ensures front[j].key != m.key {
      assert front[j] in front && front[j].key in BatchKeys(front);
    }
  }

  lemma StaysFirst(front: seq<Message>, m: Message, r: Record)
    requires RecordsFirst(front, r)
    ensures RecordsFirst(front + [m], r)
  {
    var i: nat :| FirstOfKey(front, i) && r == Record(front[i].key, Preview(front[i]));
    assert FirstOfKey(front + [m], i);
  }

  /** Each fresh record is the first message of its key. */
  lemma {:induction false} FreshRecordsFirst(seen: set<Key>, batch: seq<Message>)
    ensures forall r :: r in FreshRecords(seen, batch) ==> RecordsFirst(batch, r)
    decreases |batch|
  {
    if batch != [] {
      var n := |batch| - 1;
      var front, m := batch[..n], batch[n];
      assert batch == front + [m];
      FreshRecordsFirst(seen, front);
      forall r | r in FreshRecords(seen, batch) ensures RecordsFirst(batch, r) {
        if r in FreshRecords(seen, front) {
          StaysFirst(front, m, r);
        } else {
          NewKeyIsFirst(seen, front, m);
        }
      }
    }
  }

  // ------------------------------------------------------------------
  // What is written for a batch
  // ------------------------------------------------------------------

  /** The archived text of a message: its own, with tabs and newlines as spaces, or a placeholder. */
  ghost predicate Shows(conversation: Option<string>, text: string) {
    match conversation
    case None => text == "<non-text>"
    case Some(t) =>
      && |text| == |t|
      && forall k :: 0 <= k < |t| ==> text[k] == if t[k] == '\t' || t[k] == '\n' then ' ' else t[k]
  }

  /** The line of a message that shows `text`; a clean key makes it one line of four fields. */
  ghost predicate LineShows(m: Message, text: string, line: string) {
    && Shows(m.conversation, text)
    && line == m.key.chat + "\t" + (m.key.sender + "\t" + (m.key.id + "\t" + text)) + "\n"
    && (Clean(m.key) ==>
          OneWholeLine(line) && SplitN(line[..|line| - 1], 4) == [m.key.chat, m.key.sender, m.key.id, text])
  }

  ghost predicate ArchivedAs(m: Message, line: string) {
    exists text: string :: LineShows(m, text, line)
  }

  /** Message `i` is the first of a key that is not committed. */
  predicate NewKey(seen: set<Key>, batch: seq<Message>, i: nat) {
    FirstOfKey(batch, i) && batch[i].key !in seen
  }

  /** Exactly the messages of new keys, in batch order. */
  ghost predicate Picks(seen: set<Key>, batch: seq<Message>, picked: seq<nat>) {
    && (forall i, j :: 0 <= i < j < |picked| ==> picked[i] < picked[j])
    && (forall j :: 0 <= j < |picked| ==> NewKey(seen, batch, picked[j]))
    && (forall i: nat :: NewKey(seen, batch, i) ==> i in picked)
  }

  ghost predicate Archives(seen: set<Key>, batch: seq<Message>, picked: seq<nat>, lines: seq<string>) {
    && Picks(seen, batch, picked) && |lines| == |picked|
    && forall j :: 0 <= j < |picked| ==> ArchivedAs(batch[picked[j]], lines[j])
  }

  /** The text is one line per first message of an uncommitted key, in batch order, and nothing else. */
  ghost predicate ArchivesBatch(seen: set<Key>, batch: seq<Message>, written: string) {
    exists picked: seq<nat>, lines: seq<string> :: Archives(seen, batch, picked, lines) && EndToEnd(lines, written)
  }

  lemma RecordShows(m: Message)
    ensures ArchivedAs(m, Line(Record(m.key, Preview(m))))
  {
    var r := Record(m.key, Preview(m));
    var text := Sanitize(r.preview);
    assert CleanText("<non-text>");
    assert Shows(m.conversation, text);
    if Clean(m.key) {
      LineRoundTrip(r);
      assert Line(r)[..|Line(r)| - 1] == Fields(r);
    }
    assert LineShows(m, text, Line(r));
  }

  lemma NewKeyInFront(seen: set<Key>, front: seq<Message>, m: Message, i: nat)
    requires i < |front|
    ensures NewKey(seen, front + [m], i) <==> NewKey(seen, front, i)
  {
    assert forall j :: 0 <= j <= i ==> (front + [m])[j] == front[j];
  }

  lemma NewKeyLast(seen: set<Key>, front: seq<Message>, m: Message)
    ensures NewKey(seen, front + [m], |front|) <==> m.key !in seen && m.key !in Keys(FreshRecords(seen, front))
  {
    if m.key !in seen {
      if m.key in Keys(FreshRecords(seen, front)) {
        FreshRecordsExact(seen, front);
        assert m.key in KeySet(Keys(FreshRecords(seen, front)));
        var n :| n in front && n.key == m.key;
        var j :| 0 <= j < |front| && front[j] == n;
        assert (front + [m])[j].key == m.key;
      } else {
        NewKeyIsFirst(seen, front, m);
      }
    }
  }

  /** The picked messages stay picked, and no other message in front is new. */
  lemma PicksFront(seen: set<Key>, front: seq<Message>, m: Message, picked: seq<nat>)
    requires Picks(seen, front, picked)
    ensures forall j :: 0 <= j < |picked| ==> picked[j] < |front| && NewKey(seen, front + [m], picked[j])
    ensures forall i: nat :: i < |front| && NewKey(seen, front + [m], i) ==> i in picked
  {
    forall j | 0 <= j < |picked| ensures picked[j] < |front| && NewKey(seen, front + [m], picked[j]) {
      NewKeyInFront(seen, front, m, picked[j]);
    }
    forall i: nat | i < |front| && NewKey(seen, front + [m], i) ensures i in picked {
      NewKeyInFront(seen, front, m, i);
    }
  }

  lemma PicksAdd(seen: set<Key>, front: seq<Message>, m: Message, picked: seq<nat>)
    requires Picks(seen, front, picked) && NewKey(seen, front + [m], |front|)
    ensures Picks(seen, front + [m], picked + [|front|])
  {
    PicksFront(seen, front, m, picked);
    var after := picked + [|front|];
    forall i: nat | NewKey(seen, front + [m], i) ensures i in after {
      assert after[|picked|] == |front|;
    }
  }

  lemma PicksKeep(seen: set<Key>, front: seq<Message>, m: Message, picked: seq<nat>)
    requires Picks(seen, front, picked) && !NewKey(seen, front + [m], |front|)
    ensures Picks(seen, front + [m], picked)
  {
    PicksFront(seen, front, m, picked);
  }

  lemma ArchivesSnoc(seen: set<Key>, front: seq<Message>, m: Message, picked: seq<nat>, lines: seq<string>)
    requires Archives(seen, front, picked, lines)
    ensures if NewKey(seen, front + [m], |front|)
            then Archives(seen, front + [m], picked + [|front|], lines + [Line(Record(m.key, Preview(m)))])
            else Archives(seen, front + [m], picked, lines)
  {
    if NewKey(seen, front + [m], |front|) {
      PicksAdd(seen, front, m, picked);
      RecordShows(m);
    } else {
      PicksKeep(seen, front, m, picked);
    }
  }

  /** The printed fresh records are such lines. */
  lemma {:induction false} FreshArchived(seen: set<Key>, batch: seq<Message>) returns (picked: seq<nat>, lines: seq<string>)
    ensures Archives(seen, batch, picked, lines) && Print(FreshRecords(seen, batch)) == Concat(lines)
    decreases |batch|
  {
    if batch == [] {
      picked, lines := [], [];
    } else {
      var n := |batch| - 1;
      var front, m := batch[..n], batch[n];
      assert batch == front + [m];
      picked, lines := FreshArchived(seen, front);
      ArchivesSnoc(seen, front, m, picked, lines);
      NewKeyLast(seen, front, m);
      if NewKey(seen, batch, n) {
        var r := Record(m.key, Preview(m));
        PrintSnoc(FreshRecords(seen, front), r);
        ConcatSnoc(lines, Line(r));
        picked, lines := picked + [n], lines + [Line(r)];
      }
    }
  }

  lemma FreshArchivesBatch(seen: set<Key>, batch: seq<Message>)
    ensures ArchivesBatch(seen, batch, Print(FreshRecords(seen, batch)))
  {
    var picked, lines := FreshArchived(seen, batch);
    ConcatEndToEnd(lines);
  }

  lemma NothingFresh(seen: set<Key>, batch: seq<Message>)
    ensures FreshRecords(seen, batch) == [] <==> BatchKeys(batch) <= seen
  {
    FreshRecordsExact(seen, batch);
    var keys := Keys(FreshRecords(seen, batch));
    if keys != [] {
      assert keys[0] in KeySet(keys);
    } else {
      assert BatchKeys(batch) - seen == {};
    }
  }

  // ------------------------------------------------------------------
  // What a hook holds, and what it may do to it
  // ------------------------------------------------------------------

  /** The file, how much of it is certain to survive a crash, and the keys known to be committed. */
  datatype Store = Store(file: Bytes, synced: nat, seen: set<Key>)

  /** The file opens, and with all of these keys. */
  ghost predicate Reads(file: Bytes, keys: set<Key>) {
    Reopen(file).Some? && keys <= KeySet(Reopen(file).value)
  }

  /** Every key the hook takes for committed can be read back from the synced bytes. */
  ghost predicate Durable(s: Store) {
    s.synced <= |s.file| && Reads(s.file[..s.synced], s.seen)
  }

  /** A successful `on_messages`; a batch with nothing new writes and syncs nothing. */
  ghost function CommitBatch(s: Store, batch: seq<Message>): Store {
    if BatchKeys(batch) <= s.seen then s
    else
      var file := s.file + Printed(FreshRecords(s.seen, batch));
      Store(file, |file|, s.seen + BatchKeys(batch))
  }

  /** What `on_messages` may do: commit the batch, or fail and leave any bytes of it behind. */
  ghost predicate Attempted(s: Store, batch: seq<Message>, ok: bool, t: Store) {
    if ok then t == CommitBatch(s, batch)
    else
      && t.seen == s.seen && t.synced == s.synced
      && s.file <= t.file <= s.file + Printed(FreshRecords(s.seen, batch))
  }

  /** The file grew by the encoded lines of the batch. */
  ghost predicate Appends(before: Bytes, seen: set<Key>, batch: seq<Message>, after: Bytes) {
    exists written :: ArchivesBatch(seen, batch, written) && after == before + Encode(written)
  }

  lemma CommitAppends(s: Store, batch: seq<Message>)
    ensures Appends(s.file, s.seen, batch, CommitBatch(s, batch).file)
  {
    FreshArchivesBatch(s.seen, batch);
    NothingFresh(s.seen, batch);
    assert s.file + [] == s.file;
  }

  lemma KeySetConcat(a: seq<Key>, b: seq<Key>)
    ensures KeySet(a + b) == KeySet(a) + KeySet(b)
  {
  }

  lemma KeySetPrefix(a: seq<Key>, b: seq<Key>)
    requires a <= b
    ensures KeySet(a) <= KeySet(b)
  {
    assert b == a + b[|a|..];
  }

  lemma AppendedKeys(file: Bytes, records: seq<Record>)
    requires Whole(file) && AllClean(records)
    ensures var after := file + Printed(records);
            && Whole(after) && Reopen(file).value <= Reopen(after).value
            && KeySet(Reopen(after).value) == KeySet(Reopen(file).value) + KeySet(Keys(records))
  {
    AppendWhole(file, records);
    KeySetConcat(Reopen(file).value, Keys(records));
  }

  /** A commit to a whole file keeps it whole, loses nothing, and makes the batch's keys readable. */
  lemma CommitReads(s: Store, batch: seq<Message>)
    requires Whole(s.file) && Reads(s.file, s.seen) && CleanBatch(batch)
    ensures var t := CommitBatch(s, batch);
            && Whole(t.file) && Reads(t.file, t.seen) && BatchKeys(batch) <= t.seen
            && (!(BatchKeys(batch) <= s.seen) ==> Durable(t))
            && Reopen(s.file).value <= Reopen(t.file).value
  {
    if BatchKeys(batch) <= s.seen {
      return;
    }
    var records := FreshRecords(s.seen, batch);
    FreshRecordsExact(s.seen, batch);
    AppendedKeys(s.file, records);
    var t := CommitBatch(s, batch);
    assert Reads(t.file, t.seen);
    assert t.file[..|t.file|] == t.file;
  }

  /** The key of a complete record; a torn line and one of too few fields have none. */
  method SeedLine(line: string) returns (keys: set<Key>)
    ensures keys == KeySet(KeyOf(line))
  {
    keys := {};
    if EndsWithNewline(line) {
      var parts := SplitN(TrimEndNewlines(line), 4);
      if |parts| >= 3 {
        keys := {Key(parts[0], parts[1], parts[2])};
      }
    }
  }

  lemma CollectStep(lines: seq<string>, i: nat)
    requires i < |lines|
    ensures KeySet(Collect(KeyOf, lines[..i + 1])) == KeySet(Collect(KeyOf, lines[..i])) + KeySet(KeyOf(lines[i]))
  {
    assert lines[..i + 1][..i] == lines[..i];
    KeySetConcat(Collect(KeyOf, lines[..i]), KeyOf(lines[i]));
  }

  /** Collects exactly the keys of the complete records. */
  method Seed(content: string) returns (keys: set<Key>)
    ensures keys == KeySet(Parse(content))
  {
    var lines := SplitInclusive(content);
    keys := {};
    for i := 0 to |lines|
      invariant keys == KeySet(Collect(KeyOf, lines[..i]))
    {
      var found := SeedLine(lines[i]);
      CollectStep(lines, i);
      keys := keys + found;
    }
    assert lines[..|lines|] == lines;
  }

  class InboxArchiver {
    var file: Bytes
    var seen: set<Key>
    ghost var synced: nat

    ghost function View(): Store
      reads this
    {
      Store(file, synced, seen)
    }

    /** Opening seeds the dedup set and syncs nothing. */
    constructor Open(bytes: Bytes, content: string, ghost durable: nat)
      requires Decode(bytes) == Some(content)
      ensures View() == Store(bytes, durable, KeySet(Reopen(bytes).value))
    {
      var keys := Seed(content);
      file, synced, seen := bytes, durable, keys;
    }

    /** Skips what is committed or repeated, printing the rest in order. */
    method Prepare(batch: seq<Message>) returns (lines: string, keys: seq<Key>)
      ensures ArchivesBatch(seen, batch, lines)
      ensures lines == Print(FreshRecords(seen, batch)) && keys == Keys(FreshRecords(seen, batch))
    {
      FreshArchivesBatch(seen, batch);
      lines, keys := "", [];
      for i := 0 to |batch|
        invariant lines == Print(FreshRecords(seen, batch[..i])) && keys == Keys(FreshRecords(seen, batch[..i]))
      {
        var m := batch[i];
        assert batch[..i + 1][..i] == batch[..i];
        if m.key in seen || m.key in keys {
          continue;
        }
        var r := Record(m.key, Preview(m));
        PrintSnoc(FreshRecords(seen, batch[..i]), r);
        KeysSnoc(FreshRecords(seen, batch[..i]), r);
        lines := lines + Line(r);
        keys := keys + [m.key];
      }
      assert batch[..|batch|] == batch;
    }

    /** Append the encoded lines, then sync: all or nothing for the acknowledgement, not for the bytes. */
    method Commit(lines: string, disk: Disk) returns (ok: bool)
      modifies this`file, this`synced
      ensures ok <==> disk.Healthy?
      ensures ok ==> file == old(file) + Encode(lines) && synced == |file|
      ensures !ok ==> synced == old(synced) && old(file) <= file <= old(file) + Encode(lines)
    {
      var bytes := Encode(lines);
      match disk
      case Healthy =>
        file := file + bytes;
        synced := |file|;
        ok := true;
      case WriteFails(written) =>
        file := file + bytes[..if written <= |bytes| then written else |bytes|];
        ok := false;
      case SyncFails =>
        file := file + bytes;
        ok := false;
    }

    /** Prepare, commit if there is anything to write, and only then remember the keys. */
    method CommitFresh(batch: seq<Message>, disk: Disk) returns (ok: bool)
      modifies this
      ensures ok <==> disk.Healthy? || BatchKeys(batch) <= old(seen)
      ensures Attempted(old(View()), batch, ok, View())
    {
      ghost var before := View();
      var lines, keys := Prepare(batch);
      FreshRecordsExact(seen, batch);
      NothingFresh(seen, batch);
      if keys == [] {
        return true;
      }
      ok := Commit(lines, disk);
      if !ok {
        return;
      }
      seen := seen + KeySet(keys);
      assert View() == CommitBatch(before, batch);
    }

    /**
      `Ok` means every key of the batch is taken for committed, and its new messages are in the
      file as lines of their own; from a whole file that reads all known keys, a batch that
      wrote anything leaves every key readable from synced bytes. An error acknowledges nothing.
     */
    method OnMessages(batch: seq<Message>, disk: Disk) returns (ok: bool)
      modifies this
      ensures ok <==> disk.Healthy? || BatchKeys(batch) <= old(seen)
      ensures Attempted(old(View()), batch, ok, View())
      ensures seen == if ok then old(seen) + BatchKeys(batch) else old(seen)
      ensures ok ==> Appends(old(file), old(seen), batch, file)
      ensures !ok ==> synced == old(synced) && old(file) <= file
      ensures ok && CleanBatch(batch) && Whole(old(file)) && Reads(old(file), old(seen)) ==>
                && Whole(file) && Reads(file, seen)
                && (old(Durable(View())) || !(BatchKeys(batch) <= old(seen)) ==> Durable(View()))
    {
      ghost var before := View();
      ok := CommitFresh(batch, disk);
      AttemptMeans(before, batch, ok, View());
    }
  }

  /** What an attempt means for the keys, the lines and the synced bytes. */
  lemma AttemptMeans(s: Store, batch: seq<Message>, ok: bool, t: Store)
    requires Attempted(s, batch, ok, t)
    ensures t.seen == if ok then s.seen + BatchKeys(batch) else s.seen
    ensures ok ==> Appends(s.file, s.seen, batch, t.file)
    ensures !ok ==> t.synced == s.synced && s.file <= t.file
    ensures ok && CleanBatch(batch) && Whole(s.file) && Reads(s.file, s.seen) ==>
              && Whole(t.file) && Reads(t.file, t.seen)
              && (Durable(s) || !(BatchKeys(batch) <= s.seen) ==> Durable(t))
  {
    CommitAppends(s, batch);
    if CleanBatch(batch) && Whole(s.file) && Reads(s.file, s.seen) {
      CommitReads(s, batch);
    }
  }

  /**
    A missing archive is a fresh start. Any other read error, and a file that is not UTF-8,
    fails rather than start with an empty dedup set.
   */
  method OpenArchive(read: ReadResult, ghost durable: nat) returns (archiver: InboxArchiver?)
    ensures archiver == null <==> read.ReadError? || (read.Content? && Reopen(read.bytes) == None)
    ensures archiver != null ==> fresh(archiver)
    ensures archiver != null && read.Content? ==>
              archiver.View() == Store(read.bytes, durable, KeySet(Reopen(read.bytes).value))
    ensures read.NotFound? ==> archiver.View() == Store([], durable, {})
  {
    if read.ReadError? {
      return null;
    }
    var bytes: Bytes := if read.Content? then read.bytes else [];
    var text := Decode(bytes);
    if text.None? {
      return null;
    }
    archiver := new InboxArchiver.Open(bytes, text.value, durable);
    assert Parse("") == [];
  }

  // ------------------------------------------------------------------
  // Runs without failures
  // ------------------------------------------------------------------

  ghost function RunBatches(s: Store, batches: seq<seq<Message>>): Store {
    if batches == [] then s
    else CommitBatch(RunBatches(s, batches[..|batches| - 1]), batches[|batches| - 1])
  }

  lemma NoDuplicatesConcat(a: seq<Key>, b: seq<Key>)
    requires NoDuplicates(a) && NoDuplicates(b) && KeySet(a) !! KeySet(b)
    ensures NoDuplicates(a + b)
  {
    var c := a + b;
    forall i, j | 0 <= i < j < |c| ensures c[i] != c[j] {
      if i < |a| <= j {
        assert c[i] in KeySet(a) && c[j] in KeySet(b);
      }
    }
  }

  /** The dedup set is exactly what opening the file would seed it with. */
  ghost predicate InStep(s: Store) {
    Whole(s.file) && s.seen == KeySet(Reopen(s.file).value)
  }

  lemma CommitAccounted(s: Store, batch: seq<Message>)
    requires InStep(s) && CleanBatch(batch)
    ensures var t := CommitBatch(s, batch);
            && InStep(t) && Reopen(s.file).value <= Reopen(t.file).value
            && (NoDuplicates(Reopen(s.file).value) ==> NoDuplicates(Reopen(t.file).value))
  {
    var records := FreshRecords(s.seen, batch);
    var keys := Reopen(s.file).value;
    FreshRecordsExact(s.seen, batch);
    AppendWhole(s.file, records);
    KeySetConcat(keys, Keys(records));
    if NoDuplicates(keys) {
      NoDuplicatesConcat(keys, Keys(records));
    }
  }

  /**
    Error-free runs: for any sequence of batches appended to an archive of whole records, a
    restart rebuilds exactly the dedup set held in memory, nothing read before is lost, and no
    key is appended twice, within or across batches.
   */
  lemma {:induction false} ErrorFreeRuns(s: Store, batches: seq<seq<Message>>)
    requires InStep(s) && forall k :: 0 <= k < |batches| ==> CleanBatch(batches[k])
    ensures var t := RunBatches(s, batches);
            && InStep(t) && Reopen(s.file).value <= Reopen(t.file).value
            && (NoDuplicates(Reopen(s.file).value) ==> NoDuplicates(Reopen(t.file).value))
    decreases |batches|
  {
    if batches != [] {
      var n := |batches| - 1;
      ErrorFreeRuns(s, batches[..n]);
      CommitAccounted(RunBatches(s, batches[..n]), batches[n]);
    }
  }

  // ------------------------------------------------------------------
  // Runs with failures, crashes and restarts
  // ------------------------------------------------------------------

  /** A call of the hook, or a crash that leaves `kept` bytes and a restart on them. */
  datatype Event = Attempt(batch: seq<Message>, ok: bool) | Restart(kept: nat)

  ghost predicate Happens(s: Store, e: Event, t: Store) {
    match e
    case Attempt(batch, ok) => Attempted(s, batch, ok, t)
    case Restart(kept) =>
      && s.synced <= kept <= |s.file| && Reopen(s.file[..kept]).Some?
      && t == Store(s.file[..kept], s.synced, KeySet(Reopen(s.file[..kept]).value))
  }

  /** Event `k` leads from `stores[k]` to `stores[k + 1]`. */
  ghost predicate StepAt(stores: seq<Store>, events: seq<Event>, k: nat) {
    k < |events| && k + 1 < |stores| && Happens(stores[k], events[k], stores[k + 1])
  }

  ghost predicate IsRun(stores: seq<Store>, events: seq<Event>) {
    && |stores| == |events| + 1
    && forall k: nat :: k < |events| ==> StepAt(stores, events, k)
  }

  /** The keys an event acknowledges. */
  ghost function Acks(e: Event): set<Key> {
    if e.Attempt? && e.ok then BatchKeys(e.batch) else {}
  }

  /** The keys of the batches acknowledged among the first `k` events. */
  ghost function Acknowledged(events: seq<Event>, k: nat): set<Key>
    requires k <= |events|
  {
    if k == 0 then {} else Acknowledged(events, k - 1) + Acks(events[k - 1])
  }

  /** A successful call that had something new to write, and so synced the file. */
  ghost predicate Writes(s: Store, e: Event) {
    e.Attempt? && e.ok && !(BatchKeys(e.batch) <= s.seen)
  }

  /** Writes are of clean keys and go behind whole records. */
  ghost predicate WritesWhole(s: Store, e: Event) {
    Writes(s, e) ==> CleanBatch(e.batch) && Whole(s.file)
  }

  ghost predicate WholeAt(stores: seq<Store>, events: seq<Event>, i: nat) {
    i < |events| < |stores| && WritesWhole(stores[i], events[i])
  }

  /** Among the first `k` events, one since the last restart wrote. */
  ghost predicate WroteSince(stores: seq<Store>, events: seq<Event>, k: nat)
    requires k <= |events| < |stores|
  {
    k > 0 && !events[k - 1].Restart? && (Writes(stores[k - 1], events[k - 1]) || WroteSince(stores, events, k - 1))
  }

  /** The store the process running after `k` events was opened with. */
  ghost function OpenedWith(stores: seq<Store>, events: seq<Event>, k: nat): Store
    requires k <= |events| < |stores|
  {
    if k == 0 || events[k - 1].Restart? then stores[k] else OpenedWith(stores, events, k - 1)
  }

  /** Synced when the running process opened the file, or by a write of its own since. */
  ghost predicate SyncedKeys(stores: seq<Store>, events: seq<Event>, k: nat, keys: set<Key>)
    requires k <= |events| < |stores|
  {
    var o := OpenedWith(stores, events, k);
    WroteSince(stores, events, k) || (o.synced <= |o.file| && Reads(o.file[..o.synced], keys))
  }

  /** The synced bytes are part of the file, and the known keys are in the file, if it reads at all. */
  ghost predicate Known(s: Store) {
    s.synced <= |s.file| && (Reopen(s.file).Some? ==> Reads(s.file, s.seen))
  }

  /** What is readable from a prefix is readable from any longer file that reads at all. */
  lemma ReadsMore(file: Bytes, n: nat, keys: set<Key>)
    requires n <= |file| && Reads(file[..n], keys)
    ensures Reopen(file).Some? <==> Decode(file[n..]).Some?
    ensures Reopen(file).Some? ==> Reads(file, keys)
  {
    assert file == file[..n] + file[n..];
    PrefixReads(file[..n], file[n..]);
  }

  /** A failed attempt leaves the synced bytes, and a file that reads afterwards read before. */
  lemma FailureKnown(s: Store, batch: seq<Message>, t: Store)
    requires Known(s) && Attempted(s, batch, false, t)
    ensures Known(t) && t.file[..t.synced] == s.file[..s.synced]
  {
    assert t.file[..t.synced] == s.file[..s.synced];
    var text := Print(FreshRecords(s.seen, batch));
    var cut := |t.file| - |s.file|;
    assert t.file == s.file + Encode(text)[..cut];
    if Reopen(t.file).Some? {
      if Reopen(s.file) == None {
        UnreadableForever(s.file, text, cut);
      }
      assert t.file[..|s.file|] == s.file;
      ReadsMore(t.file, |s.file|, s.seen);
    }
  }

  /** One event: a write makes all known keys durable, and only a restart can make them otherwise. */
  lemma EventKnown(s: Store, e: Event, t: Store)
    requires Known(s) && Happens(s, e, t) && WritesWhole(s, e)
    ensures Known(t)
    ensures Writes(s, e) ==> Durable(t)
    ensures !Writes(s, e) ==> t.synced == s.synced && t.file[..t.synced] == s.file[..s.synced]
    ensures !Writes(s, e) && !e.Restart? ==> t.seen == s.seen
  {
    match e
    case Attempt(batch, true) =>
      if Writes(s, e) {
        CommitReads(s, batch);
      }
    case Attempt(batch, false) => FailureKnown(s, batch, t);
    case Restart(kept) => assert t.file[..t.synced] == s.file[..s.synced];
  }

  /** What a running process has in synced bytes: all it knows if it has written, and else what it opened with. */
  ghost predicate KnownAt(stores: seq<Store>, events: seq<Event>, k: nat)
    requires k <= |events| < |stores|
  {
    var s, o := stores[k], OpenedWith(stores, events, k);
    && Known(s)
    && (WroteSince(stores, events, k) ==> Durable(s))
    && (!WroteSince(stores, events, k) ==>
          o.synced == s.synced && o.synced <= |o.file| && o.file[..o.synced] == s.file[..s.synced])
  }

  lemma KnownStep(stores: seq<Store>, events: seq<Event>, k: nat)
    requires StepAt(stores, events, k) && |events| < |stores| && KnownAt(stores, events, k)
    requires WholeAt(stores, events, k)
    ensures KnownAt(stores, events, k + 1)
  {
    EventKnown(stores[k], events[k], stores[k + 1]);
  }

  lemma {:induction false} RunKnown(stores: seq<Store>, events: seq<Event>, k: nat)
    requires IsRun(stores, events) && k <= |events| && Known(stores[0])
    requires forall i: nat :: i < k ==> WholeAt(stores, events, i)
    ensures KnownAt(stores, events, k)
  {
    if k > 0 {
      RunKnown(stores, events, k - 1);
      assert StepAt(stores, events, k - 1) && WholeAt(stores, events, k - 1);
      KnownStep(stores, events, k - 1);
    }
  }

  /**
    Known keys, over any run of batches, failures, crashes and restarts whose writes go behind
    whole records: a known batch can be read back from the synced bytes exactly if the running
    process has written anything, or the batch was in the synced bytes it was opened with.
   */
  lemma KnownIsDurableIff(stores: seq<Store>, events: seq<Event>, k: nat, batch: seq<Message>)
    requires IsRun(stores, events) && k <= |events| && Known(stores[0])
    requires forall i: nat :: i < k ==> WholeAt(stores, events, i)
    requires BatchKeys(batch) <= stores[k].seen
    ensures stores[k].synced <= |stores[k].file|
    ensures Reads(stores[k].file[..stores[k].synced], BatchKeys(batch)) <==>
              SyncedKeys(stores, events, k, BatchKeys(batch))
  {
    RunKnown(stores, events, k);
  }

  // ------------------------------------------------------------------
  // At-least-once
  // ------------------------------------------------------------------

  /**
    What the hook's callers must see to: a call that writes does so behind whole records, and
    one that acknowledges known keys without writing runs in a process that has written
    already, or was opened with these keys synced.
   */
  ghost predicate Sound(stores: seq<Store>, events: seq<Event>, i: nat)
    requires i < |events| < |stores|
  {
    && WritesWhole(stores[i], events[i])
    && (events[i].Attempt? && events[i].ok && !Writes(stores[i], events[i]) ==>
          SyncedKeys(stores, events, i, BatchKeys(events[i].batch)))
  }

  /** The first `n` calls are sound. */
  ghost predicate AllSound(stores: seq<Store>, events: seq<Event>, n: nat) {
    n <= |events| < |stores| && forall i: nat :: i < n ==> Sound(stores, events, i)
  }

  /** A write keeps what was readable from synced bytes there, and adds its batch. */
  lemma WriteKeeps(s: Store, batch: seq<Message>, acknowledged: set<Key>)
    requires Known(s) && Reads(s.file[..s.synced], acknowledged)
    requires Writes(s, Attempt(batch, true)) && CleanBatch(batch) && Whole(s.file)
    ensures var t := CommitBatch(s, batch);
            t.synced <= |t.file| && Reads(t.file[..t.synced], acknowledged + BatchKeys(batch))
  {
    ReadsMore(s.file, s.synced, acknowledged);
    CommitReads(s, batch);
    var t := CommitBatch(s, batch);
    KeySetPrefix(Reopen(s.file).value, Reopen(t.file).value);
    assert Reads(t.file, acknowledged + BatchKeys(batch));
    assert t.file[..t.synced] == t.file;
  }

  /** These keys are in the synced bytes. */
  ghost predicate Holds(s: Store, keys: set<Key>) {
    Known(s) && Reads(s.file[..s.synced], keys)
  }

  /** One event whose acknowledged keys, if it does not write them, are in the synced bytes. */
  lemma EventKeeps(s: Store, e: Event, t: Store, acknowledged: set<Key>, after: set<Key>)
    requires Holds(s, acknowledged) && Happens(s, e, t) && WritesWhole(s, e)
    requires (!Writes(s, e) ==> Holds(s, Acks(e))) && after == acknowledged + Acks(e)
    ensures Holds(t, after)
  {
    EventKnown(s, e, t);
    if Writes(s, e) {
      WriteKeeps(s, e.batch, acknowledged);
    }
  }

  /** A sound acknowledgement of known keys finds them in the synced bytes. */
  lemma SoundKnown(stores: seq<Store>, events: seq<Event>, k: nat)
    requires IsRun(stores, events) && AllSound(stores, events, k + 1) && Holds(stores[0], {}) && Holds(stores[k], {})
    ensures Happens(stores[k], events[k], stores[k + 1]) && WritesWhole(stores[k], events[k])
    ensures !Writes(stores[k], events[k]) ==> Holds(stores[k], Acks(events[k]))
  {
    forall i: nat | i <= k ensures WholeAt(stores, events, i) {
      assert Sound(stores, events, i);
    }
    assert StepAt(stores, events, k) && Sound(stores, events, k) && WholeAt(stores, events, k);
    if Acks(events[k]) != {} && !Writes(stores[k], events[k]) {
      KnownIsDurableIff(stores, events, k, events[k].batch);
    }
  }

  /** Everything acknowledged among the first `k` events is in the synced bytes. */
  ghost predicate HeldAt(stores: seq<Store>, events: seq<Event>, k: nat) {
    k <= |events| < |stores| && Holds(stores[k], Acknowledged(events, k))
  }

  lemma SoundKeeps(stores: seq<Store>, events: seq<Event>, k: nat)
    requires IsRun(stores, events) && AllSound(stores, events, k + 1) && Holds(stores[0], {})
    requires HeldAt(stores, events, k)
    ensures HeldAt(stores, events, k + 1)
  {
    SoundKnown(stores, events, k);
    EventKeeps(stores[k], events[k], stores[k + 1], Acknowledged(events, k), Acknowledged(events, k + 1));
  }

  lemma FewerSound(stores: seq<Store>, events: seq<Event>, n: nat, k: nat)
    requires AllSound(stores, events, n) && k <= n
    ensures AllSound(stores, events, k)
  {
  }

  lemma {:induction false} RunKeepsAcknowledged(stores: seq<Store>, events: seq<Event>, n: nat, k: nat)
    requires IsRun(stores, events) && AllSound(stores, events, n) && k <= n && Holds(stores[0], {})
    ensures HeldAt(stores, events, k)
    decreases k
  {
    if k > 0 {
      RunKeepsAcknowledged(stores, events, n, k - 1);
      FewerSound(stores, events, n, k);
      SoundKeeps(stores, events, k - 1);
    }
  }

  /**
    At-least-once: over any run of batches, failed writes and syncs, crashes and restarts with
    sound calls, a crash that keeps the synced bytes and any number of those behind them leaves
    an archive that opens exactly if the bytes behind are UTF-8, and then with every key ever
    acknowledged.
   */
  lemma AcknowledgedSurvives(stores: seq<Store>, events: seq<Event>, k: nat, kept: nat)
    requires IsRun(stores, events) && AllSound(stores, events, k) && Holds(stores[0], {})
    requires stores[k].synced <= kept <= |stores[k].file|
    ensures var s := stores[k];
            && (Reopen(s.file[..kept]).Some? <==> Decode(s.file[s.synced..kept]).Some?)
            && (Reopen(s.file[..kept]).Some? ==> Reads(s.file[..kept], Acknowledged(events, k)))
            && Reads(s.file[..s.synced], Acknowledged(events, k))
  {
    RunKeepsAcknowledged(stores, events, k, k);
    var s := stores[k];
    var file := s.file[..kept];
    assert file[..s.synced] == s.file[..s.synced] && file[s.synced..] == s.file[s.synced..kept];
    ReadsMore(file, s.synced, Acknowledged(events, k));
  }

  // ------------------------------------------------------------------
  // Runs that lose an acknowledged message
  // ------------------------------------------------------------------

  const Fresh := Store([], 0, {})

  lemma SingleFresh(m: Message)
    ensures FreshRecords({}, [m]) == [Record(m.key, Preview(m))] && BatchKeys([m]) == {m.key}
  {
    assert [m][..0] == [];
  }

  lemma SingleReopens(r: Record)
    requires Clean(r.key)
    ensures Printed([r]) == Encode(Line(r)) && Reopen(Printed([r])) == Some([r.key])
  {
    PrintSnoc([], r);
    assert [] + [r] == [r] && Print([]) + Line(r) == Line(r);
    LineRoundTrip(r);
    RoundTrip(Line(r));
  }

  /** A failed write of one message leaves any part of its record. */
  lemma FailureLeaves(m: Message, part: Bytes)
    requires part <= Printed([Record(m.key, Preview(m))])
    ensures Happens(Fresh, Attempt([m], false), Store(part, 0, {}))
  {
    SingleFresh(m);
    assert [] + Printed([Record(m.key, Preview(m))]) == Printed([Record(m.key, Preview(m))]);
  }

  lemma RestartsOn(file: Bytes, keys: seq<Key>)
    requires Reopen(file) == Some(keys)
    ensures Happens(Store(file, 0, {}), Restart(|file|), Store(file, 0, KeySet(keys)))
  {
    assert file[..|file|] == file;
  }

  /**
    Written but not synced, read back after a restart, and acknowledged as known: in this run
    from an empty archive the message is acknowledged and a crash loses it.
   */
  lemma UnsyncedAcknowledged(m: Message) returns (stores: seq<Store>, events: seq<Event>)
    requires Clean(m.key)
    ensures IsRun(stores, events) && |stores| == 4 && stores[0] == Fresh
    ensures events == [Attempt([m], false), Restart(|stores[1].file|), Attempt([m], true)]
    ensures Acknowledged(events, 3) == {m.key}
    ensures stores[3].synced == 0 && Reopen(stores[3].file[..0]) == Some([])
  {
    var r := Record(m.key, Preview(m));
    var file := Printed([r]);
    SingleFresh(m);
    SingleReopens(r);
    var after := Store(file, 0, KeySet([m.key]));
    stores := [Fresh, Store(file, 0, {}), after, after];
    events := [Attempt([m], false), Restart(|file|), Attempt([m], true)];
    FailureLeaves(m, file);
    RestartsOn(file, [m.key]);
    KnownIsAcknowledged(after, m);
    assert StepAt(stores, events, 0) && StepAt(stores, events, 1) && StepAt(stores, events, 2);
    AcknowledgedOnce(events, m);
    NothingReopens(file);
  }

  lemma KnownIsAcknowledged(s: Store, m: Message)
    requires m.key in s.seen
    ensures Happens(s, Attempt([m], true), s)
  {
    SingleFresh(m);
  }

  lemma NothingReopens(file: Bytes)
    ensures Reopen(file[..0]) == Some([])
  {
    assert file[..0] == [] && Parse("") == [];
  }

  lemma AcknowledgedOnce(events: seq<Event>, m: Message)
    requires |events| > 1 && events[|events| - 1] == Attempt([m], true)
    requires forall i :: 0 <= i < |events| - 1 ==> events[i].Restart? || !events[i].ok
    ensures Acknowledged(events, |events|) == {m.key}
  {
    var n := |events| - 1;
    NothingAcknowledged(events, n);
    SingleFresh(m);
  }

  lemma {:induction false} NothingAcknowledged(events: seq<Event>, k: nat)
    requires k <= |events| && forall i :: 0 <= i < k ==> events[i].Restart? || !events[i].ok
    ensures Acknowledged(events, k) == {}
  {
    if k > 0 {
      NothingAcknowledged(events, k - 1);
    }
  }

  lemma PartOfRecord(r: Record, n: nat)
    requires Clean(r.key) && n <= |Line(r)|
    ensures Encode(Line(r)[..n]) <= Printed([r])
  {
    SingleReopens(r);
    assert Line(r) == Line(r)[..n] + Line(r)[n..];
    EncodeConcat(Line(r)[..n], Line(r)[n..]);
  }

  lemma WrittenBehind(s: Store, m: Message)
    requires s.seen == {} && Clean(m.key)
    ensures var file := s.file + Encode(Line(Record(m.key, Preview(m))));
            CommitBatch(s, [m]) == Store(file, |file|, {m.key})
  {
    SingleFresh(m);
    SingleReopens(Record(m.key, Preview(m)));
  }

  lemma GluedFile(tail: string, r: Record)
    requires tail != "" && '\n' !in tail && Clean(r.key) && |r.key.chat| > |tail|
    ensures var keys := Reopen(Encode(tail) + Encode(Line(r)));
            keys.Some? && r.key !in keys.value
  {
    RoundTrip(tail);
    AppendText(Encode(tail), Line(r));
    GluedKeyLost(tail, r);
  }

  /**
    A failed write in a running process that leaves the first `n` characters of a record, then
    a batch that is written, synced and acknowledged: in this run from an empty archive the
    file opens and the acknowledged key is not in it. `a` may be `b`, delivered again.
   */
  lemma TornLineSwallows(a: Message, b: Message, n: nat) returns (stores: seq<Store>, events: seq<Event>)
    requires Clean(a.key) && Clean(b.key) && 0 < n < |b.key.chat|
    requires n < |Line(Record(a.key, Preview(a)))|
    ensures IsRun(stores, events) && stores[0] == Fresh
    ensures events == [Attempt([a], false), Attempt([b], true)] && Acknowledged(events, 2) == {b.key}
    ensures stores[2].synced == |stores[2].file|
    ensures Reopen(stores[2].file).Some? && b.key !in Reopen(stores[2].file).value
  {
    var ra, rb := Record(a.key, Preview(a)), Record(b.key, Preview(b));
    var tail := Line(ra)[..n];
    var torn := Store(Encode(tail), 0, {});
    stores := [Fresh, torn, CommitBatch(torn, [b])];
    events := [Attempt([a], false), Attempt([b], true)];
    PartOfRecord(ra, n);
    FailureLeaves(a, torn.file);
    assert StepAt(stores, events, 0) && StepAt(stores, events, 1);
    AcknowledgedOnce(events, b);
    TornLine(ra, n);
    GluedFile(tail, rb);
    WrittenBehind(torn, b);
  }
}
