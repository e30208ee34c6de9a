/**
  The destination of a media download and the discipline around it (src/download.rs).

  A sink has contents, a position and possibly append mode, and any operation on it may
  fail and leave it in any state. The fault plan decides which operations fail.
 */
module MediaSink {
  import opened Common
  import opened DownloadTypes

  datatype Fault = Works | Fails(error: IoError, contents: Bytes, position: nat)

  /** Bytes landing at `at` of a sink that honours seeks; a gap is zero-filled. */
  function Overwrite(contents: Bytes, at: nat, bytes: Bytes): (r: Bytes)
    ensures |r| >= |contents| && |r| >= at + |bytes| && (|r| == |contents| || |r| == at + |bytes|)
    ensures r[at..at + |bytes|] == bytes
    ensures forall k :: 0 <= k < |contents| && !(at <= k < at + |bytes|) ==> r[k] == contents[k]
  {
    var padded := contents + seq(if at > |contents| then at - |contents| else 0, _ => 0 as Byte);
    padded[..at] + bytes + (if at + |bytes| < |padded| then padded[at + |bytes|..] else [])
  }

  class Sink {
    var contents: Bytes
    var position: nat
    var ops: nat
    const append: bool
    const faults: nat -> Fault

    constructor (contents: Bytes, position: nat, append: bool, faults: nat -> Fault)
      ensures this.contents == contents && this.position == position && this.ops == 0
      ensures this.append == append && this.faults == faults
    {
      this.contents, this.position, this.ops := contents, position, 0;
      this.append, this.faults := append, faults;
    }

    /** No operation from number `from` up to now has failed. */
    ghost predicate Reliable(from: nat)
      reads this
    {
      forall k :: from <= k < ops ==> faults(k).Works?
    }

    /** The failure is one of the sink's own, met at or after operation `from`. */
    ghost predicate Blames(from: nat, e: IoError)
      reads this
    {
      exists k :: from <= k < ops && faults(k).Fails? && faults(k).error == e
    }

    method Fail(fault: Fault) returns (r: Result<(), IoError>)
      requires fault.Fails? && faults(ops) == fault
      modifies this
      ensures ops == old(ops) + 1 && r == Failure(fault.error)
    {
      contents, position, ops := fault.contents, fault.position, ops + 1;
      r := Failure(fault.error);
    }

    /** Shortening to zero moves the end, not the position. */
    method Truncate() returns (r: Result<(), IoError>)
      modifies this
      ensures ops == old(ops) + 1
      ensures r == if faults(old(ops)).Works? then Success(()) else Failure(faults(old(ops)).error)
      ensures r.Success? ==> contents == [] && position == old(position)
    {
      var fault := faults(ops);
      if fault.Fails? {
        r := Fail(fault);
      } else {
        contents, ops := [], ops + 1;
        r := Success(());
      }
    }

    method Rewind() returns (r: Result<(), IoError>)
      modifies this
      ensures ops == old(ops) + 1
      ensures r == if faults(old(ops)).Works? then Success(()) else Failure(faults(old(ops)).error)
      ensures r.Success? ==> contents == old(contents) && position == 0
    {
      var fault := faults(ops);
      if fault.Fails? {
        r := Fail(fault);
      } else {
        position, ops := 0, ops + 1;
        r := Success(());
      }
    }

    /** Append mode writes at the end whatever the position. */
    method WriteAll(bytes: Bytes) returns (r: Result<(), IoError>)
      modifies this
      ensures ops == old(ops) + 1
      ensures r == if faults(old(ops)).Works? then Success(()) else Failure(faults(old(ops)).error)
      ensures r.Success? ==> contents == Overwrite(old(contents), if append then |old(contents)| else old(position), bytes)
      ensures r.Success? && (append || old(position) == |old(contents)|) ==>
                contents == old(contents) + bytes && position == |contents|
    {
      var fault := faults(ops);
      if fault.Fails? {
        r := Fail(fault);
        return;
      }
      var at := if append then |contents| else position;
      contents := Overwrite(contents, at, bytes);
      position, ops := at + |bytes|, ops + 1;
      r := Success(());
    }
  }

  /** On success nothing the sink held before survives, whatever its mode. */
  method ClearWriter(sink: Sink) returns (r: Result<(), IoError>)
    modifies sink
    ensures sink.ops > old(sink.ops)
    ensures r.Success? ==> sink.contents == [] && sink.position == 0 && sink.Reliable(old(sink.ops))
    ensures r.Failure? ==> sink.Blames(old(sink.ops), r.error)
  {
    r := sink.Truncate();
    if r.Failure? {
      return;
    }
    r := sink.Rewind();
  }

  method FinishVerifiedWrite(sink: Sink) returns (r: Result<(), RequestError>)
    modifies sink
    ensures sink.ops == old(sink.ops) + 1
    ensures r.Success? ==>
              sink.contents == old(sink.contents) && sink.position == 0 && sink.Reliable(old(sink.ops))
    ensures r.Failure? ==>
              r.error.WriterIo? && r.error.cause.SinkIo? && sink.Blames(old(sink.ops), r.error.cause.io)
  {
    var io := sink.Rewind();
    match io
    case Success(_) => r := Success(());
    case Failure(e) => r := Failure(WriterIo(SinkIo(e)));
  }

  /** Either the sink is empty and the failure comes back as it is, or both failures are kept. */
  method DiscardFailedWrite(sink: Sink, failure: RequestError) returns (e: RequestError)
    modifies sink
    ensures sink.ops > old(sink.ops)
    ensures e == failure ==> sink.contents == [] && sink.position == 0
    ensures e == failure || (e.Cleanup? && e.failure == failure && sink.Blames(old(sink.ops), e.cleanup))
    ensures e == failure <==> sink.Reliable(old(sink.ops))
  {
    var cleared := ClearWriter(sink);
    match cleared
    case Success(_) => e := failure;
    case Failure(io) =>
      e := Cleanup(failure, io);
      assert failure < e;
  }

  /**
    What one executed request does to a sink: on success the sink holds exactly the verified
    plaintext at position 0; a failure is the response's own or the sink's.
   */
  ghost predicate Executes(sink: Sink, from: nat, response: Response, r: Result<(), RequestError>)
    reads sink
  {
    && sink.ops >= from
    && (r.Success? ==> Delivered(response) == Success(sink.contents) && sink.position == 0)
    && (r.Success? ==> Verified(response) && EndToEnd(response.chunks, sink.contents))
    && (r.Failure? && !r.error.WriterIo? ==> Delivered(response) == Failure(r.error) && FailsWith(response, r.error))
    && (r.Failure? && r.error.WriterIo? ==>
          r.error.cause.SinkIo? && sink.Blames(from, r.error.cause.io))
  }

  /** Writes the chunks in order; the sink then holds them after what it held before. */
  method WriteChunks(sink: Sink, chunks: seq<Bytes>) returns (r: Result<(), IoError>)
    modifies sink
    ensures sink.ops >= old(sink.ops)
    ensures r.Success? && (sink.append || old(sink.position) == |old(sink.contents)|) ==>
              sink.contents == old(sink.contents) + Concat(chunks)
    ensures r.Failure? ==> sink.Blames(old(sink.ops), r.error)
  {
    r := Success(());
    for i := 0 to |chunks|
      invariant sink.ops >= old(sink.ops)
      invariant r.Success?
      invariant sink.append || old(sink.position) == |old(sink.contents)| ==>
                  sink.contents == old(sink.contents) + Concat(chunks[..i])
      invariant old(sink.position) == |old(sink.contents)| ==> sink.position == |sink.contents|
    {
      r := sink.WriteAll(chunks[i]);
      if r.Failure? {
        return;
      }
      assert chunks[..i + 1][..i] == chunks[..i];
    }
    assert chunks[..|chunks|] == chunks;
  }

  /** The streaming path: clear, then decrypt straight into the sink, then rewind. */
  method StreamingDownload(sink: Sink, response: Response) returns (r: Result<(), RequestError>)
    requires !response.Lost?
    modifies sink
    ensures Executes(sink, old(sink.ops), response, r)
  {
    var cleared := ClearWriter(sink);
    if cleared.Failure? {
      return Failure(WriterIo(SinkIo(cleared.error)));
    }
    if response.Unreachable? {
      return Failure(Other(response.cause));
    }
    var status := ValidateStatus(response.status);
    if status.Failure? {
      return Failure(status.error);
    }
    var written := WriteChunks(sink, response.chunks);
    if written.Failure? {
      return Failure(WriterIo(SinkIo(written.error)));
    }
    if response.verdict.Some? {
      return Failure(Other(response.verdict.value));
    }
    assert sink.contents == Concat(response.chunks);
    ConcatEndToEnd(response.chunks);
    r := FinishVerifiedWrite(sink);
  }

  /** The buffered path: verify first, touch the sink only with verified plaintext. */
  method BufferedDownload(sink: Sink, response: Response) returns (r: Result<(), RequestError>)
    requires !response.Lost?
    modifies sink
    ensures Executes(sink, old(sink.ops), response, r)
    ensures !Verified(response) ==> sink.ops == old(sink.ops) && sink.contents == old(sink.contents)
  {
    if response.Unreachable? {
      return Failure(Other(response.cause));
    }
    var status := ValidateStatus(response.status);
    if status.Failure? {
      return Failure(status.error);
    }
    if response.verdict.Some? {
      return Failure(Other(response.verdict.value));
    }
    var body := Concat(response.chunks);
    var cleared := ClearWriter(sink);
    if cleared.Failure? {
      return Failure(WriterIo(SinkIo(cleared.error)));
    }
    var written := sink.WriteAll(body);
    if written.Failure? {
      return Failure(WriterIo(SinkIo(written.error)));
    }
    assert sink.contents == body;
    ConcatEndToEnd(response.chunks);
    r := FinishVerifiedWrite(sink);
  }

  method ExecuteToWriter(sink: Sink, response: Response, streaming: bool) returns (r: Result<(), RequestError>)
    requires !response.Lost?
    modifies sink
    ensures Executes(sink, old(sink.ops), response, r)
  {
    if streaming {
      r := StreamingDownload(sink, response);
    } else {
      r := BufferedDownload(sink, response);
    }
  }

  /** A fresh in-memory buffer per request; streaming clients decrypt into it, others in place. */
  method ExecuteIntoMemory(response: Response, streaming: bool) returns (r: Result<Bytes, RequestError>)
    ensures r == Delivered(response)
    ensures r.Success? <==> Verified(response)
    ensures r.Success? ==> EndToEnd(response.chunks, r.value)
    ensures r.Failure? ==> FailsWith(response, r.error)
  {
    DeliveredExactly(response);
    if response.Lost? {
      return Failure(Other(response.cause));
    }
    if streaming {
      var buffer := new Sink([], 0, false, _ => Works);
      var done := StreamingDownload(buffer, response);
      r := match done case Success(_) => Success(buffer.contents) case Failure(e) => Failure(e);
    } else if response.Unreachable? {
      r := Failure(Other(response.cause));
    } else {
      var status := ValidateStatus(response.status);
      if status.Failure? {
        r := Failure(status.error);
      } else if response.verdict.Some? {
        r := Failure(Other(response.verdict.value));
      } else {
        r := Success(Concat(response.chunks));
      }
    }
  }
}
