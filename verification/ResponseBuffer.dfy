/** The middleware's response buffer: it holds a response back until it may be sent, or grows too large to hold. */
module ResponseBuffer {
  import opened Numbers
  import opened Options
  import opened IdempotencyRecords

  /** What a handler does to its response writer. */
  datatype Call = Status(code: int) | Body(data: seq<char>)

  /** The first call fixes the status; a body without one means 200. */
  function StatusOf(calls: seq<Call>): int {
    if calls != [] && calls[0].Status? then calls[0].code else 200
  }

  function BodyOf(calls: seq<Call>): seq<char> {
    if calls == [] then []
    else BodyOf(calls[..|calls| - 1]) + DataOf(calls[|calls| - 1])
  }

  function DataOf(c: Call): seq<char> {
    match c
    case Status(_) => []
    case Body(data) => data
  }

  /** The status is that of a first WriteHeader, and 200 otherwise; the body is all that was written, in order. */
  lemma CallsMean(code: int, data: seq<char>, calls: seq<Call>, more: seq<Call>)
    ensures StatusOf([Status(code)] + more) == code && StatusOf([Body(data)] + more) == 200 && StatusOf([]) == 200
    ensures BodyOf([]) == [] && BodyOf([Body(data)]) == data && BodyOf([Status(code)]) == []
    ensures BodyOf(calls + more) == BodyOf(calls) + BodyOf(more)
  {
    assert [Body(data)][..0] == [] && [Status(code)][..0] == [];
    BodiesJoin(calls, more);
  }

  lemma {:induction false} BodiesJoin(calls: seq<Call>, more: seq<Call>)
    ensures BodyOf(calls + more) == BodyOf(calls) + BodyOf(more)
    decreases |more|
  {
    if more == [] {
      assert calls + more == calls;
    } else {
      var n := |more| - 1;
      BodiesJoin(calls, more[..n]);
      LastApart(calls, more);
      Appended(calls + more, calls + more[..n], more[n], BodyOf(calls) + BodyOf(more[..n]));
      Appended(more, more[..n], more[n], BodyOf(more[..n]));
      Regroup(BodyOf(calls), BodyOf(more[..n]), DataOf(more[n]));
    }
  }

  lemma LastApart<T>(a: seq<T>, b: seq<T>)
    requires b != []
    ensures a + b == (a + b[..|b| - 1]) + [b[|b| - 1]] && b == b[..|b| - 1] + [b[|b| - 1]]
  {
  }

  lemma Appended(all: seq<Call>, init: seq<Call>, last: Call, body: seq<char>)
    requires all == init + [last] && BodyOf(init) == body
    ensures BodyOf(all) == body + DataOf(last)
  {
    assert all[..|all| - 1] == init;
  }

  lemma BodyGrows(calls: seq<Call>, c: Call)
    ensures BodyOf(calls + [c]) == BodyOf(calls) + DataOf(c)
    ensures StatusOf(calls + [c]) == if calls == [] then (if c.Status? then c.code else 200) else StatusOf(calls)
  {
    assert (calls + [c])[..|calls|] == calls;
  }

  /** The connection below: the first status counts, body bytes are sent as written. */
  class Writer {
    var header: map<string, seq<string>>
    var status: Option<int>
    var body: seq<char>

    constructor ()
      ensures header == map[] && status == None && body == []
    {
      header, status, body := map[], None, [];
    }

    method WriteHeader(code: int)
      modifies `status
      ensures status == if old(status).None? then Some(code) else old(status)
    {
      if status.None? {
        status := Some(code);
      }
    }

    method Write(data: seq<char>)
      modifies `status, `body
      ensures body == old(body) + data && status == if old(status).None? then Some(200) else old(status)
    {
      WriteHeader(200);
      body := body + data;
    }
  }

  class Buffer {
    const writer: Writer
    var header: map<string, seq<string>>
    var body: seq<char>
    var statusCode: int
    var wroteHeader: bool
    const maxBodyBytes: int
    var overflow: bool
    var flushed: bool
    ghost var calls: seq<Call>

    predicate Exceeds(n: nat) {
      maxBodyBytes > 0 && n > maxBodyBytes
    }

    /** Status and body are those of the calls so far, sent in full or held in full. */
    ghost predicate Consistent()
      reads this, writer
    {
      && statusCode == StatusOf(calls)
      && (if flushed then writer.status == Some(statusCode) && writer.body == BodyOf(calls) && body == []
          else writer.status == None && writer.body == [] && body == BodyOf(calls) && !Exceeds(|body|))
    }

    ghost predicate Valid()
      reads this, writer
    {
      Consistent() && (wroteHeader <==> calls != []) && (overflow ==> flushed && Exceeds(|BodyOf(calls)|))
    }

    constructor (writer: Writer, maxBodyBytes: int)
      requires writer.status == None && writer.body == []
      ensures Valid() && calls == [] && !flushed && header == map[]
      ensures this.writer == writer && this.maxBodyBytes == maxBodyBytes
    {
      this.writer, this.maxBodyBytes := writer, maxBodyBytes;
      header, body, statusCode, wroteHeader, overflow, flushed, calls := map[], [], 200, false, false, false, [];
    }

    /** Records the first status; nothing is sent yet. */
    method WriteHeader(code: int)
      requires Valid() && (flushed ==> wroteHeader)
      modifies this
      ensures Valid() && calls == old(calls) + [Status(code)] && flushed == old(flushed)
    {
      BodyGrows(calls, Status(code));
      calls := calls + [Status(code)];
      if wroteHeader {
        return;
      }
      statusCode := code;
      wroteHeader := true;
    }

    /** Holds the data back, or sends everything once the bound is exceeded. */
    method Write(data: seq<char>)
      requires Valid()
      modifies this, writer
      ensures Valid() && calls == old(calls) + [Body(data)]
      ensures overflow == (old(overflow) || (!old(flushed) && Exceeds(|BodyOf(calls)|)))
      ensures flushed == (old(flushed) || overflow)
    {
      BodyGrows(calls, Body(data));
      if !wroteHeader {
        wroteHeader := true;
      }
      if flushed {
        calls := calls + [Body(data)];
        writer.Write(data);
        return;
      }
      if maxBodyBytes <= 0 || |body| + |data| <= maxBodyBytes {
        calls := calls + [Body(data)];
        body := body + data;
        return;
      }
      overflow := true;
      FlushResponse();
      calls := calls + [Body(data)];
      writer.Write(data);
    }

    /** Commits the held response to the connection once. */
    method FlushResponse()
      requires Consistent()
      modifies `flushed, `body, writer
      ensures Consistent() && flushed
      ensures !old(flushed) ==> writer.header == old(writer.header) + header
      ensures old(flushed) ==> writer.header == old(writer.header)
    {
      if flushed {
        return;
      }
      writer.header := writer.header + header;
      writer.WriteHeader(statusCode);
      flushed := true;
      if |body| == 0 {
        return;
      }
      writer.Write(body);
      body := [];
    }

    /** What is stored for replay, when the handler succeeded within the bound. */
    method Recorded() returns (response: Response)
      requires Valid() && !flushed
      ensures response.status == StatusOf(calls) && response.body == BodyOf(calls) && response.header == header
    {
      response := Response(statusCode, header, body);
    }
  }

  /** Sends a stored response to another caller, marked as a replay. */
  method Replay(writer: Writer, cached: Response)
    requires writer.status == None
    modifies writer
    ensures writer.status == Some(cached.status) && writer.body == old(writer.body) + cached.body
    ensures writer.header == (old(writer.header) + cached.header)["X-Cache" := ["HIT-IDEMPOTENT"]]
  {
    writer.header := writer.header + cached.header;
    writer.header := writer.header["X-Cache" := ["HIT-IDEMPOTENT"]];
    writer.WriteHeader(cached.status);
    writer.Write(cached.body);
  }

  /** The caller whose handler ran and a caller served by replay see the same status and body. */
  method StoreAndReplay(buffer: Buffer, other: Writer) returns (stored: Response)
    requires buffer.Valid() && !buffer.flushed && other != buffer.writer
    requires other.status == None && other.body == []
    modifies buffer`flushed, buffer`body, buffer.writer, other
    ensures stored.status == StatusOf(buffer.calls) && stored.body == BodyOf(buffer.calls)
    ensures buffer.writer.status == other.status == Some(StatusOf(buffer.calls))
    ensures buffer.writer.body == other.body == BodyOf(buffer.calls)
  {
    stored := buffer.Recorded();
    buffer.FlushResponse();
    Replay(other, stored);
  }
}
