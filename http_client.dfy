/** The body reader of `get` in src/http_client.rs: after the status check it
    reads the response into a fixed 256-byte buffer at a moving offset,
    decodes the filled part as UTF-8, appends it to the accumulated text when
    it decodes, and otherwise moves the undecoded rest to the front of the
    buffer with `copy_within`. */
module HttpClient {
  import opened Utf8

  /** `let mut buf = [0_u8; 256]` */
  const BufferSize: nat := 256

  /** What the connection has still to deliver. `Bytes(d)` is data that is
      ready to be read (an empty `d` is the end of the body); `Broken` is a
      read that fails. */
  datatype Chunk = Bytes(data: seq<byte>) | Broken

  /** The result of one `Read::read`, together with the bytes it wrote. */
  datatype ReadOutcome = Received(bytes: seq<byte>) | ReadError

  datatype ReadStep = ReadStep(outcome: ReadOutcome, rest: seq<Chunk>)

  /** `Read::read` as the caller sees it: the size it returns, or an error. */
  datatype ReadResult = ReadOk(size: nat) | ReadErr

  datatype HttpError = UnexpectedStatus(code: int)

  /** `anyhow::Result<String>`; the text is kept as its UTF-8 bytes. */
  datatype GetResult = Ok(text: seq<byte>) | Err(error: HttpError)

  function Min(a: nat, b: nat): (m: nat) { if a <= b then a else b }

  /** A measure of what is left in the stream. */
  function Volume(stream: seq<Chunk>): (v: nat)
    decreases |stream|
  {
    if stream == [] then 0
    else (match stream[0] case Bytes(d) => |d| + 1 case Broken => 1) + Volume(stream[1..])
  }

  /** All the data bytes of the stream, in order. */
  function Concat(stream: seq<Chunk>): (data: seq<byte>)
    decreases |stream|
  {
    if stream == [] then []
    else (match stream[0] case Bytes(d) => d case Broken => []) + Concat(stream[1..])
  }

  /** One `Read::read` into a slice with room for `cap` bytes: it delivers as
      much of the next ready data as fits and leaves the rest in the stream.
      An exhausted stream reads 0 bytes, and so does a read into no room. */
  function NextRead(stream: seq<Chunk>, cap: nat): (r: ReadStep)
    ensures r.outcome.Received? ==> |r.outcome.bytes| <= cap
  {
    if stream == [] then ReadStep(Received([]), [])
    else match stream[0]
      case Broken => ReadStep(ReadError, stream)
      case Bytes(d) =>
        var n := Min(|d|, cap);
        if n == |d| then
          ReadStep(Received(d), stream[1..])
        else
          ReadStep(Received(d[..n]), [Bytes(d[n..])] + stream[1..])
  }

  /** A read that delivers something leaves less in the stream. */
  lemma NextReadShrinks(stream: seq<Chunk>, cap: nat)
    requires NextRead(stream, cap).outcome.Received? && NextRead(stream, cap).outcome.bytes != []
    ensures Volume(NextRead(stream, cap).rest) < Volume(stream)
  {
    var d := stream[0].data;
    if Min(|d|, cap) < |d| {
      assert ([Bytes(d[Min(|d|, cap)..])] + stream[1..])[1..] == stream[1..];
    }
  }

  /** A read takes the bytes it delivers off the front of the body. */
  lemma NextReadConcat(stream: seq<Chunk>, cap: nat)
    requires NextRead(stream, cap).outcome.Received?
    ensures NextRead(stream, cap).outcome.bytes + Concat(NextRead(stream, cap).rest) == Concat(stream)
  {
    if stream != [] && Min(|stream[0].data|, cap) < |stream[0].data| {
      var d := stream[0].data;
      var n := Min(|d|, cap);
      var rest := [Bytes(d[n..])] + stream[1..];
      assert rest[1..] == stream[1..];
      assert d[..n] + d[n..] == d;
    }
  }

  /** The value model of the read loop: `pending` is `buf[..offset]` and
      `total` is `total_str`. A read of 0 bytes or a failed read ends the loop
      with the text accumulated so far. */
  function Drain(pending: seq<byte>, total: seq<byte>, stream: seq<Chunk>): (text: seq<byte>)
    requires |pending| <= BufferSize
    decreases Volume(stream)
  {
    var step := NextRead(stream, BufferSize - |pending|);
    match step.outcome
    case ReadError => total
    case Received(bytes) =>
      if bytes == [] then total
      else
        var window := pending + bytes;
        NextReadShrinks(stream, BufferSize - |pending|);
        match FromUtf8(window)
        case Decoded => Drain([], total + window, step.rest)
        case Invalid(v) => Drain(window[v..], total, step.rest)
  }

  /** What `get` returns for a response with status `status` and body `stream`. */
  function GetSpec(status: int, stream: seq<Chunk>): (r: GetResult)
    ensures r.Err? <==> !(200 <= status <= 299)
    ensures r.Err? ==> r.error == UnexpectedStatus(status)
  {
    if 200 <= status <= 299 then Ok(Drain([], [], stream)) else Err(UnexpectedStatus(status))
  }

  /** The accumulated text only ever grows by whole decoded windows, so it
      stays well-formed UTF-8. */
  lemma {:induction false} DrainWellFormed(pending: seq<byte>, total: seq<byte>, stream: seq<Chunk>)
    requires |pending| <= BufferSize
    requires WellFormed(total)
    ensures WellFormed(Drain(pending, total, stream))
    decreases Volume(stream)
  {
    var step := NextRead(stream, BufferSize - |pending|);
    if step.outcome.Received? && step.outcome.bytes != [] {
      var window := pending + step.outcome.bytes;
      match FromUtf8(window)
      case Decoded =>
        FromUtf8Meaning(window);
        WellFormedConcat(total, window);
        DrainWellFormed([], total + window, step.rest);
      case Invalid(v) =>
        DrainWellFormed(window[v..], total, step.rest);
    }
  }

  /** Text once accumulated is never taken back. */
  lemma {:induction false} DrainExtends(pending: seq<byte>, total: seq<byte>, stream: seq<Chunk>)
    requires |pending| <= BufferSize
    ensures total <= Drain(pending, total, stream)
    decreases Volume(stream)
  {
    var step := NextRead(stream, BufferSize - |pending|);
    if step.outcome.Received? && step.outcome.bytes != [] {
      var window := pending + step.outcome.bytes;
      match FromUtf8(window)
      case Decoded =>
        DrainExtends([], total + window, step.rest);
      case Invalid(v) =>
        DrainExtends(window[v..], total, step.rest);
    }
  }

  /** Every chunk is non-empty data that fits the buffer and is well-formed
      on its own. */
  predicate EachChunkDecodes(stream: seq<Chunk>)
    decreases |stream|
  {
    || stream == []
    || (&& stream[0].Bytes? && 0 < |stream[0].data| <= BufferSize
        && WellFormed(stream[0].data) && EachChunkDecodes(stream[1..]))
  }

  /** When every chunk decodes on its own, the result is the whole body in
      order. */
  lemma {:induction false} DrainAllDecoded(total: seq<byte>, stream: seq<Chunk>)
    requires EachChunkDecodes(stream)
    ensures Drain([], total, stream) == total + Concat(stream)
    decreases |stream|
  {
    if stream != [] {
      var d := stream[0].data;
      assert Drain([], total, stream) == Drain([], total + d, stream[1..]) by {
        assert NextRead(stream, BufferSize) == ReadStep(Received(d), stream[1..]);
        assert [] + d == d;
        WellFormedIffScanned(d);
      }
      DrainAllDecoded(total + d, stream[1..]);
    }
  }

  /** The end of the body and a failed read both end the loop with the text
      accumulated so far: bytes still pending (a character cut off at the
      end) are dropped, and a read error is not reported. */
  lemma DrainDropsPending(pending: seq<byte>, total: seq<byte>, after: seq<Chunk>)
    requires |pending| <= BufferSize
    ensures Drain(pending, total, []) == total
    ensures Drain(pending, total, [Broken] + after) == total
    ensures Drain(pending, total, [Bytes([])] + after) == total
  {
  }

  /** A read from a stream that does not start exhausted never reaches
      what comes after it. */
  lemma NextReadAppend(stream: seq<Chunk>, tail: seq<Chunk>, cap: nat)
    requires stream != []
    ensures NextRead(stream + tail, cap).outcome == NextRead(stream, cap).outcome
    ensures NextRead(stream + tail, cap).rest == NextRead(stream, cap).rest + tail
  {
    var whole := stream + tail;
    assert whole[0] == stream[0];
    assert whole[1..] == stream[1..] + tail;
    match stream[0]
    case Broken =>
    case Bytes(d) =>
      var n := Min(|d|, cap);
      if n < |d| {
        assert [Bytes(d[n..])] + whole[1..] == ([Bytes(d[n..])] + stream[1..]) + tail;
      }
  }

  /** A failed read ends the loop exactly as the end of the stream does, and
      so does a read of 0 bytes: nothing after it is ever looked at. */
  lemma {:induction false} DrainStopsAt(pending: seq<byte>, total: seq<byte>, before: seq<Chunk>, c: Chunk, after: seq<Chunk>)
    requires |pending| <= BufferSize
    requires c.Broken? || c == Bytes([])
    ensures Drain(pending, total, before + [c] + after) == Drain(pending, total, before)
    decreases Volume(before)
  {
    var cap := BufferSize - |pending|;
    var tail := [c] + after;
    assert before + [c] + after == before + tail;
    if before == [] {
      assert before + tail == tail;
      assert Drain(pending, total, tail) == total;
    } else {
      NextReadAppend(before, tail, cap);
      var step := NextRead(before, cap);
      if step.outcome.Received? && step.outcome.bytes != [] {
        var window := pending + step.outcome.bytes;
        assert step.rest + tail == step.rest + [c] + after;
        NextReadShrinks(before, cap);
        match FromUtf8(window)
        case Decoded => DrainStopsAt([], total + window, step.rest, c, after);
        case Invalid(v) => DrainStopsAt(window[v..], total, step.rest, c, after);
      }
    }
  }

  /** Once the pending bytes start with a byte that no character starts
      with, no later window decodes or has a valid prefix, and the rest of
      the body is discarded. */
  lemma {:induction false} DrainStuck(pending: seq<byte>, total: seq<byte>, stream: seq<Chunk>)
    requires 0 < |pending| <= BufferSize && CannotStart(pending[0])
    ensures Drain(pending, total, stream) == total
    decreases Volume(stream)
  {
    var step := NextRead(stream, BufferSize - |pending|);
    if step.outcome.Received? && step.outcome.bytes != [] {
      var window := pending + step.outcome.bytes;
      assert window[0] == pending[0];
      assert ValidUpTo(window) == 0;
      WellFormedIffScanned(window);
      assert window[0..] == window;
      DrainStuck(window, total, step.rest);
    }
  }

  /** `<[u8]>::copy_within(src.., 0)` on the whole buffer. */
  method CopyWithin(buf: array<byte>, src: nat)
    requires src <= buf.Length
    modifies buf
    ensures buf[..buf.Length - src] == old(buf[src..])
    ensures buf[buf.Length - src..] == old(buf[buf.Length - src..])
  {
    var i := 0;
    while i < buf.Length - src
      invariant 0 <= i <= buf.Length - src
      invariant forall k :: 0 <= k < i ==> buf[k] == old(buf[src + k])
      invariant forall k :: i <= k < buf.Length ==> buf[k] == old(buf[k])
    {
      buf[i] := buf[src + i];
      i := i + 1;
    }
  }

  /** The HTTP response being read. */
  class Response {
    var remaining: seq<Chunk>

    constructor (body: seq<Chunk>)
      ensures remaining == body
    {
      remaining := body;
    }

    /** `Read::read(&mut reader, &mut buf[from..])`: writes the bytes it
        delivers at `buf[from..]` and leaves `buf[..from]` alone. */
    method Read(buf: array<byte>, from: nat) returns (r: ReadResult)
      requires from <= buf.Length
      modifies this, buf
      ensures remaining == NextRead(old(remaining), buf.Length - from).rest
      ensures r.ReadErr? <==> NextRead(old(remaining), buf.Length - from).outcome.ReadError?
      ensures r.ReadErr? ==> buf[..] == old(buf[..])
      ensures r.ReadOk? ==>
        && r.size == |NextRead(old(remaining), buf.Length - from).outcome.bytes|
        && from + r.size <= buf.Length
        && buf[..from] == old(buf[..from])
        && buf[from..from + r.size] == NextRead(old(remaining), buf.Length - from).outcome.bytes
    {
      var step := NextRead(remaining, buf.Length - from);
      match step.outcome
      case ReadError =>
        r := ReadErr;
      case Received(bytes) =>
        var i := 0;
        while i < |bytes|
          invariant 0 <= i <= |bytes|
          invariant remaining == old(remaining)
          invariant buf[..from] == old(buf[..from])
          invariant buf[from..from + i] == bytes[..i]
        {
          buf[from + i] := bytes[i];
          i := i + 1;
        }
        r := ReadOk(|bytes|);
      remaining := step.rest;
    }
  }

  /** One turn of the read loop: after reading `bytes` behind `pending`, the
      window is either appended (and nothing is carried over) or left out of
      the text with its undecoded rest carried over; either way the loop
      goes on as the value model does. */
  lemma DrainAfterRead(pending: seq<byte>, total: seq<byte>, stream: seq<Chunk>, bytes: seq<byte>,
                       rest: seq<Chunk>, carried: seq<byte>, total': seq<byte>)
    requires |pending| <= BufferSize
    requires NextRead(stream, BufferSize - |pending|) == ReadStep(Received(bytes), rest) && bytes != []
    requires FromUtf8(pending + bytes).Decoded? ==> total' == total + (pending + bytes) && carried == []
    requires FromUtf8(pending + bytes).Invalid? ==>
      total' == total && carried == (pending + bytes)[FromUtf8(pending + bytes).validUpTo..]
    ensures |carried| <= BufferSize
    ensures Volume(rest) < Volume(stream)
    ensures Drain(carried, total', rest) == Drain(pending, total, stream)
  {
    NextReadShrinks(stream, BufferSize - |pending|);
  }

  /** A slice that starts with `p` and goes on with `b` is `p + b`. */
  lemma Assemble(s: seq<byte>, i: nat, j: nat, p: seq<byte>, b: seq<byte>)
    requires i <= j <= |s| && s[..i] == p && s[i..j] == b
    ensures s[..j] == p + b
  {
    assert s[..j] == s[..i] + s[i..j];
  }

  /** `get` from the status match on: a status outside 200..=299 is an error
      and the body is not read; otherwise the body is read chunk by chunk. */
  method Get(status: int, response: Response) returns (r: GetResult)
    modifies response
    ensures r == GetSpec(status, old(response.remaining))
    ensures r.Ok? ==> WellFormed(r.text)
    ensures !(200 <= status <= 299) ==> response.remaining == old(response.remaining)
  {
    if !(200 <= status <= 299) {
      return Err(UnexpectedStatus(status));
    }
    var text := ReadBody(response);
    DrainWellFormed([], [], old(response.remaining));
    return Ok(text);
  }

  /** The read loop of `get` (`buf`, `offset` and `total_str`). */
  method ReadBody(response: Response) returns (text: seq<byte>)
    modifies response
    ensures text == Drain([], [], old(response.remaining))
  {
    var buf := new byte[BufferSize](_ => 0);
    var offset: nat := 0;
    var total: seq<byte> := [];
    ghost var result := Drain([], [], response.remaining);
    ghost var pending: seq<byte> := [];
    while true
      invariant buf.Length == BufferSize && offset <= BufferSize
      invariant pending == buf[..offset]
      invariant Drain(pending, total, response.remaining) == result
      decreases Volume(response.remaining)
    {
      ghost var stream := response.remaining;
      ghost var before := total;
      var res := response.Read(buf, offset);
      ghost var rest := response.remaining;
      if res.ReadErr? {
        return total;
      }
      var size := res.size;
      if size == 0 {
        return total;
      }
      var sizePlusOffset := size + offset;
      ghost var bytes := NextRead(stream, BufferSize - offset).outcome.bytes;
      Assemble(buf[..], offset, sizePlusOffset, pending, bytes);
      offset, total := Absorb(buf, sizePlusOffset, total);
      DrainAfterRead(pending, before, stream, bytes, rest, buf[..offset], total);
      pending := buf[..offset];
    }
  }

  /** The `match str::from_utf8(&buf[..size_plus_offset])` of the read loop:
      a window that decodes is appended and the offset reset; otherwise only
      its valid prefix is printed (which changes nothing here), the rest is
      moved to the front and becomes the new offset. */
  method Absorb(buf: array<byte>, sizePlusOffset: nat, total: seq<byte>) returns (offset: nat, total': seq<byte>)
    requires buf.Length == BufferSize && sizePlusOffset <= BufferSize
    modifies buf
    ensures offset <= BufferSize
    ensures FromUtf8(old(buf[..sizePlusOffset])).Decoded? ==>
      total' == total + old(buf[..sizePlusOffset]) && offset == 0
    ensures FromUtf8(old(buf[..sizePlusOffset])).Invalid? ==>
      && total' == total
      && offset == sizePlusOffset - FromUtf8(old(buf[..sizePlusOffset])).validUpTo
      && buf[..offset] == old(buf[..sizePlusOffset])[FromUtf8(old(buf[..sizePlusOffset])).validUpTo..]
  {
    var window := buf[..sizePlusOffset];
    match FromUtf8(window)
    case Decoded =>
      total' := total + window;
      offset := 0;
    case Invalid(validUpTo) =>
      ghost var contents := buf[..];
      assert contents[validUpTo..][..sizePlusOffset - validUpTo] == window[validUpTo..];
      CopyWithin(buf, validUpTo);
      total' := total;
      offset := sizePlusOffset - validUpTo;
      assert buf[..offset] == buf[..BufferSize - validUpTo][..offset];
  }

  /** The reader with the valid prefix of a failed decode appended to the
      accumulated text, as the offset mechanism is evidently meant to work. */
  function DrainFixed(pending: seq<byte>, total: seq<byte>, stream: seq<Chunk>): (text: seq<byte>)
    requires |pending| <= BufferSize
    ensures total <= text
    decreases Volume(stream)
  {
    var step := NextRead(stream, BufferSize - |pending|);
    match step.outcome
    case ReadError => total
    case Received(bytes) =>
      if bytes == [] then total
      else
        var window := pending + bytes;
        NextReadShrinks(stream, BufferSize - |pending|);
        match FromUtf8(window)
        case Decoded => DrainFixed([], total + window, step.rest)
        case Invalid(v) => DrainFixed(window[v..], total + window[..v], step.rest)
  }

  /** Every chunk is non-empty data: no read fails and none reads 0 bytes
      before the stream is exhausted. */
  predicate AllData(stream: seq<Chunk>)
    decreases |stream|
  {
    stream == [] || (stream[0].Bytes? && stream[0].data != [] && AllData(stream[1..]))
  }

  /** A read from chunks that are all non-empty data succeeds, and what it
      leaves is again all non-empty data. */
  lemma NextReadKeepsData(stream: seq<Chunk>, cap: nat)
    requires AllData(stream)
    ensures NextRead(stream, cap).outcome.Received?
    ensures stream != [] && cap > 0 ==> NextRead(stream, cap).outcome.bytes != []
    ensures AllData(NextRead(stream, cap).rest)
  {
    if stream != [] {
      var d := stream[0].data;
      var n := Min(|d|, cap);
      if n < |d| {
        assert ([Bytes(d[n..])] + stream[1..])[1..] == stream[1..];
      }
    }
  }

  /** One turn of the corrected loop on a non-empty read. */
  lemma DrainFixedAfterRead(pending: seq<byte>, total: seq<byte>, stream: seq<Chunk>)
    requires |pending| <= BufferSize
    requires NextRead(stream, BufferSize - |pending|).outcome.Received?
    requires NextRead(stream, BufferSize - |pending|).outcome.bytes != []
    ensures var window := pending + NextRead(stream, BufferSize - |pending|).outcome.bytes;
      DrainFixed(pending, total, stream) ==
      DrainFixed(window[ValidUpTo(window)..], total + window[..ValidUpTo(window)], NextRead(stream, BufferSize - |pending|).rest)
  {
    var window := pending + NextRead(stream, BufferSize - |pending|).outcome.bytes;
    if ValidUpTo(window) == |window| {
      assert window[|window|..] == [] && window[..|window|] == window;
    }
  }

  lemma Regroup(a: seq<byte>, b: seq<byte>, c: seq<byte>, d: seq<byte>)
    ensures a + b + c + d == a + ((b + c) + d)
  {
  }

  /** A read from chunks that are all non-empty data extends what was
      carried over by a non-empty piece of the body. */
  lemma ReadFromData(pending: seq<byte>, stream: seq<Chunk>)
    requires |pending| < BufferSize
    requires AllData(stream) && stream != []
    ensures var step := NextRead(stream, BufferSize - |pending|);
      && step.outcome.Received? && step.outcome.bytes != []
      && AllData(step.rest)
      && Volume(step.rest) < Volume(stream)
      && (pending + step.outcome.bytes) + Concat(step.rest) == pending + Concat(stream)
  {
    var cap := BufferSize - |pending|;
    NextReadKeepsData(stream, cap);
    NextReadConcat(stream, cap);
    NextReadShrinks(stream, cap);
  }

  /** The window splits back into what the scan accepted and what it left. */
  lemma Reassemble(total: seq<byte>, window: seq<byte>, v: nat, rest: seq<byte>)
    requires v <= |window|
    ensures total + window[..v] + window[v..] + rest == total + (window + rest)
  {
    assert window[..v] + window[v..] == window;
    Regroup(total, window[..v], window[v..], rest);
  }

  /** With the fix, any split of a well-formed body into chunks — including
      splits inside a multi-byte character — reads back the whole body. */
  lemma {:induction false} DrainFixedReassembles(pending: seq<byte>, total: seq<byte>, stream: seq<Chunk>)
    requires |pending| <= 3 && LeadLength(pending) == 0
    requires WellFormed(pending + Concat(stream))
    requires AllData(stream)
    ensures DrainFixed(pending, total, stream) == total + pending + Concat(stream)
    decreases Volume(stream)
  {
    if stream == [] {
      assert pending + Concat(stream) == pending;
      assert pending == [];
      assert DrainFixed(pending, total, stream) == total;
    } else {
      ReadFromData(pending, stream);
      var step := NextRead(stream, BufferSize - |pending|);
      var window := pending + step.outcome.bytes;
      var v := ValidUpTo(window);
      CarryOver(window, Concat(step.rest));
      calc {
        DrainFixed(pending, total, stream);
        { DrainFixedAfterRead(pending, total, stream); }
        DrainFixed(window[v..], total + window[..v], step.rest);
        { DrainFixedReassembles(window[v..], total + window[..v], step.rest); }
        total + window[..v] + window[v..] + Concat(step.rest);
        { Reassemble(total, window, v, Concat(step.rest)); }
        total + (window + Concat(step.rest));
        total + (pending + Concat(stream));
        total + pending + Concat(stream);
      }
    }
  }

  /** The body "Aé" delivered as [0x41, 0xC3] and then [0xA9], so that the
      two bytes of "é" arrive in different reads. */
  const SplitBody: seq<Chunk> := [Bytes([0x41, 0xC3]), Bytes([0xA9])]

  lemma SplitBodyIsText()
    ensures Concat(SplitBody) == [0x41, 0xC3, 0xA9]
    ensures WellFormed([0x41, 0xC3, 0xA9])
  {
    var all: seq<byte> := [0x41, 0xC3, 0xA9];
    var w2: seq<byte> := [0xC3, 0xA9];
    assert Concat(SplitBody[1..]) == [0xA9] + Concat(SplitBody[2..]);
    assert WellFormed(w2) by {
      assert w2[2..] == [];
    }
    assert all[1..] == w2;
  }

  /** The first read's window [0x41, 0xC3] fails to decode past "A". */
  lemma FirstWindowCut()
    ensures NextRead(SplitBody, BufferSize) == ReadStep(Received([0x41, 0xC3]), [Bytes([0xA9])])
    ensures FromUtf8([0x41, 0xC3]) == Invalid(1)
  {
    var w1: seq<byte> := [0x41, 0xC3];
    assert SplitBody[1..] == [Bytes([0xA9])];
    assert w1[1..] == [0xC3];
    assert LeadLength(w1[1..]) == 0;
  }

  /** The second read completes "é" behind the carried-over 0xC3. */
  lemma SecondWindowDecodes()
    ensures NextRead([Bytes([0xA9])], BufferSize - 1) == ReadStep(Received([0xA9]), [])
    ensures [0xC3] + [0xA9] == [0xC3, 0xA9]
    ensures FromUtf8([0xC3, 0xA9]) == Decoded
  {
    var w2: seq<byte> := [0xC3, 0xA9];
    assert w2[2..] == [];
    WellFormedIffScanned(w2);
  }

  /** The loop as written returns only "é": the "A" is printed but never
      appended. */
  lemma SplitBodyAsWritten()
    ensures Drain([], [], SplitBody) == [0xC3, 0xA9]
  {
    var w1: seq<byte> := [0x41, 0xC3];
    FirstWindowCut();
    SecondWindowDecodes();
    assert [] + w1 == w1 && w1[1..] == [0xC3];
    assert Drain([], [], SplitBody) == Drain([0xC3], [], [Bytes([0xA9])]);
    assert [] + [0xC3, 0xA9] == [0xC3, 0xA9];
  }

  /** With the valid prefix appended, the whole body comes back. */
  lemma SplitBodyFixed()
    ensures DrainFixed([], [], SplitBody) == [0x41, 0xC3, 0xA9]
  {
    var w1: seq<byte> := [0x41, 0xC3];
    FirstWindowCut();
    SecondWindowDecodes();
    assert [] + w1 == w1 && w1[1..] == [0xC3] && w1[..1] == [0x41];
    assert DrainFixed([], [], SplitBody) == DrainFixed([0xC3], [0x41], [Bytes([0xA9])]);
    assert [0x41] + [0xC3, 0xA9] == [0x41, 0xC3, 0xA9];
  }

  /** On a well-formed body whose one two-byte character is split between
      two reads, the loop as written loses the text decoded before the
      split, while the corrected loop returns the whole body. */
  lemma SplitCharacterLosesPrefix()
    ensures WellFormed(Concat(SplitBody))
    ensures Drain([], [], SplitBody) != Concat(SplitBody)
    ensures DrainFixed([], [], SplitBody) == Concat(SplitBody)
  {
    SplitBodyIsText();
    SplitBodyAsWritten();
    SplitBodyFixed();
  }
}
