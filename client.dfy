/** The session client: its receive loop, which splits the incoming byte stream into
    records and applies each decoded record to the client's fields, and one frame of
    the main loop, which turns held keys into a heading and an input record. */
module Session {

  import opened Wrappers
  import opened Wire
  import opened Mirror
  import opened Controls
  import opened Input

  /** The messages the records decode to, in order. */
  function Decoded(records: seq<seq<byte>>, decode: seq<byte> -> Msg): seq<Msg>
  {
    seq(|records|, i requires 0 <= i < |records| => decode(records[i]))
  }

  /** No record among `records` fails to decode. */
  predicate AllDecode(records: seq<seq<byte>>, decode: seq<byte> -> Msg)
  {
    forall i | 0 <= i < |records| :: !decode(records[i]).Malformed?
  }

  /** The last of `records` is the first that does not decode. */
  predicate StopsAtLast(records: seq<seq<byte>>, decode: seq<byte> -> Msg)
  {
    && records != []
    && decode(records[|records| - 1]).Malformed?
    && forall i | 0 <= i < |records| - 1 :: !decode(records[i]).Malformed?
  }

  class Client {
    /** Received bytes not yet terminated by a newline. */
    var buf: seq<byte>
    var id: Option<int>
    /** The player list of the last snapshot. */
    var players: seq<Player>
    /** Skin index per player id. */
    var skins: map<int, int>
    /** Heading in degrees per player id. */
    var angles: map<int, int>
    /** The liveness flag the presentation loop polls. */
    var running: bool
    /** Whether the receive loop is still executing. */
    var reading: bool

    /** The fields that message handling reads and writes, as one value. */
    function Current(): View
      reads this
    {
      View(id, players, skins, angles)
    }

    ghost predicate Valid()
      reads this
    {
      && Wf(Current())
      && (reading ==> running && NL !in buf)
    }

    constructor ()
      ensures Valid()
      ensures Current() == Initial
      ensures buf == [] && running && !reading
    {
      buf := [];
      id := None;
      players := [];
      skins := map[];
      angles := map[];
      running := true;
      reading := false;
    }

    /** The receive loop starts, with an empty buffer; it exits at once if the client
        is no longer running. */
    method Connect()
      requires Valid()
      modifies this
      ensures Valid()
      ensures buf == [] && reading == running && running == old(running)
      ensures Current() == old(Current())
    {
      buf := [];
      reading := running;
    }

    /** Applies one decoded record to the client's fields. */
    method Handle(m: Msg)
      modifies this
      ensures Current() == Dispatch(old(Current()), m)
      ensures buf == old(buf) && running == old(running) && reading == old(reading)
    {
      match m
      case Welcome(i) =>
        id := Some(i);
        skins := skins[i := |skins| % SkinCount];
        angles := angles[i := 0];
      case State(ps) =>
        for k := 0 to |ps|
          invariant Current() == AdmitAll(old(Current()), ps[..k])
          invariant buf == old(buf) && running == old(running) && reading == old(reading)
        {
          AdmitPrefix(old(Current()), ps, k);
          var pid := ps[k].id;
          if pid !in skins {
            skins := skins[pid := |skins| % SkinCount];
            angles := angles[pid := 0];
          }
        }
        assert ps[..|ps|] == ps;
        players := ps;
      case Other =>
      case Malformed =>
    }

    /** A connection error raised by `recv` inside the receive loop: the client stops
        running and the receive loop ends. With no receive loop left, no read happens
        and nothing changes. */
    method OnError()
      requires Valid()
      modifies this
      ensures Valid()
      ensures old(reading) ==> !running && !reading
      ensures !old(reading) ==> running == old(running) && !reading
      ensures buf == old(buf) && Current() == old(Current())
    {
      if reading {
        running := false;
        reading := false;
      }
    }

    /** One `recv` result handed to the receive loop. An empty read means the server
        closed the connection. Otherwise the bytes are appended to the buffer and every
        complete record is split off and handled in stream order; a record that does not
        decode ends the receive loop while the client still counts as running. Returns
        the records split off. */
    method OnData(data: seq<byte>, decode: seq<byte> -> Msg) returns (records: seq<seq<byte>>)
      requires Valid()
      modifies this
      ensures Valid()
      ensures !old(running) ==> records == [] && !running && buf == old(buf) && Current() == old(Current())
      ensures !old(reading) ==>
        records == [] && !reading && running == old(running) && buf == old(buf) && Current() == old(Current())
      ensures old(reading) && data == [] ==>
        records == [] && !running && !reading && buf == old(buf) && Current() == old(Current())
      ensures old(reading) && data != [] ==>
        && running
        && Frame(records) + buf == old(buf) + data
        && records <= Lines(old(buf) + data)
        && Current() == DispatchAll(old(Current()), Decoded(records, decode))
        && (reading <==> AllDecode(records, decode))
        && (reading ==> records == Lines(old(buf) + data) && buf == Tail(old(buf) + data))
        && (!reading ==> StopsAtLast(records, decode))
    {
      records := [];
      if !reading {
        return;
      }
      if data == [] {
        running := false;
        reading := false;
        return;
      }
      buf := buf + data;
      records := Drain(decode);
    }

    /** The inner loop of the receive loop: while the buffer holds a newline and reading
        goes on, split off the first record and handle it; a record that does not decode
        ends the receive loop. Returns the records split off. */
    method Drain(decode: seq<byte> -> Msg) returns (records: seq<seq<byte>>)
      requires Wf(Current()) && running && reading
      modifies this
      ensures Valid() && running
      ensures Frame(records) + buf == old(buf)
      ensures records <= Lines(old(buf))
      ensures Current() == DispatchAll(old(Current()), Decoded(records, decode))
      ensures reading <==> AllDecode(records, decode)
      ensures reading ==> records == Lines(old(buf)) && buf == Tail(old(buf))
      ensures !reading ==> StopsAtLast(records, decode)
    {
      ghost var stream := buf;
      ghost var start := Current();
      records := [];
      assert Frame(records) + buf == stream;
      while NL in buf && reading
        invariant running && Wf(Current())
        invariant Drawn(stream, records, buf, Current(), start, reading, decode)
        decreases |buf|
      {
        var k := IndexOf(buf, NL);
        var line := buf[..k];
        var msg := decode(line);
        DrainStep(stream, records, buf, k, start, Current(), decode);
        buf := buf[k + 1..];
        records := records + [line];
        if msg.Malformed? {
          reading := false;
        } else {
          DispatchKeepsWf(Current(), msg);
          Handle(msg);
        }
      }
      DrawnMeans(stream, records, buf, Current(), start, reading, decode);
    }

    /** The receive loop run over the results of successive `recv` calls: it stops at
        the first empty read or record that does not decode, or when the chunks run
        out, and returns how many chunks it consumed and, as a ghost, the records it
        handled. The mirror is always those records dispatched in stream order, and
        they are the first complete records of the stream read so far: all of them
        when reading goes on or the server closed the connection, whatever the chunk
        boundaries, and up to and including the first that does not decode when that
        record ended the loop. */
    method Receive(chunks: seq<seq<byte>>, decode: seq<byte> -> Msg) returns (n: nat, ghost handled: seq<seq<byte>>)
      requires Valid() && reading
      modifies this
      ensures Valid()
      ensures n <= |chunks|
      ensures n < |chunks| ==> !reading
      ensures forall j | 0 <= j < n - 1 :: chunks[j] != []
      ensures !running <==> 0 < n && chunks[n - 1] == []
      ensures running && !reading ==> 0 < n && |Lines(old(buf) + Concat(chunks[..n - 1]))| < |handled|
      ensures Current() == DispatchAll(old(Current()), Decoded(handled, decode))
      ensures handled <= Lines(old(buf) + Concat(chunks[..n]))
      ensures reading || !running ==>
        && handled == Lines(old(buf) + Concat(chunks[..n]))
        && buf == Tail(old(buf) + Concat(chunks[..n]))
        && AllDecode(handled, decode)
      ensures running && !reading ==> StopsAtLast(handled, decode)
      ensures reading ==>
        && n == |chunks|
        && buf == Tail(old(buf) + Concat(chunks))
        && Current() == DispatchAll(old(Current()), Decoded(Lines(old(buf) + Concat(chunks)), decode))
    {
      ghost var start, v0 := buf, Current();
      SplitOfUnterminated(start);
      assert chunks[..0] == [] && start + [] == start;
      n, handled := 0, [];
      while n < |chunks| && reading
        invariant Valid()
        invariant StoppedAt(start, chunks, n, handled, running, reading)
        invariant Progress(start + Concat(chunks[..n]), handled, buf, Current(), v0, running, reading, decode)
        decreases |chunks| - n
      {
        ghost var a := start + Concat(chunks[..n]);
        ghost var before := handled;
        handled := ReceiveChunk(chunks[n], decode, a, handled, v0);
        assert a + chunks[n] == start + Concat(chunks[..n + 1]) by {
          ConcatStep(start, chunks, n);
        }
        StoppedStep(start, chunks, n, before, handled, running, reading);
        n := n + 1;
      }
      assert chunks[..n] == chunks || !reading;
      StoppedMeans(start, chunks, n, handled, running, reading);
      ProgressMeans(start + Concat(chunks[..n]), handled, buf, Current(), v0, running, reading, decode);
    }

    /** One pass of the receive loop, one `recv` result handled, seen against the
        whole stream: `Progress` over the stream read before carries over to the stream
        extended by the chunk. Returns the records handled so far. */
    method ReceiveChunk(data: seq<byte>, decode: seq<byte> -> Msg, ghost a: seq<byte>,
                        ghost handled: seq<seq<byte>>, ghost v0: View) returns (ghost handled': seq<seq<byte>>)
      requires Valid() && reading
      requires Progress(a, handled, buf, Current(), v0, true, true, decode)
      modifies this
      ensures Valid()
      ensures !running <==> data == []
      ensures data == [] ==> !reading
      ensures running && !reading ==> |Lines(a)| < |handled'|
      ensures Progress(a + data, handled', buf, Current(), v0, running, reading, decode)
    {
      ghost var before, bufBefore := Current(), buf;
      var records := OnData(data, decode);
      if data == [] {
        assert a + data == a;
        handled' := handled;
      } else {
        ReceiveStep(a, data, handled, records, bufBefore, buf, before, Current(), v0, reading, decode);
        handled' := handled + records;
      }
    }

    /** One frame of the main loop: the held keys set the client's own heading, when
        it has a truthy id, and give the input record sent this frame. */
    method HandleKeys(keys: Keys) returns (record: seq<byte>)
      requires Valid()
      modifies this
      ensures Valid()
      ensures var s := Steer(old(id), keys);
        && record == InputRecord(s.dx, s.dy)
        && angles == (if s.angle.Some? then old(angles)[old(id).value := s.angle.value] else old(angles))
      ensures id == old(id) && players == old(players) && skins == old(skins)
      ensures buf == old(buf) && running == old(running) && reading == old(reading)
    {
      var s := Steer(id, keys);
      if s.angle.Some? {
        angles := angles[id.value := s.angle.value];
      }
      record := InputRecord(s.dx, s.dy);
    }
  }

  /** Where the receive loop stands after reading `chunks[..n]`: no read before the
      last was empty; the client stopped running exactly when the last read was empty;
      and when a record that does not decode ended the loop, it came from the last
      chunk read, past all the records of the stream before that chunk. */
  ghost predicate StoppedAt(start: seq<byte>, chunks: seq<seq<byte>>, n: nat, handled: seq<seq<byte>>,
                            running: bool, reading: bool)
  {
    && n <= |chunks|
    && (forall j | 0 <= j < n - 1 :: chunks[j] != [])
    && (!running <==> 0 < n && chunks[n - 1] == [])
    && (running && !reading ==> 0 < n && |Lines(start + Concat(chunks[..n - 1]))| < |handled|)
  }

  /** One more chunk read by a client that was still reading keeps `StoppedAt`. */
  lemma StoppedStep(start: seq<byte>, chunks: seq<seq<byte>>, n: nat, handled: seq<seq<byte>>,
                    handled': seq<seq<byte>>, running: bool, reading: bool)
    requires StoppedAt(start, chunks, n, handled, true, true)
    requires n < |chunks|
    requires !running <==> chunks[n] == []
    requires running && !reading ==> |Lines(start + Concat(chunks[..n]))| < |handled'|
    ensures StoppedAt(start, chunks, n + 1, handled', running, reading)
  {
  }

  /** `StoppedAt` spelled out. */
  lemma StoppedMeans(start: seq<byte>, chunks: seq<seq<byte>>, n: nat, handled: seq<seq<byte>>,
                     running: bool, reading: bool)
    requires StoppedAt(start, chunks, n, handled, running, reading)
    ensures n <= |chunks|
    ensures forall j | 0 <= j < n - 1 :: chunks[j] != []
    ensures !running <==> 0 < n && chunks[n - 1] == []
    ensures running && !reading ==> 0 < n && |Lines(start + Concat(chunks[..n - 1]))| < |handled|
  {
  }

  /** What the receive loop has done with the stream read so far: the mirror is the
      handled records dispatched in order, and they are the first complete records of
      the stream; all of them, with the buffer holding the stream's tail, while the
      loop reads on or after the server closed the connection; up to the first record
      that does not decode when that record ended the loop. */
  ghost predicate Progress(stream: seq<byte>, handled: seq<seq<byte>>, buf: seq<byte>, v: View, v0: View,
                           running: bool, reading: bool, decode: seq<byte> -> Msg)
  {
    && v == DispatchAll(v0, Decoded(handled, decode))
    && handled <= Lines(stream)
    && (reading || !running ==>
          handled == Lines(stream) && buf == Tail(stream) && AllDecode(handled, decode))
    && (running && !reading ==> StopsAtLast(handled, decode))
  }

  /** `Progress` spelled out, clause by clause. */
  lemma ProgressMeans(stream: seq<byte>, handled: seq<seq<byte>>, buf: seq<byte>, v: View, v0: View,
                      running: bool, reading: bool, decode: seq<byte> -> Msg)
    requires Progress(stream, handled, buf, v, v0, running, reading, decode)
    ensures v == DispatchAll(v0, Decoded(handled, decode))
    ensures handled <= Lines(stream)
    ensures reading || !running ==> handled == Lines(stream) && buf == Tail(stream) && AllDecode(handled, decode)
    ensures running && !reading ==> StopsAtLast(handled, decode)
    ensures reading ==> buf == Tail(stream) && v == DispatchAll(v0, Decoded(Lines(stream), decode))
  {
  }

  /** One non-empty chunk handed to a reading client keeps `Progress`. */
  lemma ReceiveStep(a: seq<byte>, data: seq<byte>, handled: seq<seq<byte>>, records: seq<seq<byte>>,
                    bufBefore: seq<byte>, bufAfter: seq<byte>, before: View, after: View, v0: View,
                    reading: bool, decode: seq<byte> -> Msg)
    requires Progress(a, handled, bufBefore, before, v0, true, true, decode)
    requires records <= Lines(bufBefore + data)
    requires after == DispatchAll(before, Decoded(records, decode))
    requires reading ==> records == Lines(bufBefore + data) && bufAfter == Tail(bufBefore + data)
                         && AllDecode(records, decode)
    requires !reading ==> StopsAtLast(records, decode)
    ensures Progress(a + data, handled + records, bufAfter, after, v0, true, reading, decode)
  {
    ChunkStep(a, data, records, v0, before, decode);
    if reading {
      AllDecodeConcat(handled, records, decode);
    } else {
      MalformedLast(handled, records, decode);
    }
  }

  /** Handling some first records of one more chunk after all those of the stream so
      far is handling the same first records of the longer stream. */
  lemma ChunkStep(a: seq<byte>, data: seq<byte>, records: seq<seq<byte>>, v0: View, before: View,
                  decode: seq<byte> -> Msg)
    requires before == DispatchAll(v0, Decoded(Lines(a), decode))
    requires records <= Lines(Tail(a) + data)
    ensures DispatchAll(before, Decoded(records, decode)) == DispatchAll(v0, Decoded(Lines(a) + records, decode))
    ensures Lines(a) + records <= Lines(a + data)
    ensures records == Lines(Tail(a) + data) ==> Lines(a) + records == Lines(a + data)
    ensures Tail(Tail(a) + data) == Tail(a + data)
  {
    ChunkingIsIrrelevant(a, data);
    DecodedConcat(Lines(a), records, decode);
    DispatchAllAppend(v0, Decoded(Lines(a), decode), Decoded(records, decode));
    PrefixConcat(Lines(a), records, Lines(Tail(a) + data));
  }

  lemma PrefixConcat<T>(xs: seq<T>, ys: seq<T>, zs: seq<T>)
    requires ys <= zs
    ensures xs + ys <= xs + zs
  {
    assert (xs + zs)[..|xs + ys|] == xs + ys;
  }

  lemma AllDecodeConcat(r1: seq<seq<byte>>, r2: seq<seq<byte>>, decode: seq<byte> -> Msg)
    requires AllDecode(r1, decode) && AllDecode(r2, decode)
    ensures AllDecode(r1 + r2, decode)
  {
    forall i | 0 <= i < |r1 + r2| ensures !decode((r1 + r2)[i]).Malformed? {
      if i >= |r1| {
        assert (r1 + r2)[i] == r2[i - |r1|];
      }
    }
  }

  /** Records that all decode, followed by records whose last alone does not, end in
      their first record that does not decode. */
  lemma MalformedLast(r1: seq<seq<byte>>, r2: seq<seq<byte>>, decode: seq<byte> -> Msg)
    requires AllDecode(r1, decode)
    requires StopsAtLast(r2, decode)
    ensures StopsAtLast(r1 + r2, decode)
  {
    var r := r1 + r2;
    forall i | 0 <= i < |r| - 1 ensures !decode(r[i]).Malformed? {
      if i >= |r1| {
        assert r[i] == r2[i - |r1|];
      }
    }
    assert r[|r| - 1] == r2[|r2| - 1];
  }

  lemma ConcatStep(start: seq<byte>, chunks: seq<seq<byte>>, n: nat)
    requires n < |chunks|
    ensures start + Concat(chunks[..n]) + chunks[n] == start + Concat(chunks[..n + 1])
  {
    assert chunks[..n + 1][..n] == chunks[..n];
  }

  /** What the inner loop has done with the buffered stream: the records split off,
      re-terminated, followed by the buffer make up the stream; the mirror is those
      records dispatched in order; reading goes on exactly while all of them decode,
      and once one does not, it is the last one split off. */
  ghost predicate Drawn(stream: seq<byte>, records: seq<seq<byte>>, buf: seq<byte>, v: View, start: View,
                        reading: bool, decode: seq<byte> -> Msg)
  {
    && Frame(records) + buf == stream && Unterminated(records)
    && v == DispatchAll(start, Decoded(records, decode))
    && (reading <==> AllDecode(records, decode))
    && (!reading ==> StopsAtLast(records, decode))
  }

  /** Splitting off and handling the first buffered record keeps `Drawn`. */
  lemma DrainStep(stream: seq<byte>, records: seq<seq<byte>>, buf: seq<byte>, k: nat, start: View, v: View,
                  decode: seq<byte> -> Msg)
    requires Drawn(stream, records, buf, v, start, true, decode)
    requires NL in buf && k == IndexOf(buf, NL)
    ensures var line := buf[..k];
      Drawn(stream, records + [line], buf[k + 1..], Dispatch(v, decode(line)), start,
            !decode(line).Malformed?, decode)
  {
    var line := buf[..k];
    SplitStep(buf, k, records);
    DecodedAppend(records, line, decode);
    assert forall i | 0 <= i < |records| :: (records + [line])[i] == records[i];
  }

  /** `Drawn` spelled out once the inner loop has stopped. */
  lemma DrawnMeans(stream: seq<byte>, records: seq<seq<byte>>, buf: seq<byte>, v: View, start: View,
                   reading: bool, decode: seq<byte> -> Msg)
    requires Drawn(stream, records, buf, v, start, reading, decode)
    requires reading ==> NL !in buf
    ensures Frame(records) + buf == stream
    ensures records <= Lines(stream)
    ensures v == DispatchAll(start, Decoded(records, decode))
    ensures reading <==> AllDecode(records, decode)
    ensures reading ==> records == Lines(stream) && buf == Tail(stream)
    ensures !reading ==> StopsAtLast(records, decode)
  {
    Drained(records, buf, stream);
  }

  /** Records split off a stream, with the rest still buffered, are the stream's first
      records; once no newline is buffered they are all of them and the buffer is the
      stream's tail. */
  lemma Drained(records: seq<seq<byte>>, buf: seq<byte>, stream: seq<byte>)
    requires Frame(records) + buf == stream && Unterminated(records)
    ensures records <= Lines(stream)
    ensures NL !in buf ==> records == Lines(stream) && buf == Tail(stream)
  {
    SplitOfFramed(records, buf);
    if NL !in buf {
      SplitOfUnterminated(buf);
      assert records + [] == records;
    }
  }

  /** Splitting the first record off the buffer moves it, with its terminator, from
      the buffer to the records: the stream they make up together is the same. */
  lemma SplitStep(before: seq<byte>, k: nat, done: seq<seq<byte>>)
    requires NL in before && k == IndexOf(before, NL)
    requires Unterminated(done)
    ensures Frame(done + [before[..k]]) + before[k + 1..] == Frame(done) + before
    ensures Unterminated(done + [before[..k]])
  {
    var line, after := before[..k], before[k + 1..];
    SplitAround(before, k);
    FrameAppend(done, line);
    Reassociate(Frame(done), line, [NL], after);
  }

  lemma Reassociate<T>(a: seq<T>, b: seq<T>, c: seq<T>, d: seq<T>)
    ensures a + b + c + d == a + (b + c + d)
    ensures a + (b + c + d) == (a + b + c) + d
  {
  }

  lemma AdmitPrefix(v: View, ps: seq<Player>, k: nat)
    requires k < |ps|
    ensures AdmitAll(v, ps[..k + 1]) == Admit(AdmitAll(v, ps[..k]), ps[k].id)
  {
    assert ps[..k + 1][..k] == ps[..k];
  }

  lemma DecodedConcat(r1: seq<seq<byte>>, r2: seq<seq<byte>>, decode: seq<byte> -> Msg)
    ensures Decoded(r1 + r2, decode) == Decoded(r1, decode) + Decoded(r2, decode)
  {
  }

  lemma DecodedAppend(done: seq<seq<byte>>, line: seq<byte>, decode: seq<byte> -> Msg)
    ensures Decoded(done + [line], decode) == Decoded(done, decode) + [decode(line)]
  {
  }
}
