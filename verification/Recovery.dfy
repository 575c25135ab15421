/** Three ways to replay a store: the default chunked loop, the file engine's whole-file pass
    and the JetStream range loop (crates/pardosa/src/store/engine.rs:58-103,
    crates/pardosa/src/file.rs:1829-1878, crates/pardosa-nats/src/adapter.rs:386-640, 2732-2872).

    All three deliver frames through a callback that may refuse any of them, and may decide
    on everything it has been given so far. */
module Recovery {
  import opened Wire
  import opened Container

  type Log = seq<(nat, Payload)>

  /** The callback: given the log including the frame just delivered, does it accept? */
  type Callback = Log -> bool

  datatype Delivery = Delivery(log: Log, accepted: bool)

  /** Delivers the frames from index `i` on, until the callback refuses one. */
  function Deliver(frames: seq<Payload>, i: nat, log: Log, cb: Callback): Delivery
    requires i <= |frames|
    decreases |frames| - i
  {
    if i == |frames| then Delivery(log, true) else
    var log := log + [(i, frames[i])];
    if cb(log) then Deliver(frames, i + 1, log, cb) else Delivery(log, false)
  }

  /** With a callback that never refuses, every frame is delivered once, in order, under its index. */
  lemma {:induction false} DeliverEnumerates(frames: seq<Payload>, i: nat, log: Log, cb: Callback)
    requires i <= |frames| && |log| == i && forall l :: cb(l)
    requires forall j | 0 <= j < i :: log[j] == (j, frames[j])
    ensures var d := Deliver(frames, i, log, cb);
            d.accepted && |d.log| == |frames| && forall j | 0 <= j < |frames| :: d.log[j] == (j, frames[j])
    decreases |frames| - i
  {
    if i < |frames| {
      DeliverEnumerates(frames, i + 1, log + [(i, frames[i])], cb);
    }
  }

  class Sink {
    const cb: Callback
    var log: Log

    constructor (cb: Callback)
      ensures this.cb == cb && log == []
    {
      this.cb := cb;
      log := [];
    }

    method OnFrame(index: nat, frame: Payload) returns (ok: bool)
      modifies this
      ensures log == old(log) + [(index, frame)] && ok == cb(log)
    {
      log := log + [(index, frame)];
      ok := cb(log);
    }
  }

  // ---- The default loop ----

  /** A chunk clipped to what there is; an empty one for a start past the end or no items. */
  function Chunk(all: seq<Payload>, start: nat, maxItems: nat): (c: seq<Payload>)
    ensures |c| == if start < |all| then (if maxItems < |all| - start then maxItems else |all| - start) else 0
    ensures forall j | 0 <= j < |c| :: c[j] == all[start + j]
  {
    if maxItems == 0 || start >= |all| then []
    else all[start..if start + maxItems < |all| then start + maxItems else |all|]
  }

  function AtLeastOne(n: nat): (m: nat)
    ensures m >= 1 && m >= n && (m == 1 || m == n)
  {
    if n == 0 then 1 else n
  }

  /** Any chunk size, zero included, gives the same delivery; a total of `None` is the error
      of a refusing callback. A store in memory has fewer than 2^64 frames, so none of the
      saturating additions of the loop ever saturates. */
  method DefaultRecoverFrames(all: seq<Payload>, chunkSize: nat, sink: Sink) returns (total: Option<nat>)
    requires |all| <= U64_MAX && sink.log == []
    modifies sink
    ensures Delivery(sink.log, total.Some?) == Deliver(all, 0, [], sink.cb)
    ensures total.Some? ==> total.value == |all|
  {
    var size := AtLeastOne(chunkSize);
    var startIndex, totalFrames := 0, 0;
    while true
      invariant startIndex == totalFrames <= |all|
      invariant Deliver(all, startIndex, sink.log, sink.cb) == Deliver(all, 0, [], sink.cb)
      decreases |all| - startIndex
    {
      var chunk := Chunk(all, startIndex, size);
      if chunk == [] {
        break;
      }
      for i := 0 to |chunk|
        invariant totalFrames == startIndex + i <= U64_MAX
        invariant Deliver(all, totalFrames, sink.log, sink.cb) == Deliver(all, 0, [], sink.cb)
      {
        var ok := sink.OnFrame(totalFrames, chunk[i]);
        if !ok {
          return None;
        }
        totalFrames := totalFrames + 1;
      }
      startIndex := startIndex + |chunk|;
      if |chunk| < size {
        break;
      }
    }
    return Some(totalFrames);
  }

  // ---- The file engine ----

  datatype RecoverError = NoFile | ScanFailed(error: ScanError) | TornContainer | CallbackRefused

  /** The file is scanned once; a torn container delivers nothing. */
  method FileRecoverFrames(file: Option<Bytes>, chunkSize: nat, sink: Sink)
    returns (r: Result<nat, RecoverError>, frameCount: Option<nat>)
    requires sink.log == []
    modifies sink
    ensures file.None? ==> r == Ok(0) && sink.log == []
    ensures file.Some? ==> match ScanFile(file.value)
              case Err(e) => r == Err(ScanFailed(e)) && sink.log == []
              case Ok(scan) =>
                if scan.tail != [] then r == Err(TornContainer) && sink.log == []
                else Delivery(sink.log, r.Ok?) == Deliver(scan.frames, 0, [], sink.cb)
                     && (if r.Ok? then r.value == |scan.frames| else r.error == CallbackRefused)
                     && frameCount == Some(|scan.frames|)
  {
    frameCount := None;
    if file.None? {
      return Ok(0), frameCount;
    }
    var scan := ReadContainerFrames(file.value);
    if scan.Err? {
      return Err(ScanFailed(scan.error)), frameCount;
    }
    var (frames, valid, truncated) := scan.value;
    if truncated != 0 {
      return Err(TornContainer), frameCount;
    }
    frameCount := Some(|frames|);
    for pos := 0 to |frames|
      invariant Deliver(frames, pos, sink.log, sink.cb) == Deliver(frames, 0, [], sink.cb)
    {
      var ok := sink.OnFrame(pos, frames[pos]);
      if !ok {
        return Err(CallbackRefused), frameCount;
      }
    }
    return Ok(|frames|), frameCount;
  }

  // ---- The JetStream engine ----

  datatype NatsError = EmptyStream | BadStreamHeader | CorruptFrame | Refused

  /** A message is good when it is one whole frame. */
  predicate GoodMessage(m: Bytes) {
    ParseFrame(m).Ok? && ParseFrame(m).value.1 == []
  }

  function PayloadOf(m: Bytes): Payload
    requires GoodMessage(m)
  {
    ParseFrame(m).value.0
  }

  predicate GoodHeader(stream: seq<Bytes>) {
    stream != [] && ParseHeader(stream[0]).Ok? && ParseHeader(stream[0]).value.1 == []
  }

  predicate AllGood(msgs: seq<Bytes>) {
    forall i | 0 <= i < |msgs| :: GoodMessage(msgs[i])
  }

  function Payloads(msgs: seq<Bytes>): (ps: seq<Payload>)
    requires AllGood(msgs)
    ensures |ps| == |msgs| && forall i | 0 <= i < |ps| :: ps[i] == PayloadOf(msgs[i])
  {
    if msgs == [] then [] else [PayloadOf(msgs[0])] + Payloads(msgs[1..])
  }

  /** Which messages and which streams are good. */
  lemma GoodIff(m: Bytes, p: Payload, stream: seq<Bytes>)
    ensures GoodMessage(m) && PayloadOf(m) == p <==> m == Frame(p)
    ensures GoodHeader(stream) <==> stream != [] && stream[0] == HeaderBytes()
  {
    hide Frame, HeaderBytes, ParseFrame, ParseHeader;
    assert Frame(p) + [] == Frame(p) && HeaderBytes() + [] == HeaderBytes();
    FrameExact(m, p, []);
    if stream != [] {
      HeaderExact(stream[0], []);
      if ParseHeader(stream[0]).Ok? {
        VersionIsOne(stream[0]);
      }
    }
  }

  lemma VersionIsOne(s: Bytes)
    requires ParseHeader(s).Ok?
    ensures ParseHeader(s).value.0 == CONTAINER_FORMAT_VERSION
  {
  }

  /** Sequences `from` to `to`, decoded one by one; sequence `n` is `stream[n - 1]`. */
  method ReadRange(stream: seq<Bytes>, from: nat, to: nat) returns (r: Result<seq<Payload>, NatsError>)
    requires 1 <= from <= to <= |stream|
    ensures r.Ok? <==> AllGood(stream[from - 1..to])
    ensures r.Ok? ==> r.value == Payloads(stream[from - 1..to])
    ensures r.Err? ==> r.error == CorruptFrame
  {
    hide ParseFrame;
    var msgs := stream[from - 1..to];
    var frames := [];
    for i := 0 to |msgs|
      invariant |frames| == i
      invariant forall j | 0 <= j < i :: GoodMessage(msgs[j]) && frames[j] == PayloadOf(msgs[j])
    {
      var next := ParseFrame(msgs[i]);
      if next.Err? || next.value.1 != [] {
        return Err(CorruptFrame);
      }
      frames := frames + [next.value.0];
    }
    return Ok(frames);
  }

  /** Reading everything at once. */
  method NatsReadAll(stream: seq<Bytes>) returns (r: Result<seq<Payload>, NatsError>)
    ensures r.Ok? <==> GoodHeader(stream) && AllGood(stream[1..])
    ensures r == Err(EmptyStream) <==> stream == []
    ensures r == Err(BadStreamHeader) <==> stream != [] && !GoodHeader(stream)
    ensures r == Err(CorruptFrame) <==> GoodHeader(stream) && !AllGood(stream[1..])
    ensures r.Ok? ==> r.value == Payloads(stream[1..])
  {
    hide ParseHeader, GoodMessage, PayloadOf, AllGood, Payloads;
    if stream == [] {
      return Err(EmptyStream);
    }
    var header := ParseHeader(stream[0]);
    if header.Err? || header.value.1 != [] {
      return Err(BadStreamHeader);
    }
    if |stream| == 1 {
      NoneToRead();
      assert stream[1..] == [];
      return Ok([]);
    }
    assert stream[1..|stream|] == stream[1..];
    r := ReadRange(stream, 2, |stream|);
  }

  lemma NoneToRead()
    ensures AllGood([]) && Payloads([]) == []
  {
  }

  /** How far a recovery that met a corrupt message got: some frames, all of them before it. */
  predicate StoppedAtCorruption(msgs: seq<Bytes>, log: Log, cb: Callback) {
    exists n :: 0 <= n < |msgs| && AllGood(msgs[..n])
              && Deliver(Payloads(msgs[..n]), 0, [], cb) == Delivery(log, true)
  }

  /** The range loop asks for at most `chunkSize` sequences at a time. On a stream that reads
      at all it delivers exactly what reading everything would, whatever the chunk size, and
      afterwards the engine's last sequence is the last of the stream; with a corrupt message
      it never succeeds. */
  method NatsRecoverFrames(stream: seq<Bytes>, chunkSize: nat, sink: Sink, lastDataSeq: nat)
    returns (r: Result<nat, NatsError>, last: nat)
    requires |stream| <= U64_MAX && sink.log == []
    modifies sink
    ensures r.Ok? ==> last == |stream| && r.value == |stream| - 1
    ensures r.Err? ==> last == lastDataSeq
    ensures !GoodHeader(stream) ==> r == Err(if stream == [] then EmptyStream else BadStreamHeader) && sink.log == []
    ensures GoodHeader(stream) && AllGood(stream[1..]) ==>
              && Delivery(sink.log, r.Ok?) == Deliver(Payloads(stream[1..]), 0, [], sink.cb)
              && (r.Err? ==> r.error == Refused)
    ensures GoodHeader(stream) && !AllGood(stream[1..]) ==> r == Err(Refused) || r == Err(CorruptFrame)
    ensures r == Err(CorruptFrame) ==> stream != [] && StoppedAtCorruption(stream[1..], sink.log, sink.cb)
  {
    hide GoodMessage, PayloadOf, Deliver, ParseHeader, StoppedAtCorruption;
    last := lastDataSeq;
    if stream == [] {
      return Err(EmptyStream), last;
    }
    var header := ParseHeader(stream[0]);
    if header.Err? || header.value.1 != [] {
      return Err(BadStreamHeader), last;
    }
    NothingToDeliver(sink.cb);
    if 2 > |stream| {
      assert stream[1..] == [];
      last := |stream|;
      return Ok(0), last;
    }
    r := RangeLoop(stream, AtLeastOne(chunkSize), sink);
    if r.Ok? {
      last := |stream|;
    }
  }

  method RangeLoop(stream: seq<Bytes>, step: nat, sink: Sink) returns (r: Result<nat, NatsError>)
    requires |stream| >= 2 && step >= 1 && sink.log == []
    modifies sink
    ensures r.Ok? ==> r.value == |stream| - 1 && AllGood(stream[1..])
    ensures r.Err? ==> r.error == Refused || r.error == CorruptFrame
    ensures AllGood(stream[1..]) ==> && Delivery(sink.log, r.Ok?) == Deliver(Payloads(stream[1..]), 0, [], sink.cb)
                                     && (r.Err? ==> r.error == Refused)
    ensures r == Err(CorruptFrame) ==> StoppedAtCorruption(stream[1..], sink.log, sink.cb)
  {
    hide GoodMessage, PayloadOf, Deliver, AllGood, Payloads, StoppedAtCorruption;
    ghost var msgs := stream[1..];
    var current: nat, total: nat := 2, 0;
    assert msgs[..0] == [];
    NothingToDeliver(sink.cb);
    while current <= |stream|
      invariant 2 <= current <= |stream| + 1 && total == current - 2
      invariant AllGood(msgs[..total])
      invariant Deliver(Payloads(msgs[..total]), 0, [], sink.cb) == Delivery(sink.log, true)
      decreases |stream| + 1 - current
    {
      var end := if current + (step - 1) < |stream| then current + (step - 1) else |stream|;
      var frames := ReadRange(stream, current, end);
      TailSlice(stream, current - 1, end);
      if frames.Err? {
        GoodThroughout(msgs, total, end - 1);
        StoppedHere(msgs, total, end - 1, sink.log, sink.cb);
        return Err(CorruptFrame);
      }
      AllGoodJoin(msgs, total, end - 1);
      var ok := DeliverChunk(Payloads(msgs[..end - 1]), total, frames.value, sink);
      if !ok {
        RefusedWithin(msgs, end - 1, sink.log, sink.cb);
        return Err(Refused);
      }
      total := total + |frames.value|;
      current := end + 1;
    }
    assert msgs[..total] == msgs;
    return Ok(total);
  }

  lemma TailSlice(stream: seq<Bytes>, a: nat, b: nat)
    requires 1 <= a <= b <= |stream|
    ensures stream[a..b] == stream[1..][a - 1..b - 1]
  {
    var x, y := stream[a..b], stream[1..][a - 1..b - 1];
    assert |x| == |y|;
    assert forall i | 0 <= i < |x| :: x[i] == stream[a + i] && y[i] == stream[1..][a - 1 + i];
    assert x == y;
  }

  lemma StoppedHere(msgs: seq<Bytes>, n: nat, m: nat, log: Log, cb: Callback)
    requires n <= m <= |msgs| && AllGood(msgs[..n]) && !AllGood(msgs[n..m])
    requires Deliver(Payloads(msgs[..n]), 0, [], cb) == Delivery(log, true)
    ensures StoppedAtCorruption(msgs, log, cb)
  {
    hide GoodMessage, Payloads, Deliver;
    assert n < |msgs|;
  }

  /** Delivers one chunk after everything before it has been accepted. */
  method DeliverChunk(ghost known: seq<Payload>, base: nat, chunk: seq<Payload>, sink: Sink) returns (ok: bool)
    requires base + |chunk| == |known| && forall i | 0 <= i < |chunk| :: known[base + i] == chunk[i]
    requires Deliver(known[..base], 0, [], sink.cb) == Delivery(sink.log, true)
    modifies sink
    ensures Deliver(known, 0, [], sink.cb) == Delivery(sink.log, ok)
  {
    DeliverPrefix(known[..base], known, sink.cb);
    for i := 0 to |chunk|
      invariant Deliver(known, 0, [], sink.cb) == Deliver(known, base + i, sink.log, sink.cb)
    {
      ok := sink.OnFrame(base + i, chunk[i]);
      if !ok {
        return false;
      }
    }
    return true;
  }

  lemma NothingToDeliver(cb: Callback)
    ensures AllGood([]) && Deliver(Payloads([]), 0, [], cb) == Delivery([], true)
  {
  }

  lemma GoodThroughout(msgs: seq<Bytes>, a: nat, b: nat)
    requires a <= b <= |msgs|
    ensures AllGood(msgs) ==> AllGood(msgs[a..b])
  {
  }

  /** A refusal met in a prefix is the refusal of the whole. */
  lemma RefusedWithin(msgs: seq<Bytes>, n: nat, log: Log, cb: Callback)
    requires n <= |msgs| && AllGood(msgs[..n])
    requires Deliver(Payloads(msgs[..n]), 0, [], cb) == Delivery(log, false)
    ensures AllGood(msgs) ==> Deliver(Payloads(msgs), 0, [], cb) == Delivery(log, false)
  {
    if AllGood(msgs) {
      assert forall i | 0 <= i < n :: msgs[..n][i] == msgs[i];
      DeliverRefusal(Payloads(msgs[..n]), Payloads(msgs), cb);
    }
  }

  lemma AllGoodJoin(msgs: seq<Bytes>, a: nat, b: nat)
    requires a <= b <= |msgs| && AllGood(msgs[..a]) && AllGood(msgs[a..b])
    ensures AllGood(msgs[..b])
    ensures Payloads(msgs[..b])[..a] == Payloads(msgs[..a])
    ensures forall i | 0 <= i < b - a :: Payloads(msgs[..b])[a + i] == Payloads(msgs[a..b])[i]
  {
    forall i | 0 <= i < b ensures GoodMessage(msgs[..b][i]) {
      if i < a {
        assert msgs[..a][i] == msgs[..b][i];
      } else {
        assert msgs[a..b][i - a] == msgs[..b][i];
      }
    }
    assert forall i | 0 <= i < a :: msgs[..a][i] == msgs[..b][i];
    assert forall i | 0 <= i < b - a :: msgs[a..b][i] == msgs[..b][a + i];
  }

  /** A delivery that was accepted throughout goes on where it stopped when frames are added. */
  lemma {:induction false} DeliverExtends(ps: seq<Payload>, qs: seq<Payload>, i: nat, log: Log, cb: Callback)
    requires |ps| <= |qs| && qs[..|ps|] == ps && i <= |ps|
    ensures var d := Deliver(ps, i, log, cb);
            Deliver(qs, i, log, cb) == if d.accepted then Deliver(qs, |ps|, d.log, cb) else d
    decreases |ps| - i
  {
    if i < |ps| {
      assert qs[i] == qs[..|ps|][i];
      DeliverExtends(ps, qs, i + 1, log + [(i, ps[i])], cb);
    }
  }

  lemma DeliverPrefix(ps: seq<Payload>, qs: seq<Payload>, cb: Callback)
    requires |ps| <= |qs| && qs[..|ps|] == ps && Deliver(ps, 0, [], cb).accepted
    ensures Deliver(qs, 0, [], cb) == Deliver(qs, |ps|, Deliver(ps, 0, [], cb).log, cb)
  {
    DeliverExtends(ps, qs, 0, [], cb);
  }

  lemma DeliverRefusal(ps: seq<Payload>, qs: seq<Payload>, cb: Callback)
    requires |ps| <= |qs| && (forall i | 0 <= i < |ps| :: ps[i] == qs[i]) && !Deliver(ps, 0, [], cb).accepted
    ensures Deliver(qs, 0, [], cb) == Deliver(ps, 0, [], cb)
  {
    assert qs[..|ps|] == ps;
    DeliverExtends(ps, qs, 0, [], cb);
  }

  // ---- The same store on either medium ----

  /** The messages of the data stream that holds exactly these frames. */
  function StreamOf(ps: seq<Payload>): (stream: seq<Bytes>)
    ensures |stream| == |ps| + 1
  {
    if ps == [] then [HeaderBytes()] else
    var n := |ps| - 1;
    StreamOf(ps[..n]) + [Frame(ps[n])]
  }

  lemma {:induction false} StreamOfAt(ps: seq<Payload>, i: nat)
    requires i <= |ps|
    ensures StreamOf(ps)[i] == if i == 0 then HeaderBytes() else Frame(ps[i - 1])
  {
    hide Frame, HeaderBytes;
    if ps != [] && i < |ps| {
      StreamOfAt(ps[..|ps| - 1], i);
    }
  }

  /** The container file and the data stream of the same frames give every recovery loop the
      same frames to deliver. */
  lemma SameFramesEverywhere(ps: seq<Payload>)
    ensures ScanFile(File(ps)) == Ok(Scan(ps, []))
    ensures GoodHeader(StreamOf(ps)) && AllGood(StreamOf(ps)[1..]) && Payloads(StreamOf(ps)[1..]) == ps
  {
    hide Frame, HeaderBytes, ParseHeader, GoodMessage, PayloadOf, ScanFile;
    CleanFileScans(ps);
    var stream := StreamOf(ps);
    StreamOfAt(ps, 0);
    assert HeaderBytes() + [] == HeaderBytes();
    HeaderExact(stream[0], []);
    forall i | 0 <= i < |ps| ensures GoodMessage(stream[1..][i]) && PayloadOf(stream[1..][i]) == ps[i] {
      StreamOfAt(ps, i + 1);
      FrameIsGood(ps[i]);
    }
  }

  lemma FrameIsGood(p: Payload)
    ensures GoodMessage(Frame(p)) && PayloadOf(Frame(p)) == p
  {
    hide Frame, ParseFrame;
    assert Frame(p) + [] == Frame(p);
    ParseOfFrame(p, []);
  }
}
