/** The container format: a 12-byte header followed by frames of length, payload and CRC32C,
    and the scan that recovers the frames of a possibly torn file
    (crates/pardosa/src/file.rs:15-227, 310-466). */
module Container {
  import opened Wire

  const CONTAINER_MAGIC: Bytes := [0x50, 0x41, 0x52, 0x44, 0x4f, 0x53, 0x41, 0x01]
  const CONTAINER_FORMAT_VERSION: u32 := 1

  /** The only header the decoder accepts. */
  function HeaderBytes(): (b: Bytes)
    ensures |b| == 12
  {
    CONTAINER_MAGIC + Le(CONTAINER_FORMAT_VERSION, 4)
  }

  // ---- Header and frame ----

  function ParseHeader(s: Bytes): Parsed<u32> {
    if |s| < 8 then Err(TruncatedHeader)
    else if s[..8] != CONTAINER_MAGIC then Err(InvalidMagic)
    else if |s| < 12 then Err(TruncatedHeader)
    else
      var (version, r) :- TakeU32(s[8..]);
      if version != CONTAINER_FORMAT_VERSION then Err(UnsupportedFormatVersion) else Ok((version, r))
  }

  lemma HeaderExact(s: Bytes, r: Bytes)
    ensures ParseHeader(s) == Ok((CONTAINER_FORMAT_VERSION, r)) <==> s == HeaderBytes() + r
  {
    var v := Le(CONTAINER_FORMAT_VERSION, 4);
    if s == HeaderBytes() + r {
      assert s[..8] == CONTAINER_MAGIC && s[8..] == v + r;
      TakeU32Exact(s[8..], CONTAINER_FORMAT_VERSION, r);
    }
    if ParseHeader(s) == Ok((CONTAINER_FORMAT_VERSION, r)) {
      TakeU32Exact(s[8..], CONTAINER_FORMAT_VERSION, r);
      assert s == s[..8] + s[8..];
      Assoc3(CONTAINER_MAGIC, v, r);
    }
  }

  /** A payload that fits the four-byte length. */
  type Payload = b: Bytes | |b| <= U32_MAX witness []

  function Frame(p: Payload): (b: Bytes)
    ensures |b| == |p| + 8
  {
    Le(|p|, 4) + (p + Le(Crc32c(p), 4))
  }

  function ParseFrame(s: Bytes): Parsed<Payload> {
    var (n, r) :- TakeU32(s);
    var (p, r) :- Take(n, r);
    var (crc, r) :- TakeU32(r);
    if crc != Crc32c(p) then Err(ChecksumMismatch) else Ok((p, r))
  }

  lemma FrameExact(s: Bytes, p: Payload, r: Bytes)
    ensures ParseFrame(s) == Ok((p, r)) <==> s == Frame(p) + r
  {
    if s == Frame(p) + r {
      ParseOfFrame(p, r);
    }
    if ParseFrame(s) == Ok((p, r)) {
      FrameOfParse(s);
    }
  }

  lemma ParseOfFrame(p: Payload, r: Bytes)
    ensures ParseFrame(Frame(p) + r) == Ok((p, r))
  {
    var n, c := Le(|p|, 4), Le(Crc32c(p), 4);
    Assoc4(n, p, c, r);
    TakeU32Exact(n + (p + (c + r)), |p|, p + (c + r));
    TakeExact(|p|, p + (c + r), p, c + r);
    TakeU32Exact(c + r, Crc32c(p), r);
  }

  lemma FrameOfParse(s: Bytes)
    requires ParseFrame(s).Ok?
    ensures var (p, r) := ParseFrame(s).value; s == Frame(p) + r
  {
    var (p, r) := ParseFrame(s).value;
    var (n, q0) := TakeU32(s).value;
    var (b, q1) := Take(n, q0).value;
    TakeU32Exact(s, n, q0);
    TakeExact(n, q0, p, q1);
    TakeU32Exact(q1, Crc32c(p), r);
    Assoc4(Le(n, 4), p, Le(Crc32c(p), 4), r);
  }

  /** Too short for the frame it begins, by the length it declares and nothing else. */
  predicate CutShort(s: Bytes) {
    |s| < 4 || |s| < 8 + FromLe(s[..4])
  }

  /** Long enough for the frame it begins, but the four bytes after the payload are not the
      checksum of the payload. */
  predicate WrongChecksum(s: Bytes) {
    && !CutShort(s)
    && var n := FromLe(s[..4]); s[4 + n..8 + n] != Le(Crc32c(s[4..4 + n]), 4)
  }

  /** Lengths alone make a frame truncated, and the checksum alone makes it corrupt. */
  lemma FrameVerdict(s: Bytes)
    ensures ParseFrame(s) == Err(TruncatedPayload) <==> CutShort(s)
    ensures ParseFrame(s) == Err(ChecksumMismatch) <==> WrongChecksum(s)
    ensures ParseFrame(s).Ok? <==> !CutShort(s) && !WrongChecksum(s)
  {
    hide Le, FromLe;
    if !CutShort(s) {
      var n := FromLe(s[..4]);
      var p, c := s[4..4 + n], s[4 + n..8 + n];
      assert s[4..][..n] == p && s[4..][n..] == s[4 + n..] && s[4 + n..][..4] == c;
      var recorded := TakeU32(s[4 + n..]).value.0;
      TakeU32Exact(s[4 + n..], recorded, s[4 + n..][4..]);
      assert Le(recorded, 4) == c;
      if c == Le(Crc32c(p), 4) {
        assert s[4 + n..] == Le(Crc32c(p), 4) + s[4 + n..][4..];
        TakeU32Exact(s[4 + n..], Crc32c(p), s[4 + n..][4..]);
      }
    }
  }

  /** A frame cut short anywhere, even inside its checksum, reads as truncated. */
  lemma FrameCutShort(p: Payload, k: nat)
    requires k < |Frame(p)|
    ensures CutShort(Frame(p)[..k]) && ParseFrame(Frame(p)[..k]) == Err(TruncatedPayload)
  {
    hide Le, FromLe, ParseFrame;
    var s := Frame(p)[..k];
    if k >= 4 {
      Widths();
      FromLeOfLe(|p|, 4);
      assert s[..4] == Le(|p|, 4);
    }
    FrameVerdict(s);
  }

  // ---- The scan ----

  /** What a scan of the bytes after the header finds: the frames, and the torn tail. */
  datatype Scan = Scan(frames: seq<Payload>, tail: Bytes)

  /** A truncated frame ends the scan; any other malformation fails it. */
  function ScanFrames(s: Bytes): Result<Scan, DecodeError>
    decreases |s|
  {
    if s == [] then Ok(Scan([], [])) else
    match ParseFrame(s)
    case Err(e) => if e == TruncatedPayload then Ok(Scan([], s)) else Err(e)
    case Ok((p, r)) =>
      FrameOfParse(s);
      var rest :- ScanFrames(r);
      Ok(Scan([p] + rest.frames, rest.tail))
  }

  datatype ScanError = TooShort | BadHeader(error: DecodeError) | BadFrame(error: DecodeError)

  function ScanFile(file: Bytes): Result<Scan, ScanError> {
    if |file| < 12 then Err(TooShort) else
    match ParseHeader(file)
    case Err(e) => Err(BadHeader(e))
    case Ok((_, r)) =>
      match ScanFrames(r)
      case Err(e) => Err(BadFrame(e))
      case Ok(scan) => Ok(scan)
  }

  function Frames(ps: seq<Payload>): Bytes {
    if ps == [] then [] else Frame(ps[0]) + Frames(ps[1..])
  }

  /** The container holding exactly these frames. */
  function File(ps: seq<Payload>): (b: Bytes)
    ensures |b| >= 12
  {
    HeaderBytes() + Frames(ps)
  }

  lemma {:induction false} FramesAppend(ps: seq<Payload>, qs: seq<Payload>)
    ensures Frames(ps + qs) == Frames(ps) + Frames(qs)
  {
    if ps == [] {
      assert [] + qs == qs && [] + Frames(qs) == Frames(qs);
    } else {
      assert (ps + qs)[0] == ps[0] && (ps + qs)[1..] == ps[1..] + qs;
      FramesAppend(ps[1..], qs);
      Assoc3(Frame(ps[0]), Frames(ps[1..]), Frames(qs));
    }
  }

  lemma FileSnoc(ps: seq<Payload>, p: Payload)
    ensures File(ps + [p]) == File(ps) + Frame(p)
  {
    FramesAppend(ps, [p]);
    assert Frames([p]) == Frame(p) + [];
    Assoc3(HeaderBytes(), Frames(ps), Frame(p));
  }

  /** A tail the scan recovers from: nothing, or less than the frame it begins. */
  predicate Torn(tail: Bytes) {
    tail != [] ==> CutShort(tail)
  }

  /** The scan succeeds with these frames and this tail exactly on the bytes made of them. */
  lemma {:induction false} ScanFramesExact(s: Bytes, ps: seq<Payload>, tail: Bytes)
    ensures ScanFrames(s) == Ok(Scan(ps, tail)) <==> s == Frames(ps) + tail && Torn(tail)
    decreases |s|
  {
    if ScanFrames(s) == Ok(Scan(ps, tail)) {
      FramesOfScan(s);
    }
    if s == Frames(ps) + tail && Torn(tail) {
      ScanOfFrames(ps, tail);
    }
  }

  lemma {:induction false} ScanOfFrames(ps: seq<Payload>, tail: Bytes)
    requires Torn(tail)
    ensures ScanFrames(Frames(ps) + tail) == Ok(Scan(ps, tail))
  {
    FrameVerdict(tail);
    if ps == [] {
      assert [] + tail == tail;
    } else {
      var r := Frames(ps[1..]) + tail;
      Assoc3(Frame(ps[0]), Frames(ps[1..]), tail);
      ParseOfFrame(ps[0], r);
      ScanOfFrames(ps[1..], tail);
      assert ps == [ps[0]] + ps[1..];
    }
  }

  lemma {:induction false} FramesOfScan(s: Bytes)
    requires ScanFrames(s).Ok?
    ensures var scan := ScanFrames(s).value; s == Frames(scan.frames) + scan.tail && Torn(scan.tail)
    decreases |s|
  {
    FrameVerdict(s);
    if s == [] || ParseFrame(s).Err? {
      assert [] + s == s;
    } else {
      var (p, r) := ParseFrame(s).value;
      FrameOfParse(s);
      FramesOfScan(r);
      var rest := ScanFrames(r).value;
      assert ([p] + rest.frames)[1..] == rest.frames;
      Assoc3(Frame(p), Frames(rest.frames), rest.tail);
    }
  }

  /** For arbitrary bytes: a scan succeeds exactly on a header, the re-encoded frames it
      returns, and a torn tail. */
  lemma ScanFileExact(file: Bytes, ps: seq<Payload>, tail: Bytes)
    ensures ScanFile(file) == Ok(Scan(ps, tail)) <==> file == File(ps) + tail && Torn(tail)
  {
    HeaderExact(file, if |file| >= 12 then file[12..] else []);
    if file == File(ps) + tail {
      Assoc3(HeaderBytes(), Frames(ps), tail);
      HeaderExact(file, Frames(ps) + tail);
      ScanFramesExact(Frames(ps) + tail, ps, tail);
    }
    if ScanFile(file).Ok? {
      var r := ParseHeader(file).value.1;
      HeaderExact(file, r);
      ScanFramesExact(r, ps, tail);
      Assoc3(HeaderBytes(), Frames(ps), tail);
    }
  }

  // ---- Torn or corrupt ----

  /** What a scan finds after whole frames. */
  lemma {:induction false} ScanAppend(ps: seq<Payload>, more: Bytes)
    ensures ScanFrames(Frames(ps) + more) == After(ps, ScanFrames(more))
  {
    hide ParseFrame, Frame;
    if ps == [] {
      assert [] + more == more;
      AfterNothing(ScanFrames(more));
    } else {
      var r := Frames(ps[1..]) + more;
      Assoc3(Frame(ps[0]), Frames(ps[1..]), more);
      ParseOfFrame(ps[0], r);
      ScanAppend(ps[1..], more);
      AfterStep([], ps[0], ScanFrames(r));
      AfterStep([ps[0]], ps[0], ScanFrames(r));
      if ScanFrames(more).Ok? {
        assert [ps[0]] + (ps[1..] + ScanFrames(more).value.frames) == ps + ScanFrames(more).value.frames;
      }
    }
  }

  /** A frame with a wrong checksum fails the scan wherever it stands and whatever follows it:
      it is never taken for a torn tail. */
  lemma CorruptFrameFails(ps: seq<Payload>, s: Bytes)
    requires WrongChecksum(s)
    ensures ScanFile(File(ps) + s) == Err(BadFrame(ChecksumMismatch))
  {
    hide HeaderBytes, Frames, ParseFrame, WrongChecksum;
    var file := File(ps) + s;
    FrameVerdict(s);
    ScanAppend(ps, s);
    Assoc3(HeaderBytes(), Frames(ps), s);
    HeaderExact(file, Frames(ps) + s);
  }

  /** Every scan ends in one of three ways, told apart by lengths and checksums: after the whole
      frames comes nothing, too little, or a frame with a wrong checksum. */
  lemma ScanOutcome(file: Bytes)
    requires |file| >= 12 && file[..12] == HeaderBytes()
    ensures ScanFile(file).Ok? <==> exists ps, tail :: file == File(ps) + tail && Torn(tail)
    ensures ScanFile(file) == Err(BadFrame(ChecksumMismatch)) <==>
              exists ps, s :: file == File(ps) + s && WrongChecksum(s)
    ensures ScanFile(file).Ok? || ScanFile(file) == Err(BadFrame(ChecksumMismatch))
  {
    hide ScanFile, File, HeaderBytes, Torn, WrongChecksum;
    if ScanFile(file).Ok? {
      ScanFileExact(file, ScanFile(file).value.frames, ScanFile(file).value.tail);
    } else {
      var ps, s := FailureSplits(file);
    }
    if exists ps, tail :: file == File(ps) + tail && Torn(tail) {
      var ps, tail :| file == File(ps) + tail && Torn(tail);
      ScanFileExact(file, ps, tail);
    }
    if exists ps, s :: file == File(ps) + s && WrongChecksum(s) {
      var ps, s :| file == File(ps) + s && WrongChecksum(s);
      CorruptFrameFails(ps, s);
    }
  }

  lemma FailureSplits(file: Bytes) returns (ps: seq<Payload>, s: Bytes)
    requires |file| >= 12 && file[..12] == HeaderBytes() && ScanFile(file).Err?
    ensures file == File(ps) + s && WrongChecksum(s) && ScanFile(file) == Err(BadFrame(ChecksumMismatch))
  {
    hide ScanFrames, Frames, WrongChecksum, HeaderBytes;
    assert file == HeaderBytes() + file[12..];
    HeaderExact(file, file[12..]);
    ps, s := FramesBeforeFailure(file[12..]);
    Assoc3(HeaderBytes(), Frames(ps), s);
  }

  lemma {:induction false} FramesBeforeFailure(s: Bytes) returns (ps: seq<Payload>, rest: Bytes)
    requires ScanFrames(s).Err?
    ensures s == Frames(ps) + rest && WrongChecksum(rest) && ScanFrames(s) == Err(ChecksumMismatch)
    decreases |s|
  {
    hide Frame, WrongChecksum, CutShort;
    FrameVerdict(s);
    if ParseFrame(s).Err? {
      ps, rest := [], s;
      assert [] + s == s;
    } else {
      var (p, r) := ParseFrame(s).value;
      FrameOfParse(s);
      var qs;
      qs, rest := FramesBeforeFailure(r);
      ps := [p] + qs;
      assert ps[1..] == qs;
      Assoc3(Frame(p), Frames(qs), rest);
    }
  }

  /** How a file without the header is refused. */
  lemma HeaderVerdict(file: Bytes)
    ensures ScanFile(file) == Err(TooShort) <==> |file| < 12
    ensures ScanFile(file) == Err(BadHeader(InvalidMagic)) <==> |file| >= 12 && file[..8] != CONTAINER_MAGIC
    ensures ScanFile(file) == Err(BadHeader(UnsupportedFormatVersion)) <==>
              |file| >= 12 && file[..8] == CONTAINER_MAGIC && file[..12] != HeaderBytes()
  {
    hide ScanFrames, Le;
    if |file| >= 12 && file[..8] == CONTAINER_MAGIC {
      var v := TakeU32(file[8..]).value.0;
      TakeU32Exact(file[8..], v, file[8..][4..]);
      assert file[8..12] == Le(v, 4) && file[..12] == file[..8] + file[8..12];
      if file[..12] == HeaderBytes() {
        assert file[8..] == Le(CONTAINER_FORMAT_VERSION, 4) + file[8..][4..];
        TakeU32Exact(file[8..], CONTAINER_FORMAT_VERSION, file[8..][4..]);
      }
    }
  }

  // ---- Cutting a file ----

  /** How many of the frames lie wholly within the first `k` bytes of their encoding. */
  function Whole(ps: seq<Payload>, k: nat): (n: nat)
    ensures n <= |ps|
  {
    if ps == [] || k < |Frame(ps[0])| then 0 else 1 + Whole(ps[1..], k - |Frame(ps[0])|)
  }

  /** `Whole` is the largest number of frames that fit. */
  lemma {:induction false} WholeIsMaximal(ps: seq<Payload>, k: nat, n: nat)
    requires n <= |ps|
    ensures |Frames(ps[..n])| <= k <==> n <= Whole(ps, k)
  {
    if n == 0 {
    } else {
      assert ps[..n][0] == ps[0] && ps[..n][1..] == ps[1..][..n - 1];
      if k >= |Frame(ps[0])| {
        WholeIsMaximal(ps[1..], k - |Frame(ps[0])|, n - 1);
      }
    }
  }

  lemma SliceAcross(f: Bytes, g: Bytes, a: nat, b: nat)
    requires a <= b <= |g|
    ensures (f + g)[|f| + a..|f| + b] == g[a..b] && (f + g)[..|f| + b] == f + g[..b]
  {
  }

  /** A cut through a run of frames leaves the frames wholly inside it and a torn rest. */
  predicate CutLeaves(ps: seq<Payload>, k: nat, n: nat)
    requires n <= |ps| && k <= |Frames(ps)|
  {
    var m := |Frames(ps[..n])|;
    m <= k && Frames(ps)[..k] == Frames(ps[..n]) + Frames(ps)[m..k] && Torn(Frames(ps)[m..k])
  }

  lemma {:induction false} CutFrames(ps: seq<Payload>, k: nat)
    requires k <= |Frames(ps)|
    ensures CutLeaves(ps, k, Whole(ps, k))
  {
    if ps == [] {
    } else if k < |Frame(ps[0])| {
      SliceAcross([], Frames(ps), 0, k);
      assert Frames(ps)[0..k] == Frame(ps[0])[..k];
      if k > 0 {
        FrameCutShort(ps[0], k);
      }
    } else {
      CutFrames(ps[1..], k - |Frame(ps[0])|);
      CutFramesStep(ps, k, Whole(ps, k));
    }
  }

  lemma CutGlue(f: Bytes, g: Bytes, done: Bytes, j: nat)
    requires |done| <= j <= |g| && g[..j] == done + g[|done|..j]
    ensures |f + done| == |f| + |done|
    ensures (f + g)[|f + done|..|f| + j] == g[|done|..j]
    ensures (f + g)[..|f| + j] == (f + done) + (f + g)[|f + done|..|f| + j]
  {
    SliceAcross(f, g, |done|, j);
    Assoc3(f, done, g[|done|..j]);
  }

  lemma CutFramesStep(ps: seq<Payload>, k: nat, n: nat)
    requires ps != [] && |Frame(ps[0])| <= k <= |Frames(ps)| && 0 < n <= |ps|
    requires CutLeaves(ps[1..], k - |Frame(ps[0])|, n - 1)
    ensures CutLeaves(ps, k, n)
  {
    hide Frame, Torn;
    var f, g := Frame(ps[0]), Frames(ps[1..]);
    var done := Frames(ps[1..][..n - 1]);
    FramesOfPrefix(ps, n);
    CutGlue(f, g, done, k - |f|);
  }

  lemma FramesOfPrefix(ps: seq<Payload>, n: nat)
    requires ps != [] && 0 < n <= |ps|
    ensures Frames(ps) == Frame(ps[0]) + Frames(ps[1..])
    ensures Frames(ps[..n]) == Frame(ps[0]) + Frames(ps[1..][..n - 1])
  {
    assert ps[..n][0] == ps[0] && ps[..n][1..] == ps[1..][..n - 1];
  }

  /** Torn-tail recovery: a container cut at any byte past its header scans to exactly the
      frames wholly inside the cut; valid and truncated bytes add up; and truncating to the
      valid length leaves a clean container with the same frames. */
  lemma CutFileScans(ps: seq<Payload>, k: nat)
    requires 12 <= k <= |File(ps)|
    ensures var n := Whole(ps, k - 12);
            && ScanFile(File(ps)[..k]).Ok?
            && var scan := ScanFile(File(ps)[..k]).value;
            && scan.frames == ps[..n]
            && |File(ps[..n])| + |scan.tail| == k
            && File(ps)[..k][..|File(ps[..n])|] == File(ps[..n])
            && ScanFile(File(ps[..n])) == Ok(Scan(ps[..n], []))
  {
    hide Frames, HeaderBytes, Torn, Whole, ScanFile;
    var n := Whole(ps, k - 12);
    CutFrames(ps, k - 12);
    var tail := Frames(ps)[|Frames(ps[..n])|..k - 12];
    CutGlue(HeaderBytes(), Frames(ps), Frames(ps[..n]), k - 12);
    TakeExact(|File(ps[..n])|, File(ps)[..k], File(ps[..n]), tail);
    ScanFileExact(File(ps)[..k], ps[..n], tail);
    CleanFileScans(ps[..n]);
  }

  lemma CleanFileScans(ps: seq<Payload>)
    ensures ScanFile(File(ps)) == Ok(Scan(ps, []))
  {
    assert File(ps) + [] == File(ps);
    ScanFileExact(File(ps), ps, []);
  }

  /** Cutting off the torn tail, whatever file it is found in, leaves the same frames. */
  lemma CutTailScans(file: Bytes)
    requires ScanFile(file).Ok?
    ensures var scan := ScanFile(file).value;
            && |scan.tail| <= |file|
            && ScanFile(file[..|file| - |scan.tail|]) == Ok(Scan(scan.frames, []))
  {
    hide ScanFile, File, Torn;
    var scan := ScanFile(file).value;
    ScanFileExact(file, scan.frames, scan.tail);
    assert file[..|file| - |scan.tail|] == File(scan.frames);
    CleanFileScans(scan.frames);
  }

  // ---- The scan as it runs ----

  method DecodeFrame(buf: Bytes) returns (r: Result<(Payload, nat), DecodeError>)
    ensures match ParseFrame(buf)
            case Ok((p, q)) => r == Ok((p, |p| + 8)) && |p| + 8 <= |buf| && q == buf[|p| + 8..]
            case Err(e) => r == Err(e)
  {
    if |buf| < 4 {
      return Err(TruncatedPayload);
    }
    var len: nat := TakeU32(buf).value.0;
    if |buf| < 4 + len || |buf| < 4 + len + 4 {
      return Err(TruncatedPayload);
    }
    var payload := buf[4..4 + len];
    assert payload == buf[4..][..len] && buf[4 + len..] == buf[4..][len..];
    var recorded := TakeU32(buf[4 + len..]).value.0;
    if recorded != Crc32c(payload) {
      return Err(ChecksumMismatch);
    }
    assert buf[4 + len..][4..] == buf[len + 8..];
    return Ok((payload, len + 8));
  }

  function After(done: seq<Payload>, r: Result<Scan, DecodeError>): Result<Scan, DecodeError> {
    match r
    case Ok(scan) => Ok(Scan(done + scan.frames, scan.tail))
    case Err(e) => Err(e)
  }

  /** What a scan loop returns: frames, valid length, truncated bytes. */
  ghost predicate Describes(buf: Bytes, r: Result<(seq<Payload>, nat, nat), DecodeError>, x: Result<Scan, DecodeError>) {
    match (r, x)
    case (Ok((frames, valid, truncated)), Ok(scan)) =>
      && frames == scan.frames && truncated == |scan.tail|
      && valid + truncated == |buf| && buf[valid..] == scan.tail
    case (Err(e), Err(f)) => e == f
    case _ => false
  }

  lemma AfterNothing(x: Result<Scan, DecodeError>)
    ensures After([], x) == x
  {
    if x.Ok? {
      assert [] + x.value.frames == x.value.frames;
    }
  }

  /** What one more frame, or a torn one, does to a scan that stands at the start of `s`. */
  lemma ScanStep(done: seq<Payload>, s: Bytes)
    requires s != []
    ensures match ParseFrame(s)
            case Ok((p, r)) => After(done, ScanFrames(s)) == After(done + [p], ScanFrames(r))
            case Err(e) => After(done, ScanFrames(s)) == if e == TruncatedPayload then Ok(Scan(done, s)) else Err(e)
  {
    match ParseFrame(s)
    case Err(_) => assert done + [] == done;
    case Ok((p, r)) =>
      FrameOfParse(s);
      AfterStep(done, p, ScanFrames(r));
  }

  /** The scan loop: one cursor, one list of frames, and a torn frame that stops it. */
  method ScanLoop(buf: Bytes, start: nat) returns (r: Result<(seq<Payload>, nat, nat), DecodeError>)
    requires start <= |buf|
    ensures Describes(buf, r, ScanFrames(buf[start..]))
  {
    hide ParseFrame;
    var cursor: nat, frames: seq<Payload> := start, [];
    AfterNothing(ScanFrames(buf[start..]));
    while cursor < |buf|
      invariant cursor <= |buf|
      invariant ScanFrames(buf[start..]) == After(frames, ScanFrames(buf[cursor..]))
    {
      ScanStep(frames, buf[cursor..]);
      var next := DecodeFrame(buf[cursor..]);
      if next == Err(TruncatedPayload) {
        return Ok((frames, cursor, |buf| - cursor));
      }
      if next.Err? {
        return Err(next.error);
      }
      var (payload, consumed) := next.value;
      assert buf[cursor..][consumed..] == buf[cursor + consumed..];
      frames := frames + [payload];
      cursor := cursor + consumed;
    }
    assert frames + [] == frames;
    return Ok((frames, cursor, 0));
  }

  /** The scan of a whole file: the valid length and the truncated bytes always add up. */
  method ReadContainerFrames(file: Bytes) returns (r: Result<(seq<Payload>, nat, nat), ScanError>)
    ensures match ScanFile(file)
            case Err(e) => r == Err(e)
            case Ok(scan) => r.Ok? && Describes(file, Ok(r.value), Ok(scan))
  {
    if |file| < 12 {
      return Err(TooShort);
    }
    var header := ParseHeader(file);
    if header.Err? {
      return Err(BadHeader(header.error));
    }
    HeaderExact(file, header.value.1);
    assert file[12..] == header.value.1;
    var scan := ScanLoop(file, 12);
    if scan.Err? {
      return Err(BadFrame(scan.error));
    }
    return Ok(scan.value);
  }

  lemma AfterStep(done: seq<Payload>, p: Payload, r: Result<Scan, DecodeError>)
    ensures After(done, After([p], r)) == After(done + [p], r)
  {
    if r.Ok? {
      assert done + ([p] + r.value.frames) == done + [p] + r.value.frames;
    }
  }
}
