/** Bytes, fixed-width little-endian integers, UTF-8 text and the error vocabulary
    shared by every codec of the store.

    Parsers are written in rest-passing form: `P(s) == Ok((v, r))` says that `P` reads
    the value `v` from the front of `s` and leaves the suffix `r` unread. */
module Wire {

  type byte = n: int | 0 <= n < 256
  type Bytes = seq<byte>
  type u32 = n: int | 0 <= n < 0x1_0000_0000
  type u64 = n: int | 0 <= n < 0x1_0000_0000_0000_0000

  const U32_MAX: nat := 0xFFFF_FFFF
  const U64_MAX: nat := 0xFFFF_FFFF_FFFF_FFFF

  type Id = b: Bytes | |b| == 16 witness seq(16, i => 0)
  type Digest = b: Bytes | |b| == 32 witness seq(32, i => 0)

  const ZERO_ID: Id := [0, 0, 0, 0, 0, 0, 0, 0, 0, 0, 0, 0, 0, 0, 0, 0]
  const ZERO_DIGEST: Digest := ZERO_ID + ZERO_ID

  /** The two checksums are arbitrary functions: nothing below depends on what they compute. */
  const Crc32c: Bytes -> u32
  const Blake3: Bytes -> Digest

  datatype Option<+T> = None | Some(value: T)

  datatype Result<+T, +E> = Ok(value: T) | Err(error: E) {
    predicate IsFailure() {
      Err?
    }
    function PropagateFailure<U>(): Result<U, E>
      requires Err?
    {
      Err(error)
    }
    function Extract(): T
      requires Ok?
    {
      value
    }
  }

  datatype ValueConstraint = Empty | TooLong | NotReal

  datatype DecodeError =
    | TruncatedHeader
    | TruncatedPayload
    | InvalidMagic
    | UnsupportedFormatVersion
    | ChecksumMismatch
    | InvalidUtf8
    | CycleDetected
    | UnknownConstructorTag
    | InvalidDiscriminantWidth
    | LengthExceeded
    | EmptyNonEmptyString
    | ItemCountExceeded
    | InvalidTimestampSentinel
    | InvalidBoolean
    | InvalidBooleanDiscriminant
    | InvalidOptionTag
    | UnknownVariantDiscriminant
    | UnknownRecordTag
    | InvalidMigrationStatus
    | UnknownPartitioningRuleTag
    | ValueConstraintViolated(constraint: ValueConstraint)

  datatype EncodeError = DepthExceeded | WireLengthOverflow | DiscriminantExceedsWidth

  type Parsed<T> = Result<(T, Bytes), DecodeError>

  /** A growable output buffer. */
  class Buffer {
    var bytes: Bytes

    constructor ()
      ensures bytes == []
    {
      bytes := [];
    }

    method Push(b: byte)
      modifies this
      ensures bytes == old(bytes) + [b]
    {
      bytes := bytes + [b];
    }

    method Extend(bs: Bytes)
      modifies this
      ensures bytes == old(bytes) + bs
    {
      bytes := bytes + bs;
    }
  }

  // ---- Little-endian integers ----

  function Pow256(w: nat): (p: nat)
    ensures p > 0
  {
    if w == 0 then 1 else 256 * Pow256(w - 1)
  }

  function Le(n: nat, w: nat): (b: Bytes)
    ensures |b| == w
  {
    if w == 0 then [] else [n % 256] + Le(n / 256, w - 1)
  }

  function FromLe(b: Bytes): (n: nat)
    ensures n < Pow256(|b|)
  {
    if b == [] then 0 else b[0] + 256 * FromLe(b[1..])
  }

  lemma {:induction false} FromLeOfLe(n: nat, w: nat)
    requires n < Pow256(w)
    ensures FromLe(Le(n, w)) == n
  {
    if w > 0 {
      assert n / 256 < Pow256(w - 1);
      FromLeOfLe(n / 256, w - 1);
      assert Le(n, w)[1..] == Le(n / 256, w - 1);
    }
  }

  lemma {:induction false} LeOfFromLe(b: Bytes)
    ensures Le(FromLe(b), |b|) == b
  {
    if b != [] {
      LeOfFromLe(b[1..]);
      assert (b[0] + 256 * FromLe(b[1..])) / 256 == FromLe(b[1..]);
    }
  }

  /** Least significant byte first. */
  lemma {:induction false} LeAt(n: nat, w: nat, i: nat)
    requires i < w
    ensures Le(n, w)[i] == n / Pow256(i) % 256
  {
    if i > 0 {
      LeAt(n / 256, w - 1, i - 1);
      DivideTwice(n, Pow256(i - 1));
    }
  }

  lemma DivideTwice(n: nat, p: nat)
    requires p > 0
    ensures n / 256 / p == n / (256 * p)
  {
    var m := n / 256;
    var q, r, low := m / p, m % p, n % 256;
    assert n == 256 * m + low;
    DivMod(m, p);
    QuotientIs(n, 256 * p, q, 256 * r + low) by {
      Regroup(m, p, q, r);
    }
  }

  lemma DivMod(m: nat, p: nat)
    requires p > 0
    ensures m == p * (m / p) + m % p && m % p < p
  {
  }

  lemma Regroup(m: nat, p: nat, q: nat, r: nat)
    requires m == p * q + r
    ensures 256 * m == 256 * p * q + 256 * r
  {
    assert 256 * (p * q) == 256 * p * q;
  }

  lemma QuotientIs(n: nat, d: nat, q: nat, r: nat)
    requires d > 0 && r < d && n == d * q + r
    ensures n / d == q
  {
    var q' := n / d;
    DivMod(n, d);
    if q' < q {
      Monotone(d, q' + 1, q);
    } else if q < q' {
      Monotone(d, q + 1, q');
    }
  }

  lemma Monotone(d: nat, a: nat, b: nat)
    requires a <= b
    ensures d * a <= d * b && d * (a - 1) == d * a - d
  {
    assert d * b == d * a + d * (b - a);
    assert d * (b - a) >= 0;
  }

  lemma Widths()
    ensures Pow256(1) == 0x100 && Pow256(2) == 0x1_0000 && Pow256(4) == 0x1_0000_0000
    ensures Pow256(8) == 0x1_0000_0000_0000_0000
  {
    assert Pow256(3) == 0x100_0000;
    assert Pow256(5) == 0x100_0000_0000;
    assert Pow256(6) == 0x1_0000_0000_0000;
    assert Pow256(7) == 0x100_0000_0000_0000;
  }

  // ---- Text ----

  /** Which non-empty byte strings are UTF-8 (section 4 of RFC 3629) is left open: the
      codecs only hand it the same bytes on both sides. */
  const IsUtf8: Bytes -> bool

  predicate ValidUtf8(s: Bytes) {
    s == [] || IsUtf8(s)
  }

  /** A string is its UTF-8 bytes. */
  type Str = s: Bytes | ValidUtf8(s) witness []

  // ---- Concatenation ----

  lemma Assoc3(a: Bytes, b: Bytes, r: Bytes)
    ensures (a + b) + r == a + (b + r)
  {
  }

  lemma Assoc4(a: Bytes, b: Bytes, c: Bytes, r: Bytes)
    ensures (a + (b + c)) + r == a + (b + (c + r))
  {
    Assoc3(a, b + c, r);
    Assoc3(b, c, r);
  }

  lemma Assoc5(a: Bytes, b: Bytes, c: Bytes, d: Bytes, r: Bytes)
    ensures (a + (b + (c + d))) + r == a + (b + (c + (d + r)))
  {
    Assoc3(a, b + (c + d), r);
    Assoc4(b, c, d, r);
  }

  lemma Assoc6(a: Bytes, b: Bytes, c: Bytes, d: Bytes, e: Bytes, r: Bytes)
    ensures (a + (b + (c + (d + e)))) + r == a + (b + (c + (d + (e + r))))
  {
    Assoc3(a, b + (c + (d + e)), r);
    Assoc5(b, c, d, e, r);
  }

  lemma HeadTail(tag: byte, r: Bytes)
    ensures |[tag] + r| == 1 + |r| && ([tag] + r)[0] == tag && ([tag] + r)[1..] == r
  {
  }

  // ---- Primitive parsers ----

  function Take(n: nat, s: Bytes): Parsed<Bytes> {
    if |s| < n then Err(TruncatedPayload) else Ok((s[..n], s[n..]))
  }

  function TakeLe(w: nat, s: Bytes): Parsed<nat> {
    if |s| < w then Err(TruncatedPayload) else Ok((FromLe(s[..w]), s[w..]))
  }

  function TakeU32(s: Bytes): Parsed<u32> {
    if |s| < 4 then Err(TruncatedPayload) else Widths(); Ok((FromLe(s[..4]), s[4..]))
  }

  function EncodeText(t: Str): Result<Bytes, EncodeError> {
    if |t| > U32_MAX then Err(WireLengthOverflow) else Ok(Le(|t|, 4) + t)
  }

  function TakeUtf8(n: nat, s: Bytes): Parsed<Str> {
    if |s| < n then Err(TruncatedPayload)
    else if ValidUtf8(s[..n]) then Ok((s[..n], s[n..])) else Err(InvalidUtf8)
  }

  function TakeText(s: Bytes): Parsed<Str> {
    var (n, r) :- TakeU32(s);
    TakeUtf8(n, r)
  }

  /** How text is refused: too little of it before what is there is looked at. */
  lemma TextRefusals(n: u32, r: Bytes)
    ensures |r| < n ==> TakeText(Le(n, 4) + r) == Err(TruncatedPayload)
    ensures |r| >= n && !ValidUtf8(r[..n]) ==> TakeText(Le(n, 4) + r) == Err(InvalidUtf8)
  {
    TakeU32Exact(Le(n, 4) + r, n, r);
  }

  lemma TakeExact(n: nat, s: Bytes, b: Bytes, r: Bytes)
    ensures Take(n, s) == Ok((b, r)) <==> |b| == n && s == b + r
  {
    if |b| == n && s == b + r {
      assert s[..n] == b && s[n..] == r;
    }
  }

  /** `TakeLe` reads back exactly what `Le` wrote, and nothing else. */
  lemma TakeLeExact(w: nat, s: Bytes, n: nat, r: Bytes)
    ensures TakeLe(w, s) == Ok((n, r)) <==> n < Pow256(w) && s == Le(n, w) + r
  {
    if TakeLe(w, s) == Ok((n, r)) {
      LeOfFromLe(s[..w]);
    }
    if n < Pow256(w) && s == Le(n, w) + r {
      FromLeOfLe(n, w);
      TakeExact(w, s, Le(n, w), r);
    }
  }

  lemma TakeU32Exact(s: Bytes, n: u32, r: Bytes)
    ensures TakeU32(s) == Ok((n, r)) <==> s == Le(n, 4) + r
  {
    Widths();
    TakeLeExact(4, s, n, r);
  }

  lemma TakeTextOfEncode(t: Str, r: Bytes)
    requires EncodeText(t).Ok?
    ensures TakeText(EncodeText(t).value + r) == Ok((t, r))
  {
    Assoc3(Le(|t|, 4), t, r);
    TakeU32Exact(Le(|t|, 4) + (t + r), |t|, t + r);
    TakeExact(|t|, t + r, t, r);
  }

  lemma EncodeOfTakeText(s: Bytes)
    requires TakeText(s).Ok?
    ensures var (t, r) := TakeText(s).value;
            EncodeText(t).Ok? && s == EncodeText(t).value + r
  {
    var (t, r) := TakeText(s).value;
    var (n, q) := TakeU32(s).value;
    TakeU32Exact(s, n, q);
    TakeExact(n, q, t, r);
    Assoc3(Le(n, 4), t, r);
  }

  lemma TakeTextExact(s: Bytes, t: Str, r: Bytes)
    ensures TakeText(s) == Ok((t, r)) <==> EncodeText(t).Ok? && s == EncodeText(t).value + r
  {
    if TakeText(s) == Ok((t, r)) {
      EncodeOfTakeText(s);
    }
    if EncodeText(t).Ok? && s == EncodeText(t).value + r {
      TakeTextOfEncode(t, r);
    }
  }
}
