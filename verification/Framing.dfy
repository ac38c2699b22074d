// Length-prefixed frames and the bounded frame writer (crates/broadwebd/src/service_frame.rs).
// Sizes are unbounded naturals.
module Framing {
  import opened Text

  type Bytes = seq<Byte>

  const U32_LIMIT: nat := 0x1_0000_0000

  datatype FrameError = Io | Request | FrameTooLarge(limit: nat, actual: nat)

  // ---------- big-endian lengths ----------

  function ToBe32(n: nat): (b: Bytes)
    requires n < U32_LIMIT
    ensures |b| == 4
  {
    [n / 0x100_0000, n / 0x1_0000 % 0x100, n / 0x100 % 0x100, n % 0x100]
  }

  function FromBe32(b: Bytes): (n: nat)
    requires |b| == 4
    ensures n < U32_LIMIT
  {
    var b0: int, b1: int, b2: int, b3: int := b[0], b[1], b[2], b[3];
    b0 * 0x100_0000 + b1 * 0x1_0000 + b2 * 0x100 + b3
  }

  lemma Be32RoundTrip(n: nat)
    requires n < U32_LIMIT
    ensures FromBe32(ToBe32(n)) == n
  {
    var high := n / 0x100;
    assert n == high * 0x100 + n % 0x100;
    var higher := high / 0x100;
    assert high == higher * 0x100 + high % 0x100;
    var highest := higher / 0x100;
    assert higher == highest * 0x100 + higher % 0x100;
    assert n / 0x1_0000 == higher && n / 0x100_0000 == highest;
  }

  lemma Be32Canonical(b: Bytes)
    requires |b| == 4
    ensures ToBe32(FromBe32(b)) == b
  {
    var n := FromBe32(b);
    var b0: int, b1: int, b2: int, b3: int := b[0], b[1], b[2], b[3];
    var high := b0 * 0x100 + b1;
    assert n / 0x100 == high * 0x100 + b2;
    assert n / 0x1_0000 == high;
    assert n / 0x100_0000 == b0;
  }

  // ---------- frames on the wire ----------

  /** A frame as written: its length, then its bytes. */
  function Framed(frame: Bytes): Bytes
    requires |frame| < U32_LIMIT
  {
    ToBe32(|frame|) + frame
  }

  datatype ReadOutcome = Frame(frame: Bytes, rest: Bytes) | TooLarge(actual: nat, rest: Bytes) | UnexpectedEof

  /** Reading one frame off the front of a byte string. */
  function ReadFrame(bytes: Bytes, limit: nat): ReadOutcome {
    if |bytes| < 4 then UnexpectedEof
    else
      var n := FromBe32(bytes[..4]);
      if n > limit then TooLarge(n, bytes[4..])
      else if |bytes| < 4 + n then UnexpectedEof
      else Frame(bytes[4..4 + n], bytes[4 + n..])
  }

  predicate Fits(frame: Bytes, limit: nat) {
    |frame| <= limit && |frame| < U32_LIMIT
  }

  /** What is read is exactly what was written, and nothing of what follows. */
  lemma ReadFramed(frame: Bytes, rest: Bytes, limit: nat)
    requires Fits(frame, limit)
    ensures ReadFrame(Framed(frame) + rest, limit) == Frame(frame, rest)
  {
    var bytes := Framed(frame) + rest;
    assert bytes[..4] == ToBe32(|frame|);
    Be32RoundTrip(|frame|);
  }

  /** And only a written frame is ever read. */
  lemma ReadOnlyFramed(bytes: Bytes, limit: nat)
    requires ReadFrame(bytes, limit).Frame?
    ensures var outcome := ReadFrame(bytes, limit);
            Fits(outcome.frame, limit) && bytes == Framed(outcome.frame) + outcome.rest
  {
    Be32Canonical(bytes[..4]);
    var n := FromBe32(bytes[..4]);
    assert bytes == bytes[..4] + bytes[4..4 + n] + bytes[4 + n..];
  }

  lemma ProperPrefixRefused(frame: Bytes, k: nat, limit: nat)
    requires Fits(frame, limit) && k < |Framed(frame)|
    ensures ReadFrame(Framed(frame)[..k], limit) == UnexpectedEof
  {
    if k >= 4 {
      assert Framed(frame)[..k][..4] == ToBe32(|frame|);
      Be32RoundTrip(|frame|);
    }
  }

  /** An oversized length is refused after its four bytes, whatever follows, be it nothing. */
  lemma OversizedRefused(n: nat, rest: Bytes, limit: nat)
    requires limit < n < U32_LIMIT
    ensures ReadFrame(ToBe32(n) + rest, limit) == TooLarge(n, rest)
  {
    var bytes := ToBe32(n) + rest;
    assert bytes[..4] == ToBe32(n) && bytes[4..] == rest;
    Be32RoundTrip(n);
  }

  /** More bytes never change a frame that could already be read, nor a refusal of its length. */
  lemma ReadStable(bytes: Bytes, more: Bytes, limit: nat)
    ensures ReadFrame(bytes, limit).Frame? ==>
              ReadFrame(bytes + more, limit) == Frame(ReadFrame(bytes, limit).frame, ReadFrame(bytes, limit).rest + more)
    ensures ReadFrame(bytes, limit).TooLarge? ==> ReadFrame(bytes + more, limit).TooLarge?
  {
    if |bytes| >= 4 {
      assert (bytes + more)[..4] == bytes[..4];
    }
  }

  function FramedAll(frames: seq<Bytes>): Bytes
    requires forall i :: 0 <= i < |frames| ==> |frames[i]| < U32_LIMIT
  {
    if frames == [] then [] else Framed(frames[0]) + FramedAll(frames[1..])
  }

  /** All the frames that can be read off the front, and the bytes left when no further one can. */
  function ReadAll(bytes: Bytes, limit: nat): (seq<Bytes>, Bytes)
    decreases |bytes|
  {
    match ReadFrame(bytes, limit)
    case Frame(frame, rest) => var (frames, left) := ReadAll(rest, limit); ([frame] + frames, left)
    case _ => ([], bytes)
  }

  predicate AllFit(frames: seq<Bytes>, limit: nat) {
    forall i :: 0 <= i < |frames| ==> Fits(frames[i], limit)
  }

  /** Any list of in-limit frames, written one after the other, is read back whole, to the last byte. */
  lemma {:induction false} ReadAllRoundTrip(frames: seq<Bytes>, limit: nat)
    requires AllFit(frames, limit)
    ensures ReadAll(FramedAll(frames), limit) == (frames, [])
  {
    if frames != [] {
      ReadFramed(frames[0], FramedAll(frames[1..]), limit);
      ReadAllRoundTrip(frames[1..], limit);
      assert [frames[0]] + frames[1..] == frames;
    }
  }

  /** Conversely the bytes read are the frames returned, framed, followed by what is left. */
  lemma {:induction false} ReadAllSound(bytes: Bytes, limit: nat)
    ensures var (frames, left) := ReadAll(bytes, limit);
            AllFit(frames, limit) && bytes == FramedAll(frames) + left && !ReadFrame(left, limit).Frame?
    decreases |bytes|
  {
    var outcome := ReadFrame(bytes, limit);
    if outcome.Frame? {
      ReadOnlyFramed(bytes, limit);
      ReadAllSound(outcome.rest, limit);
      var (frames, left) := ReadAll(outcome.rest, limit);
      var all := [outcome.frame] + frames;
      assert all[1..] == frames;
      assert Framed(outcome.frame) + (FramedAll(frames) + left) == (Framed(outcome.frame) + FramedAll(frames)) + left;
    } else {
      assert FramedAll([]) + bytes == bytes;
    }
  }

  // ---------- the reader ----------

  class Reader {
    var bytes: Bytes
    var position: nat

    ghost predicate Valid()
      reads this
    {
      position <= |bytes|
    }

    ghost function Remaining(): Bytes
      requires Valid()
      reads this
    {
      bytes[position..]
    }

    constructor (source: Bytes)
      ensures Valid() && Remaining() == source
    {
      bytes, position := source, 0;
    }

    method ReadExact(n: nat) returns (r: Result<Bytes, FrameError>)
      requires Valid()
      modifies `position
      ensures Valid()
      ensures r == if n <= |old(Remaining())| then Ok(old(Remaining())[..n]) else Err(Io)
      ensures r.Ok? ==> Remaining() == old(Remaining())[n..]
    {
      if |bytes| - position < n {
        position := |bytes|;
        return Err(Io);
      }
      assert bytes[position..][..n] == bytes[position..position + n];
      assert bytes[position..][n..] == bytes[position + n..];
      r := Ok(bytes[position..position + n]);
      position := position + n;
    }

    method ReadLenPrefixedFrame(limit: nat) returns (r: Result<Bytes, FrameError>)
      requires Valid()
      modifies `position
      ensures Valid()
      ensures match ReadFrame(old(Remaining()), limit)
              case Frame(frame, rest) => r == Ok(frame) && Remaining() == rest
              case TooLarge(actual, rest) => r == Err(FrameTooLarge(limit, actual)) && Remaining() == rest
              case UnexpectedEof => r == Err(Io)
    {
      ghost var all := Remaining();
      var header := ReadExact(4);
      if header.Err? {
        return header;
      }
      var n := FromBe32(header.value);
      if n > limit {
        return Err(FrameTooLarge(limit, n));
      }
      if 4 + n <= |all| {
        assert all[4..][..n] == all[4..4 + n] && all[4..][n..] == all[4 + n..];
      }
      r := ReadExact(n);
    }
  }

  // ---------- the bounded writer ----------

  class BoundedFrameWriter {
    var bytes: Bytes
    var maxFrameBytes: nat
    var rejectedLen: Option<nat>

    ghost predicate Valid()
      reads this
    {
      |bytes| <= maxFrameBytes
    }

    constructor (limit: nat)
      ensures Valid() && bytes == [] && maxFrameBytes == limit && rejectedLen == None
    {
      bytes, maxFrameBytes, rejectedLen := [], limit, None;
    }

    /** A chunk is taken whole or refused whole, and a refusal leaves the bytes as they were. */
    method Write(buffer: Bytes) returns (r: Result<nat, FrameError>)
      requires Valid()
      modifies `bytes, `rejectedLen
      ensures Valid()
      ensures var fits := |old(bytes)| + |buffer| <= maxFrameBytes;
              && r == (if fits then Ok(|buffer|) else Err(Io))
              && bytes == (if fits then old(bytes) + buffer else old(bytes))
              && rejectedLen == (if fits then old(rejectedLen) else Some(|old(bytes)| + |buffer|))
    {
      var nextLen := |bytes| + |buffer|;
      if nextLen > maxFrameBytes {
        rejectedLen := Some(nextLen);
        return Err(Io);
      }
      bytes := bytes + buffer;
      return Ok(|buffer|);
    }

    /** The standard write-all loop: keep writing the unwritten tail until nothing is left. */
    method WriteAll(buffer: Bytes) returns (ok: bool)
      requires Valid()
      modifies `bytes, `rejectedLen
      ensures Valid()
      ensures ok <==> |old(bytes)| + |buffer| <= maxFrameBytes
      ensures bytes == if ok then old(bytes) + buffer else old(bytes)
      ensures rejectedLen == if ok then old(rejectedLen) else Some(|old(bytes)| + |buffer|)
    {
      var pending := buffer;
      while pending != []
        invariant Valid() && (pending == buffer || pending == [])
        invariant pending == buffer ==> bytes == old(bytes) && rejectedLen == old(rejectedLen)
        invariant pending == [] ==> bytes == old(bytes) + buffer && rejectedLen == old(rejectedLen)
        decreases |pending|
      {
        var r := Write(pending);
        if r.Err? {
          return false;
        }
        pending := pending[r.value..];
      }
      return true;
    }
  }

  function Flat(chunks: seq<Bytes>): Bytes {
    if chunks == [] then [] else chunks[0] + Flat(chunks[1..])
  }

  lemma {:induction false} FlatAppend(a: seq<Bytes>, b: seq<Bytes>)
    ensures Flat(a + b) == Flat(a) + Flat(b)
  {
    if a == [] {
      assert a + b == b;
    } else {
      FlatAppend(a[1..], b);
      assert (a + b)[0] == a[0] && (a + b)[1..] == a[1..] + b;
      AppendAssociative(a[0], Flat(a[1..]), Flat(b));
    }
  }

  lemma FlatOne(chunk: Bytes)
    ensures Flat([chunk]) == chunk
  {
  }

  lemma FlatPrefix(chunks: seq<Bytes>, i: nat)
    requires i < |chunks|
    ensures Flat(chunks[..i + 1]) == Flat(chunks[..i]) + chunks[i]
    ensures Flat(chunks) == Flat(chunks[..i + 1]) + Flat(chunks[i + 1..])
  {
    FlatOne(chunks[i]);
    FlatAppend(chunks[..i], [chunks[i]]);
    assert chunks[..i + 1] == chunks[..i] + [chunks[i]];
    FlatAppend(chunks[..i + 1], chunks[i + 1..]);
    assert chunks == chunks[..i + 1] + chunks[i + 1..];
  }

  /**
   * Encoding a value whose serialiser writes these chunks, and then completes or fails. How the
   * bytes are cut into chunks does not matter: a frame comes out exactly when they all fit, it is
   * their concatenation, and a size refusal names a length above the limit.
   */
  method EncodeFrame(chunks: seq<Bytes>, completes: bool, limit: nat) returns (r: Result<Bytes, FrameError>)
    ensures |Flat(chunks)| <= limit ==> r == if completes then Ok(Flat(chunks)) else Err(Request)
    ensures |Flat(chunks)| > limit ==>
              r.Err? && r.error.FrameTooLarge? && r.error.limit == limit && limit < r.error.actual <= |Flat(chunks)|
  {
    var writer := new BoundedFrameWriter(limit);
    var failed := false;
    for i := 0 to |chunks|
      invariant writer.Valid() && writer.maxFrameBytes == limit && writer.rejectedLen == None
      invariant writer.bytes == Flat(chunks[..i])
    {
      FlatPrefix(chunks, i);
      var ok := writer.WriteAll(chunks[i]);
      if !ok {
        return Err(FrameTooLarge(limit, writer.rejectedLen.value));
      }
    }
    assert chunks[..|chunks|] == chunks;
    if !completes {
      return Err(Request);
    }
    return Ok(writer.bytes);
  }
}
