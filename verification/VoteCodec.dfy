/** The wire format of a composed vote proof. */
module VoteCodec {
  import opened Wrappers
  import opened Bytes
  import opened Reading
  import opened Revealed
  import opened Crypto
  import Selective = SelectiveCodec

  datatype VoteProof<P> = VoteProof(messageCount: u32, revealed: seq<Entry>, bbsProof: bytes, dlProof: bytes,
                                    nullifier: P)

  function Encode<P>(lib: Library<P>, v: VoteProof<P>): bytes {
    BigEndian(v.messageCount, 4)
    + (Frame(4, v.bbsProof)
       + (Frame(4, v.dlProof) + (Frame(4, lib.serPoint(v.nullifier)) + EncodeRevealed(v.revealed))))
  }

  function DecodeNullifier<P(==)>(lib: Library<P>, b: bytes): Result<P> {
    var nullifier :- OkOr(lib.deserPoint(b), InvalidInput("bbs deserialize"));
    if nullifier == lib.group.zero then Err(InvalidInput("nullifier is identity")) else Ok(nullifier)
  }

  function Decode<P(==)>(lib: Library<P>, b: bytes): Result<VoteProof<P>> {
    var (messageCount, s1) :- TakeU32(b);
    if messageCount == 0 || messageCount > MAX_BBS_MESSAGES then Err(InvalidInput("message_count out of range"))
    else
      var (bbsProof, s2) :- TakeBytes(s1);
      var (dlProof, s3) :- TakeBytes(s2);
      var (point, s4) :- TakeBytes(s3);
      var nullifier :- DecodeNullifier(lib, point);
      var revealed :- Selective.DecodeTail(s4, messageCount, BelowHidingFirst(messageCount));
      Ok(VoteProof(messageCount, revealed, bbsProof, dlProof, nullifier))
  }

  ghost predicate WellFormed<P>(lib: Library<P>, v: VoteProof<P>) {
    && 1 <= v.messageCount <= MAX_BBS_MESSAGES
    && |v.bbsProof| < 0x1_0000_0000
    && |v.dlProof| < 0x1_0000_0000
    && v.nullifier != lib.group.zero
    && Disciplined(v.revealed, BelowHidingFirst(v.messageCount))
  }

  /** Decoding accepts what was encoded, and returns it, exactly for well-formed proofs. */
  lemma RoundTrip<P(!new)>(lib: Library<P>, v: VoteProof<P>)
    requires PointsCanonical(lib)
    ensures Decode(lib, Encode(lib, v)) == Ok(v) <==> WellFormed(lib, v)
  {
    if WellFormed(lib, v) {
      DecodeAfterEncode(lib, v);
    }
    if Decode(lib, Encode(lib, v)) == Ok(v) {
      Canonical(lib, Encode(lib, v), v);
    }
  }

  lemma DecodeAfterEncode<P(!new)>(lib: Library<P>, v: VoteProof<P>)
    requires PointsCanonical(lib) && WellFormed(lib, v)
    ensures Decode(lib, Encode(lib, v)) == Ok(v)
  {
    var point := lib.serPoint(v.nullifier);
    assert PointAt(lib, v.nullifier);
    var s4 := EncodeRevealed(v.revealed);
    var s3 := Frame(4, point) + s4;
    var s2 := Frame(4, v.dlProof) + s3;
    TakeU32Undoes(v.messageCount, Frame(4, v.bbsProof) + s2);
    TakeBytesUndoes(v.bbsProof, s2);
    TakeBytesUndoes(v.dlProof, s3);
    TakeBytesUndoes(point, s4);
    Selective.TailRoundTrip(v.revealed, v.messageCount, BelowHidingFirst(v.messageCount));
  }

  /** Whatever decodes is well-formed, and is the only proof with those bytes. */
  lemma Canonical<P(!new)>(lib: Library<P>, b: bytes, v: VoteProof<P>)
    requires PointsCanonical(lib) && Decode(lib, b) == Ok(v)
    ensures WellFormed(lib, v) && Encode(lib, v) == b
  {
    var (n, s1) := TakeU32(b).value;
    var (bbs, s2) := TakeBytes(s1).value;
    var (dl, s3) := TakeBytes(s2).value;
    var (point, s4) := TakeBytes(s3).value;
    TakeU32Reads(b, n, s1);
    TakeBytesReads(s1, bbs, s2);
    TakeBytesReads(s2, dl, s3);
    TakeBytesReads(s3, point, s4);
    assert PointBytesAt(lib, point);
    Selective.TailCanonical(s4, n, BelowHidingFirst(n), v.revealed);
  }

  /** The accepted language is the image of the encoder on well-formed proofs. */
  lemma AcceptsExactlyTheImage<P(!new)>(lib: Library<P>, b: bytes)
    requires PointsCanonical(lib)
    ensures Decode(lib, b).Ok? <==> exists v :: WellFormed(lib, v) && Encode(lib, v) == b
  {
    if Decode(lib, b).Ok? {
      Canonical(lib, b, Decode(lib, b).value);
    }
    if v :| WellFormed(lib, v) && Encode(lib, v) == b {
      RoundTrip(lib, v);
    }
  }

  /** Distinct accepted byte strings are distinct proofs. */
  lemma DecodeInjective<P(!new)>(lib: Library<P>, a: bytes, b: bytes)
    requires PointsCanonical(lib) && Decode(lib, a).Ok? && Decode(lib, a) == Decode(lib, b)
    ensures a == b
  {
    Canonical(lib, a, Decode(lib, a).value);
    Canonical(lib, b, Decode(lib, b).value);
  }

  /** Anything appended to an accepted byte string is reported as trailing. */
  lemma PrefixFree<P(!new)>(lib: Library<P>, b: bytes, x: bytes)
    requires Decode(lib, b).Ok? && x != []
    ensures Decode(lib, b + x) == Err(InvalidInput("trailing bytes"))
  {
    var (n, s1) := TakeU32(b).value;
    var (bbs, s2) := TakeBytes(s1).value;
    var (dl, s3) := TakeBytes(s2).value;
    var (point, s4) := TakeBytes(s3).value;
    TakeU32Extends(b, x, n, s1);
    TakeBytesExtends(s1, x, bbs, s2);
    TakeBytesExtends(s2, x, dl, s3);
    TakeBytesExtends(s3, x, point, s4);
    Selective.TailExtends(s4, x, n, BelowHidingFirst(n));
  }

  /** The end of an accepted proof is a list the bbs-2023 decoder reads the same way. */
  lemma RevealedAgrees<P(!new)>(lib: Library<P>, b: bytes, v: VoteProof<P>) returns (head: bytes, tail: bytes)
    requires Decode(lib, b) == Ok(v)
    ensures b == head + tail && DecodeRevealed(tail) == Some(v.revealed)
  {
    var (n, s1) := TakeU32(b).value;
    var (bbs, s2) := TakeBytes(s1).value;
    var (dl, s3) := TakeBytes(s2).value;
    var (point, s4) := TakeBytes(s3).value;
    TakeU32Reads(b, n, s1);
    TakeBytesReads(s1, bbs, s2);
    TakeBytesReads(s2, dl, s3);
    TakeBytesReads(s3, point, s4);
    head, tail := BigEndian(n, 4) + Frame(4, bbs) + Frame(4, dl) + Frame(4, point), s4;
    Reassociate(BigEndian(n, 4), Frame(4, bbs), Frame(4, dl), Frame(4, point), s4, []);
    assert s4 + [] == s4;
    Selective.TailAgrees(s4, n, BelowHidingFirst(n));
  }

  // ---------------------------------------------------------------- the code

  method PutBytes(buffer: bytes, b: bytes) returns (out: bytes)
    ensures out == buffer + Frame(4, b)
  {
    out := buffer + BigEndian(|b|, 4);
    out := out + b;
  }

  method ToBytes<P>(lib: Library<P>, v: VoteProof<P>) returns (out: bytes)
    ensures out == Encode(lib, v)
  {
    var point := lib.serPoint(v.nullifier);
    out := BigEndian(v.messageCount, 4);
    out := PutBytes(out, v.bbsProof);
    out := PutBytes(out, v.dlProof);
    out := PutBytes(out, point);
    out := out + BigEndian(|v.revealed|, 4);
    out := WriteEntries(out, v.revealed);
    Reassociate(BigEndian(v.messageCount, 4), Frame(4, v.bbsProof), Frame(4, v.dlProof), Frame(4, point),
                BigEndian(|v.revealed|, 4), EncodeEntries(v.revealed));
  }

  lemma Reassociate(a: bytes, b: bytes, c: bytes, d: bytes, e: bytes, f: bytes)
    ensures a + b + c + d + e + f == a + (b + (c + (d + (e + f))))
  {
  }

  method FromBytes<P(==)>(lib: Library<P>, b: bytes, usizeMax: nat) returns (result: Result<VoteProof<P>>)
    requires |b| <= usizeMax
    ensures result == Decode(lib, b)
  {
    var r := new Reader(b, usizeMax);
    var count := r.U32();
    if count.Err? {
      return Err(count.error);
    }
    if count.value == 0 || count.value > MAX_BBS_MESSAGES {
      return Err(InvalidInput("message_count out of range"));
    }
    var bbsProof := r.TakeFrame();
    if bbsProof.Err? {
      return Err(bbsProof.error);
    }
    var dlProof := r.TakeFrame();
    if dlProof.Err? {
      return Err(dlProof.error);
    }
    var point := r.TakeFrame();
    if point.Err? {
      return Err(point.error);
    }
    var nullifier := DecodeNullifier(lib, point.value);
    if nullifier.Err? {
      return Err(nullifier.error);
    }
    var revealed := Selective.ReadTail(r, count.value, BelowHidingFirst(count.value));
    if revealed.Err? {
      return Err(revealed.error);
    }
    result := Ok(VoteProof(count.value, revealed.value, bbsProof.value, dlProof.value, nullifier.value));
  }
}
