/** The wire format of a selective-disclosure proof. */
module SelectiveCodec {
  import opened Wrappers
  import opened Bytes
  import opened Reading
  import opened Revealed

  datatype SelectiveProof = SelectiveProof(messageCount: u32, proof: bytes, revealed: seq<Entry>)

  function Encode(p: SelectiveProof): bytes {
    BigEndian(p.messageCount, 4) + (Frame(4, p.proof) + EncodeRevealed(p.revealed))
  }

  function Decode(b: bytes): Result<SelectiveProof> {
    var (messageCount, s1) :- TakeU32(b);
    if messageCount == 0 || messageCount > MAX_BBS_MESSAGES then Err(InvalidInput("message_count out of range"))
    else
      DecodeBody(s1, messageCount)
  }

  /** What follows an admissible message count. */
  function DecodeBody(s1: bytes, messageCount: u32): Result<SelectiveProof> {
    var (proof, s2) :- TakeBytes(s1);
    var revealed :- DecodeTail(s2, messageCount, Below(messageCount));
    Ok(SelectiveProof(messageCount, proof, revealed))
  }

  ghost predicate WellFormed(p: SelectiveProof) {
    && 1 <= p.messageCount <= MAX_BBS_MESSAGES
    && |p.proof| < 0x1_0000_0000
    && Disciplined(p.revealed, Below(p.messageCount))
  }

  /** Decoding accepts what was encoded, and returns it, exactly for well-formed proofs. */
  lemma RoundTrip(p: SelectiveProof)
    ensures Decode(Encode(p)) == Ok(p) <==> WellFormed(p)
  {
    if WellFormed(p) {
      var s1 := Frame(4, p.proof) + EncodeRevealed(p.revealed);
      TakeU32Undoes(p.messageCount, s1);
      TakeBytesUndoes(p.proof, EncodeRevealed(p.revealed));
      TailRoundTrip(p.revealed, p.messageCount, Below(p.messageCount));
    }
    if Decode(Encode(p)) == Ok(p) {
      Canonical(Encode(p), p);
    }
  }

  /** Whatever decodes is well-formed, and is the only proof with those bytes. */
  lemma Canonical(b: bytes, p: SelectiveProof)
    requires Decode(b) == Ok(p)
    ensures WellFormed(p) && Encode(p) == b
  {
    var (n, s1) := TakeU32(b).value;
    var (proof, s2) := TakeBytes(s1).value;
    TakeU32Reads(b, n, s1);
    TakeBytesReads(s1, proof, s2);
    TailCanonical(s2, n, Below(n), p.revealed);
  }

  /** The accepted language is the image of the encoder on well-formed proofs. */
  lemma AcceptsExactlyTheImage(b: bytes)
    ensures Decode(b).Ok? <==> exists p :: WellFormed(p) && Encode(p) == b
  {
    if Decode(b).Ok? {
      Canonical(b, Decode(b).value);
    }
    if p :| WellFormed(p) && Encode(p) == b {
      RoundTrip(p);
    }
  }

  /** No accepted byte string is a proper prefix of another: anything appended is reported as trailing. */
  lemma PrefixFree(b: bytes, x: bytes)
    requires Decode(b).Ok? && x != []
    ensures Decode(b + x) == Err(InvalidInput("trailing bytes"))
  {
    var (n, s1) := TakeU32(b).value;
    var (proof, s2) := TakeBytes(s1).value;
    TakeU32Extends(b, x, n, s1);
    TakeBytesExtends(s1, x, proof, s2);
    TailExtends(s2, x, n, Below(n));
  }

  /** The end of an accepted proof is a list the bbs-2023 decoder reads the same way. */
  lemma RevealedAgrees(b: bytes, p: SelectiveProof) returns (head: bytes, tail: bytes)
    requires Decode(b) == Ok(p)
    ensures b == head + tail && DecodeRevealed(tail) == Some(p.revealed)
  {
    var (n, s1) := TakeU32(b).value;
    var (proof, s2) := TakeBytes(s1).value;
    TakeU32Reads(b, n, s1);
    TakeBytesReads(s1, proof, s2);
    head, tail := BigEndian(n, 4) + Frame(4, proof), s2;
    TailAgrees(s2, n, Below(n));
  }

  // ---------------------------------------------------------------- the revealed tail, shared with vote proofs

  /** Count, entries, end of input: the tail of both proof formats. */
  function DecodeTail(s: bytes, messageCount: nat, rule: IndexRule): Result<seq<Entry>> {
    var (n, s1) :- TakeU32(s);
    if n > messageCount then Err(InvalidInput("revealed count exceeds message_count"))
    else
      var (es, rest) :- DecodeEntries(s1, n, rule, None);
      if rest != [] then Err(InvalidInput("trailing bytes")) else Ok(es)
  }

  lemma TailRoundTrip(es: seq<Entry>, messageCount: nat, rule: IndexRule)
    requires !rule.AnyIndex? && rule.count == messageCount <= MAX_BBS_MESSAGES && Disciplined(es, rule)
    ensures DecodeTail(EncodeRevealed(es), messageCount, rule) == Ok(es)
  {
    DisciplinedFits(es, rule);
    TakeU32Undoes(|es|, EncodeEntries(es));
    AdmissibleIsDisciplined(es, rule, None);
    DecodeAfterEncode(es, rule, None, []);
    assert EncodeEntries(es) + [] == EncodeEntries(es);
  }

  lemma TailCanonical(s: bytes, messageCount: nat, rule: IndexRule, es: seq<Entry>)
    requires DecodeTail(s, messageCount, rule) == Ok(es)
    ensures Disciplined(es, rule) && EncodeRevealed(es) == s
  {
    var (n, s1) := TakeU32(s).value;
    TakeU32Reads(s, n, s1);
    EncodeAfterDecode(s1, n, rule, None, es, []);
    AdmissibleIsDisciplined(es, rule, None);
    assert EncodeEntries(es) + [] == EncodeEntries(es);
  }

  /** The same tail decoder without the explicit test on the revealed count. */
  ghost function DecodeTailUntested(s: bytes, rule: IndexRule): Result<seq<Entry>> {
    var (n, s1) :- TakeU32(s);
    var (es, rest) :- DecodeEntries(s1, n, rule, None);
    if rest != [] then Err(InvalidInput("trailing bytes")) else Ok(es)
  }

  /** That test never changes what is accepted: a list with too many entries fails an index check anyway. */
  lemma TailCountTestIsRedundant(s: bytes, messageCount: nat, rule: IndexRule)
    requires !rule.AnyIndex? && rule.count == messageCount
    ensures DecodeTail(s, messageCount, rule).Ok? <==> DecodeTailUntested(s, rule).Ok?
    ensures DecodeTail(s, messageCount, rule).Ok? ==> DecodeTail(s, messageCount, rule) == DecodeTailUntested(s, rule)
  {
    if TakeU32(s).Ok? && TakeU32(s).value.0 > messageCount {
      CountTestIsRedundant(TakeU32(s).value.1, TakeU32(s).value.0, rule);
    }
  }

  /** The bbs-2023 decoder reads an accepted tail as the same list. */
  lemma TailAgrees(s: bytes, messageCount: nat, rule: IndexRule)
    requires messageCount <= MAX_BBS_MESSAGES && DecodeTail(s, messageCount, rule).Ok?
    ensures DecodeRevealed(s) == Some(DecodeTail(s, messageCount, rule).value)
  {
    var (n, s1) := TakeU32(s).value;
    AnyIndexAgrees(s1, n, rule, None);
  }

  lemma TailExtends(s: bytes, x: bytes, messageCount: nat, rule: IndexRule)
    requires DecodeTail(s, messageCount, rule).Ok? && x != []
    ensures DecodeTail(s + x, messageCount, rule) == Err(InvalidInput("trailing bytes"))
  {
    var (n, s1) := TakeU32(s).value;
    TakeU32Extends(s, x, n, s1);
    DecodeExtends(s1, x, n, rule, None, DecodeTail(s, messageCount, rule).value, []);
  }

  // ---------------------------------------------------------------- the code

  method ToBytes(p: SelectiveProof) returns (out: bytes)
    ensures out == Encode(p)
  {
    out := [];
    out := out + BigEndian(p.messageCount, 4);
    out := out + BigEndian(|p.proof|, 4);
    out := out + p.proof;
    assert out == BigEndian(p.messageCount, 4) + Frame(4, p.proof);
    out := out + BigEndian(|p.revealed|, 4);
    out := WriteEntries(out, p.revealed);
  }

  method FromBytes(b: bytes, usizeMax: nat) returns (result: Result<SelectiveProof>)
    requires |b| <= usizeMax
    ensures result == Decode(b)
  {
    var r := new Reader(b, usizeMax);
    var count := r.U32();
    if count.Err? {
      return Err(count.error);
    }
    if count.value == 0 || count.value > MAX_BBS_MESSAGES {
      return Err(InvalidInput("message_count out of range"));
    }
    result := ReadBody(r, count.value);
  }

  method ReadBody(r: Reader, messageCount: u32) returns (result: Result<SelectiveProof>)
    requires r.Valid()
    modifies r`pos
    ensures r.Valid()
    ensures result == DecodeBody(old(r.Rest()), messageCount)
  {
    var proof := r.TakeFrame();
    if proof.Err? {
      return Err(proof.error);
    }
    var revealed := ReadTail(r, messageCount, Below(messageCount));
    if revealed.Err? {
      return Err(revealed.error);
    }
    result := Ok(SelectiveProof(messageCount, proof.value, revealed.value));
  }

  /** The end of both decoders: the revealed list and the check that nothing follows it. */
  method ReadTail(r: Reader, messageCount: nat, rule: IndexRule) returns (result: Result<seq<Entry>>)
    requires r.Valid()
    modifies r`pos
    ensures r.Valid()
    ensures result == DecodeTail(old(r.Rest()), messageCount, rule)
  {
    var n := r.U32();
    if n.Err? {
      return Err(n.error);
    }
    if n.value > messageCount {
      return Err(InvalidInput("revealed count exceeds message_count"));
    }
    var revealed := ReadEntries(r, n.value, rule);
    if revealed.Err? {
      return Err(revealed.error);
    }
    if r.pos != |r.b| {
      return Err(InvalidInput("trailing bytes"));
    }
    result := revealed;
  }
}
