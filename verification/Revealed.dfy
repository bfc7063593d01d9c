/** Lists of revealed claims: their encoding, the decoder loop shared by the three decoders of the
    crate, and the index discipline each of them enforces. */
module Revealed {
  import opened Wrappers
  import opened Bytes
  import opened Reading

  const MAX_BBS_MESSAGES: nat := 64

  datatype Entry = Entry(index: u32, value: bytes)

  /** Which indices a decoder lets through: the bbs-2023 list has no upper bound, a selective proof
      stays below its message count, and a vote proof also keeps index 0 (the voter secret) hidden. */
  datatype IndexRule = AnyIndex | Below(count: nat) | BelowHidingFirst(count: nat)

  /** The error a decoder reports for an index, if any, in the order it checks. */
  function IndexError(rule: IndexRule, prev: Option<u32>, index: u32): Option<CryptoError> {
    if rule.BelowHidingFirst? && index == 0 then Some(InvalidInput("voter secret cannot be revealed"))
    else if !rule.AnyIndex? && index >= rule.count then Some(InvalidInput("revealed index out of range"))
    else if prev.Some? && index <= prev.value then Some(InvalidInput("revealed indices must be strictly increasing"))
    else None
  }

  function EncodeEntry(e: Entry): bytes {
    BigEndian(e.index, 4) + Frame(4, e.value)
  }

  function EncodeEntries(es: seq<Entry>): bytes {
    if es == [] then [] else EncodeEntry(es[0]) + EncodeEntries(es[1..])
  }

  /** One entry off the front of `s`: its index, the checks on it, then its value. */
  function TakeEntry(s: bytes, rule: IndexRule, prev: Option<u32>): Result<(Entry, bytes)> {
    var (index, s1) :- TakeU32(s);
    var error := IndexError(rule, prev, index);
    if error.Some? then Err(error.value)
    else
      var (value, rest) :- TakeBytes(s1);
      Ok((Entry(index, value), rest))
  }

  function DecodeEntries(s: bytes, n: nat, rule: IndexRule, prev: Option<u32>): Result<(seq<Entry>, bytes)>
    decreases n
  {
    if n == 0 then Ok(([], s))
    else
      var (e, s1) :- TakeEntry(s, rule, prev);
      var (es, rest) :- DecodeEntries(s1, n - 1, rule, Some(e.index));
      Ok(([e] + es, rest))
  }

  /** What a rule promises of a whole list, stated without the decoder. */
  ghost predicate Disciplined(es: seq<Entry>, rule: IndexRule) {
    && (forall i, j :: 0 <= i < j < |es| ==> es[i].index < es[j].index)
    && (forall i :: 0 <= i < |es| ==> |es[i].value| < 0x1_0000_0000)
    && (!rule.AnyIndex? ==> forall i :: 0 <= i < |es| ==> es[i].index < rule.count)
    && (rule.BelowHidingFirst? ==> forall i :: 0 <= i < |es| ==> es[i].index != 0)
  }

  ghost predicate After(es: seq<Entry>, prev: Option<u32>) {
    prev.Some? ==> forall i :: 0 <= i < |es| ==> prev.value < es[i].index
  }

  /** The same promise, entry by entry. */
  ghost predicate Admissible(es: seq<Entry>, rule: IndexRule, prev: Option<u32>) {
    es == [] ||
    (&& |es[0].value| < 0x1_0000_0000
     && IndexError(rule, prev, es[0].index).None?
     && Admissible(es[1..], rule, Some(es[0].index)))
  }

  lemma {:induction false} AdmissibleIsDisciplined(es: seq<Entry>, rule: IndexRule, prev: Option<u32>)
    ensures Admissible(es, rule, prev) <==> Disciplined(es, rule) && After(es, prev)
  {
    if es != [] {
      AdmissibleIsDisciplined(es[1..], rule, Some(es[0].index));
      assert es == [es[0]] + es[1..];
      if Admissible(es, rule, prev) {
        DisciplinedCons(es[0], es[1..], rule, prev);
      } else if Disciplined(es, rule) && After(es, prev) {
        DisciplinedTail(es[0], es[1..], rule, prev);
      }
    }
  }

  lemma DisciplinedTail(e: Entry, es: seq<Entry>, rule: IndexRule, prev: Option<u32>)
    requires Disciplined([e] + es, rule) && After([e] + es, prev)
    ensures |e.value| < 0x1_0000_0000 && IndexError(rule, prev, e.index).None?
    ensures Disciplined(es, rule) && After(es, Some(e.index))
  {
    var all := [e] + es;
    assert all[0] == e;
    forall i, j | 0 <= i < j < |es| ensures es[i].index < es[j].index {
      assert all[i + 1].index < all[j + 1].index;
    }
    assert forall i :: 0 <= i < |es| ==> es[i] == all[i + 1];
  }

  lemma DisciplinedCons(e: Entry, es: seq<Entry>, rule: IndexRule, prev: Option<u32>)
    requires |e.value| < 0x1_0000_0000 && IndexError(rule, prev, e.index).None?
    requires Disciplined(es, rule) && After(es, Some(e.index))
    ensures Disciplined([e] + es, rule) && After([e] + es, prev)
  {
    var all := [e] + es;
    assert all[0] == e && forall i :: 0 < i < |all| ==> all[i] == es[i - 1];
  }

  lemma EncodeEntriesSplits(es: seq<Entry>, rest: bytes)
    requires es != []
    ensures EncodeEntries(es) + rest == EncodeEntry(es[0]) + (EncodeEntries(es[1..]) + rest)
  {
  }

  lemma TakeEntryUndoes(e: Entry, rule: IndexRule, prev: Option<u32>, rest: bytes)
    requires |e.value| < 0x1_0000_0000 && IndexError(rule, prev, e.index).None?
    ensures TakeEntry(EncodeEntry(e) + rest, rule, prev) == Ok((e, rest))
  {
    assert EncodeEntry(e) + rest == BigEndian(e.index, 4) + (Frame(4, e.value) + rest);
    TakeU32Undoes(e.index, Frame(4, e.value) + rest);
    TakeBytesUndoes(e.value, rest);
  }

  lemma TakeEntryReads(s: bytes, rule: IndexRule, prev: Option<u32>, e: Entry, rest: bytes)
    requires TakeEntry(s, rule, prev) == Ok((e, rest))
    ensures s == EncodeEntry(e) + rest
    ensures |e.value| < 0x1_0000_0000 && IndexError(rule, prev, e.index).None?
  {
    var (index, s1) := TakeU32(s).value;
    TakeU32Reads(s, index, s1);
    TakeBytesReads(s1, e.value, rest);
    assert BigEndian(index, 4) + (Frame(4, e.value) + rest) == BigEndian(index, 4) + Frame(4, e.value) + rest;
  }

  lemma DecodeCons(e: Entry, es: seq<Entry>, rule: IndexRule, prev: Option<u32>, s: bytes, rest: bytes)
    requires |e.value| < 0x1_0000_0000 && IndexError(rule, prev, e.index).None?
    requires DecodeEntries(s, |es|, rule, Some(e.index)) == Ok((es, rest))
    ensures DecodeEntries(EncodeEntry(e) + s, |es| + 1, rule, prev) == Ok(([e] + es, rest))
  {
    TakeEntryUndoes(e, rule, prev, s);
  }

  /** Decoding undoes encoding on admissible lists. */
  lemma {:induction false} DecodeAfterEncode(es: seq<Entry>, rule: IndexRule, prev: Option<u32>, rest: bytes)
    requires Admissible(es, rule, prev)
    ensures DecodeEntries(EncodeEntries(es) + rest, |es|, rule, prev) == Ok((es, rest))
  {
    if es == [] {
      assert EncodeEntries(es) + rest == rest;
    } else {
      DecodeAfterEncode(es[1..], rule, Some(es[0].index), rest);
      DecodeCons(es[0], es[1..], rule, prev, EncodeEntries(es[1..]) + rest, rest);
      EncodeEntriesSplits(es, rest);
      assert es == [es[0]] + es[1..];
    }
  }

  lemma DecodeUncons(s: bytes, n: nat, rule: IndexRule, prev: Option<u32>, es: seq<Entry>, rest: bytes)
    returns (e: Entry, tail: seq<Entry>, s1: bytes)
    requires n > 0 && DecodeEntries(s, n, rule, prev) == Ok((es, rest))
    ensures |e.value| < 0x1_0000_0000 && IndexError(rule, prev, e.index).None?
    ensures es == [e] + tail && s == EncodeEntry(e) + s1
    ensures DecodeEntries(s1, n - 1, rule, Some(e.index)) == Ok((tail, rest))
  {
    var p := TakeEntry(s, rule, prev).value;
    e, s1 := p.0, p.1;
    tail := DecodeEntries(s1, n - 1, rule, Some(e.index)).value.0;
    TakeEntryReads(s, rule, prev, e, s1);
  }

  /** `s` is an admissible list of `n` entries followed by `rest`. */
  ghost predicate Encodes(s: bytes, n: nat, rule: IndexRule, prev: Option<u32>, es: seq<Entry>, rest: bytes) {
    |es| == n && Admissible(es, rule, prev) && s == EncodeEntries(es) + rest
  }

  lemma EncodeCons(s: bytes, n: nat, rule: IndexRule, prev: Option<u32>, e: Entry, tail: seq<Entry>, rest: bytes)
    requires |e.value| < 0x1_0000_0000 && IndexError(rule, prev, e.index).None?
    requires Encodes(s, n, rule, Some(e.index), tail, rest)
    ensures Encodes(EncodeEntry(e) + s, n + 1, rule, prev, [e] + tail, rest)
  {
    assert ([e] + tail)[1..] == tail;
    EncodeEntriesSplits([e] + tail, rest);
  }

  /** Whatever decodes is admissible and encodes back to the bytes read. */
  lemma {:induction false} EncodeAfterDecode(s: bytes, n: nat, rule: IndexRule, prev: Option<u32>, es: seq<Entry>,
                                             rest: bytes)
    requires DecodeEntries(s, n, rule, prev) == Ok((es, rest))
    ensures Encodes(s, n, rule, prev, es, rest)
    decreases n
  {
    if n == 0 {
      assert EncodeEntries(es) + rest == rest;
    } else {
      var e, tail, s1 := DecodeUncons(s, n, rule, prev, es, rest);
      EncodeAfterDecode(s1, n - 1, rule, Some(e.index), tail, rest);
      EncodeCons(s1, n - 1, rule, prev, e, tail, rest);
    }
  }

  lemma TakeEntryExtends(s: bytes, x: bytes, rule: IndexRule, prev: Option<u32>, e: Entry, rest: bytes)
    requires TakeEntry(s, rule, prev) == Ok((e, rest))
    ensures TakeEntry(s + x, rule, prev) == Ok((e, rest + x))
  {
    var (index, s1) := TakeU32(s).value;
    TakeU32Extends(s, x, index, s1);
    TakeBytesExtends(s1, x, e.value, rest);
  }

  /** More input after an accepted list is left over, and changes nothing else. */
  lemma {:induction false} DecodeExtends(s: bytes, x: bytes, n: nat, rule: IndexRule, prev: Option<u32>, es: seq<Entry>,
                                         rest: bytes)
    requires DecodeEntries(s, n, rule, prev) == Ok((es, rest))
    ensures DecodeEntries(s + x, n, rule, prev) == Ok((es, rest + x))
    decreases n
  {
    if n > 0 {
      var p := TakeEntry(s, rule, prev).value;
      TakeEntryExtends(s, x, rule, prev, p.0, p.1);
      DecodeExtends(p.1, x, n - 1, rule, Some(p.0.index), DecodeEntries(p.1, n - 1, rule, Some(p.0.index)).value.0,
                    rest);
    }
  }

  /** Pigeonhole: increasing indices below a count leave room for at most that many entries. */
  lemma {:induction false} IndexGrows(es: seq<Entry>, i: nat)
    requires forall i, j :: 0 <= i < j < |es| ==> es[i].index < es[j].index
    requires i < |es|
    ensures es[i].index >= es[0].index + i
  {
    if i > 0 {
      IndexGrows(es, i - 1);
    }
  }

  lemma DisciplinedFits(es: seq<Entry>, rule: IndexRule)
    requires Disciplined(es, rule) && !rule.AnyIndex?
    ensures |es| <= rule.count
    ensures rule.BelowHidingFirst? && 0 < rule.count ==> |es| < rule.count
  {
    if es != [] {
      IndexGrows(es, |es| - 1);
    }
  }

  /** So a claimed count above the message count can never decode: the decoders' explicit test on it
      does not change what they accept. */
  lemma CountTestIsRedundant(s: bytes, n: nat, rule: IndexRule)
    requires !rule.AnyIndex? && n > rule.count
    ensures DecodeEntries(s, n, rule, None).Err?
  {
    if DecodeEntries(s, n, rule, None).Ok? {
      var (es, rest) := DecodeEntries(s, n, rule, None).value;
      EncodeAfterDecode(s, n, rule, None, es, rest);
      AdmissibleIsDisciplined(es, rule, None);
      DisciplinedFits(es, rule);
    }
  }

  /** A stricter rule only rejects more: what it accepts, the unbounded decoder reads the same way. */
  lemma {:induction false} AnyIndexAgrees(s: bytes, n: nat, rule: IndexRule, prev: Option<u32>)
    requires DecodeEntries(s, n, rule, prev).Ok?
    ensures DecodeEntries(s, n, AnyIndex, prev) == DecodeEntries(s, n, rule, prev)
    decreases n
  {
    if n > 0 {
      var p := TakeEntry(s, rule, prev).value;
      AnyIndexAgrees(p.1, n - 1, rule, Some(p.0.index));
    }
  }

  // ---------------------------------------------------------------- loops

  function Prepend(es: seq<Entry>, r: Result<(seq<Entry>, bytes)>): Result<(seq<Entry>, bytes)> {
    if r.Err? then r else Ok((es + r.value.0, r.value.1))
  }

  lemma PrependNothing(r: Result<(seq<Entry>, bytes)>)
    ensures Prepend([], r) == r
  {
    assert r.Ok? ==> [] + r.value.0 == r.value.0;
  }

  /** One turn of a decoder's loop. */
  lemma DecodeStep(done: seq<Entry>, s: bytes, n: nat, rule: IndexRule, prev: Option<u32>)
    requires n > 0
    ensures match TakeEntry(s, rule, prev)
            case Err(e) => Prepend(done, DecodeEntries(s, n, rule, prev)) == Err(e)
            case Ok(p) =>
              Prepend(done, DecodeEntries(s, n, rule, prev))
                  == Prepend(done + [p.0], DecodeEntries(p.1, n - 1, rule, Some(p.0.index)))
  {
    if TakeEntry(s, rule, prev).Ok? {
      var (e, s1) := TakeEntry(s, rule, prev).value;
      var r := DecodeEntries(s1, n - 1, rule, Some(e.index));
      assert r.Ok? ==> done + ([e] + r.value.0) == done + [e] + r.value.0;
    }
  }

  lemma DecodeDone(done: seq<Entry>, s: bytes, rule: IndexRule, prev: Option<u32>)
    ensures Prepend(done, DecodeEntries(s, 0, rule, prev)) == Ok((done, s))
  {
    assert done + [] == done;
  }

  /** One entry through a shared cursor. */
  method ReadEntry(r: Reader, rule: IndexRule, prev: Option<u32>) returns (result: Result<Entry>)
    requires r.Valid()
    modifies r`pos
    ensures r.Valid()
    ensures match TakeEntry(old(r.Rest()), rule, prev)
            case Ok(p) => result == Ok(p.0) && r.Rest() == p.1
            case Err(e) => result == Err(e)
  {
    var index := r.U32();
    if index.Err? {
      return Err(index.error);
    }
    var error := IndexError(rule, prev, index.value);
    if error.Some? {
      return Err(error.value);
    }
    var value := r.TakeFrame();
    if value.Err? {
      return Err(value.error);
    }
    result := Ok(Entry(index.value, value.value));
  }

  /** One turn of the proof decoders' loop: `done` entries so far, `n` still to read. */
  method ReadNext(r: Reader, rule: IndexRule, prev: Option<u32>, ghost done: seq<Entry>, ghost n: nat)
    returns (result: Result<Entry>)
    requires r.Valid() && n > 0
    modifies r`pos
    ensures r.Valid()
    ensures match result
            case Err(e) => Prepend(done, DecodeEntries(old(r.Rest()), n, rule, prev)) == Err(e)
            case Ok(e) =>
              Prepend(done, DecodeEntries(old(r.Rest()), n, rule, prev))
                  == Prepend(done + [e], DecodeEntries(r.Rest(), n - 1, rule, Some(e.index)))
  {
    DecodeStep(done, r.Rest(), n, rule, prev);
    result := ReadEntry(r, rule, prev);
  }

  /** The proof decoders' loop. */
  method ReadEntries(r: Reader, n: nat, rule: IndexRule) returns (result: Result<seq<Entry>>)
    requires r.Valid()
    modifies r`pos
    ensures r.Valid()
    ensures match DecodeEntries(old(r.Rest()), n, rule, None)
            case Ok(p) => result == Ok(p.0) && r.Rest() == p.1
            case Err(e) => result == Err(e)
  {
    var revealed: seq<Entry> := [];
    var prev: Option<u32> := None;
    ghost var all := DecodeEntries(r.Rest(), n, rule, None);
    PrependNothing(all);
    for i := 0 to n
      invariant r.Valid()
      invariant all == Prepend(revealed, DecodeEntries(r.Rest(), n - i, rule, prev))
    {
      var e := ReadNext(r, rule, prev, revealed, n - i);
      if e.Err? {
        return Err(e.error);
      }
      prev := Some(e.value.index);
      revealed := revealed + [e.value];
    }
    DecodeDone(revealed, r.Rest(), rule, prev);
    result := Ok(revealed);
  }

  lemma {:induction false} EncodeEntriesAppend(es: seq<Entry>, e: Entry)
    ensures EncodeEntries(es + [e]) == EncodeEntries(es) + EncodeEntry(e)
    decreases |es|
  {
    if es == [] {
      EncodeOne(e);
    } else {
      EncodeEntriesAppend(es[1..], e);
      EncodeEntriesSplits(es, EncodeEntry(e));
      var fs := es + [e];
      assert fs[0] == es[0] && fs[1..] == es[1..] + [e];
    }
  }

  lemma EncodeOne(e: Entry)
    ensures EncodeEntries([] + [e]) == EncodeEntries([]) + EncodeEntry(e)
  {
    assert [] + [e] == [e] && [e][1..] == [];
  }

  lemma AppendEntry(buffer: bytes, done: seq<Entry>, e: Entry)
    ensures buffer + EncodeEntries(done) + BigEndian(e.index, 4) + Frame(4, e.value)
         == buffer + EncodeEntries(done + [e])
  {
    EncodeEntriesAppend(done, e);
    var x, y, z := EncodeEntries(done), BigEndian(e.index, 4), Frame(4, e.value);
    assert buffer + x + y + z == buffer + (x + (y + z));
  }

  /** The encoders' loop, appending to the output buffer. */
  method WriteEntries(buffer: bytes, es: seq<Entry>) returns (out: bytes)
    ensures out == buffer + EncodeEntries(es)
  {
    out := buffer;
    for i := 0 to |es|
      invariant out == buffer + EncodeEntries(es[..i])
    {
      AppendEntry(buffer, es[..i], es[i]);
      assert es[..i + 1] == es[..i] + [es[i]];
      out := out + BigEndian(es[i].index, 4);
      out := out + Frame(4, es[i].value);
    }
    assert es[..|es|] == es;
  }

  // ---------------------------------------------------------------- the bbs-2023 list

  /** The bbs-2023 revealed list: a count and that many entries, to the end of the input. */
  function DecodeRevealed(b: bytes): Option<seq<Entry>> {
    match TakeU32(b)
    case Err(_) => None
    case Ok(p) =>
      if p.0 > MAX_BBS_MESSAGES then None
      else
        match DecodeEntries(p.1, p.0, AnyIndex, None)
        case Err(_) => None
        case Ok(q) => if q.1 != [] then None else Some(q.0)
  }

  function EncodeRevealed(es: seq<Entry>): bytes {
    BigEndian(|es|, 4) + EncodeEntries(es)
  }

  ghost predicate RevealedWellFormed(es: seq<Entry>) {
    |es| <= MAX_BBS_MESSAGES && Disciplined(es, AnyIndex)
  }

  /** The accepted byte strings are exactly the encodings of well-formed lists. */
  lemma RevealedRoundTrip(es: seq<Entry>)
    ensures DecodeRevealed(EncodeRevealed(es)) == Some(es) <==> RevealedWellFormed(es)
  {
    var b := EncodeRevealed(es);
    if RevealedWellFormed(es) {
      TakeU32Undoes(|es|, EncodeEntries(es));
      AdmissibleIsDisciplined(es, AnyIndex, None);
      DecodeAfterEncode(es, AnyIndex, None, []);
      assert EncodeEntries(es) + [] == EncodeEntries(es);
    }
    if DecodeRevealed(b) == Some(es) {
      RevealedCanonical(b);
    }
  }

  lemma RevealedCanonical(b: bytes)
    requires DecodeRevealed(b).Some?
    ensures RevealedWellFormed(DecodeRevealed(b).value)
    ensures EncodeRevealed(DecodeRevealed(b).value) == b
  {
    var (n, s) := TakeU32(b).value;
    var es := DecodeRevealed(b).value;
    EncodeAfterDecode(s, n, AnyIndex, None, es, []);
    AdmissibleIsDisciplined(es, AnyIndex, None);
    TakeU32Reads(b, n, s);
    assert EncodeEntries(es) + [] == EncodeEntries(es);
  }

  /** No accepted list is a proper prefix of another. */
  lemma RevealedPrefixFree(b: bytes, x: bytes)
    requires DecodeRevealed(b).Some? && x != []
    ensures DecodeRevealed(b + x).None?
  {
    var (n, s) := TakeU32(b).value;
    TakeU32Extends(b, x, n, s);
    DecodeExtends(s, x, n, AnyIndex, None, DecodeRevealed(b).value, []);
  }

  /** `decode_revealed` reads integers at a position it keeps itself, every bound checked. */
  method U32At(b: bytes, pos: nat, usizeMax: nat) returns (r: Option<u32>)
    requires pos <= |b| <= usizeMax
    ensures match TakeU32(b[pos..])
            case Ok(p) => r == Some(p.0) && pos + 4 <= |b| && b[pos + 4..] == p.1
            case Err(_) => r == None
  {
    if pos + 4 > usizeMax || pos + 4 > |b| {
      return None;
    }
    ghost var s := b[pos..];
    assert b[pos..pos + 4] == s[..4] && b[pos + 4..] == s[4..];
    var v := Value(b[pos..pos + 4]);
    assert TakeU32(s).value.0 == v;
    r := Some(v);
  }

  method EntryAt(b: bytes, pos: nat, prev: Option<u32>, usizeMax: nat) returns (r: Option<Entry>, end: nat)
    requires pos <= |b| <= usizeMax
    ensures match TakeEntry(b[pos..], AnyIndex, prev)
            case Ok(p) => r == Some(p.0) && end <= |b| && b[end..] == p.1
            case Err(_) => r == None
  {
    end := pos;
    var index := U32At(b, pos, usizeMax);
    if index.None? || (prev.Some? && index.value <= prev.value) {
      return None, end;
    }
    var len := U32At(b, pos + 4, usizeMax);
    if len.None? {
      return None, end;
    }
    var start := pos + 8;
    if start + len.value > usizeMax || start + len.value > |b| {
      return None, end;
    }
    end := start + len.value;
    assert b[start..][..len.value] == b[start..end] && b[start..][len.value..] == b[end..];
    r := Some(Entry(index.value, b[start..end]));
  }

  method DecodeRevealedLoop(b: bytes, usizeMax: nat) returns (result: Option<seq<Entry>>)
    requires |b| <= usizeMax
    ensures result == DecodeRevealed(b)
  {
    assert b[0..] == b;
    var count := U32At(b, 0, usizeMax);
    if count.None? || count.value > MAX_BBS_MESSAGES {
      return None;
    }
    var n := count.value;
    var pos := 4;
    var out: seq<Entry> := [];
    var prev: Option<u32> := None;
    ghost var all := DecodeEntries(b[pos..], n, AnyIndex, None);
    PrependNothing(all);
    for i := 0 to n
      invariant 0 <= pos <= |b|
      invariant all == Prepend(out, DecodeEntries(b[pos..], n - i, AnyIndex, prev))
    {
      DecodeStep(out, b[pos..], n - i, AnyIndex, prev);
      var e, end := EntryAt(b, pos, prev, usizeMax);
      if e.None? {
        return None;
      }
      prev := Some(e.value.index);
      out := out + [e.value];
      pos := end;
    }
    DecodeDone(out, b[pos..], AnyIndex, prev);
    result := if pos != |b| then None else Some(out);
  }
}
