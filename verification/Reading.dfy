/** The bounds-checked cursor both proof decoders read with, and the pure suffix parser it refines. */
module Reading {
  import opened Wrappers
  import opened Bytes

  const TRUNCATED := InvalidInput("truncated")

  /** A big-endian 32-bit integer off the front of `s`, with what is left. */
  function TakeU32(s: bytes): Result<(u32, bytes)> {
    if |s| < 4 then Err(TRUNCATED)
    else
      BigEndianOfValue(s[..4]);
      PowFour();
      Ok((Value(s[..4]), s[4..]))
  }

  /** A length-prefixed byte string off the front of `s`, with what is left. */
  function TakeBytes(s: bytes): Result<(bytes, bytes)> {
    var (len, rest) :- TakeU32(s);
    if len > |rest| then Err(TRUNCATED) else Ok((rest[..len], rest[len..]))
  }

  lemma TakeU32Reads(s: bytes, n: u32, rest: bytes)
    requires TakeU32(s) == Ok((n, rest))
    ensures s == BigEndian(n, 4) + rest
  {
    BigEndianOfValue(s[..4]);
  }

  lemma TakeBytesReads(s: bytes, v: bytes, rest: bytes)
    requires TakeBytes(s) == Ok((v, rest))
    ensures s == Frame(4, v) + rest && |v| < 0x1_0000_0000
  {
    var (len, s1) := TakeU32(s).value;
    TakeU32Reads(s, len, s1);
    assert s1 == v + rest && |v| == len;
  }

  lemma TakeU32Undoes(n: u32, rest: bytes)
    ensures TakeU32(BigEndian(n, 4) + rest) == Ok((n, rest))
  {
    var s := BigEndian(n, 4) + rest;
    assert s[..4] == BigEndian(n, 4) && s[4..] == rest;
    PowFour();
    ValueOfBigEndian(n, 4);
  }

  lemma TakeBytesUndoes(v: bytes, rest: bytes)
    requires |v| < 0x1_0000_0000
    ensures TakeBytes(Frame(4, v) + rest) == Ok((v, rest))
  {
    assert Frame(4, v) + rest == BigEndian(|v|, 4) + (v + rest);
    TakeU32Undoes(|v|, v + rest);
    assert (v + rest)[..|v|] == v && (v + rest)[|v|..] == rest;
  }

  /** More input after what is read changes only what is left. */
  lemma TakeU32Extends(s: bytes, x: bytes, n: u32, rest: bytes)
    requires TakeU32(s) == Ok((n, rest))
    ensures TakeU32(s + x) == Ok((n, rest + x))
  {
    assert (s + x)[..4] == s[..4] && (s + x)[4..] == s[4..] + x;
  }

  lemma TakeBytesExtends(s: bytes, x: bytes, v: bytes, rest: bytes)
    requires TakeBytes(s) == Ok((v, rest))
    ensures TakeBytes(s + x) == Ok((v, rest + x))
  {
    var (len, s1) := TakeU32(s).value;
    TakeU32Extends(s, x, len, s1);
    assert (s1 + x)[..len] == s1[..len] && (s1 + x)[len..] == s1[len..] + x;
  }

  /** The cursor.  `usizeMax` is the largest position the target can represent: every sum is checked
      against it before it is compared with the buffer's length. */
  class Reader {
    const b: bytes
    const usizeMax: nat
    var pos: nat

    ghost predicate Valid()
      reads this
    {
      pos <= |b| <= usizeMax
    }

    /** The bytes not read yet. */
    ghost function Rest(): bytes
      requires Valid()
      reads this
    {
      b[pos..]
    }

    constructor (b: bytes, usizeMax: nat)
      requires |b| <= usizeMax
      ensures this.b == b && this.usizeMax == usizeMax
      ensures Valid() && Rest() == b
    {
      this.b := b;
      this.usizeMax := usizeMax;
      this.pos := 0;
    }

    method U32() returns (r: Result<u32>)
      requires Valid()
      modifies this`pos
      ensures Valid()
      ensures match TakeU32(old(Rest()))
              case Ok(p) => r == Ok(p.0) && Rest() == p.1
              case Err(e) => r == Err(e) && pos == old(pos)
    {
      if pos + 4 > usizeMax {
        return Err(TRUNCATED);
      }
      var end := pos + 4;
      if end > |b| {
        return Err(TRUNCATED);
      }
      ghost var rest := Rest();
      assert b[pos..end] == rest[..4] && b[end..] == rest[4..];
      var v := Value(b[pos..end]);
      assert TakeU32(rest).value.0 == v;
      pos := end;
      r := Ok(v);
    }

    method TakeFrame() returns (r: Result<bytes>)
      requires Valid()
      modifies this`pos
      ensures Valid()
      ensures match TakeBytes(old(Rest()))
              case Ok(p) => r == Ok(p.0) && Rest() == p.1
              case Err(e) => r == Err(e) && pos == old(if TakeU32(Rest()).Ok? then pos + 4 else pos)
    {
      var n := U32();
      if n.Err? {
        return Err(n.error);
      }
      var len := n.value;
      if pos + len > usizeMax {
        return Err(TRUNCATED);
      }
      var end := pos + len;
      if end > |b| {
        return Err(TRUNCATED);
      }
      ghost var rest := Rest();
      assert b[pos..end] == rest[..len] && b[end..] == rest[len..];
      r := Ok(b[pos..end]);
      pos := end;
    }
  }
}
