/** The streams the generated code reads and writes, and the word of presence bits. */
module CodedStream {
  import opened Bytes
  import opened WireFormat
  import opened MessageLoop
  import opened Messages
  import opened Sizes

  /** A string pointer: None stands for the shared empty string every message starts with. */
  type StringPtr = Option<bytes>

  function Text(p: StringPtr): bytes { Or(p, []) }

  /** The int in which a message remembers its serialised size. */
  type CachedSize = n: nat | n <= MAX_INT

  /** What setting and clearing one of three presence bits does to the others. */
  lemma PresenceBit1(b: bv32)
    ensures (b | 1) & 1 != 0 && (b | 1) & 2 == b & 2 && (b | 1) & 4 == b & 4
    ensures (b & 0xFFFF_FFFE) & 1 == 0 && (b & 0xFFFF_FFFE) & 2 == b & 2 && (b & 0xFFFF_FFFE) & 4 == b & 4
    ensures b & 0xFFFF_FFF8 == 0 ==> (b | 1) & 0xFFFF_FFF8 == 0 && (b & 0xFFFF_FFFE) & 0xFFFF_FFF8 == 0
  {
  }

  lemma PresenceBit2(b: bv32)
    ensures (b | 2) & 2 != 0 && (b | 2) & 1 == b & 1 && (b | 2) & 4 == b & 4
    ensures (b & 0xFFFF_FFFD) & 2 == 0 && (b & 0xFFFF_FFFD) & 1 == b & 1 && (b & 0xFFFF_FFFD) & 4 == b & 4
    ensures b & 0xFFFF_FFF8 == 0 ==> (b | 2) & 0xFFFF_FFF8 == 0 && (b & 0xFFFF_FFFD) & 0xFFFF_FFF8 == 0
  {
  }

  lemma PresenceBit4(b: bv32)
    ensures (b | 4) & 4 != 0 && (b | 4) & 1 == b & 1 && (b | 4) & 2 == b & 2
    ensures (b & 0xFFFF_FFFB) & 4 == 0 && (b & 0xFFFF_FFFB) & 1 == b & 1 && (b & 0xFFFF_FFFB) & 2 == b & 2
    ensures b & 0xFFFF_FFF8 == 0 ==> (b | 4) & 0xFFFF_FFF8 == 0 && (b & 0xFFFF_FFFB) & 0xFFFF_FFF8 == 0
  {
  }

  /** A word with only three presence bits is zero as soon as its low byte is. */
  lemma LowByteDecides(b: bv32)
    requires b & 0xFFFF_FFF8 == 0
    ensures b & 0xFF == 0 <==> b & 1 == 0 && b & 2 == 0 && b & 4 == 0
    ensures b & 3 == 3 <==> b & 1 != 0 && b & 2 != 0
  {
  }

  /** Where a turn of a generated parser leads: to the next turn, or out of the parser. */
  datatype Flow = Again(expected: byte) | Return(ok: bool)

  /** Reads buf[pos..limit]. legitimateEnd and lastTag record how the last attempt to read a tag went. */
  class CodedInputStream {
    const buf: bytes
    var pos: nat
    var limit: nat
    var lastTag: uint32
    var legitimateEnd: bool

    ghost predicate Valid()
      reads this
    {
      pos <= limit <= |buf|
    }

    function Rest(): bytes
      requires Valid()
      reads this
    {
      buf[pos..limit]
    }

    constructor (s: bytes)
      ensures Valid() && Rest() == s && buf == s && limit == |s|
    {
      buf, pos, limit, lastTag, legitimateEnd := s, 0, |s|, 0, false;
    }

    /** A parser's verdict and the state it leaves agree with the loop o. */
    ghost predicate Reports<M>(ok: bool, msg: M, o: Outcome<M>)
      requires Valid()
      reads this
    {
      && ok == o.Stopped?
      && msg == o.msg
      && (ok ==> Rest() == o.rest && legitimateEnd == o.why.AtEnd? && (o.why.AtEndGroup? ==> lastTag == o.why.tag))
    }

    method Consume(rest: bytes)
      requires Valid() && (rest == Rest() || ProperSuffix(rest, Rest()))
      modifies this`pos
      ensures Valid() && Rest() == rest
    {
      pos := limit - |rest|;
    }

    /** Answers 0 at the end, for a malformed tag and for tag 0; only the first is a legitimate end. */
    method ReadTag() returns (tag: uint32)
      requires Valid()
      modifies this`pos, this`lastTag, this`legitimateEnd
      ensures Valid() && lastTag == tag && legitimateEnd == (old(Rest()) == [])
      ensures match ReadVarint32(old(Rest()))
              case Bad => tag == 0 && Rest() == old(Rest())
              case Ok(t, r) => tag == t && Rest() == r && |Rest()| < |old(Rest())|
    {
      legitimateEnd := pos == limit;
      match ReadVarint32(Rest()) {
        case Bad => tag := 0;
        case Ok(t, r) => tag := t; Consume(r);
      }
      lastTag := tag;
    }

    /** A hint: it may answer yes only if the tag is there, and may answer no at any time. */
    method ExpectTag(expected: byte) returns (yes: bool)
      requires Valid()
      modifies this`pos
      ensures Valid()
      ensures yes ==> old(Rest()) == [expected] + Rest()
      ensures !yes ==> pos == old(pos)
    {
      var looked: bool := *;
      yes := looked && pos < limit && buf[pos] == expected;
      if yes { pos := pos + 1; }
    }

    method ExpectAtEnd() returns (yes: bool)
      requires Valid()
      modifies this`lastTag, this`legitimateEnd
      ensures yes ==> Rest() == [] && legitimateEnd
      ensures !yes ==> legitimateEnd == old(legitimateEnd) && lastTag == old(lastTag)
    {
      var looked: bool := *;
      yes := looked && pos == limit;
      if yes { lastTag, legitimateEnd := 0, true; }
    }

    method ReadInt32() returns (r: Option<int32>)
      requires Valid()
      modifies this`pos
      ensures Valid()
      ensures match ReadVarint32(old(Rest()))
              case Bad => r == None
              case Ok(v, rest) => r == Some(VarintToInt32(v)) && Rest() == rest && |Rest()| < |old(Rest())|
    {
      match ReadVarint32(Rest())
      case Bad => r := None;
      case Ok(v, rest) => r := Some(VarintToInt32(v)); Consume(rest);
    }

    method ReadString() returns (r: Option<bytes>)
      requires Valid()
      modifies this`pos
      ensures Valid()
      ensures match ReadData(old(Rest()))
              case Bad => r == None
              case Ok(b, rest) => r == Some(b) && Rest() == rest && |Rest()| < |old(Rest())|
    {
      match ReadData(Rest())
      case Bad => r := None;
      case Ok(b, rest) => r := Some(b); Consume(rest);
    }

    method SkipField(tag: uint32) returns (r: Option<Field>)
      requires Valid()
      modifies this`pos
      ensures Valid()
      ensures match ReadBody(tag, old(Rest()))
              case Bad => r == None
              case Ok(f, rest) => r == Some(f) && Rest() == rest && |Rest()| < |old(Rest())|
    {
      match ReadBody(tag, Rest())
      case Bad => r := None;
      case Ok(f, rest) => r := Some(f); Consume(rest);
    }

    /** Reads a length and confines the stream to that many bytes; gives back the limit to restore. */
    method EnterMessage() returns (outer: Option<nat>)
      requires Valid()
      modifies this`pos, this`limit
      ensures Valid()
      ensures match ReadData(old(Rest()))
              case Bad => outer == None && limit == old(limit)
              case Ok(b, rest) =>
                && outer == Some(old(limit)) && limit <= old(limit)
                && Rest() == b && buf[limit..old(limit)] == rest && |rest| < |old(Rest())|
    {
      match ReadVarint32(Rest())
      case Bad => outer := None;
      case Ok(n, rest) =>
        if n > MAX_INT || n > |rest| { return None; }
        outer := Some(limit);
        Consume(rest);
        limit := pos + n;
    }

    /** Back to the enclosing message, once the inner one has been read to its end. */
    method LeaveMessage(outer: nat)
      requires Valid() && Rest() == [] && limit <= outer <= |buf|
      modifies this`limit
      ensures Valid() && limit == outer && Rest() == buf[old(limit)..outer]
    {
      limit := outer;
    }
  }

  /** Tries the tag that usually comes next; answers the byte it consumed, or 0. */
  method ExpectNext(input: CodedInputStream, tag: byte) returns (expected: byte)
    requires input.Valid() && tag != 0
    modifies input`pos
    ensures input.Valid() && (expected == 0 || expected == tag)
    ensures old(input.Rest()) == Ahead(expected) + input.Rest()
  {
    AheadOfNothing(input.Rest());
    var jump := input.ExpectTag(tag);
    expected := if jump then tag else 0;
  }

  /** An output stream that collects what is written. */
  class CodedOutputStream {
    var out: bytes

    constructor ()
      ensures out == []
    {
      out := [];
    }

    method WriteInt32(tag: byte, i: int32)
      modifies this
      ensures out == old(out) + Int32Record(Some(i), tag)
    {
      hide EncVarint, Int32ToVarint;
      ConcatAssociative(out, [tag], EncVarint(Int32ToVarint(i)));
      out := out + [tag];
      out := out + EncVarint(Int32ToVarint(i));
    }

    method WriteString(tag: byte, b: bytes)
      modifies this
      ensures out == old(out) + StringRecord(Some(b), tag)
    {
      hide EncVarint;
      Append3(out, [tag], EncVarint(|b|), b);
      out := out + [tag];
      out := out + EncVarint(|b|);
      out := out + b;
    }

    method WriteMessageHead(tag: byte, cachedSize: nat)
      modifies this
      ensures out == old(out) + ([tag] + EncVarint(cachedSize))
    {
      hide EncVarint;
      ConcatAssociative(out, [tag], EncVarint(cachedSize));
      out := out + [tag];
      out := out + EncVarint(cachedSize);
    }

    method SerializeUnknownFields(fs: seq<Field>)
      modifies this
      ensures out == old(out) + EncFields(fs)
    {
      out := out + EncFields(fs);
    }
  }

  method WriteMessageHeadToArray(tag: byte, cachedSize: nat, target: array<byte>, at: nat) returns (end: nat)
    requires at + 1 + |EncVarint(cachedSize)| <= target.Length
    modifies target
    ensures end == at + 1 + |EncVarint(cachedSize)|
    ensures target[..end] == old(target[..at]) + ([tag] + EncVarint(cachedSize))
    ensures forall i | end <= i < target.Length :: target[i] == old(target[i])
  {
    hide EncVarint;
    ConcatAssociative(target[..at], [tag], EncVarint(cachedSize));
    end := WriteToArray([tag], target, at);
    end := WriteToArray(EncVarint(cachedSize), target, end);
  }

  /** Copies b to target[at..]; everything after it stays. */
  method WriteToArray(b: bytes, target: array<byte>, at: nat) returns (end: nat)
    requires at + |b| <= target.Length
    modifies target
    ensures end == at + |b|
    ensures target[..end] == old(target[..at]) + b
    ensures forall i | end <= i < target.Length :: target[i] == old(target[i])
  {
    end := at;
    while end < at + |b|
      invariant at <= end <= at + |b|
      invariant target[..end] == old(target[..at]) + b[..end - at]
      invariant forall i | end <= i < target.Length :: target[i] == old(target[i])
    {
      target[end] := b[end - at];
      end := end + 1;
    }
  }

  method WriteStringToArray(tag: byte, b: bytes, target: array<byte>, at: nat) returns (end: nat)
    requires at + |StringRecord(Some(b), tag)| <= target.Length
    modifies target
    ensures end == at + |StringRecord(Some(b), tag)|
    ensures target[..end] == old(target[..at]) + StringRecord(Some(b), tag)
    ensures forall i | end <= i < target.Length :: target[i] == old(target[i])
  {
    hide EncVarint;
    Append3(target[..at], [tag], EncVarint(|b|), b);
    end := WriteToArray([tag], target, at);
    end := WriteToArray(EncVarint(|b|), target, end);
    end := WriteToArray(b, target, end);
  }

  method WriteInt32ToArray(tag: byte, i: int32, target: array<byte>, at: nat) returns (end: nat)
    requires at + |Int32Record(Some(i), tag)| <= target.Length
    modifies target
    ensures end == at + |Int32Record(Some(i), tag)|
    ensures target[..end] == old(target[..at]) + Int32Record(Some(i), tag)
    ensures forall k | end <= k < target.Length :: target[k] == old(target[k])
  {
    hide EncVarint, Int32ToVarint;
    ConcatAssociative(target[..at], [tag], EncVarint(Int32ToVarint(i)));
    end := WriteToArray([tag], target, at);
    end := WriteToArray(EncVarint(Int32ToVarint(i)), target, end);
  }
}
