/** The input stream: a byte array with a read position and a limit, read varint by varint. */
module CodedInput {
  import opened Bytes
  import opened Varint
  import opened Wire

  /** A varint of which the groups in `acc` have been read; the next group counts `scale` times. */
  function Resume(acc: nat, scale: nat, more: VarintRead): VarintRead {
    match more
    case Malformed => Malformed
    case Varint(v, rest) => Varint(acc + scale * v, rest)
  }

  lemma ResumeStart(r: VarintRead)
    ensures Resume(0, 1, r) == r
  {
  }

  lemma ResumeStuck(acc: nat, scale: nat, s: seq<byte>, limit: nat)
    requires limit == 0 || s == []
    ensures Resume(acc, scale, ReadRaw(s, limit)) == Malformed
  {
  }

  lemma ResumeStep(acc: nat, scale: nat, s: seq<byte>, limit: nat)
    requires limit > 0 && s != []
    ensures var here, acc' := Resume(acc, scale, ReadRaw(s, limit)), acc + scale * (s[0] % 128);
            if s[0] < 128 then here == Varint(acc', s[1..])
            else here == Resume(acc', 128 * scale, ReadRaw(s[1..], limit - 1))
  {
    if s[0] >= 128 {
      match ReadRaw(s[1..], limit - 1)
      case Malformed =>
      case Varint(v, _) => Distribute(scale, s[0] - 128, v);
    }
  }

  lemma Distribute(scale: nat, low: nat, v: nat)
    ensures scale * (low + 128 * v) == scale * low + 128 * scale * v
  {
  }

  /** `whole` is what comes of a group body of which `done` has been read and `s` has not. */
  ghost predicate InGroup(whole: GroupBody, done: seq<UnknownField>, s: seq<byte>, room: nat) {
    var r := SkipMessage(s, room);
    whole == GroupBody(done + r.fields, r.ok, r.lastTag, r.rest)
  }

  /** The same with the tag of the next field already read: `s` starts with its payload. */
  ghost predicate InField(whole: GroupBody, done: seq<UnknownField>, s: seq<byte>, tag: uint32, room: nat) {
    match SkipField(s, tag, room)
    case SkipFailed(partial) => !whole.ok && whole.fields == done + partial
    case Skipped(f, rest) => InGroup(whole, done + [f], rest, room)
  }

  lemma GroupStarts(s: seq<byte>, room: nat)
    ensures InGroup(SkipMessage(s, room), [], s, room)
  {
    assert [] + SkipMessage(s, room).fields == SkipMessage(s, room).fields;
  }

  lemma FieldStarts(whole: GroupBody, done: seq<UnknownField>, s: seq<byte>, room: nat)
    requires ReadTag(s).Tag? && WireType(ReadTag(s).tag) != END_GROUP
    requires InGroup(whole, done, s, room)
    ensures InField(whole, done, ReadTag(s).rest, ReadTag(s).tag, room)
  {
    var Tag(tag, payload) := ReadTag(s);
    var skip := SkipField(payload, tag, room);
    if skip.Skipped? {
      BodyStep(s, tag, payload, skip.field, skip.rest, room);
      ConcatAssoc(done, [skip.field], SkipMessage(skip.rest, room).fields);
    }
  }

  lemma GroupEnds(whole: GroupBody, done: seq<UnknownField>, s: seq<byte>, room: nat)
    requires ReadTag(s).Tag? ==> WireType(ReadTag(s).tag) == END_GROUP
    requires InGroup(whole, done, s, room)
    ensures whole.ok && whole.fields == done
    ensures if ReadTag(s).Tag? then whole.lastTag == ReadTag(s).tag && whole.rest == ReadTag(s).rest
            else whole.lastTag == 0
  {
    assert done + [] == done;
  }

  /** A byte that equals a one-byte tag is that tag. */
  lemma OneByteTag(s: seq<byte>, expected: uint32)
    requires s != [] && s[0] == expected && 0 < expected < 0x80
    ensures ReadTag(s) == Tag(expected, s[1..])
  {
    TagRoundTrip(expected, s[1..]);
    assert VarintBytes(expected) + s[1..] == s;
  }

  lemma TwoByteTag(s: seq<byte>, expected: uint32)
    requires |s| >= 2 && s[0] == expected % 128 + 128 && s[1] == expected / 128 && 0x80 <= expected < 0x4000
    ensures ReadTag(s) == Tag(expected, s[2..])
  {
    TagRoundTrip(expected, s[2..]);
    assert VarintBytes(expected) == [s[0]] + VarintBytes(s[1]) == [s[0], s[1]];
    assert [s[0], s[1]] + s[2..] == s;
  }

  /** `buffer` is the window of bytes that can be read; the bytes that a pushed limit hides are kept by whoever
      pushed it, in place of the old limit. */
  class CodedInputStream {
    var buffer: seq<byte>
    var lastTag: uint32
    var legitimateEnd: bool
    var depth: nat

    constructor (bytes: seq<byte>)
      ensures buffer == bytes && depth == 0 && lastTag == 0 && !legitimateEnd
    {
      buffer := bytes;
      lastTag, legitimateEnd, depth := 0, false, 0;
    }

    method ReadVarint64() returns (ok: bool, value: uint64)
      modifies this`buffer
      ensures |buffer| <= |old(buffer)|
      ensures match Varint.ReadVarint64(old(buffer))
              case Malformed => !ok
              case Varint(v, rest) => ok && value == v && buffer == rest
    {
      ghost var whole := ReadRaw(buffer, MAX_VARINT_BYTES);
      var result: nat, scale: nat, count: nat := 0, 1, 0;
      value := 0;
      ResumeStart(whole);
      hide ReadRaw, Resume;
      while true
        invariant 0 <= count <= MAX_VARINT_BYTES && |buffer| <= |old(buffer)|
        invariant whole == Resume(result, scale, ReadRaw(buffer, MAX_VARINT_BYTES - count))
        decreases MAX_VARINT_BYTES - count
      {
        if count == MAX_VARINT_BYTES || buffer == [] {
          ResumeStuck(result, scale, buffer, MAX_VARINT_BYTES - count);
          return false, 0;
        }
        ResumeStep(result, scale, buffer, MAX_VARINT_BYTES - count);
        var b := buffer[0];
        result := result + scale * (b % 128);
        buffer := buffer[1..];
        scale, count := 128 * scale, count + 1;
        if b < 128 {
          return true, result % TWO_64;
        }
      }
    }

    method ReadVarint32() returns (ok: bool, value: uint32)
      modifies this`buffer
      ensures |buffer| <= |old(buffer)|
      ensures match Varint.ReadVarint32(old(buffer))
              case Malformed => !ok
              case Varint(v, rest) => ok && value == v && buffer == rest
    {
      var wide;
      ok, wide := ReadVarint64();
      value := Low32(wide);
    }

    /** Zero at the end of the input, and for a malformed or zero tag. */
    method ReadTag() returns (tag: uint32)
      modifies this`buffer, this`lastTag, this`legitimateEnd
      ensures lastTag == tag && |buffer| <= |old(buffer)|
      ensures match Wire.ReadTag(old(buffer))
              case EndOfInput => tag == 0 && legitimateEnd && buffer == []
              case ZeroTag => tag == 0 && legitimateEnd == old(legitimateEnd)
              case Tag(t, rest) => tag == t && buffer == rest && legitimateEnd == old(legitimateEnd)
    {
      if buffer == [] {
        legitimateEnd := true;
        tag := 0;
      } else {
        var ok;
        ok, tag := ReadVarint32();
        if !ok {
          tag := 0;
        }
      }
      lastTag := tag;
    }

    /** Consumes the tag if it is next, in its one- or two-byte form; may also answer false when it is, and always does
        for a longer tag. */
    method ExpectTag(expected: uint32) returns (found: bool)
      requires expected > 0
      modifies this`buffer
      ensures found ==> Wire.ReadTag(old(buffer)) == Tag(expected, buffer) && |buffer| < |old(buffer)|
      ensures !found ==> buffer == old(buffer)
    {
      found := false;
      if expected < 0x80 {
        if buffer != [] && buffer[0] == expected {
          if * {
            OneByteTag(buffer, expected);
            buffer := buffer[1..];
            found := true;
          }
        }
      } else if expected < 0x4000 {
        if |buffer| >= 2 && buffer[0] == expected % 128 + 128 && buffer[1] == expected / 128 {
          if * {
            TwoByteTag(buffer, expected);
            buffer := buffer[2..];
            found := true;
          }
        }
      }
    }

    /** True only at the end of the input, and then as if the end had been read; may also answer false there. */
    method ExpectAtEnd() returns (atEnd: bool)
      modifies this`lastTag, this`legitimateEnd
      ensures atEnd ==> buffer == [] && legitimateEnd && lastTag == 0
      ensures !atEnd ==> legitimateEnd == old(legitimateEnd) && lastTag == old(lastTag)
    {
      atEnd := false;
      if buffer == [] {
        if * {
          lastTag, legitimateEnd, atEnd := 0, true, true;
        }
      }
    }

    /** Narrows the window to `byteLimit` bytes; a limit that is past the window or does not fit a signed int
        leaves the window as it is. */
    method PushLimit(byteLimit: uint32) returns (hidden: seq<byte>)
      modifies this`buffer
      ensures buffer == if byteLimit >= TWO_31 || byteLimit > |old(buffer)| then old(buffer)
                        else old(buffer)[..byteLimit]
      ensures buffer + hidden == old(buffer)
    {
      hidden := [];
      if byteLimit < TWO_31 && byteLimit <= |buffer| {
        hidden := buffer[byteLimit..];
        buffer := buffer[..byteLimit];
      }
    }

    method PopLimit(hidden: seq<byte>)
      modifies this`buffer, this`legitimateEnd
      ensures buffer == old(buffer) + hidden && !legitimateEnd
    {
      buffer := buffer + hidden;
      legitimateEnd := false;
    }

    method ReadLittleEndian(n: nat) returns (ok: bool, value: nat)
      modifies this`buffer
      ensures ok == (n <= |old(buffer)|)
      ensures ok ==> buffer == old(buffer)[n..] && value == FromLittleEndian(old(buffer)[..n])
      ensures !ok ==> buffer == old(buffer)
    {
      if |buffer| < n {
        return false, 0;
      }
      ok, value := true, FromLittleEndian(buffer[..n]);
      buffer := buffer[n..];
    }

    /** A size that is negative as a signed int fails at once; a size past the window takes what is there and fails. */
    method ReadString(size: uint32) returns (ok: bool, text: seq<byte>)
      modifies this`buffer
      ensures |buffer| <= |old(buffer)|
      ensures ok == (size < TWO_31 && size <= |old(buffer)|)
      ensures text == if size >= TWO_31 then [] else if ok then old(buffer)[..size] else old(buffer)
      ensures ok ==> buffer == old(buffer)[size..]
    {
      if size >= TWO_31 {
        return false, [];
      }
      ok := size <= |buffer|;
      var stop := if ok then size else |buffer|;
      text := buffer[..stop];
      buffer := buffer[stop..];
    }

    /** What the specification says a skip adds, and how far it goes. */
    static predicate Follows(spec: Skip, ok: bool, added: seq<UnknownField>, after: seq<byte>)
    {
      match spec
      case Skipped(f, rest) => ok && added == [f] && after == rest
      case SkipFailed(partial) => !ok && added == partial
    }

    /** Reads one unknown field into `added`; what a failed read has added is there as well. */
    method SkipField(tag: uint32) returns (ok: bool, added: seq<UnknownField>)
      requires depth <= RECURSION_LIMIT
      modifies this`buffer, this`lastTag, this`legitimateEnd, this`depth
      ensures |buffer| <= |old(buffer)| && depth <= RECURSION_LIMIT
      ensures ok ==> depth == old(depth) && legitimateEnd == old(legitimateEnd)
      ensures Follows(Wire.SkipField(old(buffer), tag, RECURSION_LIMIT - old(depth)), ok, added, buffer)
      decreases |buffer|, 2
    {
      if WireType(tag) == START_GROUP {
        ok, added := SkipGroup(tag);
      } else {
        ok, added := SkipFlat(tag);
      }
    }

    method SkipFlat(tag: uint32) returns (ok: bool, added: seq<UnknownField>)
      modifies this`buffer
      ensures |buffer| <= |old(buffer)|
      ensures Follows(Wire.SkipFlat(old(buffer), tag), ok, added, buffer)
    {
      var number := FieldNumber(tag);
      match WireType(tag)
      case 0 =>
        var v;
        ok, v := ReadVarint64();
        added := if ok then [UVarint(number, v)] else [];
      case 1 =>
        var v;
        PowersOf256();
        ok, v := ReadLittleEndian(8);
        added := if ok then [UFixed64(number, v)] else [];
      case 2 =>
        var length, text;
        ok, length := ReadVarint32();
        added := [];
        if ok {
          ok, text := ReadString(length);
          added := [ULength(number, text)];
        }
      case 5 =>
        var v;
        PowersOf256();
        ok, v := ReadLittleEndian(4);
        added := if ok then [UFixed32(number, v)] else [];
      case _ =>
        ok, added := false, [];
    }

    method SkipGroup(tag: uint32) returns (ok: bool, added: seq<UnknownField>)
      requires WireType(tag) == START_GROUP && depth <= RECURSION_LIMIT
      modifies this`buffer, this`lastTag, this`legitimateEnd, this`depth
      ensures |buffer| <= |old(buffer)| && depth <= RECURSION_LIMIT
      ensures ok ==> depth == old(depth) && legitimateEnd == old(legitimateEnd)
      ensures Follows(Wire.SkipField(old(buffer), tag, RECURSION_LIMIT - old(depth)), ok, added, buffer)
      decreases |buffer|, 1
    {
      if depth == RECURSION_LIMIT {
        return false, [];
      }
      depth := depth + 1;
      var number := FieldNumber(tag);
      var fields;
      ok, fields := SkipMessage();
      added := [UGroup(number, fields)];
      if ok {
        depth := depth - 1;
        ok := lastTag == MakeTag(number, END_GROUP);
      }
    }

    /** The loop over the fields of a group. */
    method SkipMessage() returns (ok: bool, fields: seq<UnknownField>)
      requires depth <= RECURSION_LIMIT
      modifies this`buffer, this`lastTag, this`legitimateEnd, this`depth
      ensures |buffer| <= |old(buffer)| && depth <= RECURSION_LIMIT && (ok ==> depth == old(depth))
      ensures var r := Wire.SkipMessage(old(buffer), RECURSION_LIMIT - old(depth));
              && ok == r.ok && fields == r.fields
              && (ok ==> lastTag == r.lastTag)
              && (ok && lastTag != 0 ==> legitimateEnd == old(legitimateEnd) && buffer == r.rest)
      decreases |buffer|, 0
    {
      ghost var room := RECURSION_LIMIT - depth;
      ghost var whole := Wire.SkipMessage(buffer, room);
      GroupStarts(buffer, room);
      fields := [];
      hide Wire.SkipField, Wire.SkipMessage, Wire.ReadTag, InGroup, InField;
      while true
        invariant |buffer| <= |old(buffer)| && depth == old(depth) && legitimateEnd == old(legitimateEnd)
        invariant InGroup(whole, fields, buffer, room)
        decreases |buffer|
      {
        ghost var s := buffer;
        var tag := ReadTag();
        if tag == 0 {
          GroupEnds(whole, fields, s, room);
          return true, fields;
        }
        if WireType(tag) == END_GROUP {
          GroupEnds(whole, fields, s, room);
          return true, fields;
        }
        FieldStarts(whole, fields, s, room);
        ok, fields := SkipNext(tag, fields, whole);
        if !ok {
          return;
        }
      }
    }

    method SkipNext(tag: uint32, done: seq<UnknownField>, ghost whole: GroupBody)
      returns (ok: bool, fields: seq<UnknownField>)
      requires depth <= RECURSION_LIMIT
      requires InField(whole, done, buffer, tag, RECURSION_LIMIT - depth)
      modifies this`buffer, this`lastTag, this`legitimateEnd, this`depth
      ensures |buffer| <= |old(buffer)| && depth <= RECURSION_LIMIT
      ensures ok ==> depth == old(depth) && legitimateEnd == old(legitimateEnd)
      ensures ok ==> InGroup(whole, fields, buffer, RECURSION_LIMIT - depth)
      ensures !ok ==> !whole.ok && whole.fields == fields
      decreases |buffer|, 3
    {
      hide Wire.SkipField, Wire.SkipMessage, InGroup;
      var added;
      ok, added := SkipField(tag);
      fields := done + added;
    }
  }
}
