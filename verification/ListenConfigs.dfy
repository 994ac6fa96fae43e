/** `ListenConfig` and `ServerActive`: a string field behind a pointer that starts at a shared empty string, and a
    nested message behind a pointer that starts null. */
module ListenConfigs {
  import opened Bytes
  import opened Varint
  import opened Wire
  import opened HeaderRecords
  import opened HasBits
  import opened ConfigWire
  import opened ConfigMeaning
  import opened CodedOutput
  import opened Options

  /** A string on the C++ heap; `live` until it is deleted. */
  class Text {
    var chars: seq<byte>
    ghost var live: bool

    constructor ()
      ensures live && chars == []
    {
      chars, live := [], true;
    }

    method Assign(s: seq<byte>)
      requires live
      modifies this`chars
      ensures chars == s
    {
      chars := s;
    }

    method Delete()
      requires live
      modifies this`live
      ensures !live
    {
      live := false;
    }
  }

  /** A group guard that is zero says that no field is present. */
  lemma NoBits(bits: Word)
    requires bits & FIRST_GROUP == 0
    ensures !Has(bits, 1) && !Has(bits, 2) && !Has(bits, 3) && !Has(bits, 4) && !Has(bits, 5)
    ensures OnlyKnown(0) && forall k: nat :: IsScalar(k) ==> !Has(0, k)
  {
    forall k: nat | IsScalar(k) ensures !Has(0, k) { GroupGuard(0, k); }
    GroupGuard(bits, 1);
    GroupGuard(bits, 2);
    GroupGuard(bits, 3);
    GroupGuard(bits, 4);
    GroupGuard(bits, 5);
  }

  /** No stray bits, and an absent field is at its default; a present string is the message's own. */
  ghost predicate FieldsOk(bits: Word, connectionType: int, own: bool, chars: seq<byte>, listenPort: int32,
                           maxConnection: int32, udp: bool)
  {
    && OnlyKnown(bits) && !Has(bits, 6) && !Has(bits, 9) && !Has(bits, 10)
    && IsConnectionType(connectionType) && (!Has(bits, 1) ==> connectionType == -1)
    && (if Has(bits, 2) then own else chars == [])
    && (!Has(bits, 3) ==> listenPort == 0)
    && (!Has(bits, 4) ==> maxConnection == 0)
    && (!Has(bits, 5) ==> udp)
  }

  ghost function FieldsSay(bits: Word, connectionType: int, chars: seq<byte>, listenPort: int32, maxConnection: int32,
                           udp: bool, unknown: seq<UnknownField>): (said: Config)
    ensures said.unknown == unknown
  {
    hide Has, Mask, OnlyKnown;
    Config(if Has(bits, 1) then Some(connectionType) else None,
           if Has(bits, 2) then Some(chars) else None,
           if Has(bits, 3) then Some(listenPort) else None,
           if Has(bits, 4) then Some(maxConnection) else None,
           if Has(bits, 5) then Some(udp) else None,
           unknown)
  }

  lemma StringStored(bits: Word, connectionType: int, own: bool, was: seq<byte>, chars: seq<byte>, listenPort: int32,
                     maxConnection: int32, udp: bool, unknown: seq<UnknownField>)
    requires FieldsOk(bits, connectionType, own, was, listenPort, maxConnection, udp)
    ensures FieldsOk(WithField(bits, 2), connectionType, true, chars, listenPort, maxConnection, udp)
    ensures FieldsSay(WithField(bits, 2), connectionType, chars, listenPort, maxConnection, udp, unknown) ==
              FieldsSay(bits, connectionType, was, listenPort, maxConnection, udp, unknown).(listenIP := Some(chars))
  {
    MaskAdds(bits, 2);
    hide Has, OnlyKnown, WithField;
  }

  lemma StringDropped(bits: Word, connectionType: int, own: bool, was: seq<byte>, keep: bool, listenPort: int32,
                      maxConnection: int32, udp: bool, unknown: seq<UnknownField>)
    requires FieldsOk(bits, connectionType, own, was, listenPort, maxConnection, udp)
    ensures FieldsOk(WithoutField(bits, 2), connectionType, keep, [], listenPort, maxConnection, udp)
    ensures FieldsSay(WithoutField(bits, 2), connectionType, [], listenPort, maxConnection, udp, unknown) ==
              FieldsSay(bits, connectionType, was, listenPort, maxConnection, udp, unknown).(listenIP := None)
  {
    MaskDrops(bits, 2);
    hide Has, OnlyKnown, WithoutField;
  }

  // ---------------------------------------------------------------- one field: its size and its bytes

  function Optional<T>(present: bool, v: T): Option<T> { if present then Some(v) else None }

  /** An optional enum or int32 field. */
  method NumberSize(k: nat, present: bool, v: int32) returns (n: int32)
    requires 1 <= k <= 15
    ensures 0 <= n <= 11 && n == |FieldsBytes(NumberField(k, Optional(present, v)))|
  {
    n := 0;
    if present {
      OneFieldBytes(UVarint(k, SignExtend(v)));
      SizeIsLengthInt32(v);
      n := 1 + VarintSize32SignExtended(v);
    }
  }

  /** An optional string field; its length is cut to 32 bits before it is measured. */
  method TextSize(k: nat, present: bool, text: seq<byte>) returns (size: int32, exact: bool)
    requires 1 <= k <= 15
    ensures Counts(size, exact, |FieldsBytes(TextField(k, Optional(present, text)))|)
  {
    size, exact := 0, true;
    if present {
      OneFieldBytes(ULength(k, text));
      var prefix := 1 + VarintSize32(Low32(|text|));
      size, exact := AddInt(prefix, AsInt(|text|)), |text| < TWO_31 && InInt(prefix + AsInt(|text|));
      if |text| < TWO_31 { SizeIsLength32(|text|); }
    }
  }

  /** Writes an optional number field in place behind what is `done`. */
  method WriteNumberToArray(k: nat, present: bool, v: int32, a: array<byte>, at: nat, ghost before: seq<byte>,
                            ghost base: nat, ghost done: seq<byte>)
    returns (end: nat)
    requires 1 <= k <= 15 && at == base + |done| && Wrote(before, a[..], base, done)
    requires at + |FieldsBytes(NumberField(k, Optional(present, v)))| <= a.Length
    modifies a
    ensures var b := FieldsBytes(NumberField(k, Optional(present, v)));
            end == at + |b| && Wrote(before, a[..], base, done + b)
  {
    hide Wrote, VarintBytes;
    end := at;
    if present {
      ghost var tag, value := VarintBytes(MakeTag(k, VARINT)), VarintBytes(SignExtend(v));
      OneFieldBytes(UVarint(k, SignExtend(v)));
      hide FieldsBytes;
      ghost var s0 := a[..];
      end := WriteTagToArray(MakeTag(k, VARINT), a, at);
      ghost var s1 := a[..];
      end := WriteVarint32SignExtendedToArray(v, a, end);
      WroteBoth(s0, s1, a[..], at, tag, value);
      WroteBoth(before, s0, a[..], base, done, tag + value);
    } else {
      assert done + [] == done;
    }
  }

  method WriteTextToArray(k: nat, present: bool, text: seq<byte>, a: array<byte>, at: nat, ghost before: seq<byte>,
                          ghost base: nat, ghost done: seq<byte>)
    returns (end: nat)
    requires 1 <= k <= 15 && (present ==> |text| < TWO_31)
    requires at == base + |done| && Wrote(before, a[..], base, done)
    requires at + |FieldsBytes(TextField(k, Optional(present, text)))| <= a.Length
    modifies a
    ensures var b := FieldsBytes(TextField(k, Optional(present, text)));
            end == at + |b| && Wrote(before, a[..], base, done + b)
  {
    hide Wrote, VarintBytes;
    end := at;
    if present {
      ghost var tag, size := VarintBytes(MakeTag(k, LENGTH_DELIMITED)), VarintBytes(|text|);
      OneFieldBytes(ULength(k, text));
      hide FieldsBytes;
      ghost var s0 := a[..];
      end := WriteTagToArray(MakeTag(k, LENGTH_DELIMITED), a, at);
      ghost var s1 := a[..];
      end := WriteVarint32ToArray(|text|, a, end);
      ghost var s2 := a[..];
      end := WriteRawToArray(text, a, end);
      WroteBoth(s1, s2, a[..], at + |tag|, size, text);
      WroteBoth(s0, s1, a[..], at, tag, size + text);
      WroteBoth(before, s0, a[..], base, done, tag + (size + text));
    } else {
      assert done + [] == done;
    }
  }

  lemma BoolIsNumber(k: nat, present: bool, b: bool)
    ensures BoolField(k, Optional(present, b)) == NumberField(k, Optional(present, if b then 1 else 0))
  {
  }

  /** What the fields of the class say is `c`. */
  predicate Says(has1: bool, connectionType: int, has2: bool, listenIP: seq<byte>, has3: bool, listenPort: int32,
                 has4: bool, maxConnection: int32, has5: bool, udp: bool, c: Config)
  {
    && TypeOk(c) && InInt(connectionType)
    && c.connectionType == Optional(has1, connectionType) && c.listenIP == Optional(has2, listenIP)
    && c.listenPort == Optional(has3, listenPort) && c.maxConnection == Optional(has4, maxConnection)
    && c.udp == Optional(has5, udp)
  }

  /** The guarded part of the size. */
  method SizeOfKnown(has1: bool, connectionType: int, has2: bool, listenIP: seq<byte>, has3: bool, listenPort: int32,
                     has4: bool, maxConnection: int32, has5: bool, udp: bool, ghost c: Config)
    returns (size: int32, exact: bool)
    requires Says(has1, connectionType, has2, listenIP, has3, listenPort, has4, maxConnection, has5, udp, c)
    ensures Counts(size, exact, |FieldsBytes(KnownFields(c))|)
  {
    hide FieldsBytes, KnownFields;
    KnownSections(c);
    var n1 := NumberSize(1, has1, connectionType);
    var n2, exact2 := TextSize(2, has2, listenIP);
    var n3 := NumberSize(3, has3, listenPort);
    var n4 := NumberSize(4, has4, maxConnection);
    BoolIsNumber(5, has5, udp);
    var n5 := NumberSize(5, has5, if udp then 1 else 0);
    ghost var m2 := |FieldsBytes(TextField(2, c.listenIP))|;
    size, exact := AddSize(n1, true, n2, exact2, n1, m2);
    size, exact := AddSize(size, exact, n3 + n4 + n5, true, n1 + m2, n3 + n4 + n5);
  }

  method WriteKnownToArray(has1: bool, connectionType: int, has2: bool, listenIP: seq<byte>, has3: bool,
                           listenPort: int32, has4: bool, maxConnection: int32, has5: bool, udp: bool, ghost c: Config,
                           a: array<byte>, at: nat)
    returns (end: nat)
    requires Says(has1, connectionType, has2, listenIP, has3, listenPort, has4, maxConnection, has5, udp, c)
    requires at + |FieldsBytes(KnownFields(c))| <= a.Length && (has2 ==> |listenIP| < TWO_31)
    modifies a
    ensures var b := FieldsBytes(KnownFields(c)); end == at + |b| && Wrote(old(a[..]), a[..], at, b)
  {
    hide Wrote, FieldsBytes, KnownFields, NumberField, TextField, BoolField;
    ghost var before := a[..];
    KnownSections(c);
    WroteNothing(before, at);
    BoolIsNumber(5, has5, udp);
    end := WriteNumberToArray(1, has1, connectionType, a, at, before, at, []);
    ghost var b := FieldsBytes(NumberField(1, c.connectionType));
    assert [] + b == b;
    end := WriteTextToArray(2, has2, listenIP, a, end, before, at, b);
    b := b + FieldsBytes(TextField(2, c.listenIP));
    end := WriteNumberToArray(3, has3, listenPort, a, end, before, at, b);
    b := b + FieldsBytes(NumberField(3, c.listenPort));
    end := WriteNumberToArray(4, has4, maxConnection, a, end, before, at, b);
    b := b + FieldsBytes(NumberField(4, c.maxConnection));
    end := WriteNumberToArray(5, has5, if udp then 1 else 0, a, end, before, at, b);
  }

  lemma NoFields()
    ensures FieldsBytes([]) == []
  {
  }

  lemma NoKnownFields(c: Config)
    requires c.connectionType == None && c.listenIP == None && c.listenPort == None && c.maxConnection == None
    requires c.udp == None
    ensures FieldsBytes(KnownFields(c)) == [] && Counts(0, true, 0)
  {
    assert KnownFields(c) == [];
  }

  /** The size of a nested message with its tag and its length prefix. */
  method PrefixedSize(length: int32, lengthExact: bool, ghost n: nat) returns (size: int32, exact: bool)
    requires Counts(length, lengthExact, n)
    ensures Counts(size, exact, 1 + |VarintBytes(n)| + n)
  {
    var prefix := 1 + VarintSize32(length % TWO_32);
    size, exact := AddInt(prefix, length), lengthExact && InInt(prefix + length);
    if lengthExact { SizeIsLength32(length); }
  }

  lemma PartsOfActive(m: Active)
    requires m.remote.Some? ==> TypeOk(m.remote.value)
    ensures |ActiveBytes(m)| ==
              (if m.remote.Some? then 1 + |VarintBytes(NestedSize(m))| + NestedSize(m) else 0) + |FieldsBytes(m.unknown)|
    ensures m.remote.Some? ==> |VarintBytes(MakeTag(1, LENGTH_DELIMITED))| == 1
  {
    SizeIsLength32(MakeTag(1, LENGTH_DELIMITED));
  }

  /** The string is part of what is written. */
  lemma TextFits(c: Config)
    requires TypeOk(c)
    ensures c.listenIP.Some? ==> |c.listenIP.value| <= |ConfigBytes(c)|
  {
    FieldsBytesAppend(KnownFields(c), c.unknown);
    KnownSections(c);
    if c.listenIP.Some? { OneFieldBytes(ULength(2, c.listenIP.value)); }
  }

  class ListenConfig {
    /** The shared empty string. */
    const empty: Text
    var connectionType: int
    var listenIP: Text
    var listenPort: int32
    var maxConnection: int32
    var udp: bool
    var hasBits: Word
    var unknown: seq<UnknownField>
    var cachedSize: int32
    ghost var live: bool

    /** The string that this message owns, if it has one of its own. */
    ghost function Own(): set<Text>
      reads this
    {
      {listenIP} - {empty}
    }

    /** The shared string is intact, the own string is not deleted, and the fields are in order. */
    ghost predicate Valid()
      reads this, listenIP, empty
    {
      && live && empty.live && empty.chars == [] && listenIP.live
      && (forall i :: 0 <= i < |unknown| ==> ConfigUnknown(unknown[i], RECURSION_LIMIT))
      && FieldsOk(hasBits, connectionType, listenIP != empty, listenIP.chars, listenPort, maxConnection, udp)
    }

    ghost function View(): Config
      reads this, listenIP
    {
      FieldsSay(hasBits, connectionType, listenIP.chars, listenPort, maxConnection, udp, unknown)
    }

    constructor (empty: Text)
      requires empty.live && empty.chars == []
      ensures Valid() && View() == NO_CONFIG && Own() == {} && this.empty == empty
    {
      this.empty := empty;
      connectionType, listenIP, listenPort, maxConnection, udp := -1, empty, 0, 0, true;
      hasBits, unknown, cachedSize, live := 0, [], 0, true;
      new;
      NoBits(0);
    }

    // ---------------------------------------------------------------- the plain fields

    /** Reading an absent field gives its default. */
    method Read() returns (connectionType: int, listenIP: seq<byte>, listenPort: int32, maxConnection: int32, udp: bool)
      requires Valid()
      ensures connectionType == GetOr(View().connectionType, -1) && listenIP == GetOr(View().listenIP, [])
      ensures listenPort == GetOr(View().listenPort, 0) && maxConnection == GetOr(View().maxConnection, 0)
      ensures udp == GetOr(View().udp, true)
    {
      hide Has, OnlyKnown;
      return this.connectionType, this.listenIP.chars, this.listenPort, this.maxConnection, this.udp;
    }

    method SetConnectionType(v: int)
      requires Valid() && IsConnectionType(v)
      modifies this`connectionType, this`hasBits
      ensures Valid() && View() == old(View()).(connectionType := Some(v))
    {
      MaskAdds(hasBits, 1);
      hide Has, OnlyKnown, WithField;
      hasBits := WithField(hasBits, 1);
      connectionType := v;
    }

    method SetListenPort(v: int32)
      requires Valid()
      modifies this`listenPort, this`hasBits
      ensures Valid() && View() == old(View()).(listenPort := Some(v))
    {
      MaskAdds(hasBits, 3);
      hide Has, OnlyKnown, WithField;
      hasBits := WithField(hasBits, 3);
      listenPort := v;
    }

    method SetMaxConnection(v: int32)
      requires Valid()
      modifies this`maxConnection, this`hasBits
      ensures Valid() && View() == old(View()).(maxConnection := Some(v))
    {
      MaskAdds(hasBits, 4);
      hide Has, OnlyKnown, WithField;
      hasBits := WithField(hasBits, 4);
      maxConnection := v;
    }

    method SetUdp(v: bool)
      requires Valid()
      modifies this`udp, this`hasBits
      ensures Valid() && View() == old(View()).(udp := Some(v))
    {
      MaskAdds(hasBits, 5);
      hide Has, OnlyKnown, WithField;
      hasBits := WithField(hasBits, 5);
      udp := v;
    }

    // ---------------------------------------------------------------- the string

    lemma StringIsRead()
      requires Valid()
      ensures listenIP.chars == GetOr(View().listenIP, [])
    {
    }

    method SetListenIP(s: seq<byte>)
      requires Valid()
      modifies this`listenIP, this`hasBits, Own()
      ensures Valid() && View() == old(View()).(listenIP := Some(s)) && fresh(Own() - old(Own()))
    {
      var text := MutableListenIP();
      text.Assign(s);
    }

    /** The pointer handed out is never the shared string. */
    method MutableListenIP() returns (text: Text)
      requires Valid()
      modifies this`listenIP, this`hasBits
      ensures Valid() && text == listenIP && Own() == {text} && (text in old(Own()) || fresh(text))
      ensures View() == old(View()).(listenIP := Some(old(listenIP.chars)))
    {
      hide FieldsOk, FieldsSay, WithField;
      StringStored(hasBits, connectionType, listenIP != empty, listenIP.chars, listenIP.chars, listenPort,
                   maxConnection, udp, unknown);
      hasBits := WithField(hasBits, 2);
      if listenIP == empty {
        listenIP := new Text();
      }
      return listenIP;
    }

    method ClearListenIP()
      requires Valid()
      modifies this`hasBits, Own()
      ensures Valid() && View() == old(View()).(listenIP := None)
      ensures Own() == old(Own()) && forall t :: t in Own() ==> t.chars == []
    {
      hide FieldsOk, FieldsSay, WithoutField;
      StringDropped(hasBits, connectionType, listenIP != empty, listenIP.chars, listenIP != empty, listenPort,
                    maxConnection, udp, unknown);
      if listenIP != empty {
        listenIP.Assign([]);
      }
      hasBits := WithoutField(hasBits, 2);
    }

    /** Deletes the own string, leaving the pointer to be replaced; the shared string is never deleted. */
    method DeleteOwn()
      requires listenIP.live
      modifies Own()`live
      ensures forall t :: t in Own() ==> !t.live
    {
      if listenIP != empty {
        listenIP.Delete();
      }
    }

    method PointTo(text: Text)
      requires FieldsOk(hasBits, connectionType, listenIP != empty, listenIP.chars, listenPort, maxConnection, udp)
      requires live && empty.live && empty.chars == [] && text.live && text != empty
      requires forall i :: 0 <= i < |unknown| ==> ConfigUnknown(unknown[i], RECURSION_LIMIT)
      modifies this`listenIP, this`hasBits
      ensures Valid() && listenIP == text && View() == old(View()).(listenIP := Some(text.chars))
    {
      hide FieldsOk, FieldsSay, WithField;
      StringStored(hasBits, connectionType, listenIP != empty, listenIP.chars, text.chars, listenPort, maxConnection,
                   udp, unknown);
      hasBits := WithField(hasBits, 2);
      listenIP := text;
    }

    method PointToEmpty()
      requires FieldsOk(hasBits, connectionType, listenIP != empty, listenIP.chars, listenPort, maxConnection, udp)
      requires live && empty.live && empty.chars == []
      requires forall i :: 0 <= i < |unknown| ==> ConfigUnknown(unknown[i], RECURSION_LIMIT)
      modifies this`listenIP, this`hasBits
      ensures Valid() && listenIP == empty && View() == old(View()).(listenIP := None)
    {
      hide FieldsOk, FieldsSay, WithoutField;
      StringDropped(hasBits, connectionType, listenIP != empty, listenIP.chars, false, listenPort, maxConnection,
                    udp, unknown);
      hasBits := WithoutField(hasBits, 2);
      listenIP := empty;
    }

    /** The caller gets the own string, if there is one, and the message no longer refers to it. */
    method ReleaseListenIP() returns (text: Text?)
      requires Valid()
      modifies this`listenIP, this`hasBits
      ensures Valid() && View() == old(View()).(listenIP := None) && Own() == {}
      ensures text == if old(listenIP) == empty then null else old(listenIP)
      ensures text != null ==> text.live && text.chars == GetOr(old(View()).listenIP, [])
    {
      StringIsRead();
      hide FieldsOk, FieldsSay;
      var held := listenIP;
      PointToEmpty();
      text := if held == empty then null else held;
    }

    /** The message takes over `text`; the string it had is deleted. */
    method SetAllocatedListenIP(text: Text?)
      requires Valid() && (text != null ==> text.live && text != empty && text !in Own())
      modifies this`listenIP, this`hasBits, Own()`live
      ensures Valid() && Own() == (if text == null then {} else {text})
      ensures View() == old(View()).(listenIP := if text == null then None else Some(text.chars))
      ensures forall t :: t in old(Own()) ==> !t.live
    {
      hide FieldsOk, FieldsSay;
      DeleteOwn();
      if text != null {
        PointTo(text);
      } else {
        PointToEmpty();
      }
    }

    // ---------------------------------------------------------------- whole messages

    method Clear()
      requires Valid()
      modifies this, Own()
      ensures Valid() && View() == NO_CONFIG && Own() == old(Own())
    {
      NoBits(0);
      if hasBits & FIRST_GROUP == 0 {
        NoBits(hasBits);
      } else {
        connectionType := -1;
        if hasBits & Mask(2) != 0 {
          if listenIP != empty {
            listenIP.Assign([]);
          }
        }
        listenPort, maxConnection, udp := 0, 0, true;
      }
      hasBits := 0;
      unknown := [];
    }

    /** Two messages that share nothing but the empty string. */
    ghost predicate Apart(from: ListenConfig)
      reads this, from, listenIP, from.listenIP, empty, from.empty
    {
      Valid() && from.Valid() && from != this && Own() !! from.Own() && from.empty == empty
    }

    method MergeConnectionType(from: ListenConfig)
      requires Apart(from)
      modifies this, Own()
      ensures Apart(from) && from.View() == old(from.View()) && Own() == old(Own())
      ensures View() == var was := old(View());
                        was.(connectionType := Later(was.connectionType, from.View().connectionType))
    {
      hide Has, OnlyKnown;
      if from.HasField(1) { SetConnectionType(from.connectionType); }
    }

    method MergeListenIP(from: ListenConfig)
      requires Apart(from)
      modifies this, Own()
      ensures Apart(from) && from.View() == old(from.View()) && fresh(Own() - old(Own()))
      ensures View() == var was := old(View()); was.(listenIP := Later(was.listenIP, from.View().listenIP))
    {
      hide Has, OnlyKnown;
      if from.HasField(2) { SetListenIP(from.listenIP.chars); }
    }

    method MergeNumbers(from: ListenConfig)
      requires Apart(from)
      modifies this, Own()
      ensures Apart(from) && from.View() == old(from.View()) && Own() == old(Own())
      ensures View() == var was, now := old(View()), from.View();
                        was.(listenPort := Later(was.listenPort, now.listenPort),
                             maxConnection := Later(was.maxConnection, now.maxConnection),
                             udp := Later(was.udp, now.udp))
    {
      hide Has, OnlyKnown;
      if from.HasField(3) { SetListenPort(from.listenPort); }
      if from.HasField(4) { SetMaxConnection(from.maxConnection); }
      if from.HasField(5) { SetUdp(from.udp); }
    }

    method MergeUnknown(from: ListenConfig)
      requires Apart(from)
      modifies this`unknown
      ensures Apart(from) && View() == old(View()).(unknown := old(unknown) + from.View().unknown)
    {
      unknown := unknown + from.unknown;
    }

    lemma NothingPresent()
      requires hasBits & FIRST_GROUP == 0
      ensures View() == NO_CONFIG.(unknown := unknown)
    {
      NoBits(hasBits);
    }

    method MergeFrom(from: ListenConfig)
      requires Apart(from)
      modifies this, Own()
      ensures Apart(from) && View() == MergeConfig(old(View()), from.View())
      ensures from.View() == old(from.View()) && fresh(Own() - old(Own()))
    {
      hide FieldsOk, FieldsSay;
      if from.hasBits & FIRST_GROUP == 0 {
        from.NothingPresent();
      } else {
        MergeConnectionType(from);
        MergeListenIP(from);
        MergeNumbers(from);
      }
      MergeUnknown(from);
    }

    predicate HasField(k: nat)
      requires 1 <= k <= 5
      reads this
    {
      Has(hasBits, k)
    }

    method CopyFrom(from: ListenConfig)
      requires Valid() && (from != this ==> Apart(from))
      modifies this, Own()
      ensures Valid() && (from != this ==> Apart(from))
      ensures View() == old(from.View()) == from.View() && fresh(Own() - old(Own()))
    {
      if from == this {
        return;
      }
      Clear();
      MergeFrom(from);
      MergeConfigAssociative(NO_CONFIG, from.View(), NO_CONFIG);
    }

    /** Exchanges the strings by exchanging the pointers. */
    method Swap(other: ListenConfig)
      requires Valid() && other.Valid() && other.empty == empty
      modifies this, other
      ensures Valid() && other.Valid() && View() == old(other.View()) && other.View() == old(View())
      ensures Own() == old(other.Own()) && other.Own() == old(Own())
      ensures cachedSize == old(other.cachedSize) && other.cachedSize == old(cachedSize)
    {
      hide FieldsOk, FieldsSay, ConfigUnknown;
      if other != this {
        connectionType, other.connectionType := other.connectionType, connectionType;
        listenIP, other.listenIP := other.listenIP, listenIP;
        listenPort, other.listenPort := other.listenPort, listenPort;
        maxConnection, other.maxConnection := other.maxConnection, maxConnection;
        udp, other.udp := other.udp, udp;
        hasBits, other.hasBits := other.hasBits, hasBits;
        unknown, other.unknown := other.unknown, unknown;
        cachedSize, other.cachedSize := other.cachedSize, cachedSize;
      }
    }

    // ---------------------------------------------------------------- the wire form

    lemma ViewIsOk()
      requires Valid()
      ensures TypeOk(View()) && ValidFields(unknown, RECURSION_LIMIT) && View().unknown == unknown
      ensures View().connectionType == Optional(HasField(1), connectionType)
      ensures View().listenIP == Optional(HasField(2), listenIP.chars)
      ensures View().listenPort == Optional(HasField(3), listenPort)
      ensures View().maxConnection == Optional(HasField(4), maxConnection)
      ensures View().udp == Optional(HasField(5), udp) && InInt(connectionType)
      ensures hasBits & FIRST_GROUP == 0 ==> forall k :: 1 <= k <= 5 ==> !HasField(k)
    {
      if hasBits & FIRST_GROUP == 0 { NoBits(hasBits); }
      hide Has, OnlyKnown;
      EachIsValid(unknown, RECURSION_LIMIT);
    }

    method KnownSize() returns (size: int32, exact: bool)
      requires Valid()
      ensures TypeOk(View()) && Counts(size, exact, |FieldsBytes(KnownFields(View()))|)
    {
      hide Valid, View, Counts, FieldsBytes, KnownFields;
      ViewIsOk();
      if hasBits & FIRST_GROUP == 0 {
        NoKnownFields(View());
        return 0, true;
      }
      size, exact := SizeOfKnown(HasField(1), connectionType, HasField(2), listenIP.chars, HasField(3), listenPort,
                                 HasField(4), maxConnection, HasField(5), udp, View());
    }

    /** Caches the size; it is exact, with no sum out of range, exactly when it is below 2^31. */
    method ByteSize() returns (total: int32, exact: bool)
      requires Valid()
      modifies this`cachedSize
      ensures Valid() && View() == old(View()) && cachedSize == total && TypeOk(View())
      ensures exact <==> |ConfigBytes(View())| < TWO_31
      ensures exact ==> total == |ConfigBytes(View())|
    {
      hide FieldsOk, FieldsSay, FieldsBytes, KnownFields;
      ViewIsOk();
      FieldsBytesAppend(KnownFields(View()), unknown);
      total, exact := KnownSize();
      if unknown != [] {
        var size, sizeExact := UnknownFieldsSize(unknown, RECURSION_LIMIT);
        total, exact := AddSize(total, exact, size, sizeExact, |FieldsBytes(KnownFields(View()))|,
                                |FieldsBytes(unknown)|);
      } else {
        NoFields();
      }
      cachedSize := total;
    }

    /** Writes in place from `at`; nothing outside the written range changes. */
    method SerializeWithCachedSizesToArray(a: array<byte>, at: nat) returns (end: nat)
      requires Valid() && TypeOk(View()) && at + |ConfigBytes(View())| <= a.Length
      requires HasField(2) ==> |listenIP.chars| < TWO_31
      modifies a
      ensures end == at + |ConfigBytes(View())| && Wrote(old(a[..]), a[..], at, ConfigBytes(View()))
    {
      hide Valid, View, FieldsBytes, KnownFields, Wrote;
      ghost var before := a[..];
      ViewIsOk();
      FieldsBytesAppend(KnownFields(View()), unknown);
      end := WriteKnownToArray(HasField(1), connectionType, HasField(2), listenIP.chars, HasField(3), listenPort,
                               HasField(4), maxConnection, HasField(5), udp, View(), a, at);
      if unknown != [] {
        ghost var middle := a[..];
        end := WriteUnknownFieldsToArray(unknown, a, end, RECURSION_LIMIT);
        WroteBoth(before, middle, a[..], at, FieldsBytes(KnownFields(View())), FieldsBytes(unknown));
      } else {
        NoFields();
        assert FieldsBytes(KnownFields(View())) + [] == FieldsBytes(KnownFields(View()));
      }
    }

    /** The destructor, and then the message itself. */
    method Destroy()
      requires Valid()
      modifies this`live, Own()`live
      ensures !live && forall t :: t in Own() ==> !t.live
    {
      DeleteOwn();
      live := false;
    }
  }

  lemma NestedIs(c: Config, prefix: nat)
    requires TypeOk(c)
    ensures NestedBytes(c, prefix) == VarintBytes(MakeTag(1, LENGTH_DELIMITED)) + VarintBytes(prefix) + ConfigBytes(c)
    ensures MakeTag(1, LENGTH_DELIMITED) == 10
  {
  }

  /** A nested message behind its tag and its cached size. */
  method WriteNestedToArray(m: ListenConfig, a: array<byte>, at: nat) returns (end: nat)
    requires m.Valid() && TypeOk(m.View()) && m.cachedSize >= 0
    requires m.HasField(2) ==> |m.listenIP.chars| < TWO_31
    requires at + |NestedBytes(m.View(), m.cachedSize)| <= a.Length
    modifies a
    ensures var b := NestedBytes(m.View(), m.cachedSize); end == at + |b| && Wrote(old(a[..]), a[..], at, b)
  {
    NestedIs(m.View(), m.cachedSize);
    hide *;
    ghost var tag, length := VarintBytes(MakeTag(1, LENGTH_DELIMITED)), VarintBytes(m.cachedSize);
    ghost var nested := ConfigBytes(m.View());
    ghost var s0 := a[..];
    end := WriteTagToArray(MakeTag(1, LENGTH_DELIMITED), a, at);
    ghost var s1 := a[..];
    end := WriteVarint32ToArray(m.cachedSize, a, end);
    ghost var s2 := a[..];
    end := m.SerializeWithCachedSizesToArray(a, end);
    WroteBoth(s0, s1, s2, at, tag, length);
    WroteBoth(s0, s2, a[..], at, tag + length, nested);
  }

  // ---------------------------------------------------------------- the nested message

  class ServerActive {
    /** The shared empty string, for the messages it makes. */
    const empty: Text
    /** Its own instance stands for the nested message where there is none. */
    const defaultConfig: ListenConfig
    var remoteServer: ListenConfig?
    var present: bool
    var unknown: seq<UnknownField>
    var cachedSize: int32

    ghost function Own(): set<object>
      reads this, remoteServer
    {
      if remoteServer == null then {} else {remoteServer} + remoteServer.Own()
    }

    /** Present implies not null; not present implies null or default content. */
    ghost predicate Valid()
      reads this, remoteServer, if remoteServer == null then {} else {remoteServer.listenIP, remoteServer.empty}
    {
      && (remoteServer != null ==> remoteServer.Valid() && remoteServer.empty == empty && remoteServer != defaultConfig)
      && (present ==> remoteServer != null)
      && (forall i :: 0 <= i < |unknown| ==> ActiveUnknown(unknown[i]))
      && (!present && remoteServer != null ==> remoteServer.View() == NO_CONFIG)
    }

    ghost function View(): Active
      reads this, remoteServer, if remoteServer == null then {} else {remoteServer.listenIP}
    {
      Active(if present && remoteServer != null then Some(remoteServer.View()) else None, unknown)
    }

    constructor (empty: Text, defaultConfig: ListenConfig)
      ensures Valid() && View() == Active(None, []) && Own() == {}
      ensures this.empty == empty && this.defaultConfig == defaultConfig
    {
      this.empty, this.defaultConfig := empty, defaultConfig;
      remoteServer, present, unknown, cachedSize := null, false, [], 0;
    }

    /** The nested message, or the default instance. */
    method RemoteServer() returns (m: ListenConfig)
      requires Valid() && defaultConfig.View() == NO_CONFIG
      ensures m.View() == GetOr(View().remote, NO_CONFIG)
    {
      m := if remoteServer != null then remoteServer else defaultConfig;
    }

    method MutableRemoteServer() returns (m: ListenConfig)
      requires Valid() && empty.live && empty.chars == []
      modifies this`remoteServer, this`present
      ensures Valid() && m == remoteServer && fresh(Own() - old(Own()))
      ensures View() == old(View()).(remote := Some(GetOr(old(View()).remote, NO_CONFIG)))
    {
      present := true;
      if remoteServer == null {
        remoteServer := new ListenConfig(empty);
      }
      m := remoteServer;
    }

    method ClearRemoteServer()
      requires Valid()
      modifies this`present, Own()
      ensures Valid() && View() == old(View()).(remote := None) && Own() == old(Own())
    {
      if remoteServer != null {
        remoteServer.Clear();
      }
      present := false;
    }

    /** The caller gets the pointer; a message that was cleared but not released comes out with default content. */
    method ReleaseRemoteServer() returns (m: ListenConfig?)
      requires Valid()
      modifies this`remoteServer, this`present
      ensures Valid() && View() == old(View()).(remote := None) && Own() == {} && m == old(remoteServer)
      ensures m == null ==> old(View()).remote == None
      ensures m != null ==> m.Valid() && m.View() == GetOr(old(View()).remote, NO_CONFIG)
    {
      present := false;
      m := remoteServer;
      remoteServer := null;
    }

    /** The message takes over `m`; the one it had is deleted, with its string. */
    method SetAllocatedRemoteServer(m: ListenConfig?)
      requires Valid()
      requires m != null ==> m.Valid() && m.empty == empty && m != defaultConfig && {m} + m.Own() !! Own()
      modifies this`remoteServer, this`present, Own()
      ensures Valid() && remoteServer == m
      ensures View() == old(View()).(remote := if m == null then None else Some(old(m.View())))
      ensures old(remoteServer) != null ==>
                !old(remoteServer).live && forall t :: t in old(remoteServer.Own()) ==> !t.live
    {
      if remoteServer != null {
        remoteServer.Destroy();
      }
      remoteServer := m;
      present := m != null;
    }

    method Clear()
      requires Valid()
      modifies this`present, this`unknown, Own()
      ensures Valid() && View() == Active(None, []) && Own() == old(Own())
    {
      if present {
        if remoteServer != null {
          remoteServer.Clear();
        }
      }
      present := false;
      unknown := [];
    }

    /** Two messages that share nothing but the empty string. */
    ghost predicate Apart(from: ServerActive)
      reads this, from, remoteServer, from.remoteServer
      reads if remoteServer == null then {} else {remoteServer.listenIP, remoteServer.empty}
      reads if from.remoteServer == null then {} else {from.remoteServer.listenIP, from.remoteServer.empty}
    {
      Valid() && from.Valid() && from != this && Own() !! from.Own() && from.empty == empty
    }

    /** The nested message is merged into the nested message, which is made first if there is none. */
    method MergeRemoteServer(from: ServerActive)
      requires Apart(from) && from.present
      modifies this`remoteServer, this`present, Own()
      ensures Apart(from) && from.View() == old(from.View()) && fresh(Own() - old(Own()))
      ensures View() == MergeActive(old(View()), from.View().(unknown := []))
    {
      hide FieldsOk, FieldsSay, ConfigUnknown, ActiveUnknown, MergeConfig;
      MergeConfigAssociative(from.remoteServer.View(), NO_CONFIG, NO_CONFIG);
      assert unknown + [] == unknown;
      var target := MutableRemoteServer();
      target.MergeFrom(from.remoteServer);
    }

    method MergeFrom(from: ServerActive)
      requires Apart(from)
      modifies this`remoteServer, this`present, this`unknown, Own()
      ensures Apart(from) && from.View() == old(from.View()) && fresh(Own() - old(Own()))
      ensures View() == MergeActive(old(View()), from.View())
    {
      hide FieldsOk, FieldsSay, ConfigUnknown, ActiveUnknown, MergeConfig;
      assert unknown + [] == unknown;
      if from.present {
        MergeRemoteServer(from);
      }
      unknown := unknown + from.unknown;
    }

    method CopyFrom(from: ServerActive)
      requires Valid() && (from != this ==> Apart(from))
      modifies this`remoteServer, this`present, this`unknown, Own()
      ensures Valid() && (from != this ==> Apart(from)) && fresh(Own() - old(Own()))
      ensures View() == old(from.View()) == from.View()
    {
      if from == this {
        return;
      }
      hide FieldsOk, FieldsSay, ConfigUnknown, ActiveUnknown, MergeConfig, MergeActive;
      Clear();
      MergeFrom(from);
      MergeActiveAssociative(from.View(), NO_ACTIVE, NO_ACTIVE);
    }

    // ---------------------------------------------------------------- the wire form

    ghost function Nested(): set<ListenConfig>
      reads this
    {
      if remoteServer == null then {} else {remoteServer}
    }

    lemma ViewIsOk()
      requires Valid()
      ensures View().remote.Some? <==> present
      ensures present ==> View().remote == Some(remoteServer.View()) && TypeOk(remoteServer.View())
      ensures ValidFields(unknown, RECURSION_LIMIT) && View().unknown == unknown
    {
      EachIsValid(unknown, RECURSION_LIMIT);
      if present { remoteServer.ViewIsOk(); }
    }

    /** Computes and caches the size of the nested message and then its own; exact, with no sum out of range, exactly
        when it is below 2^31. */
    method ByteSize() returns (total: int32, exact: bool)
      requires Valid()
      modifies this`cachedSize, Nested()`cachedSize
      ensures Valid() && View() == old(View()) && cachedSize == total && (present ==> TypeOk(remoteServer.View()))
      ensures exact <==> |ActiveBytes(View())| < TWO_31
      ensures exact ==> total == |ActiveBytes(View())|
      ensures exact && present ==> remoteServer.cachedSize == NestedSize(View())
    {
      hide FieldsOk, FieldsSay, ConfigUnknown, ActiveUnknown;
      hide ConfigBytes, NestedBytes, FieldsBytes, VarintBytes, Counts;
      ViewIsOk();
      total, exact := 0, true;
      ghost var nestedPart: nat := 0;
      if present {
        var length, nestedExact := remoteServer.ByteSize();
        total, exact := PrefixedSize(length, nestedExact, |ConfigBytes(remoteServer.View())|);
        nestedPart := 1 + |VarintBytes(|ConfigBytes(remoteServer.View())|)| + |ConfigBytes(remoteServer.View())|;
      }
      PartsOfActive(View());
      if unknown != [] {
        var size, sizeExact := UnknownFieldsSize(unknown, RECURSION_LIMIT);
        total, exact := AddSize(total, exact, size, sizeExact, nestedPart, |FieldsBytes(unknown)|);
      } else {
        NoFields();
      }
      cachedSize := total;
    }

    /** Writes in place from `at`, with the cached size of the nested message as its length prefix, right or wrong. */
    method SerializeWithCachedSizesToArray(a: array<byte>, at: nat) returns (end: nat)
      requires Valid() && (present ==> TypeOk(remoteServer.View()) && remoteServer.cachedSize >= 0)
      requires present && remoteServer.HasField(2) ==> |remoteServer.listenIP.chars| < TWO_31
      requires at + |ActiveBytesWith(View(), if present then remoteServer.cachedSize else 0)| <= a.Length
      modifies a
      ensures var b := ActiveBytesWith(View(), if present then remoteServer.cachedSize else 0);
              end == at + |b| && Wrote(old(a[..]), a[..], at, b)
    {
      hide NestedBytes, FieldsBytes, Wrote;
      ViewIsOk();
      end := at;
      ghost var before := a[..];
      if present {
        end := WriteNestedToArray(remoteServer, a, at);
        ghost var middle := a[..];
        end := WriteUnknownFieldsToArray(unknown, a, end, RECURSION_LIMIT);
        WroteBoth(before, middle, a[..], at, NestedBytes(remoteServer.View(), remoteServer.cachedSize),
                  FieldsBytes(unknown));
      } else {
        assert [] + FieldsBytes(unknown) == FieldsBytes(unknown);
        end := WriteUnknownFieldsToArray(unknown, a, at, RECURSION_LIMIT);
      }
    }

    lemma TextIsShort()
      requires Valid() && (present ==> TypeOk(remoteServer.View())) && |ActiveBytes(View())| < TWO_31
      ensures present && remoteServer.HasField(2) ==> |remoteServer.listenIP.chars| < TWO_31
    {
      if present {
        remoteServer.ViewIsOk();
        TextFits(remoteServer.View());
      }
    }

    /** A buffer of the computed size is filled to its last byte; `None` where the size does not fit an `int`. */
    method Serialized() returns (text: Option<seq<byte>>)
      requires Valid()
      modifies this`cachedSize, Nested()`cachedSize
      ensures Valid() && View() == old(View()) && (present ==> TypeOk(remoteServer.View()))
      ensures text == if |ActiveBytes(View())| < TWO_31 then Some(ActiveBytes(View())) else None
    {
      hide FieldsOk, FieldsSay, ConfigUnknown, ActiveUnknown, ConfigBytes, NestedBytes, FieldsBytes, Wrote;
      var size, exact := ByteSize();
      if !exact {
        return None;
      }
      TextIsShort();
      var data := new byte[size](_ => 0);
      ghost var before := data[..];
      var end := SerializeWithCachedSizesToArray(data, 0);
      WroteAll(before, data[..], ActiveBytes(View()));
      text := Some(data[..]);
    }
  }
}
