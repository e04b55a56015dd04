/**
 * The decision `MainForm.ParseOscMessage` makes for one datagram: read the
 * address and the type tag as OSC-strings and fire only when they are exactly
 * `/avatar/parameters/ton_suicide` and `,T`.  Every exception the readers raise
 * is caught, so the decision is total.  Strings are compared as bytes against
 * the ASCII bytes of the two literals.
 */
module Trigger {
  import opened Wrappers
  import opened OscDecode

  datatype Decision =
    | Fire          // address and type tag match: the drag is attempted
    | NoTrigger     // both strings decoded, but they are not the trigger
    | DecodeFailed  // a reader threw; the exception is logged and swallowed

  function AsciiByte(c: char): byte
    requires c < 128 as char
  {
    c as int
  }

  /** The bytes of an ASCII string. */
  function Ascii(s: string): (r: seq<byte>)
    requires forall i :: 0 <= i < |s| ==> s[i] < 128 as char
    ensures |r| == |s|
    ensures forall i :: 0 <= i < |s| ==> r[i] == s[i] as int
  {
    seq(|s|, i requires 0 <= i < |s| => AsciiByte(s[i]))
  }

  const TriggerAddress: seq<byte> := Ascii("/avatar/parameters/ton_suicide")
  const TriggerTypeTag: seq<byte> := Ascii(",T")

  /** The decision for datagram `s`, in terms of the OSC-string reader's specification. */
  function Decide(s: seq<byte>): (d: Decision)
    ensures d == Fire ==>
      && |s| >= 35
      && s[..30] == TriggerAddress && s[30] == 0
      && s[32..34] == TriggerTypeTag && s[34] == 0
  {
    TriggerLiterals();
    match OscStringAt(s, 0)
    case Err(_) => DecodeFailed
    case Ok(address) =>
      match OscStringAt(s, address.next)
      case Err(_) => DecodeFailed
      case Ok(typeTag) =>
        if address.value == TriggerAddress && typeTag.value == TriggerTypeTag then Fire
        else NoTrigger
  }

  /** `MainForm.ParseOscMessage` with the logging and the drag left out. */
  method ParseOscMessage(data: array<byte>) returns (d: Decision)
    requires data.Length <= MaxArrayLength
    ensures d == Decide(data[..])
  {
    var index := 0;
    var address := ReadOscString(data, index);
    if address.Err? {
      return DecodeFailed;
    }
    index := address.value.next;
    var typeTag := ReadOscString(data, index);
    if typeTag.Err? {
      return DecodeFailed;
    }
    if address.value.value == TriggerAddress && typeTag.value.value == TriggerTypeTag {
      d := Fire;
    } else {
      d := NoTrigger;
    }
  }

  /** Two encoded strings in a row, followed by anything, read back one after the other. */
  lemma ReadTwoEncoded(address: seq<byte>, typeTag: seq<byte>, rest: seq<byte>)
    requires 0 !in address && 0 !in typeTag
    ensures var a := EncodeOscString(address);
      var s := a + EncodeOscString(typeTag) + rest;
      && OscStringAt(s, 0) == Ok(Read(address, |a|))
      && OscStringAt(s, |a|) == Ok(Read(typeTag, |s| - |rest|))
  {
    var a := EncodeOscString(address);
    var t := EncodeOscString(typeTag);
    assert [] + a + (t + rest) == a + t + rest;
    ReadEncodedString([], address, t + rest);
    ReadEncodedString(a, typeTag, rest);
  }

  /**
   * A message built from an encoded address and an encoded type tag, followed
   * by anything, fires exactly when the address and the type tag are the
   * trigger's; the bytes after the type tag are never looked at.
   */
  lemma DecideEncoded(address: seq<byte>, typeTag: seq<byte>, rest: seq<byte>)
    requires 0 !in address && 0 !in typeTag
    ensures Decide(EncodeOscString(address) + EncodeOscString(typeTag) + rest)
         == if address == TriggerAddress && typeTag == TriggerTypeTag then Fire else NoTrigger
  {
    ReadTwoEncoded(address, typeTag, rest);
  }

  /** The 36-byte trigger packet of the OSC encoding. */
  function TriggerPacket(): (p: seq<byte>)
    ensures |p| == 36
  {
    EncodeOscString(TriggerAddress) + EncodeOscString(TriggerTypeTag)
  }

  /**
   * Exactly which datagrams fire: the 30 address bytes and their NUL at
   * offset 0, and `,T` and its NUL at offset 32.  Byte 31 (the address's
   * padding) and everything from byte 35 on are never examined.
   */
  lemma FiresIff(s: seq<byte>)
    ensures Decide(s) == Fire <==>
      && |s| >= 35
      && s[..30] == TriggerAddress && s[30] == 0
      && s[32..34] == TriggerTypeTag && s[34] == 0
  {
    TriggerLiterals();
    if |s| >= 35 && s[..30] == TriggerAddress && s[30] == 0 && s[32..34] == TriggerTypeTag && s[34] == 0 {
      forall k | 0 <= k < 30
        ensures s[k] != 0
      {
        assert s[k] == s[..30][k] == TriggerAddress[k];
      }
      FirstZeroAt(s, 0, 30);
      assert OscStringAt(s, 0) == Ok(Read(TriggerAddress, 32));
      forall k | 32 <= k < 34
        ensures s[k] != 0
      {
        assert s[k] == s[32..34][k - 32] == TriggerTypeTag[k - 32];
      }
      FirstZeroAt(s, 32, 34);
      assert OscStringAt(s, 32) == Ok(Read(TriggerTypeTag, 36));
    }
  }

  /**
   * A datagram with no zero byte from offset 4 on never decodes: the address
   * needs a terminator, and the type tag one at or beyond the next boundary.
   */
  lemma TruncatedFails(s: seq<byte>)
    requires forall k :: 4 <= k < |s| ==> s[k] != 0
    ensures Decide(s) == DecodeFailed
  {
    var a := OscStringAt(s, 0);
    if a.Ok? {
      assert a.value.next >= 4;
      var t := OscStringAt(s, a.value.next);
      assert t.Err?;
    }
  }

  /** The padded 36-byte trigger packet fires. */
  lemma TriggerPacketFires()
    ensures Decide(TriggerPacket()) == Fire
  {
    TriggerLiterals();
    DecideEncoded(TriggerAddress, TriggerTypeTag, []);
    assert TriggerPacket() + [] == TriggerPacket();
  }

  /** The two literals are NUL-free; the address has 30 bytes and the tag 2. */
  lemma TriggerLiterals()
    ensures |TriggerAddress| == 30 && 0 !in TriggerAddress
    ensures |TriggerTypeTag| == 2 && 0 !in TriggerTypeTag
  {
  }

  /** A message whose address is the trigger's and whose tag is not, fires not. */
  lemma OtherTagDoesNotFire(typeTag: seq<byte>)
    requires 0 !in typeTag && typeTag != TriggerTypeTag
    ensures Decide(EncodeOscString(TriggerAddress) + EncodeOscString(typeTag)) == NoTrigger
  {
    TriggerLiterals();
    DecideEncoded(TriggerAddress, typeTag, []);
    var m := EncodeOscString(TriggerAddress) + EncodeOscString(typeTag);
    assert m + [] == m;
  }

  /** A message whose tag is the trigger's and whose address is not, fires not. */
  lemma OtherAddressDoesNotFire(address: seq<byte>)
    requires 0 !in address && address != TriggerAddress
    ensures Decide(EncodeOscString(address) + EncodeOscString(TriggerTypeTag)) == NoTrigger
  {
    TriggerLiterals();
    DecideEncoded(address, TriggerTypeTag, []);
    var m := EncodeOscString(address) + EncodeOscString(TriggerTypeTag);
    assert m + [] == m;
  }

  /** The false tag does not fire. */
  lemma FalseTagDoesNotFire()
    ensures Decide(EncodeOscString(TriggerAddress) + EncodeOscString(Ascii(",F"))) == NoTrigger
  {
    var f := Ascii(",F");
    assert f[1] != TriggerTypeTag[1];
    OtherTagDoesNotFire(f);
  }

  /** A second tag after `T` does not fire. */
  lemma ExtraTagDoesNotFire()
    ensures Decide(EncodeOscString(TriggerAddress) + EncodeOscString(Ascii(",TF"))) == NoTrigger
  {
    var tf := Ascii(",TF");
    assert |tf| != |TriggerTypeTag|;
    OtherTagDoesNotFire(tf);
  }

  /** An address with a trailing slash does not fire. */
  lemma TrailingSlashDoesNotFire()
    ensures Decide(EncodeOscString(Ascii("/avatar/parameters/ton_suicide/")) + EncodeOscString(TriggerTypeTag)) == NoTrigger
  {
    var slash := Ascii("/avatar/parameters/ton_suicide/");
    assert |slash| != |TriggerAddress|;
    OtherAddressDoesNotFire(slash);
  }

  /** An address that differs only in case does not fire. */
  lemma OtherCaseDoesNotFire()
    ensures Decide(EncodeOscString(Ascii("/Avatar/parameters/ton_suicide")) + EncodeOscString(TriggerTypeTag)) == NoTrigger
  {
    var upper := Ascii("/Avatar/parameters/ton_suicide");
    assert upper[1] != TriggerAddress[1];
    OtherAddressDoesNotFire(upper);
  }
}
