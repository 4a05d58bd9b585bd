/**
 * Byte images of single fields. Field.serialize and Type.parse are not part of
 * this model; this stand-in fixes the properties the page codecs rely on: every
 * field of a type occupies TypeLen bytes, and parsing a serialized well-formed
 * field gives it back. INT is a big-endian int; STRING is its length as an int,
 * then one byte per character, then zeros up to STRING_LEN.
 */
module FieldCodec {
  import opened Wrappers
  import opened JavaInts
  import opened Bits
  import opened ByteCodec
  import opened Schema
  import opened Records

  function CharByte(c: char): (b: byte)
    ensures c as int < 256 ==> b as int == c as int
  {
    ((c as int) % 256) as byte
  }

  function ByteChar(b: byte): (c: char)
    ensures c as int == b as int && c as int < 256
  {
    (b as int) as char
  }


  /** A field parsing can reproduce: strings of at most STRING_LEN one-byte characters. */
  predicate WellFormed(f: Field)
  {
    f.StringField? ==> |f.stringValue| <= STRING_LEN && forall i :: 0 <= i < |f.stringValue| ==> f.stringValue[i] as int < 256
  }

  function StringBytes(s: string): (r: seq<byte>)
    ensures |r| == |s|
  {
    seq(|s|, i requires 0 <= i < |s| => CharByte(s[i]))
  }

  function SerializeField(f: Field): (r: seq<byte>)
    ensures |r| == TypeLen(FieldType(f))
  {
    match f
    case IntField(v) => EncodeInt(v)
    case StringField(s) =>
      var t := s[..Min(|s|, STRING_LEN)];
      EncodeInt(|t| as int32) + StringBytes(t) + Zeros(STRING_LEN - |t|)
  }

  /** The field of type t at `pos`, or None where Type.parse would fail (too few bytes, a bad length). */
  function ParseField(t: Type, data: seq<byte>, pos: nat): (r: Option<Field>)
    ensures r.Some? ==> pos + TypeLen(t) <= |data| && FieldType(r.value) == t && WellFormed(r.value)
  {
    if pos + TypeLen(t) > |data| then None
    else match t
      case IntType => Some(IntField(DecodeInt(data, pos)))
      case StringType =>
        var len := DecodeInt(data, pos) as int;
        if len < 0 || len > STRING_LEN then None
        else
          var s := seq(len, i requires 0 <= i < len => ByteChar(data[pos + 4 + i]));
          assert forall i :: 0 <= i < len ==> s[i] == ByteChar(data[pos + 4 + i]);
          Some(StringField(s))
  }

  /** Parsing a serialized well-formed field, wherever it sits, gives the field back. */
  lemma {:induction false} ParseSerialize(f: Field, pre: seq<byte>, post: seq<byte>)
    requires WellFormed(f)
    ensures ParseField(FieldType(f), pre + SerializeField(f) + post, |pre|) == Some(f)
  {
    var data := pre + SerializeField(f) + post;
    match f
    case IntField(v) =>
      IntRoundTrip(v, pre, post);
    case StringField(s) =>
      ParseSerializeString(s, pre, post);
  }

  lemma {:induction false} ParseSerializeString(s: string, pre: seq<byte>, post: seq<byte>)
    requires WellFormed(StringField(s))
    ensures ParseField(StringType, pre + SerializeField(StringField(s)) + post, |pre|) == Some(StringField(s))
  {
    var data := pre + SerializeField(StringField(s)) + post;
    assert s[..Min(|s|, STRING_LEN)] == s;
    var bytes := StringBytes(s);
    var tail := bytes + Zeros(STRING_LEN - |s|) + post;
    assert data == pre + EncodeInt(|s| as int32) + tail;
    IntRoundTrip(|s| as int32, pre, tail);
    var start := |pre| + 4;
    assert forall i :: 0 <= i < |s| ==> data[start + i] == bytes[i];
    var parsed := seq(|s|, i requires 0 <= i < |s| => ByteChar(data[start + i]));
    assert forall i :: 0 <= i < |s| ==> parsed[i] == ByteChar(bytes[i]) == s[i];
    assert parsed == s;
  }

  /** Type.parse reads only the TypeLen bytes at pos. */
  lemma {:induction false} ParseFieldLocal(t: Type, data: seq<byte>, pos: nat)
    requires pos + TypeLen(t) <= |data|
    ensures ParseField(t, data, pos) == ParseField(t, data[pos..pos + TypeLen(t)], 0)
  {
    var w := data[pos..pos + TypeLen(t)];
    assert w[0..4] == data[pos..pos + 4];
    assert DecodeInt(w, 0) == DecodeInt(data, pos);
    if t == StringType {
      var len := DecodeInt(data, pos) as int;
      if 0 <= len <= STRING_LEN {
        var a := seq(len, i requires 0 <= i < len => ByteChar(data[pos + 4 + i]));
        var b := seq(len, i requires 0 <= i < len => ByteChar(w[4 + i]));
        assert forall i :: 0 <= i < len ==> a[i] == b[i];
        assert a == b;
      }
    }
  }

  /** A well-formed field's bytes, found at pos, parse back to the field. */
  lemma {:induction false} ParseSerialized(t: Type, f: Field, bytes: seq<byte>, data: seq<byte>, pos: nat)
    requires WellFormed(f) && t == FieldType(f) && bytes == SerializeField(f)
    requires pos + |bytes| <= |data| && data[pos..pos + |bytes|] == bytes
    ensures ParseField(t, data, pos) == Some(f)
  {
    ParseFieldLocal(FieldType(f), data, pos);
    ParseSerialize(f, [], []);
    assert [] + SerializeField(f) + [] == SerializeField(f);
  }
}
