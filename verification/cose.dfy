/**
 Extraction of the payload of a COSE_Sign1 envelope (RFC 9052, section 4.2)
 with the minimal CBOR reader.
 */
module Cose {
  import opened Bytes
  import opened Cbor

  datatype CoseError =
    | TooShort
    | NotTag18(found: byte)
    | NotArray4(found: byte)
    | BadItem(error: Error)

  const COSE_SIGN1_TAG_BYTE: byte := 0xd2
  const COSE_SIGN1_ARRAY_BYTE: byte := 0x84
  const COSE_SIGN1_MIN_SIZE := 4

  /** `read_cbor_bstr`: the content of a byte or text string, and where it ends. */
  function ReadString(data: bytes, pos: nat): (r: Result<(bytes, nat), Error>)
  {
    var h :- ReadHead(data, pos);
    if h.major != 2 && h.major != 3 then Err(NotAString(h.major))
    else if h.next + h.arg > USIZE_MAX then Err(LengthOverflow)
    else if h.next + h.arg > |data| then Err(TruncatedString)
    else Ok((data[h.next..h.next + h.arg], h.next + h.arg))
  }

  function MapError<T>(r: Result<T, Error>): Result<T, CoseError> {
    match r
    case Ok(v) => Ok(v)
    case Err(e) => Err(BadItem(e))
  }

  /** The payload, and where it ends in the envelope. */
  function ReadPayload(data: bytes): Result<(bytes, nat), CoseError> {
    if |data| < COSE_SIGN1_MIN_SIZE then Err(TooShort)
    else if data[0] != COSE_SIGN1_TAG_BYTE then Err(NotTag18(data[0]))
    else if data[1] != COSE_SIGN1_ARRAY_BYTE then Err(NotArray4(data[1]))
    else
      var p :- MapError(Skip(data, 2));
      var q :- MapError(Skip(data, p));
      MapError(ReadString(data, q))
  }

  /** `parse_cose_sign1_payload` */
  method ParseCoseSign1Payload(data: bytes) returns (r: Result<bytes, CoseError>)
    ensures r == match ReadPayload(data)
                 case Ok(v) => Ok(v.0)
                 case Err(e) => Err(e)
  {
    if |data| < COSE_SIGN1_MIN_SIZE {
      return Err(TooShort);
    }
    if data[0] != COSE_SIGN1_TAG_BYTE {
      return Err(NotTag18(data[0]));
    }
    if data[1] != COSE_SIGN1_ARRAY_BYTE {
      return Err(NotArray4(data[1]));
    }
    var pos := 2;
    var protected, _ := SkipCborItem(data, pos);
    pos :- MapError(protected);
    var unprotected, _ := SkipCborItem(data, pos);
    pos :- MapError(unprotected);
    var payload :- MapError(ReadString(data, pos));
    return Ok(payload.0);
  }

  // ---------------------------------------------------------------- exactness

  /**
   The part of an envelope up to and including its payload: tag 18, an array of four, three items; the signature
   follows.
   */
  datatype Envelope = Envelope(protected: Item, unprotected: Item, major: nat, width: Width, payload: bytes) {
    predicate Valid() {
      Cbor.Valid(protected) && Cbor.Valid(unprotected) && major in {2, 3} && Fits(width, |payload|)
    }

    function Encode(): bytes
      requires Valid()
    {
      [0xD2, 0x84] +
      (Cbor.Encode(protected) + (Cbor.Encode(unprotected) + Cbor.Encode(Text(major, width, payload))))
    }
  }

  lemma EnvelopeParts(data: bytes, e: Envelope)
    requires e.Valid()
    ensures var p := 2 + |Cbor.Encode(e.protected)|;
            var q := p + |Cbor.Encode(e.unprotected)|;
            At(data, 0, e.Encode()) <==>
              At(data, 0, [0xD2, 0x84]) &&
              At(data, 2, Cbor.Encode(e.protected)) && At(data, p, Cbor.Encode(e.unprotected)) &&
              At(data, q, Cbor.Encode(Text(e.major, e.width, e.payload)))
  {
    hide Cbor.Encode;
    var a, b := Cbor.Encode(e.protected), Cbor.Encode(e.unprotected);
    var c := Cbor.Encode(Text(e.major, e.width, e.payload));
    AtConcat(data, 0, [0xD2, 0x84], a + (b + c));
    AtConcat(data, 2, a, b + c);
    AtConcat(data, 2 + |a|, b, c);
  }

  lemma {:induction false} ReadStringComplete(data: bytes, pos: nat, m: nat, w: Width, content: bytes)
    requires |data| <= ISIZE_MAX
    requires m in {2, 3} && Fits(w, |content|) && At(data, pos, Cbor.Encode(Text(m, w, content)))
    ensures ReadString(data, pos) == Ok((content, pos + |Cbor.Encode(Text(m, w, content))|))
  {
    hide ReadHead, EncodeHead;
    HeadAndBodyAt(data, pos, Text(m, w, content));
    ReadHeadComplete(data, pos, m, w, |content|);
  }

  lemma ReadStringSound(data: bytes, pos: nat) returns (m: nat, w: Width)
    requires ReadString(data, pos).Ok?
    ensures m in {2, 3} && Fits(w, |ReadString(data, pos).value.0|)
    ensures At(data, pos, Cbor.Encode(Text(m, w, ReadString(data, pos).value.0)))
  {
    hide ReadHead, EncodeHead;
    var h := ReadHead(data, pos).value;
    var content := ReadString(data, pos).value.0;
    ReadHeadSound(data, pos);
    m, w := h.major, WidthAt(data, pos);
    AtConcat(data, pos, EncodeHead(m, w, |content|), content);
  }

  lemma EnvelopeIsRead(data: bytes, e: Envelope)
    requires |data| <= ISIZE_MAX
    requires e.Valid() && At(data, 0, e.Encode())
    ensures ReadPayload(data) == Ok((e.payload, |e.Encode()|))
  {
    hide Skip, Cbor.Encode, ReadString;
    EnvelopeParts(data, e);
    AtIndex(data, 0, [0xD2, 0x84], 0);
    AtIndex(data, 0, [0xD2, 0x84], 1);
    var p := 2 + |Cbor.Encode(e.protected)|;
    var q := p + |Cbor.Encode(e.unprotected)|;
    SkipComplete(data, 2, e.protected);
    SkipComplete(data, p, e.unprotected);
    ReadStringComplete(data, q, e.major, e.width, e.payload);
  }

  ghost predicate Carries(data: bytes, e: Envelope, payload: bytes) {
    e.Valid() && e.payload == payload && At(data, 0, e.Encode())
  }

  lemma ReadPayloadSound(data: bytes) returns (e: Envelope)
    requires ReadPayload(data).Ok?
    ensures Carries(data, e, ReadPayload(data).value.0)
  {
    hide Skip, Cbor.Encode, Cbor.Valid, ReadString;
    assert data[0..2] == [0xD2, 0x84];
    var a := SkipSound(data, 2);
    var p := Skip(data, 2).value;
    var b := SkipSound(data, p);
    var q := Skip(data, p).value;
    var m, w := ReadStringSound(data, q);
    e := Envelope(a, b, m, w, ReadPayload(data).value.0);
    EnvelopeParts(data, e);
  }

  /**
   The parser answers a payload exactly when the data begin with tag 18, an array of four, any two
   definite-length items, and that payload as a string of any head width; what follows is not looked at.
   */
  lemma PayloadIsExact(data: bytes, payload: bytes)
    requires |data| <= ISIZE_MAX
    ensures (ReadPayload(data).Ok? && ReadPayload(data).value.0 == payload) <==>
            exists e :: Carries(data, e, payload)
  {
    hide ReadPayload, Envelope.Encode;
    if ReadPayload(data).Ok? && ReadPayload(data).value.0 == payload {
      var e := ReadPayloadSound(data);
    }
    if e :| Carries(data, e, payload) {
      EnvelopeIsRead(data, e);
    }
  }

  /** Replacing everything after the payload by any other bytes leaves the answer as it is. */
  lemma TailIsIgnored(data: bytes, tail: bytes)
    requires |data| <= ISIZE_MAX && ReadPayload(data).Ok?
    requires ReadPayload(data).value.1 + |tail| <= ISIZE_MAX
    ensures ReadPayload(data).value.1 <= |data|
    ensures ReadPayload(data[..ReadPayload(data).value.1] + tail) == ReadPayload(data)
  {
    hide ReadPayload, Envelope.Encode;
    var e := ReadPayloadSound(data);
    EnvelopeIsRead(data, e);
    var end := ReadPayload(data).value.1;
    var other := data[..end] + tail;
    assert other[0..end] == data[0..end];
    EnvelopeIsRead(other, e);
  }

  /** Where the third element is no string, as the null of a detached payload, the envelope is refused. */
  lemma {:induction false} DetachedPayloadIsRefused(data: bytes, protected: Item, unprotected: Item, m: nat,
                                                    w: Width, arg: nat)
    requires |data| <= ISIZE_MAX
    requires Cbor.Valid(protected) && Cbor.Valid(unprotected) && m < 8 && m !in {2, 3} && Fits(w, arg)
    requires At(data, 0, [0xD2, 0x84])
    requires At(data, 2, Cbor.Encode(protected))
    requires At(data, 2 + |Cbor.Encode(protected)|, Cbor.Encode(unprotected))
    requires At(data, 2 + |Cbor.Encode(protected)| + |Cbor.Encode(unprotected)|, EncodeHead(m, w, arg))
    ensures ReadPayload(data) == Err(BadItem(NotAString(m)))
  {
    hide Skip, Cbor.Encode, Cbor.Valid, EncodeHead;
    AtIndex(data, 0, [0xD2, 0x84], 0);
    AtIndex(data, 0, [0xD2, 0x84], 1);
    var p := 2 + |Cbor.Encode(protected)|;
    SkipComplete(data, 2, protected);
    SkipComplete(data, p, unprotected);
    ReadHeadComplete(data, p + |Cbor.Encode(unprotected)|, m, w, arg);
  }
}
