/** The mechToken of an SPNEGO NegTokenInit (`src/auth/gssapi.rs`; section 4.2.1 of RFC 4178). */
module Spnego {
  import opened Prelude
  import opened Der

  const NEG_TOKEN_INIT: byte := 0xa0
  const SEQUENCE: byte := 0x30
  const OCTET_STRING: byte := 0x04
  const MECH_TOKEN: byte := 0xa2

  function OctetString(head: Reader, b: Bytes): Option<Bytes> {
    match head(b)
    case Some(t) => if t.tag == OCTET_STRING then Some(t.value) else None
    case None => None
  }

  /** Walk the fields in `rest` that start within its first `left` bytes, looking for [2]. */
  function WalkFields(head: Reader, rest: Bytes, left: int): Option<Bytes>
    decreases |rest|
  {
    if left <= 0 then None
    else match head(rest)
      case None => None
      case Some(t) =>
        if t.tag == MECH_TOKEN then OctetString(head, t.value)
        else if |Octets(t)| > |rest| then None
        else WalkFields(head, rest[|Octets(t)|..], left - |Octets(t)|)
  }

  function MechTokenBy(head: Reader, inner: Bytes): Option<Bytes> {
    match head(inner)
    case None => None
    case Some(outer) =>
      if outer.tag != NEG_TOKEN_INIT then None
      else match head(outer.value)
        case None => None
        case Some(sq) =>
          if sq.tag != SEQUENCE || |Header(sq)| > |outer.value| then None
          else WalkFields(head, outer.value[|Header(sq)|..], |sq.value|)
  }

  function MechToken(inner: Bytes): Option<Bytes> {
    MechTokenBy(Head, inner)
  }

  method ExtractSpnegoMechToken(inner: Bytes) returns (token: Option<Bytes>)
    ensures token == MechToken(inner)
  {
    HeadIsExact();
    token := Extract(Head, inner);
  }

  method Extract(ghost head: Reader, inner: Bytes) returns (token: Option<Bytes>)
    requires IsReader(head)
    ensures token == MechTokenBy(head, inner)
  {
    assert inner[0..] == inner;
    var outer := ReadElement(head, inner, 0);
    if outer == None || outer.value.tag != 0xa0 { return None; }
    var seqBytes := outer.value.value;
    assert seqBytes[0..] == seqBytes;
    var sq := ReadElement(head, seqBytes, 0);
    if sq == None || sq.value.tag != 0x30 { return None; }
    var fieldsStart := |Header(sq.value)|;
    token := FindMechToken(head, seqBytes, fieldsStart, fieldsStart + |sq.value.value|);
  }

  method FindMechToken(ghost head: Reader, seqBytes: Bytes, fieldsStart: nat, fieldsEnd: nat)
    returns (token: Option<Bytes>)
    requires IsReader(head) && fieldsStart <= |seqBytes|
    ensures token == WalkFields(head, seqBytes[fieldsStart..], fieldsEnd - fieldsStart)
  {
    var pos := fieldsStart;
    while pos < fieldsEnd
      invariant fieldsStart <= pos <= |seqBytes|
      invariant WalkFields(head, seqBytes[pos..], fieldsEnd - pos)
          == WalkFields(head, seqBytes[fieldsStart..], fieldsEnd - fieldsStart)
      decreases |seqBytes| - pos
    {
      var field := ReadElement(head, seqBytes, pos);
      if field == None { return None; }
      if field.value.tag == 0xa2 {
        var octets := field.value.value;
        assert octets[0..] == octets;
        var inner := ReadElement(head, octets, 0);
        if inner.Some? && inner.value.tag == 0x04 { return Some(inner.value.value); }
        return None;
      }
      assert seqBytes[pos..][|Octets(field.value)|..] == seqBytes[pos + |Octets(field.value)|..];
      pos := pos + |Octets(field.value)|;
    }
    return None;
  }

  // ----- What the walker accepts -----

  function Concat(ts: seq<Tlv>): Bytes {
    if ts == [] then [] else Octets(ts[0]) + Concat(ts[1..])
  }

  predicate AllValid(ts: seq<Tlv>) {
    forall i | 0 <= i < |ts| :: Valid(ts[i])
  }

  predicate NoMechToken(ts: seq<Tlv>) {
    forall i | 0 <= i < |ts| :: ts[i].tag != 0xa2
  }

  /** One field other than [2] is stepped over, whatever it contains. */
  lemma SkipField(head: Reader, t: Tlv, rest: Bytes, left: int)
    requires Exact(head) && Valid(t) && t.tag != MECH_TOKEN && 0 < left
    ensures WalkFields(head, Octets(t) + rest, left) == WalkFields(head, rest, left - |Octets(t)|)
  {
    ReadsEncoding(head, t, rest);
  }

  lemma ConcatCons(ts: seq<Tlv>, rest: Bytes)
    requires ts != []
    ensures Concat(ts) + rest == Octets(ts[0]) + (Concat(ts[1..]) + rest)
    ensures |Concat(ts)| == |Octets(ts[0])| + |Concat(ts[1..])| && |Octets(ts[0])| > 0
  {
    Associative(Octets(ts[0]), Concat(ts[1..]), rest);
  }

  lemma {:induction false} SkipFields(head: Reader, ts: seq<Tlv>, rest: Bytes, left: int)
    requires Exact(head) && AllValid(ts) && NoMechToken(ts) && |Concat(ts)| <= left
    ensures WalkFields(head, Concat(ts) + rest, left) == WalkFields(head, rest, left - |Concat(ts)|)
  {
    if ts == [] {
      assert Concat(ts) + rest == rest;
    } else {
      ConcatCons(ts, rest);
      SkipField(head, ts[0], Concat(ts[1..]) + rest, left);
      SkipFields(head, ts[1..], rest, left - |Octets(ts[0])|);
    }
  }

  /** The fields after `skipped` begin with a [2] that holds the octet string `octets`. */
  predicate FieldsHold(rest: Bytes, left: int, skipped: seq<Tlv>, field: Tlv, octets: Tlv) {
    && AllValid(skipped) && NoMechToken(skipped) && |Concat(skipped)| < left
    && Valid(field) && field.tag == 0xa2 && Concat(skipped) + Octets(field) <= rest
    && Valid(octets) && octets.tag == 0x04 && Octets(octets) <= field.value
  }

  lemma PrependField(t: Tlv, rest: Bytes, left: int, ts: seq<Tlv>, field: Tlv, octets: Tlv)
    requires Valid(t) && t.tag != MECH_TOKEN && Octets(t) <= rest
    requires FieldsHold(rest[|Octets(t)|..], left - |Octets(t)|, ts, field, octets)
    ensures FieldsHold(rest, left, [t] + ts, field, octets)
  {
    var all := [t] + ts;
    assert all[1..] == ts;
    ConcatCons(all, Octets(field));
    assert rest == Octets(t) + rest[|Octets(t)|..];
    var whole := Concat(all) + Octets(field);
    assert whole == rest[..|whole|];
  }

  lemma {:induction false} WalkIsSound(head: Reader, rest: Bytes, left: int)
    returns (skipped: seq<Tlv>, field: Tlv, octets: Tlv)
    requires Exact(head) && WalkFields(head, rest, left).Some?
    ensures FieldsHold(rest, left, skipped, field, octets) && WalkFields(head, rest, left) == Some(octets.value)
    decreases |rest|
  {
    var t := head(rest).value;
    assert ExactAt(head, rest, t);
    if t.tag == MECH_TOKEN {
      skipped, field, octets := [], t, head(t.value).value;
      assert ExactAt(head, t.value, octets);
      assert Concat([]) + Octets(field) == Octets(field);
    } else {
      var ts;
      ts, field, octets := WalkIsSound(head, rest[|Octets(t)|..], left - |Octets(t)|);
      skipped := [t] + ts;
      PrependField(t, rest, left, ts, field, octets);
    }
  }

  lemma WalkIsComplete(head: Reader, rest: Bytes, left: int, skipped: seq<Tlv>, field: Tlv, octets: Tlv)
    requires Exact(head) && FieldsHold(rest, left, skipped, field, octets)
    ensures WalkFields(head, rest, left) == Some(octets.value)
  {
    var done := Concat(skipped);
    var after := rest[|done|..];
    assert rest == done + after;
    assert Octets(field) <= after by { assert after[..|Octets(field)|] == (done + Octets(field))[|done|..]; }
    SkipFields(head, skipped, after, left);
    assert ExactAt(head, after, field) && ExactAt(head, field.value, octets);
  }

  /** `inner` starts with a NegTokenInit whose fields hold the token. */
  ghost predicate Holds(inner: Bytes, outer: Tlv, sq: Tlv, token: Bytes) {
    && Valid(outer) && outer.tag == 0xa0 && Octets(outer) <= inner
    && Valid(sq) && sq.tag == 0x30 && Octets(sq) <= outer.value
    && exists skipped, field, octets ::
         FieldsHold(outer.value[|Header(sq)|..], |sq.value|, skipped, field, octets) && octets.value == token
  }

  lemma IffEncoded(head: Reader, inner: Bytes, token: Bytes)
    requires Exact(head)
    ensures MechTokenBy(head, inner) == Some(token) <==> exists outer, sq :: Holds(inner, outer, sq, token)
  {
    if MechTokenBy(head, inner) == Some(token) {
      var outer := head(inner).value;
      var sq := head(outer.value).value;
      assert ExactAt(head, inner, outer) && ExactAt(head, outer.value, sq);
      var skipped, field, octets := WalkIsSound(head, outer.value[|Header(sq)|..], |sq.value|);
      assert Holds(inner, outer, sq, token);
    }
    if outer, sq :| Holds(inner, outer, sq, token) {
      assert ExactAt(head, inner, outer) && ExactAt(head, outer.value, sq);
      var skipped, field, octets :|
        FieldsHold(outer.value[|Header(sq)|..], |sq.value|, skipped, field, octets) && octets.value == token;
      WalkIsComplete(head, outer.value[|Header(sq)|..], |sq.value|, skipped, field, octets);
    }
  }

  /**
   For arbitrary bytes: a token is returned exactly when the input starts with a [0] element
   whose value starts with a SEQUENCE in which, after elements other than [2], a [2] begins
   that holds an octet string; and it is that string.
   */
  lemma MechTokenIffEncoded(inner: Bytes, token: Bytes)
    ensures MechToken(inner) == Some(token) <==> exists outer, sq :: Holds(inner, outer, sq, token)
  {
    HeadIsExact();
    IffEncoded(Head, inner, token);
  }

  // ----- Well-formed NegTokenInit -----

  /**
   A NegTokenInit as elements: [0] types, optional [1] flags, optional [2] token around an octet string, optional [3]
   MIC.
   */
  datatype NegTokenInit = NegTokenInit(
    types: Tlv, flags: Option<Tlv>, token: Option<Tlv>, octets: Tlv, mic: Option<Tlv>)

  function Optional(t: Option<Tlv>): seq<Tlv> {
    if t.Some? then [t.value] else []
  }

  predicate WellFormed(m: NegTokenInit) {
    && Valid(m.types) && m.types.tag == 0xa0
    && (m.flags.Some? ==> Valid(m.flags.value) && m.flags.value.tag == 0xa1)
    && (m.token.Some? ==> Valid(m.token.value) && m.token.value.tag == 0xa2
                          && Valid(m.octets) && m.octets.tag == 0x04 && m.token.value.value == Octets(m.octets))
    && (m.mic.Some? ==> Valid(m.mic.value) && m.mic.value.tag == 0xa3)
  }

  function Fields(m: NegTokenInit): seq<Tlv> {
    [m.types] + Optional(m.flags) + Optional(m.token) + Optional(m.mic)
  }

  /**
   `inner` is the definite-length encoding of `m`, in any choice of length octets, possibly followed by more bytes.
   */
  predicate Encodes(inner: Bytes, outer: Tlv, sq: Tlv, m: NegTokenInit) {
    && Valid(outer) && outer.tag == 0xa0 && Octets(outer) <= inner
    && Valid(sq) && sq.tag == 0x30 && outer.value == Octets(sq)
    && WellFormed(m) && sq.value == Concat(Fields(m))
  }

  lemma {:induction false} ConcatAppend(a: seq<Tlv>, b: seq<Tlv>)
    ensures Concat(a + b) == Concat(a) + Concat(b)
  {
    if a == [] {
      assert a + b == b;
    } else {
      assert (a + b)[1..] == a[1..] + b;
      ConcatAppend(a[1..], b);
      assert Octets(a[0]) + (Concat(a[1..]) + Concat(b)) == Octets(a[0]) + Concat(a[1..]) + Concat(b);
    }
  }

  /** For every encoded NegTokenInit the walker returns exactly its mechToken, or None if it has none. */
  lemma NegTokenInitDecodes(inner: Bytes, outer: Tlv, sq: Tlv, m: NegTokenInit)
    requires Encodes(inner, outer, sq, m)
    ensures MechToken(inner) == if m.token.Some? then Some(m.octets.value) else None
  {
    HeadIsExact();
    assert ExactAt(Head, inner, outer) && ExactAt(Head, outer.value, sq);
    assert outer.value[|Header(sq)|..] == sq.value;
    FieldsDecode(Head, m);
  }

  lemma FieldsDecode(head: Reader, m: NegTokenInit)
    requires Exact(head) && WellFormed(m)
    ensures WalkFields(head, Concat(Fields(m)), |Concat(Fields(m))|)
            == if m.token.Some? then Some(m.octets.value) else None
  {
    var all := Concat(Fields(m));
    if m.token.None? {
      assert all + [] == all;
      SkipFields(head, Fields(m), [], |all|);
    } else {
      var before, field, after := [m.types] + Optional(m.flags), m.token.value, Optional(m.mic);
      assert Fields(m) == before + [field] + after;
      ConcatAppend(before + [field], after);
      ConcatAppend(before, [field]);
      assert [field][1..] == [] && Concat([field]) == Octets(field);
      assert Concat(before) + Octets(field) <= all;
      WalkIsComplete(head, all, |all|, before, field, m.octets);
    }
  }
}
