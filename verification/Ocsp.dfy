/** The signed part of a BasicOCSPResponse (`src/ocsp/mod.rs`; section 4.2.1 of RFC 6960). */
module Ocsp {
  import opened Prelude
  import opened Der

  const SEQUENCE: byte := 0x30

  function TbsBytes(der: Bytes): Option<Bytes> {
    match Head(der)
    case None => None
    case Some(outer) =>
      if outer.tag != SEQUENCE then None
      else match Head(der[|Header(outer)|..])
        case None => None
        case Some(tbs) => if tbs.tag == SEQUENCE then Some(Octets(tbs)) else None
  }

  method ExtractBasicOcspTbsBytes(der: Bytes) returns (tbs: Option<Bytes>)
    ensures tbs == TbsBytes(der)
  {
    HeadIsExact();
    assert der[0..] == der && ReadsAt(Head, der);
    var outer := ReadElement(Head, der, 0);
    if outer == None || outer.value.tag != 0x30 { return None; }
    var tbsStart := |Header(outer.value)|;
    assert ReadsAt(Head, der[tbsStart..]);
    var first := ReadElement(Head, der, tbsStart);
    if first == None || first.value.tag != 0x30 { return None; }
    var tbsEnd := tbsStart + |Octets(first.value)|;
    HeadIffEncoding(der[tbsStart..], first.value);
    assert Octets(first.value) == der[tbsStart..tbsEnd];
    return Some(der[tbsStart..tbsEnd]);
  }

  /**
   `der` starts with a SEQUENCE element whose content starts with the SEQUENCE element `tbs`, which may run past it.
   */
  predicate Holds(der: Bytes, outer: Tlv, tbs: Tlv) {
    && Valid(outer) && outer.tag == 0x30 && Octets(outer) <= der
    && Valid(tbs) && tbs.tag == 0x30 && Octets(tbs) <= der[|Header(outer)|..]
  }

  /**
   For arbitrary bytes: exactly the first element inside an outer SEQUENCE is returned, whole, if it is a SEQUENCE.
   */
  lemma TbsIffEncoded(der: Bytes, bytes: Bytes)
    ensures TbsBytes(der) == Some(bytes) <==> exists outer, tbs :: Holds(der, outer, tbs) && bytes == Octets(tbs)
  {
    if TbsBytes(der) == Some(bytes) {
      var outer := Head(der).value;
      var tbs := Head(der[|Header(outer)|..]).value;
      HeadIffEncoding(der, outer);
      HeadIffEncoding(der[|Header(outer)|..], tbs);
      assert Holds(der, outer, tbs);
    }
    if outer, tbs :| Holds(der, outer, tbs) && bytes == Octets(tbs) {
      HeadIffEncoding(der, outer);
      HeadIffEncoding(der[|Header(outer)|..], tbs);
    }
  }

  /** For an encoded BasicOCSPResponse, with whatever follows the response data, exactly the encoded response data. */
  lemma ResponseDataIsExtracted(outer: Tlv, tbs: Tlv, others: Bytes, trailing: Bytes)
    requires Valid(outer) && outer.tag == 0x30 && Valid(tbs) && tbs.tag == 0x30
    requires outer.value == Octets(tbs) + others
    ensures TbsBytes(Octets(outer) + trailing) == Some(Octets(tbs))
  {
    var der := Octets(outer) + trailing;
    HeadIsExact();
    ReadsEncoding(Head, outer, trailing);
    assert outer.value + trailing == Octets(tbs) + (others + trailing);
    ReadsEncoding(Head, tbs, others + trailing);
  }
}
