/**
 Reading DER elements by hand (`src/auth/gssapi.rs`, `src/ocsp/mod.rs`).  Lengths are
 definite and below 2^32, in any number of length octets that the readers accept.
 `usize` has 64 bits, so no sum overflows.
 */
module Der {
  import opened Prelude

  function BigEndian(b: Bytes): nat {
    if b == [] then 0 else BigEndian(b[..|b| - 1]) * 256 + b[|b| - 1]
  }

  /** The length at `offset` and the number of octets that encode it. */
  function ReadLength(bytes: Bytes, offset: nat): Option<(nat, nat)> {
    if offset >= |bytes| then None
    else if bytes[offset] < 0x80 then Some((bytes[offset], 1))
    else
      var n := bytes[offset] - 0x80;
      if n == 0 || n > 4 || offset + 1 + n > |bytes| then None
      else Some((BigEndian(bytes[offset + 1..offset + 1 + n]), 1 + n))
  }

  /** `read_der_length` and its twin `read_der_length_ocsp`. */
  method ReadDerLength(bytes: Bytes, offset: nat) returns (r: Option<(nat, nat)>)
    ensures r == ReadLength(bytes, offset)
  {
    if offset >= |bytes| { return None; }
    var first := bytes[offset];
    if first < 0x80 { return Some((first, 1)); }
    var n := first % 0x80;
    if n == 0 || n > 4 || offset + 1 + n > |bytes| { return None; }
    var val: nat := 0;
    for i := 0 to n
      invariant val == BigEndian(bytes[offset + 1..offset + 1 + i])
    {
      BigEndianStep(bytes, offset + 1, i);
      val := val * 256 + bytes[offset + 1 + i];
    }
    return Some((val, 1 + n));
  }

  lemma BigEndianStep(bytes: Bytes, start: nat, i: nat)
    requires start + i < |bytes|
    ensures BigEndian(bytes[start..start + i + 1]) == BigEndian(bytes[start..start + i]) * 256 + bytes[start + i]
  {
    var b := bytes[start..start + i + 1];
    assert b[..|b| - 1] == bytes[start..start + i];
  }

  // ----- Encodings -----

  /** The octets `l` encode the length `n`: short form, or long form with one to four octets. */
  predicate IsLength(l: Bytes, n: nat) {
    match |l|
    case 1 => l[0] < 0x80 && n == l[0]
    case 2 => l[0] == 0x81 && n == l[1]
    case 3 => l[0] == 0x82 && n == 256 * (l[1] as int) + l[2]
    case 4 => l[0] == 0x83 && n == 65536 * (l[1] as int) + 256 * (l[2] as int) + l[3]
    case 5 =>
      l[0] == 0x84 && n == 16777216 * (l[1] as int) + 65536 * (l[2] as int) + 256 * (l[3] as int) + l[4]
    case _ => false
  }

  lemma BigEndianLast(b: Bytes)
    requires b != []
    ensures BigEndian(b) == 256 * BigEndian(b[..|b| - 1]) + b[|b| - 1]
  {
  }

  /** The octets after the first, read big-endian, are the positional sum. */
  lemma LongForm(l: Bytes, n: nat)
    requires 2 <= |l| <= 5
    ensures IsLength(l, n) <==> l[0] == 0x80 + |l| - 1 && n == BigEndian(l[1..])
  {
    var b := l[1..];
    assert BigEndian([]) == 0;
    BigEndianLast(b);
    if |b| > 1 {
      assert b[..|b| - 1][..|b| - 2] == b[..|b| - 2];
      BigEndianLast(b[..|b| - 1]);
    }
    if |b| > 2 {
      assert b[..|b| - 2][..|b| - 3] == b[..|b| - 3];
      BigEndianLast(b[..|b| - 2]);
    }
    if |b| > 3 { BigEndianLast(b[..1]); }
  }

  /** `n` in `k` octets, by dividing. */
  function Divided(n: nat, k: nat): Bytes {
    if k == 0 then [] else Divided(n / 256, k - 1) + [n % 256]
  }

  predicate FitsIn(n: nat, k: nat) {
    match k
    case 1 => n < 0x100
    case 2 => n < 0x1_0000
    case 3 => n < 0x100_0000
    case 4 => n < 0x1_0000_0000
    case _ => false
  }

  lemma Digits(n: nat, k: nat)
    requires FitsIn(n, k)
    ensures k == 1 ==> n == n % 256
    ensures k > 1 ==> n == 256 * (n / 256) + n % 256 && FitsIn(n / 256, k - 1)
  {
  }

  lemma DividedIsLength(n: nat, k: nat)
    requires FitsIn(n, k)
    ensures IsLength([0x80 + k] + Divided(n, k), n)
  {
    DividedOctets(n, k);
    Digits(n, k);
    if k > 1 { Digits(n / 256, k - 1); }
    if k > 2 { Digits(n / 256 / 256, k - 2); }
    if k > 3 { Digits(n / 256 / 256 / 256, k - 3); }
  }

  /** A length that fits into one to four octets, written in them by dividing, is read back. */
  lemma LengthRoundTrip(n: nat, k: nat, rest: Bytes)
    requires FitsIn(n, k)
    ensures ReadLength([0x80 + k] + Divided(n, k) + rest, 0) == Some((n, 1 + k))
  {
    var l := [0x80 + k] + Divided(n, k);
    DividedOctets(n, k);
    DividedIsLength(n, k);
    LongForm(l, n);
    assert (l + rest)[1..1 + k] == l[1..];
  }

  lemma DividedOctets(n: nat, k: nat)
    requires 1 <= k <= 4
    ensures var d := Divided(n, k);
            && |d| == k && d[k - 1] == n % 256
            && (k >= 2 ==> d[k - 2] == n / 256 % 256) && (k >= 3 ==> d[k - 3] == n / 256 / 256 % 256)
            && (k >= 4 ==> d[k - 4] == n / 256 / 256 / 256 % 256)
  {
    if k > 1 { DividedOctets(n / 256, k - 1); }
  }

  datatype Tlv = Tlv(tag: byte, len: Bytes, value: Bytes)

  predicate Valid(t: Tlv) {
    IsLength(t.len, |t.value|)
  }

  function Header(t: Tlv): Bytes {
    [t.tag] + t.len
  }

  function Octets(t: Tlv): Bytes {
    Header(t) + t.value
  }

  /** The element that `b` starts with. */
  function Head(b: Bytes): (t: Option<Tlv>)
    ensures t.Some? ==> |Octets(t.value)| <= |b|
  {
    if b == [] then None
    else match ReadLength(b, 1)
      case None => None
      case Some((n, k)) => if 1 + k + n > |b| then None else Some(Tlv(b[0], b[1..1 + k], b[1 + k..1 + k + n]))
  }

  lemma ReadLengthIsSound(b: Bytes)
    requires ReadLength(b, 1).Some?
    ensures var (n, k) := ReadLength(b, 1).value; 1 + k <= |b| && IsLength(b[1..1 + k], n)
  {
    var (n, k) := ReadLength(b, 1).value;
    if k > 1 { LongForm(b[1..1 + k], n); }
    assert b[1..1 + k][1..] == b[2..1 + k];
  }

  lemma ReadLengthIsComplete(b: Bytes, l: Bytes, n: nat)
    requires 1 + |l| <= |b| && b[1..1 + |l|] == l && IsLength(l, n)
    ensures ReadLength(b, 1) == Some((n, |l|))
  {
    assert b[1] == l[0];
    if |l| > 1 {
      LongForm(l, n);
      assert b[2..1 + |l|] == l[1..];
    }
  }

  lemma HeadIsSound(b: Bytes)
    requires Head(b).Some?
    ensures Valid(Head(b).value) && Octets(Head(b).value) <= b
  {
    ReadLengthIsSound(b);
    var t := Head(b).value;
    assert Octets(t) == b[..|Octets(t)|];
  }

  lemma HeadIsComplete(b: Bytes, t: Tlv)
    requires Valid(t) && Octets(t) <= b
    ensures Head(b) == Some(t)
  {
    var k, n := |t.len|, |t.value|;
    assert b[..1 + k + n] == Octets(t);
    assert Octets(t)[1..1 + k] == t.len && Octets(t)[1 + k..] == t.value;
    assert b[1..1 + k] == t.len && b[1 + k..1 + k + n] == t.value;
    ReadLengthIsComplete(b, t.len, n);
  }

  /**
   Reading is the exact inverse of encoding: `Head` returns the one valid element that `b` starts with, or None if
   there is none.
   */
  lemma HeadIffEncoding(b: Bytes, t: Tlv)
    ensures Head(b) == Some(t) <==> Valid(t) && Octets(t) <= b
  {
    if Head(b) == Some(t) { HeadIsSound(b); }
    if Valid(t) && Octets(t) <= b { HeadIsComplete(b, t); }
  }

  lemma LengthInSuffix(b: Bytes, pos: nat)
    requires pos < |b|
    ensures ReadLength(b, pos + 1) == ReadLength(b[pos..], 1)
  {
    var r := ReadLength(b, pos + 1);
    assert r.Some? ==> b[pos + 2..pos + 1 + r.value.1] == b[pos..][2..1 + r.value.1];
  }

  /** The element at `pos`, read the way the source does. */
  lemma HeadAt(b: Bytes, pos: nat)
    requires pos < |b|
    ensures var r := ReadLength(b, pos + 1);
            if r.None? || pos + 1 + r.value.1 + r.value.0 > |b| then Head(b[pos..]) == None
            else
              var (n, k) := r.value;
              Head(b[pos..]) == Some(Tlv(b[pos], b[pos + 1..pos + 1 + k], b[pos + 1 + k..pos + 1 + k + n]))
  {
    LengthInSuffix(b, pos);
    var r := ReadLength(b, pos + 1);
    if r.Some? && pos + 1 + r.value.1 + r.value.0 <= |b| {
      var (n, k) := r.value;
      assert b[pos..][1..1 + k] == b[pos + 1..pos + 1 + k];
      assert b[pos..][1 + k..1 + k + n] == b[pos + 1 + k..pos + 1 + k + n];
    }
  }

  type Reader = Bytes -> Option<Tlv>

  predicate ReadsAt(head: Reader, b: Bytes) {
    head(b) == Head(b)
  }

  /** `head` is `Head`. */
  ghost predicate IsReader(head: Reader) {
    forall b :: ReadsAt(head, b)
  }

  /** Tag, length, bounds check: the element at `pos`. */
  method ReadElement(ghost head: Reader, bytes: Bytes, pos: nat) returns (t: Option<Tlv>)
    requires IsReader(head) && pos <= |bytes|
    ensures t == head(bytes[pos..])
    ensures t.Some? ==> 1 <= |Octets(t.value)| <= |bytes| - pos
  {
    assert ReadsAt(head, bytes[pos..]);
    if pos == |bytes| { return None; }
    HeadAt(bytes, pos);
    var len := ReadDerLength(bytes, pos + 1);
    if len == None { return None; }
    var valueStart := pos + 1 + len.value.1;
    var valueEnd := valueStart + len.value.0;
    if valueEnd > |bytes| { return None; }
    return Some(Tlv(bytes[pos], bytes[pos + 1..valueStart], bytes[valueStart..valueEnd]));
  }

  predicate ExactAt(head: Reader, b: Bytes, t: Tlv) {
    head(b) == Some(t) <==> Valid(t) && Octets(t) <= b
  }

  /** `head` returns exactly the valid element that its argument starts with. */
  ghost predicate Exact(head: Reader) {
    forall b, t :: ExactAt(head, b, t)
  }

  /** An exact reader gets back what was encoded. */
  lemma ReadsEncoding(head: Reader, t: Tlv, rest: Bytes)
    requires Exact(head) && Valid(t)
    ensures head(Octets(t) + rest) == Some(t)
    ensures (Octets(t) + rest)[|Octets(t)|..] == rest && (Octets(t) + rest)[|Header(t)|..] == t.value + rest
  {
    assert ExactAt(head, Octets(t) + rest, t);
  }

  lemma HeadIsExact()
    ensures Exact(Head) && IsReader(Head)
  {
    forall b, t ensures ExactAt(Head, b, t) {
      HeadIffEncoding(b, t);
    }
  }
}
