/** The header before every sealed blob (crates/common/src/header.rs). */
module Header {
  import opened Text

  type Byte = x: int | 0 <= x < 256
  type U16 = x: int | 0 <= x < 0x10000

  datatype Alg = CommittingWrapXChaCha20Poly1305 | XChaCha20Poly1305 | HpkeX25519Sha256ChaCha20Poly1305

  datatype AgilityHeader = AgilityHeader(version: Byte, alg: Alg, keyId: U16, nonce: seq<Byte>)

  datatype DecodeError = TruncatedHeader | BadMagic | UnknownAlg(id: int) | TruncatedNonce

  const MAGIC: seq<Byte> := [0x4C, 0x54, 0x52, 0x31]

  function Be(n: int): seq<Byte> { [n / 256 % 256, n % 256] }

  function FromBe(hi: Byte, lo: Byte): U16 { hi * 256 + lo }

  function ToU16(alg: Alg): U16 {
    match alg
    case CommittingWrapXChaCha20Poly1305 => 1
    case XChaCha20Poly1305 => 2
    case HpkeX25519Sha256ChaCha20Poly1305 => 3
  }

  function AlgOf(v: U16): Option<Alg> {
    if v == 1 then Some(CommittingWrapXChaCha20Poly1305)
    else if v == 2 then Some(XChaCha20Poly1305)
    else if v == 3 then Some(HpkeX25519Sha256ChaCha20Poly1305)
    else None
  }

  /** The nonce's length is cut to sixteen bits, the nonce is not. */
  function Encode(h: AgilityHeader): seq<Byte> { Fixed(h) + h.nonce }

  function Fixed(h: AgilityHeader): seq<Byte> {
    MAGIC + [h.version] + Be(ToU16(h.alg)) + Be(h.keyId) + Be(|h.nonce| % 0x10000)
  }

  function Decode(buf: seq<Byte>): Result<(AgilityHeader, seq<Byte>), DecodeError> {
    if |buf| < 11 then Err(TruncatedHeader)
    else if buf[..4] != MAGIC then Err(BadMagic)
    else
      var alg := AlgOf(FromBe(buf[5], buf[6]));
      if alg.None? then Err(UnknownAlg(FromBe(buf[5], buf[6])))
      else
        var nonceLen := FromBe(buf[9], buf[10]);
        if |buf| - 11 < nonceLen then Err(TruncatedNonce)
        else Ok((AgilityHeader(buf[4], alg.value, FromBe(buf[7], buf[8]), buf[11..11 + nonceLen]), buf[11 + nonceLen..]))
  }

  lemma {:induction false} FixedBytes(h: AgilityHeader)
    ensures |Fixed(h)| == 11 && Fixed(h)[..4] == MAGIC && Fixed(h)[4] == h.version
    ensures FromBe(Fixed(h)[5], Fixed(h)[6]) == ToU16(h.alg) && FromBe(Fixed(h)[7], Fixed(h)[8]) == h.keyId
    ensures FromBe(Fixed(h)[9], Fixed(h)[10]) == |h.nonce| % 0x10000
  {
    FromBeOf(ToU16(h.alg));
    FromBeOf(h.keyId);
    FromBeOf(|h.nonce| % 0x10000);
  }

  lemma {:induction false} FromBeOf(n: U16)
    ensures FromBe(Be(n)[0], Be(n)[1]) == n
  {
  }

  /** The bytes on disk: "LTR1", the version, then the algorithm (1 for committing
      wrap, 2 for XChaCha20-Poly1305, 3 for HPKE), the key and the nonce's length, each in
      two bytes, the higher first, and the nonce. */
  lemma {:induction false} Layout(h: AgilityHeader)
    ensures var e := Encode(h);
      && |e| == 11 + |h.nonce| && e[11..] == h.nonce
      && e[0] == 'L' as int && e[1] == 'T' as int && e[2] == 'R' as int && e[3] == '1' as int && e[4] == h.version
      && e[5] == 0 && (e[6] == 1 <==> h.alg.CommittingWrapXChaCha20Poly1305?) && (e[6] == 2 <==> h.alg.XChaCha20Poly1305?)
      && (e[6] == 3 <==> h.alg.HpkeX25519Sha256ChaCha20Poly1305?)
      && (e[7] as int) * 256 + e[8] as int == h.keyId && ((e[9] as int) * 256 + e[10] as int - |h.nonce|) % 65536 == 0
  {
    var e, f := Encode(h), Fixed(h);
    FixedBytes(h);
    assert e[..4] == MAGIC && forall i :: 0 <= i < 11 ==> e[i] == f[i];
    assert e[0] == e[..4][0] && e[1] == e[..4][1] && e[2] == e[..4][2] && e[3] == e[..4][3];
    ToU16Bytes(h.alg);
  }

  lemma {:induction false} ToU16Bytes(alg: Alg)
    ensures Be(ToU16(alg))[0] == 0
  {
  }

  /** What is refused, and as what, in this order: fewer than eleven bytes, other first
      bytes, an algorithm that is not one of the three, a nonce that is cut off. */
  lemma {:induction false} RefusedExactly(buf: seq<Byte>)
    ensures var n := |buf|;
      && (Decode(buf) == Err(TruncatedHeader) <==> n < 11)
      && (n >= 11 ==>
            var marked := buf[0] == 'L' as int && buf[1] == 'T' as int && buf[2] == 'R' as int && buf[3] == '1' as int;
            var known := buf[5] == 0 && buf[6] in {1, 2, 3};
            var nonceLen := (buf[9] as int) * 256 + buf[10] as int;
            && (Decode(buf) == Err(BadMagic) <==> !marked)
            && (Decode(buf) == Err(UnknownAlg((buf[5] as int) * 256 + buf[6] as int)) <==> marked && !known)
            && (Decode(buf) == Err(TruncatedNonce) <==> marked && known && n < 11 + nonceLen)
            && (Decode(buf).Ok? <==> marked && known && n >= 11 + nonceLen))
  {
    if |buf| >= 11 {
      assert buf[..4] == [buf[0], buf[1], buf[2], buf[3]];
    }
  }

  /** Decoding splits the nonce where the sixteen bits say. */
  lemma {:induction false} DecodeOfEncode(h: AgilityHeader, payload: seq<Byte>)
    ensures var m := |h.nonce| % 0x10000;
      Decode(Encode(h) + payload) == Ok((h.(nonce := h.nonce[..m]), h.nonce[m..] + payload))
  {
    var m, f := |h.nonce| % 0x10000, Fixed(h);
    var buf := Encode(h) + payload;
    FixedBytes(h);
    assert buf == f + (h.nonce + payload);
    assert buf[..4] == f[..4] && forall i :: 0 <= i < 11 ==> buf[i] == f[i];
    assert buf[11..11 + m] == h.nonce[..m] && buf[11 + m..] == h.nonce[m..] + payload;
  }

  /** Header and payload come back exactly when the nonce is shorter than 65536
      bytes. */
  lemma {:induction false} RoundTripExactly(h: AgilityHeader, payload: seq<Byte>)
    ensures Decode(Encode(h) + payload) == Ok((h, payload)) <==> |h.nonce| < 0x10000
  {
    DecodeOfEncode(h, payload);
    if |h.nonce| < 0x10000 {
      assert h.nonce[..|h.nonce|] == h.nonce && h.nonce[|h.nonce|..] + payload == payload;
    } else {
      assert |h.nonce[..|h.nonce| % 0x10000]| < |h.nonce|;
    }
  }

  /** An accepted buffer is the encoding of what it was decoded to, and only such
      buffers are accepted. */
  lemma {:induction false} AcceptedReencodes(buf: seq<Byte>)
    ensures Decode(buf).Ok? ==> Encode(Decode(buf).value.0) + Decode(buf).value.1 == buf && |Decode(buf).value.0.nonce| < 0x10000
  {
    if Decode(buf).Ok? {
      var (h, payload) := Decode(buf).value;
      FixedOf(buf, h);
      assert buf == buf[..11] + h.nonce + payload;
    }
  }

  lemma {:induction false} FixedOf(buf: seq<Byte>, h: AgilityHeader)
    requires |buf| >= 11 && buf[..4] == MAGIC && buf[4] == h.version && AlgOf(FromBe(buf[5], buf[6])) == Some(h.alg)
    requires FromBe(buf[7], buf[8]) == h.keyId && FromBe(buf[9], buf[10]) == |h.nonce|
    ensures Fixed(h) == buf[..11]
  {
    BytesOf(buf[5], buf[6], ToU16(h.alg));
    BytesOf(buf[7], buf[8], h.keyId);
    BytesOf(buf[9], buf[10], |h.nonce| % 0x10000);
    ElevenBytes(buf);
  }

  lemma {:induction false} BytesOf(hi: Byte, lo: Byte, n: U16)
    requires FromBe(hi, lo) == n
    ensures Be(n) == [hi, lo]
  {
    BeOfBytes(hi, lo);
  }

  lemma {:induction false} ElevenBytes(buf: seq<Byte>)
    requires |buf| >= 11
    ensures buf[..4] + [buf[4]] + [buf[5], buf[6]] + [buf[7], buf[8]] + [buf[9], buf[10]] == buf[..11]
  {
  }

  lemma {:induction false} BeOfBytes(hi: Byte, lo: Byte)
    ensures Be(FromBe(hi, lo)) == [hi, lo]
  {
  }
}
