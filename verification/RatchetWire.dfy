/** The attestation of one ratchet exchange: its fields, its 209 bytes on the wire, and the message signed. */
module RatchetWire {
  import opened Bytes
  import opened Options

  type Hash32 = h: Bytes | |h| == 32 witness seq(32, _ => 0)

  function Ascii(s: string): (b: Bytes)
    ensures |b| == |s|
  {
    seq(|s|, i requires 0 <= i < |s| => (s[i] as int) % 256)
  }

  const ATTEST_CONTEXT: Bytes := Ascii("physicalkey-ratchet-attest-v1")
  const NEXT_PROOF_CONTEXT: Bytes := Ascii("physicalkey-ratchet-next-v1")

  // What ratchet_derive fills in; status 0 claims no prior state and 1 claims continuity.
  datatype Exchange = Exchange(devicePublicKey: Bytes, rc: Bytes, deviceProof: Bytes, nextProof: Bytes, status: Byte) {
    predicate Sized() {
      |devicePublicKey| == 32 && |rc| == 16 && |deviceProof| == 64 && |nextProof| == 32
    }
  }

  function Body(e: Exchange): Bytes {
    e.devicePublicKey + e.rc + e.deviceProof + e.nextProof + [e.status]
  }

  function Wire(e: Exchange, signature: Bytes): Bytes {
    Body(e) + signature
  }

  // The message that the device signs and the backend rebuilds.
  function AttestMessage(challengeHash: Bytes, e: Exchange): Bytes {
    ATTEST_CONTEXT + challengeHash + Body(e)
  }

  // What runExchange slices out of a response.
  function Parse(w: Bytes): Option<(Exchange, Bytes)> {
    if |w| != 32 + 16 + 64 + 32 + 1 + 64 then None
    else Some((Exchange(w[0..32], w[32..48], w[48..112], w[112..144], w[144]), w[145..209]))
  }

  lemma ParseWire(e: Exchange, signature: Bytes)
    requires e.Sized() && |signature| == 64
    ensures Parse(Wire(e, signature)) == Some((e, signature))
  {
    var w := Wire(e, signature);
    assert w[0..32] == e.devicePublicKey;
    assert w[32..48] == e.rc;
    assert w[48..112] == e.deviceProof;
    assert w[112..144] == e.nextProof;
    assert w[145..209] == signature;
  }

  // The text that the message begins with, letter by letter.
  const ATTEST_TEXT: Bytes := [
    112, 104, 121, 115, 105, 99, 97, 108, 107, 101, 121, 45, 114, 97, 116, 99, 104, 101, 116, 45, 97, 116, 116, 101, 115, 116, 45, 118, 49]

  // Where the fields are in the message and on the wire: what is signed of the exchange is sent as it is.
  lemma Layout(h: Bytes, e: Exchange, signature: Bytes)
    requires |h| == 32 && e.Sized() && |signature| == 64
    ensures var w := Wire(e, signature);
            && |w| == 209 && w[..32] == e.devicePublicKey && w[32..48] == e.rc && w[48..112] == e.deviceProof
            && w[112..144] == e.nextProof && w[144] == e.status && w[145..] == signature
            && AttestMessage(h, e) == ATTEST_TEXT + h + w[..145]
  {
    hide ATTEST_CONTEXT, ATTEST_TEXT;
    AttestText();
    assert Wire(e, signature)[..145] == Body(e);
  }

  lemma AttestText()
    ensures ATTEST_CONTEXT == ATTEST_TEXT
  {
  }

  // Every payload of the right length is the payload of what it parses to.
  lemma WireParse(w: Bytes)
    requires Parse(w).Some?
    ensures var (e, signature) := Parse(w).value; e.Sized() && |signature| == 64 && Wire(e, signature) == w
  {
    assert w == w[0..32] + w[32..48] + w[48..112] + w[112..144] + [w[144]] + w[145..209];
  }

  // The message signed determines the challenge hash and every field.
  lemma MessageDetermines(h: Bytes, e: Exchange, h': Bytes, e': Exchange)
    requires |h| == |h'| == 32 && e.Sized() && e'.Sized()
    requires AttestMessage(h, e) == AttestMessage(h', e')
    ensures h == h' && e == e'
  {
    var m, m', n := AttestMessage(h, e), AttestMessage(h', e'), |ATTEST_CONTEXT|;
    assert m[n..n + 32] == h && m'[n..n + 32] == h';
    assert m[n + 32..] == Body(e) && m'[n + 32..] == Body(e');
    var zeros: Bytes := seq(64, _ => 0);
    ParseWire(e, zeros);
    ParseWire(e', zeros);
  }
}
