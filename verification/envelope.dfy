/** `encryptRequest`: space padding of the serialised request and the `nonce || ciphertext` envelope. */
module Envelope {
  import opened Wrappers
  import opened Bytes
  import opened JsText
  import opened AuthRequests
  import opened Primitives

  /** The serialised request is padded to a multiple of this many UTF-16 code units. */
  const PadBlock: nat := 16

  /** Bytes of nonce at the head of every envelope. */
  const NonceLength: nat := 12

  /**
   * The padding step: while the JavaScript length (UTF-16 code units) of the
   * JSON text is not a multiple of 16, spaces are appended up to the next one.
   */
  function Pad(json: string): (r: string)
    ensures Utf16Length(r) % PadBlock == 0
    ensures |json| <= |r| && r[..|json|] == json
    ensures forall k :: |json| <= k < |r| ==> r[k] == ' '
    ensures |r| - |json| < PadBlock
    ensures Utf16Length(json) % PadBlock == 0 ==> r == json
  {
    var n := Utf16Length(json);
    if n % PadBlock != 0 then
      var spaces := Spaces(PadBlock - n % PadBlock);
      RoundUp(n);
      Utf16LengthAppend(json, spaces);
      assert (json + spaces)[..|json|] == json;
      json + spaces
    else json
  }

  /** Up to the next multiple of 16 from an unaligned length: between 1 and 15 more. */
  lemma RoundUp(n: nat)
    requires n % PadBlock != 0
    ensures 0 < PadBlock - n % PadBlock < PadBlock
    ensures (n + (PadBlock - n % PadBlock)) % PadBlock == 0
    ensures (PadBlock - n % PadBlock) % PadBlock == PadBlock - n % PadBlock
  {
  }

  /**
   * Padding is the least one: every extension of the text by spaces whose
   * length is a multiple of 16 is at least as long as the padded text.
   */
  lemma PadIsShortest(json: string, w: string)
    requires forall k :: 0 <= k < |w| ==> w[k] == ' '
    requires Utf16Length(json + w) % PadBlock == 0
    ensures |Pad(json)| <= |json + w|
  {
    SpacesLength(w);
    Utf16LengthAppend(json, w);
    var n := Utf16Length(json);
    if n % PadBlock != 0 {
      NoShorterRoundUp(n, |w|);
      assert |Pad(json)| == |json| + (PadBlock - n % PadBlock);
    }
  }

  /** From an unaligned length, no step shorter than the one to the next multiple of 16 lands on a multiple. */
  lemma NoShorterRoundUp(n: nat, m: nat)
    requires n % PadBlock != 0 && (n + m) % PadBlock == 0
    ensures PadBlock - n % PadBlock <= m
  {
  }

  /** A run of spaces is as long in UTF-16 as in characters. */
  lemma {:induction false} SpacesLength(w: string)
    requires forall k :: 0 <= k < |w| ==> w[k] == ' '
    ensures Utf16Length(w) == |w|
    decreases |w|
  {
    if |w| > 0 {
      SpacesLength(w[1..]);
    }
  }

  /** Padding padded text changes nothing. */
  lemma PadIdempotent(json: string)
    ensures Pad(Pad(json)) == Pad(json)
  {
  }

  /**
   * The envelope layout (`result.set(nonce)`, `result.set(encrypted, 12)`):
   * the nonce, then the ciphertext.
   */
  function Seal(nonce: Nonce, ciphertext: seq<byte>): (r: seq<byte>)
    ensures |r| == NonceLength + |ciphertext|
    ensures r[..NonceLength] == nonce && r[NonceLength..] == ciphertext
  {
    nonce + ciphertext
  }

  /** How the quota service reads an envelope: nonce and ciphertext, or `None` if too short. */
  function Open(envelope: seq<byte>): Option<(Nonce, seq<byte>)>
  {
    if |envelope| < NonceLength then None
    else Some((envelope[..NonceLength], envelope[NonceLength..]))
  }

  /** Opening a sealed envelope gives back its nonce and ciphertext. */
  lemma OpenSeal(nonce: Nonce, ciphertext: seq<byte>)
    ensures Open(Seal(nonce, ciphertext)) == Some((nonce, ciphertext))
  {
  }

  /** Resealing what was opened gives back the envelope. */
  lemma SealOpen(envelope: seq<byte>)
    requires Open(envelope).Some?
    ensures Seal(Open(envelope).value.0, Open(envelope).value.1) == envelope
  {
    assert envelope == envelope[..NonceLength] + envelope[NonceLength..];
  }

  /** Envelopes built under different nonces differ, whatever the ciphertexts. */
  lemma SealDistinguishesNonces(n1: Nonce, c1: seq<byte>, n2: Nonce, c2: seq<byte>)
    requires n1 != n2
    ensures Seal(n1, c1) != Seal(n2, c2)
  {
    assert Seal(n1, c1)[..NonceLength] == n1;
    assert Seal(n2, c2)[..NonceLength] == n2;
  }

  /** Padding appends exactly the spaces that bring the UTF-16 length up to the next multiple of 16. */
  lemma PadClosedForm(json: string)
    ensures Pad(json) == json + Spaces((PadBlock - Utf16Length(json) % PadBlock) % PadBlock)
  {
    var n := Utf16Length(json);
    if n % PadBlock != 0 {
      RoundUp(n);
    } else {
      NothingToAdd(n);
      assert json + Spaces(0) == json;
    }
  }

  /** An aligned length needs no more. */
  lemma NothingToAdd(n: nat)
    requires n % PadBlock == 0
    ensures (PadBlock - n % PadBlock) % PadBlock == 0
  {
  }

  /** What the cipher encrypts: the UTF-8 bytes of the padded JSON text. */
  function Plaintext(p: Primitives, request: AuthRequest): (r: seq<byte>)
    ensures var json := p.stringify(request);
            r == p.encodeUtf8(json + Spaces((PadBlock - Utf16Length(json) % PadBlock) % PadBlock))
  {
    PadClosedForm(p.stringify(request));
    p.encodeUtf8(Pad(p.stringify(request)))
  }

  /** The error `encryptRequest` raises when WebCrypto rejects the key or the call. */
  datatype EncryptError = EncryptionFailed

  /**
   * `encryptRequest`, with the random nonce passed in: the envelope opens to
   * that nonce and the AES-GCM ciphertext of the padded plaintext; a rejected
   * encryption is an error.
   */
  function EncryptRequest(p: Primitives, request: AuthRequest, key: seq<byte>, nonce: Nonce): (r: Result<seq<byte>, EncryptError>)
    ensures r.Failure? <==> p.aesGcmEncrypt(key, nonce, Plaintext(p, request)).None?
    ensures r.Success? ==>
              Open(r.value) == Some((nonce, p.aesGcmEncrypt(key, nonce, Plaintext(p, request)).value))
  {
    match p.aesGcmEncrypt(key, nonce, Plaintext(p, request))
    case None => Failure(EncryptionFailed)
    case Some(ciphertext) =>
      OpenSeal(nonce, ciphertext);
      Success(Seal(nonce, ciphertext))
  }
}
