/** `makeKey`: the 32-byte AES key from the operator's secret string. */
module KeyDerivation {
  import opened Bytes
  import opened JsText
  import opened Primitives

  /** One character of the class `[0-9a-fA-F]`. */
  predicate IsHexDigit(c: char)
  {
    '0' <= c <= '9' || 'a' <= c <= 'f' || 'A' <= c <= 'F'
  }

  /** The value of a hex digit, either case. */
  function HexValue(c: char): (v: nat)
    requires IsHexDigit(c)
    ensures v < 16
  {
    if '0' <= c <= '9' then c as int - '0' as int
    else if 'a' <= c <= 'f' then c as int - 'a' as int + 10
    else c as int - 'A' as int + 10
  }

  predicate AllHex(s: string)
  {
    forall k :: 0 <= k < |s| ==> IsHexDigit(s[k])
  }

  /** The test `key.length == 64 && /^[0-9a-fA-F]+$/.test(key)`, with the JavaScript length. */
  predicate PassesHexTest(key: string)
  {
    Utf16Length(key) == 64 && |key| > 0 && AllHex(key)
  }

  /** A raw key: 64 hex digits. */
  predicate IsHexKey(key: string)
  {
    |key| == 64 && AllHex(key)
  }

  /** Hex digits are single UTF-16 code units, so the JavaScript test accepts exactly the raw keys. */
  lemma HexTestIsHexKey(key: string)
    ensures PassesHexTest(key) <==> IsHexKey(key)
  {
    if AllHex(key) {
      AsciiLength(key);
    }
  }

  lemma {:induction false} AsciiLength(s: string)
    requires AllHex(s)
    ensures Utf16Length(s) == |s|
    decreases |s|
  {
    if |s| > 0 {
      assert IsHexDigit(s[0]);
      AsciiLength(s[1..]);
    }
  }

  /** `parseInt(hi + lo, 16)` for two hex digits. */
  function ParseHexPair(hi: char, lo: char): (b: byte)
    requires IsHexDigit(hi) && IsHexDigit(lo)
    ensures b as int == 16 * HexValue(hi) + HexValue(lo)
  {
    (16 * HexValue(hi) + HexValue(lo)) as byte
  }

  /** The bytes a string of hex digit pairs spells, most significant digit first. */
  function HexDecode(s: string): (r: seq<byte>)
    requires |s| % 2 == 0 && AllHex(s)
    ensures |r| == |s| / 2
    ensures forall i :: 0 <= i < |r| ==> r[i] == ParseHexPair(s[2 * i], s[2 * i + 1])
    decreases |s|
  {
    if |s| == 0 then []
    else
      var rest := HexDecode(s[2..]);
      assert forall i :: 1 <= i < 1 + |rest| ==> rest[i - 1] == ParseHexPair(s[2 * i], s[2 * i + 1]) by {
        forall i | 1 <= i < 1 + |rest|
          ensures rest[i - 1] == ParseHexPair(s[2 * i], s[2 * i + 1])
        {
          assert s[2..][2 * (i - 1)] == s[2 * i];
          assert s[2..][2 * (i - 1) + 1] == s[2 * i + 1];
        }
      }
      [ParseHexPair(s[0], s[1])] + rest
  }

  /** The lower-case digit for a value below 16. */
  function HexDigit(v: nat): (c: char)
    requires v < 16
    ensures IsHexDigit(c) && HexValue(c) == v
  {
    if v < 10 then ('0' as int + v) as char else ('a' as int + v - 10) as char
  }

  /**
   * Two hex digits and the byte they spell determine each other: the byte's
   * high and low halves are the digits' values, and the lower-case digits of
   * any byte's halves parse back to that byte.
   */
  lemma HexPairInverse(hi: char, lo: char, v: byte)
    requires IsHexDigit(hi) && IsHexDigit(lo)
    ensures ParseHexPair(hi, lo) as int / 16 == HexValue(hi)
    ensures ParseHexPair(hi, lo) as int % 16 == HexValue(lo)
    ensures ParseHexPair(HexDigit(v as int / 16), HexDigit(v as int % 16)) == v
  {
  }

  /** Bytes written as lower-case hex, two digits each. */
  function HexEncode(b: seq<byte>): (r: string)
    ensures |r| == 2 * |b| && AllHex(r)
  {
    if |b| == 0 then ""
    else [HexDigit(b[0] as int / 16), HexDigit(b[0] as int % 16)] + HexEncode(b[1..])
  }

  /** Decoding what was encoded gives the bytes back. */
  lemma {:induction false} HexRoundTrip(b: seq<byte>)
    ensures HexDecode(HexEncode(b)) == b
    decreases |b|
  {
    if |b| > 0 {
      var s := HexEncode(b);
      HexRoundTrip(b[1..]);
      assert s[2..] == HexEncode(b[1..]);
      HexPairInverse(s[0], s[1], b[0]);
    }
  }

  /**
   * `makeKey`: a string of 64 hex digits is decoded into the 32 bytes it
   * spells; any other string is encoded as UTF-8 and hashed with SHA-256.
   */
  function DeriveKey(p: Primitives, key: string): (r: Bytes32)
    ensures IsHexKey(key) ==>
              forall i :: 0 <= i < 32 ==> r[i] as int == 16 * HexValue(key[2 * i]) + HexValue(key[2 * i + 1])
    ensures !IsHexKey(key) ==> r == p.sha256(p.encodeUtf8(key))
  {
    HexTestIsHexKey(key);
    if PassesHexTest(key) then HexDecode(key) else p.sha256(p.encodeUtf8(key))
  }

  /** Any 32-byte key, written as hex, is taken back as exactly that key. */
  lemma DeriveKeyOfHex(p: Primitives, k: Bytes32)
    ensures DeriveKey(p, HexEncode(k)) == k
  {
    var s := HexEncode(k);
    HexKeyDecodes(p, s);
    HexRoundTrip(k);
  }

  /** A raw key is hex-decoded, never hashed. */
  lemma HexKeyDecodes(p: Primitives, key: string)
    requires IsHexKey(key)
    ensures DeriveKey(p, key) == HexDecode(key)
  {
    HexTestIsHexKey(key);
  }

  /**
   * `makeKey` as written: the hex loop fills a 32-byte buffer, one byte per
   * two characters; otherwise the digest is returned.
   */
  method MakeKey(p: Primitives, key: string) returns (r: Bytes32)
    ensures r == DeriveKey(p, key)
  {
    HexTestIsHexKey(key);
    if PassesHexTest(key) {
      var buf: seq<byte> := seq(|key| / 2, _ => 0);
      var i := 0;
      while i < |key|
        invariant 0 <= i <= |key| && i % 2 == 0
        invariant |buf| == |key| / 2
        invariant forall j :: 0 <= j < i / 2 ==> buf[j] == HexDecode(key)[j]
        decreases |key| - i
      {
        buf := buf[i / 2 := ParseHexPair(key[i], key[i + 1])];
        i := i + 2;
      }
      return buf;
    }
    return p.sha256(p.encodeUtf8(key));
  }
}
