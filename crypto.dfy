/**
 * Content hashing and signature hashes (`lib/crypto.ts`). SHA-256 (FIPS 180-4) and the UTF-8
 * encoder are platform primitives the source calls and does not define, so they are parameters
 * here; what the source itself does around them is modelled exactly: strings are hashed as
 * they are, any other value as its `JSON.stringify` text, and the digest is written as
 * lower-case base16 (section 8 of RFC 4648), two characters per byte.
 */
module Crypto {
  import opened Text
  import opened Json

  newtype byte = x: int | 0 <= x < 256

  /** The SHA-256 digest and the UTF-8 encoder of the platform. */
  datatype Primitives = Primitives(sha256: seq<byte> -> seq<byte>, utf8: string -> seq<byte>)

  /** SHA-256 always yields 32 bytes. */
  ghost predicate DigestIs256Bits(p: Primitives) {
    forall m :: |p.sha256(m)| == 32
  }

  /** The idealisation under which tampering is detectable: distinct texts hash differently. */
  ghost predicate CollisionFree(p: Primitives) {
    forall t1, t2 :: p.sha256(p.utf8(t1)) == p.sha256(p.utf8(t2)) ==> t1 == t2
  }

  predicate IsLowerHex(s: string) {
    forall i :: 0 <= i < |s| ==> ('0' <= s[i] <= '9') || ('a' <= s[i] <= 'f')
  }

  /** `b.toString(16).padStart(2, '0')`. */
  function HexByte(b: byte): string {
    [HexDigit(b as int / 16), HexDigit(b as int % 16)]
  }

  /** `bytes.map(b => b.toString(16).padStart(2, '0')).join('')`. */
  function Hex(bs: seq<byte>): (r: string)
    ensures |r| == 2 * |bs|
    ensures IsLowerHex(r)
  {
    if bs == [] then [] else HexByte(bs[0]) + Hex(bs[1..])
  }

  /** Reads base16 text back, two characters per byte. */
  function Unhex(s: string): seq<byte>
    decreases |s|
  {
    if |s| < 2 then [] else [(HexValue(s[0]) * 16 + HexValue(s[1])) as byte] + Unhex(s[2..])
  }

  /** Decoding undoes encoding, so every byte sequence has its own hex text. */
  lemma {:induction false} HexRoundTrip(bs: seq<byte>)
    ensures Unhex(Hex(bs)) == bs
  {
    if bs != [] {
      var b := bs[0] as int;
      HexValueOfDigit(b / 16);
      HexValueOfDigit(b % 16);
      assert Hex(bs)[2..] == Hex(bs[1..]);
      HexRoundTrip(bs[1..]);
    }
  }

  /** Distinct digests are written as distinct strings. */
  lemma HexInjective(a: seq<byte>, b: seq<byte>)
    requires Hex(a) == Hex(b)
    ensures a == b
  {
    HexRoundTrip(a);
    HexRoundTrip(b);
  }

  lemma {:induction false} HexAppend(a: seq<byte>, b: seq<byte>)
    ensures Hex(a + b) == Hex(a) + Hex(b)
  {
    if a != [] {
      assert (a + b)[1..] == a[1..] + b;
      HexAppend(a[1..], b);
    } else {
      assert a + b == b;
    }
  }

  /** The text `generateHash` digests: a string as it is, anything else as its JSON text. */
  function HashText(content: Value): string {
    if content.JStr? then content.s else Stringify(content)
  }

  /** `generateHash(content)`. */
  function GenerateHash(p: Primitives, content: Value): (h: string)
    ensures IsLowerHex(h)
  {
    Hex(p.sha256(p.utf8(HashText(content))))
  }

  /** With a 32-byte digest every hash is 64 lower-case hex characters. */
  lemma GenerateHashShape(p: Primitives, content: Value)
    requires DigestIs256Bits(p)
    ensures |GenerateHash(p, content)| == 64 && IsLowerHex(GenerateHash(p, content))
  {
  }

  /** An object is hashed as its JSON text; a string is hashed as itself, not as its JSON literal. */
  lemma HashOfObjectIsHashOfItsText(p: Primitives, content: Value)
    requires !content.JStr?
    ensures GenerateHash(p, content) == GenerateHash(p, JStr(Stringify(content)))
  {
  }

  /** With a collision-free digest, equal hashes mean equal hashed texts. */
  lemma GenerateHashInjective(p: Primitives, x: Value, y: Value)
    requires CollisionFree(p)
    requires GenerateHash(p, x) == GenerateHash(p, y)
    ensures HashText(x) == HashText(y)
  {
    HexInjective(p.sha256(p.utf8(HashText(x))), p.sha256(p.utf8(HashText(y))));
  }

  /** The object `generateSignatureHash` hashes, with its five fields in this order. */
  function SignaturePayload(recordId: string, recordVersion: int, signerId: string, intent: string, timestamp: string): Value {
    JObject([
      Member("record_id", JStr(recordId)),
      Member("record_version", JNum(recordVersion)),
      Member("signer_id", JStr(signerId)),
      Member("intent", JStr(intent)),
      Member("timestamp", JStr(timestamp))])
  }

  /** `generateSignatureHash(recordId, recordVersion, signerId, intent, timestamp)`. */
  function GenerateSignatureHash(p: Primitives, recordId: string, recordVersion: int, signerId: string, intent: string, timestamp: string): string {
    GenerateHash(p, SignaturePayload(recordId, recordVersion, signerId, intent, timestamp))
  }

  /** `verifySignature`: recompute the signature hash and compare. */
  function VerifySignature(p: Primitives, signatureHash: string, recordId: string, recordVersion: int, signerId: string, intent: string, timestamp: string): bool {
    signatureHash == GenerateSignatureHash(p, recordId, recordVersion, signerId, intent, timestamp)
  }

  /**
   * The exact text that is digested for a signature: the five members in the order
   * record_id, record_version, signer_id, intent, timestamp, with no white space.
   */
  function SignatureText(recordId: string, recordVersion: int, signerId: string, intent: string, timestamp: string): string {
    "{" + (MemberText("record_id", Quote(recordId)) + "," +
          (MemberText("record_version", IntText(recordVersion)) + "," +
          (MemberText("signer_id", Quote(signerId)) + "," +
          (MemberText("intent", Quote(intent)) + "," +
           MemberText("timestamp", Quote(timestamp)))))) + "}"
  }

  lemma SignaturePayloadText(recordId: string, recordVersion: int, signerId: string, intent: string, timestamp: string)
    ensures HashText(SignaturePayload(recordId, recordVersion, signerId, intent, timestamp)) ==
      SignatureText(recordId, recordVersion, signerId, intent, timestamp)
  {
    var m0 := Member("record_id", JStr(recordId));
    var m1 := Member("record_version", JNum(recordVersion));
    var m2 := Member("signer_id", JStr(signerId));
    var m3 := Member("intent", JStr(intent));
    var m4 := Member("timestamp", JStr(timestamp));
    assert SignaturePayload(recordId, recordVersion, signerId, intent, timestamp).members
      == [m0] + ([m1] + ([m2] + ([m3] + [m4])));
    StringifyMembersCons(m3, [m4]);
    StringifyMembersCons(m2, [m3] + [m4]);
    StringifyMembersCons(m1, [m2] + ([m3] + [m4]));
    StringifyMembersCons(m0, [m1] + ([m2] + ([m3] + [m4])));
  }

  /** Two texts in braces are equal only if what the braces hold is. */
  lemma UnwrapBraces(x: string, y: string)
    requires "{" + x + "}" == "{" + y + "}"
    ensures x == y
  {
    assert x == ("{" + x + "}")[1..|x| + 1];
    assert y == ("{" + y + "}")[1..|y| + 1];
  }

  /** A member with a string value determines the string. */
  lemma StringMemberInjective(key: string, a: string, b: string)
    requires MemberText(key, Quote(a)) == MemberText(key, Quote(b))
    ensures a == b
  {
    CancelPrefix(Quote(key) + ":", Quote(a), Quote(b));
    assert Quote(a) + [] == Quote(b) + [];
    QuotePrefixFree(a, b, [], []);
  }

  /** The signature text determines all five signed fields. */
  lemma SignatureTextInjective(
    a0: string, n0: int, b0: string, c0: string, d0: string,
    a1: string, n1: int, b1: string, c1: string, d1: string)
    requires SignatureText(a0, n0, b0, c0, d0) == SignatureText(a1, n1, b1, c1, d1)
    ensures a0 == a1 && n0 == n1 && b0 == b1 && c0 == c1 && d0 == d1
  {
    var tx, ty := MemberText("timestamp", Quote(d0)), MemberText("timestamp", Quote(d1));
    var r3x, r3y := MemberText("intent", Quote(c0)) + "," + tx, MemberText("intent", Quote(c1)) + "," + ty;
    var r2x, r2y := MemberText("signer_id", Quote(b0)) + "," + r3x, MemberText("signer_id", Quote(b1)) + "," + r3y;
    var r1x, r1y := MemberText("record_version", IntText(n0)) + "," + r2x, MemberText("record_version", IntText(n1)) + "," + r2y;
    var bodyX, bodyY := MemberText("record_id", Quote(a0)) + "," + r1x, MemberText("record_id", Quote(a1)) + "," + r1y;
    assert SignatureText(a0, n0, b0, c0, d0) == "{" + bodyX + "}";
    assert SignatureText(a1, n1, b1, c1, d1) == "{" + bodyY + "}";
    UnwrapBraces(bodyX, bodyY);
    StringMemberPrefixFree("record_id", a0, a1, r1x, r1y);
    IntMemberPrefixFree("record_version", n0, n1, r2x, r2y);
    StringMemberPrefixFree("signer_id", b0, b1, r3x, r3y);
    StringMemberPrefixFree("intent", c0, c1, tx, ty);
    StringMemberInjective("timestamp", d0, d1);
  }

  /** Hashing then verifying the same five fields always succeeds. */
  lemma VerifyRoundTrip(p: Primitives, recordId: string, recordVersion: int, signerId: string, intent: string, timestamp: string)
    ensures VerifySignature(p, GenerateSignatureHash(p, recordId, recordVersion, signerId, intent, timestamp),
                            recordId, recordVersion, signerId, intent, timestamp)
  {
  }

  /**
   * With a collision-free digest, a signature hash verifies against exactly the fields it was
   * made from: changing any one of the five makes verification fail.
   */
  lemma VerifyDetectsTampering(
    p: Primitives,
    a0: string, n0: int, b0: string, c0: string, d0: string,
    a1: string, n1: int, b1: string, c1: string, d1: string)
    requires CollisionFree(p)
    ensures VerifySignature(p, GenerateSignatureHash(p, a0, n0, b0, c0, d0), a1, n1, b1, c1, d1)
      <==> (a0 == a1 && n0 == n1 && b0 == b1 && c0 == c1 && d0 == d1)
  {
    if VerifySignature(p, GenerateSignatureHash(p, a0, n0, b0, c0, d0), a1, n1, b1, c1, d1) {
      GenerateHashInjective(p, SignaturePayload(a0, n0, b0, c0, d0), SignaturePayload(a1, n1, b1, c1, d1));
      SignaturePayloadText(a0, n0, b0, c0, d0);
      SignaturePayloadText(a1, n1, b1, c1, d1);
      SignatureTextInjective(a0, n0, b0, c0, d0, a1, n1, b1, c1, d1);
    }
  }
}
