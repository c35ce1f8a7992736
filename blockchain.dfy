/**
 * Anchoring approvals on a chain (`lib/blockchain.ts`). Only the decisions the source makes
 * around the network are modelled: when no anchor is attempted, which chain is used, how the
 * private key is prefixed, how the content hash becomes the 32 bytes of transaction data, and
 * when verification answers false. The transaction itself and the lookups are parameters.
 */
module Blockchain {
  import opened Wrappers
  import opened Text
  import opened Types
  import opened Crypto

  /** `{ transaction_hash, block_number }`. */
  datatype AnchorResult = AnchorResult(transactionHash: Option<string>, blockNumber: Option<int>)

  /** `{ transaction_hash: null, block_number: null }`: recorded in the database only. */
  const NO_ANCHOR: AnchorResult := AnchorResult(None, None)

  datatype Chain = Mainnet | Base

  /** The variables the anchor reads: `ALCHEMY_RPC_URL`, `ANCHOR_PRIVATE_KEY`, `ANCHOR_CHAIN_ID`. */
  datatype AnchorEnv = AnchorEnv(rpcUrl: Option<string>, privateKey: Option<string>, chainId: Option<string>)

  /** `process.env.ANCHOR_CHAIN_ID === '1' ? mainnet : base`. */
  function ChainFor(chainId: Option<string>): (c: Chain)
    ensures c == Mainnet <==> chainId == Some("1")
  {
    if chainId == Some("1") then Mainnet else Base
  }

  /** `privateKey.startsWith('0x') ? privateKey : '0x' + privateKey`. */
  function PrefixKey(key: string): (k: string)
    ensures StartsWith(k, "0x")
    ensures StartsWith(key, "0x") ==> k == key
    ensures !StartsWith(key, "0x") ==> k == "0x" + key
  {
    if StartsWith(key, "0x") then key else "0x" + key
  }

  /** Prefixing a prefixed key changes nothing. */
  lemma PrefixKeyIdempotent(key: string)
    ensures PrefixKey(PrefixKey(key)) == PrefixKey(key)
  {
  }

  /** A character `/^[a-fA-F0-9]+$/` accepts. */
  predicate IsHexChar(c: char) {
    ('0' <= c <= '9') || ('a' <= c <= 'f') || ('A' <= c <= 'F')
  }

  /** `contentHash.length === 64 && /^[a-fA-F0-9]+$/.test(contentHash)`. */
  predicate IsHex64(s: string) {
    |s| == 64 && forall i :: 0 <= i < |s| ==> IsHexChar(s[i])
  }

  function Zeros(n: nat): (z: string)
    ensures |z| == n && forall i :: 0 <= i < n ==> z[i] == '0'
  {
    if n == 0 then [] else "0" + Zeros(n - 1)
  }

  /** `s.padStart(n, '0')`. */
  function PadStart(s: string, n: nat): (r: string)
    ensures |s| >= n ==> r == s
    ensures |s| < n ==> |r| == n && r == Zeros(n - |s|) + s
  {
    if |s| >= n then s else Zeros(n - |s|) + s
  }

  /**
   * `hashHex`: a 64-character hex hash as it is; anything else as the lower-case hex of its UTF-8
   * bytes, left-padded with zeros to 64 characters and cut to the first 64.
   */
  function HashHex(utf8: string -> seq<byte>, contentHash: string): (h: string)
    ensures IsHex64(h)
    ensures IsHex64(contentHash) ==> h == contentHash
    ensures !IsHex64(contentHash) && |utf8(contentHash)| >= 32 ==> h == Hex(utf8(contentHash))[..64]
    ensures !IsHex64(contentHash) && |utf8(contentHash)| < 32 ==>
      h == Zeros(64 - 2 * |utf8(contentHash)|) + Hex(utf8(contentHash))
  {
    if IsHex64(contentHash) then contentHash
    else
      var hex := Hex(utf8(contentHash));
      var padded := PadStart(hex, 64);
      assert forall i :: 0 <= i < |padded| ==> IsHexChar(padded[i]) by {
        assert IsLowerHex(hex);
      }
      padded[..64]
  }

  /** Normalising a normalised hash changes nothing. */
  lemma HashHexIdempotent(utf8: string -> seq<byte>, contentHash: string)
    ensures HashHex(utf8, HashHex(utf8, contentHash)) == HashHex(utf8, contentHash)
  {
  }

  /** The first 64 hex characters of some bytes are the hex of their first 32 bytes. */
  lemma HexPrefix(bs: seq<byte>)
    requires |bs| >= 32
    ensures Hex(bs)[..64] == Hex(bs[..32])
  {
    HexAppend(bs[..32], bs[32..]);
    assert bs[..32] + bs[32..] == bs;
  }

  /**
   * Only the first 32 UTF-8 bytes of a non-hex hash are anchored: two such hashes that share
   * them anchor the same data, whatever follows.
   */
  lemma SharedPrefixCollides(utf8: string -> seq<byte>, a: string, b: string)
    requires !IsHex64(a) && !IsHex64(b)
    requires |utf8(a)| >= 32 && |utf8(b)| >= 32 && utf8(a)[..32] == utf8(b)[..32]
    ensures HashHex(utf8, a) == HashHex(utf8, b)
  {
    HexPrefix(utf8(a));
    HexPrefix(utf8(b));
  }

  /** What is sent: from the key's own address to itself, value 0, gas 100000, the hash as data. */
  datatype AnchorRequest = AnchorRequest(rpcUrl: string, privateKey: string, chain: Chain, data: string, value: int, gas: int)

  /** How the send and the wait for its receipt went; a thrown error anywhere is `SendFailed`. */
  datatype SendOutcome = SendFailed | Confirmed(transactionHash: string, blockNumber: int)

  const ANCHOR_GAS: int := 100000

  /** The request built when both variables are set. */
  function AnchorRequestFor(env: AnchorEnv, utf8: string -> seq<byte>, contentHash: string): (q: AnchorRequest)
    requires Truthy(env.rpcUrl) && Truthy(env.privateKey)
  {
    AnchorRequest(env.rpcUrl.value, PrefixKey(env.privateKey.value), ChainFor(env.chainId),
                  "0x" + HashHex(utf8, contentHash), 0, ANCHOR_GAS)
  }

  /**
   * `anchorRecordToBlockchain`. `send` stands for the transaction and the wait for its receipt.
   * A zero block number is falsy and reads as null.
   */
  function AnchorRecord(env: AnchorEnv, utf8: string -> seq<byte>, contentHash: string, send: AnchorRequest -> SendOutcome)
    : (r: AnchorResult)
    ensures !Truthy(env.rpcUrl) || !Truthy(env.privateKey) ==> r == NO_ANCHOR
    ensures Truthy(env.rpcUrl) && Truthy(env.privateKey) ==>
      var outcome := send(AnchorRequestFor(env, utf8, contentHash));
      && (outcome.SendFailed? ==> r == NO_ANCHOR)
      && (outcome.Confirmed? ==> r.transactionHash == Some(outcome.transactionHash))
      && (outcome.Confirmed? && outcome.blockNumber != 0 ==> r.blockNumber == Some(outcome.blockNumber))
      && (outcome.Confirmed? && outcome.blockNumber == 0 ==> r.blockNumber.None?)
  {
    if !Truthy(env.rpcUrl) || !Truthy(env.privateKey) then NO_ANCHOR
    else
      match send(AnchorRequestFor(env, utf8, contentHash))
      case SendFailed => NO_ANCHOR
      case Confirmed(txHash, blockNumber) =>
        AnchorResult(Some(txHash), if blockNumber != 0 then Some(blockNumber) else None)
  }

  /**
   * Without both variables nothing is sent: the result is the same whatever the network would do.
   */
  lemma UnconfiguredSendsNothing(
    env: AnchorEnv, utf8: string -> seq<byte>, contentHash: string,
    send1: AnchorRequest -> SendOutcome, send2: AnchorRequest -> SendOutcome)
    requires !Truthy(env.rpcUrl) || !Truthy(env.privateKey)
    ensures AnchorRecord(env, utf8, contentHash, send1) == AnchorRecord(env, utf8, contentHash, send2) == NO_ANCHOR
  {
  }

  /**
   * A configured anchor sends to the chain `ANCHOR_CHAIN_ID` names, with a `0x`-prefixed key and
   * exactly 32 bytes of data: `0x` and 64 hex characters.
   */
  lemma AnchorRequestShape(env: AnchorEnv, utf8: string -> seq<byte>, contentHash: string)
    requires Truthy(env.rpcUrl) && Truthy(env.privateKey)
    ensures var q := AnchorRequestFor(env, utf8, contentHash);
      && StartsWith(q.privateKey, "0x")
      && (q.chain == Mainnet <==> env.chainId == Some("1"))
      && |q.data| == 66 && StartsWith(q.data, "0x")
      && (forall i :: 2 <= i < 66 ==> IsHexChar(q.data[i]))
      && (IsHex64(contentHash) ==> q.data == "0x" + contentHash)
      && q.value == 0 && q.gas == ANCHOR_GAS
  {
    var h := HashHex(utf8, contentHash);
    assert ("0x" + h)[2..] == h;
  }

  /** What the lookup of the transaction did: found it, found nothing, or threw. */
  datatype Lookup = Found | NotFound | LookupFailed

  /**
   * `verifyBlockchainAnchor`: false without a transaction hash or an RPC URL, or when the lookup
   * finds nothing or throws; otherwise true. `lookup` stands for the query on the chosen chain.
   */
  function VerifyAnchor(anchor: BlockchainAnchor, rpcUrl: Option<string>, chainId: Option<string>,
                        lookup: (Chain, string) -> Lookup): (ok: bool)
    ensures ok <==> Truthy(anchor.transactionHash) && Truthy(rpcUrl) &&
                    lookup(ChainFor(chainId), anchor.transactionHash.value) == Found
  {
    if !Truthy(anchor.transactionHash) then false
    else if !Truthy(rpcUrl) then false
    else lookup(ChainFor(chainId), anchor.transactionHash.value) == Found
  }

  /**
   * Verification checks only that the chain knows the transaction: two anchors with the same
   * transaction hash verify alike whatever content hash, record or version they claim.
   */
  lemma VerifyIgnoresContent(
    a: BlockchainAnchor, b: BlockchainAnchor, rpcUrl: Option<string>, chainId: Option<string>,
    lookup: (Chain, string) -> Lookup)
    requires a.transactionHash == b.transactionHash
    ensures VerifyAnchor(a, rpcUrl, chainId, lookup) == VerifyAnchor(b, rpcUrl, chainId, lookup)
  {
  }
}
