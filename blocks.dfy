/**
 * A block of the store (8ydh_create_a_decent.swift:96-114): its position,
 * its payload text, the hash of its predecessor, and its own hash, which
 * `init` computes once from the other three fields.
 */
module Blocks {
  import opened Wrappers
  import opened Formatting

  /** A SHA-256 digest: exactly 32 bytes. */
  type Digest = s: seq<byte> | |s| == 32 witness seq(32, i => 0)

  /**
   * The two foreign calls `generateHash` makes, taken as parameters: the
   * UTF-8 encoding of a string (`String.data(using: .utf8)`) and CryptoKit's
   * `SHA256.hash`. Nothing is assumed of them beyond being functions.
   */
  datatype Primitives = Primitives(utf8: string -> seq<byte>, sha256: seq<byte> -> Digest)

  datatype Block = Block(index: int, data: string, previousBlockHash: string, blockHash: string)
  {
    /** `generateHash()`: the digest of the block's current fields, as 64 lower-case hex digits. */
    function GenerateHash(p: Primitives): (h: string)
      ensures |h| == 64 && AllLowerHex(h)
    {
      HexString(p.sha256(p.utf8(HashInput(index, data, previousBlockHash))))
    }

    /** The stored hash is still the one the current fields produce (it goes stale when a field is edited). */
    predicate HashIsCurrent(p: Primitives)
    {
      blockHash == GenerateHash(p)
    }
  }

  /** The string `generateHash` hashes: decimal index, data and previous hash, with no separators. */
  function HashInput(index: int, data: string, previousBlockHash: string): (s: string)
  {
    Decimal(index) + data + previousBlockHash
  }

  /**
   * The hash input lays the three fields end to end: the decimal index, then
   * the data, then the previous hash, with nothing between them.
   */
  lemma HashInputLayout(index: int, data: string, previousBlockHash: string)
    ensures var s, n := HashInput(index, data, previousBlockHash), |Decimal(index)|;
            |s| == n + |data| + |previousBlockHash| &&
            s[..n] == Decimal(index) &&
            s[n .. n + |data|] == data &&
            s[n + |data| ..] == previousBlockHash
  {
  }

  /** `Block(index:data:previousBlockHash:)`: the three fields as given, and a hash computed from them. */
  function NewBlock(p: Primitives, index: int, data: string, previousBlockHash: string): (b: Block)
    ensures b.index == index && b.data == data && b.previousBlockHash == previousBlockHash
    ensures b.HashIsCurrent(p)
    ensures |b.blockHash| == 64 && AllLowerHex(b.blockHash)
  {
    var fields := Block(index, data, previousBlockHash, "");
    fields.(blockHash := fields.GenerateHash(p))
  }

  /**
   * The stored hash is the hex rendering of a SHA-256 digest of the hash
   * input: each digest byte is rendered by exactly two characters, and the
   * rendering can be read back into the digest.
   */
  lemma BlockHashRendersDigest(p: Primitives, index: int, data: string, previousBlockHash: string)
    ensures var digest := p.sha256(p.utf8(HashInput(index, data, previousBlockHash)));
            var h := NewBlock(p, index, data, previousBlockHash).blockHash;
            ParseHex(h) == Some(digest) &&
            forall k :: 0 <= k < 32 ==> h[2 * k .. 2 * k + 2] == Hex2(digest[k])
  {
    var digest := p.sha256(p.utf8(HashInput(index, data, previousBlockHash)));
    HexRoundTrip(digest, HexString(digest));
    forall k | 0 <= k < 32
      ensures HexString(digest)[2 * k .. 2 * k + 2] == Hex2(digest[k])
    {
      HexStringAt(digest, k);
    }
  }

  /**
   * Determinism: the hash depends on nothing but the hash input, so two
   * blocks built from inputs that render to the same string get the same
   * hash, whatever the encoding and digest functions are. Every Dafny
   * function is deterministic, so this lemma records the property rather
   * than proving anything particular to the model.
   */
  lemma SameInputSameHash(p: Primitives, i1: int, d1: string, prev1: string, i2: int, d2: string, prev2: string)
    requires HashInput(i1, d1, prev1) == HashInput(i2, d2, prev2)
    ensures NewBlock(p, i1, d1, prev1).blockHash == NewBlock(p, i2, d2, prev2).blockHash
  {
  }

  /**
   * The framing is ambiguous: moving a leading digit of the data onto the
   * end of a positive index leaves the hash input, and so the hash, unchanged.
   */
  lemma DigitShiftCollision(p: Primitives, n: nat, d: nat, data: string, previousBlockHash: string)
    requires n >= 1 && d < 10
    ensures HashInput(n, [DigitChar(d)] + data, previousBlockHash)
         == HashInput(10 * n + d, data, previousBlockHash)
    ensures NewBlock(p, n, [DigitChar(d)] + data, previousBlockHash).blockHash
         == NewBlock(p, 10 * n + d, data, previousBlockHash).blockHash
  {
    DecimalAppendDigit(n, d);
    assert Decimal(n) + ([DigitChar(d)] + data) == (Decimal(n) + [DigitChar(d)]) + data;
  }

  /** The concrete case: blocks (1, "2x", "") and (12, "x", "") are distinct yet share a hash. */
  lemma AmbiguousFramingExample(p: Primitives)
    ensures NewBlock(p, 1, "2x", "") != NewBlock(p, 12, "x", "")
    ensures NewBlock(p, 1, "2x", "").blockHash == NewBlock(p, 12, "x", "").blockHash
  {
    assert "2x" == [DigitChar(2)] + "x";
    DigitShiftCollision(p, 1, 2, "x", "");
  }

  /**
   * Where the framing is not ambiguous: for one index and previous hashes of
   * one length (every non-genesis link is 64 hex digits), equal hash inputs
   * mean equal data and equal previous hashes.
   */
  lemma HashInputUnambiguous(index: int, d1: string, prev1: string, d2: string, prev2: string)
    requires |prev1| == |prev2|
    requires HashInput(index, d1, prev1) == HashInput(index, d2, prev2)
    ensures d1 == d2 && prev1 == prev2
  {
    HashInputLayout(index, d1, prev1);
    HashInputLayout(index, d2, prev2);
    assert |d1| == |d2|;
  }
}
