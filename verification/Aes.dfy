/**
  Encryption of whole messages in aesEcb.go: padding to full blocks, one block at a time, and back. The block cipher
  itself is a parameter: a permutation of blocks for every key.
 */
module Aes {
  import opened Bytes

  const BLOCK: nat := 16

  /** crypto/aes: one block under one key */
  datatype Cipher = Cipher(encrypt: (bytes, bytes) -> bytes, decrypt: (bytes, bytes) -> bytes)

  /** Under every key decryption takes encryption of a block back, and both keep the block's length. */
  ghost predicate Permutes(c: Cipher) {
    forall k: bytes, b: bytes | |k| == BLOCK && |b| == BLOCK ::
      |c.encrypt(k, b)| == BLOCK && |c.decrypt(k, b)| == BLOCK && c.decrypt(k, c.encrypt(k, b)) == b
  }

  function Crypt(c: Cipher, forward: bool, key: bytes, block: bytes): bytes {
    if forward then c.encrypt(key, block) else c.decrypt(key, block)
  }

  lemma OneBlock(c: Cipher, key: bytes, block: bytes)
    requires Permutes(c) && |key| == BLOCK && |block| == BLOCK
    ensures |Crypt(c, true, key, block)| == BLOCK && |Crypt(c, false, key, block)| == BLOCK
    ensures Crypt(c, false, key, Crypt(c, true, key, block)) == block
  {
  }

  // ----- the key (generateecbKey) -----

  function Xor(x: byte, y: byte): byte {
    ((x as bv8) ^ (y as bv8)) as int
  }

  /** Byte j of the key: the exclusive or of every sixteenth byte from j on, zero where there is none. */
  function KeyByte(key: bytes, j: nat, n: nat): byte
    requires j < BLOCK && n <= |key|
  {
    if n == 0 then 0
    else if (n - 1) % BLOCK != j then KeyByte(key, j, n - 1)
    else if n - 1 == j then key[j]
    else Xor(KeyByte(key, j, n - 1), key[n - 1])
  }

  function BlockKey(key: bytes): (r: bytes)
    ensures |r| == BLOCK
  {
    seq(BLOCK, j requires 0 <= j < BLOCK => KeyByte(key, j, |key|))
  }

  /** A key of at most one block is only filled up with zeros. */
  lemma ShortKey(key: bytes)
    requires |key| <= BLOCK
    ensures BlockKey(key) == key + seq(BLOCK - |key|, i => 0)
  {
    forall j | 0 <= j < BLOCK
      ensures BlockKey(key)[j] == if j < |key| then key[j] else 0
    {
      ShortKeyByte(key, j, |key|);
    }
  }

  lemma {:induction false} ShortKeyByte(key: bytes, j: nat, n: nat)
    requires j < BLOCK && n <= |key| <= BLOCK
    ensures KeyByte(key, j, n) == if j < n then key[j] else 0
    decreases n
  {
    if n > 0 {
      ShortKeyByte(key, j, n - 1);
    }
  }

  /** Every further block of a longer key, the last one perhaps shorter, is folded in by exclusive or. */
  lemma LongKey(key: bytes, more: bytes)
    requires key != [] && |key| % BLOCK == 0 && |more| <= BLOCK
    ensures forall j | 0 <= j < BLOCK ::
              BlockKey(key + more)[j] ==
              if j < |more| then ((BlockKey(key)[j] as bv8) ^ (more[j] as bv8)) as int else BlockKey(key)[j]
  {
    hide KeyByte, Xor;
    forall j | 0 <= j < BLOCK
      ensures BlockKey(key + more)[j] == if j < |more| then Xor(BlockKey(key)[j], more[j]) else BlockKey(key)[j]
    {
      KeyByteMore(key, more, j, |more|);
    }
    forall j | 0 <= j < |more|
      ensures Xor(BlockKey(key)[j], more[j]) == ((BlockKey(key)[j] as bv8) ^ (more[j] as bv8)) as int
    {
      XorIs(BlockKey(key)[j], more[j]);
    }
  }

  lemma XorIs(x: byte, y: byte)
    ensures Xor(x, y) == ((x as bv8) ^ (y as bv8)) as int
  {
  }

  lemma {:induction false} KeyByteMore(key: bytes, more: bytes, j: nat, n: nat)
    requires key != [] && |key| % BLOCK == 0 && n <= |more| <= BLOCK && j < BLOCK
    ensures KeyByte(key + more, j, |key| + n)
         == if j < n then Xor(KeyByte(key, j, |key|), more[j]) else KeyByte(key, j, |key|)
    decreases n
  {
    hide Xor, KeyByte;
    if n == 0 {
      SameKeyByte(key, more, j, |key|);
    } else {
      KeyByteMore(key, more, j, n - 1);
      Remainder(|key|, n - 1);
      KeyByteStep(key + more, j, |key| + n);
      assert (key + more)[|key| + n - 1] == more[n - 1];
    }
  }

  lemma Remainder(m: nat, k: nat)
    requires m % BLOCK == 0 && k < BLOCK
    ensures (m + k) % BLOCK == k
  {
  }

  lemma KeyByteStep(key: bytes, j: nat, n: nat)
    requires j < BLOCK < n <= |key|
    ensures KeyByte(key, j, n)
         == if (n - 1) % BLOCK == j then Xor(KeyByte(key, j, n - 1), key[n - 1]) else KeyByte(key, j, n - 1)
  {
    hide Xor;
  }

  lemma {:induction false} SameKeyByte(key: bytes, more: bytes, j: nat, n: nat)
    requires n <= |key| && j < BLOCK
    ensures KeyByte(key + more, j, n) == KeyByte(key, j, n)
    decreases n
  {
    hide Xor;
    if n > 0 {
      SameKeyByte(key, more, j, n - 1);
    }
  }

  /** One more byte of the key changes one byte of the result. */
  lemma KeyBytesNext(key: bytes, i: nat, j: nat)
    requires BLOCK <= i < |key| && i % BLOCK == j
    ensures forall k | 0 <= k < BLOCK ::
              KeyByte(key, k, i + 1) == if k == j then Xor(KeyByte(key, j, i), key[i]) else KeyByte(key, k, i)
  {
    hide Xor;
  }

  method GenerateEcbKey(key: bytes) returns (genKey: array<byte>)
    ensures fresh(genKey) && genKey[..] == BlockKey(key)
  {
    genKey := new byte[BLOCK](i => 0);
    var first := if |key| < BLOCK then |key| else BLOCK;
    for i := 0 to first
      invariant forall j | 0 <= j < BLOCK :: genKey[j] == KeyByte(key, j, i)
    {
      genKey[i] := key[i];
    }
    var i := BLOCK;
    assert |key| <= BLOCK ==> first == |key|;
    while i < |key|
      invariant if |key| <= BLOCK then i == BLOCK else BLOCK <= i <= |key|
      invariant forall j | 0 <= j < BLOCK :: genKey[j] == KeyByte(key, j, if |key| <= BLOCK then |key| else i)
      invariant i < |key| ==> i % BLOCK == 0
      decreases |key| - i
    {
      i := FoldBlock(key, genKey, i);
    }
  }

  /** The inner loop: up to one block of the key is folded in. */
  method FoldBlock(key: bytes, genKey: array<byte>, start: nat) returns (i: nat)
    requires BLOCK <= start < |key| && start % BLOCK == 0 && genKey.Length == BLOCK
    requires forall j | 0 <= j < BLOCK :: genKey[j] == KeyByte(key, j, start)
    modifies genKey
    ensures start < i <= |key| && (i < |key| ==> i % BLOCK == 0)
    ensures forall j | 0 <= j < BLOCK :: genKey[j] == KeyByte(key, j, i)
  {
    hide Xor, KeyByte;
    i := start;
    var j := 0;
    while j < BLOCK && i < |key|
      invariant j <= BLOCK && i == start + j <= |key|
      invariant forall k | 0 <= k < BLOCK :: genKey[k] == KeyByte(key, k, i)
      decreases BLOCK - j
    {
      KeyBytesNext(key, i, j);
      genKey[j] := Xor(genKey[j], key[i]);
      j, i := j + 1, i + 1;
    }
  }

  // ----- blocks -----

  /** Every whole block encrypted, or every one decrypted. */
  function Mapped(c: Cipher, forward: bool, key: bytes, text: bytes): bytes
    decreases |text|
  {
    if |text| < BLOCK then []
    else
      var n := |text| - BLOCK;
      Mapped(c, forward, key, text[..n]) + Crypt(c, forward, key, text[n..])
  }

  function PaddedLength(n: nat): (r: nat)
    ensures n < r <= n + BLOCK && r % BLOCK == 0
  {
    (n + BLOCK) / BLOCK * BLOCK
  }

  /** Filling up to a whole number of blocks, each added byte counting all of them (section 6.3 of RFC 5652). */
  function Padded(src: bytes): (r: bytes)
    ensures |r| == PaddedLength(|src|) && src <= r && forall i | |src| <= i < |r| :: r[i] == |r| - |src|
  {
    var pad := PaddedLength(|src|) - |src|;
    src + seq(pad, i => pad)
  }

  function Encrypted(c: Cipher, src: bytes, key: bytes): bytes {
    Mapped(c, true, BlockKey(key), Padded(src))
  }

  datatype Decryption = Plain(text: bytes) | LengthError | EmptyError

  function Decrypted(c: Cipher, encrypted: bytes, key: bytes): Decryption {
    if |encrypted| % BLOCK != 0 then LengthError else Trimmed(Mapped(c, false, BlockKey(key), encrypted))
  }

  /** The last byte counts how many are taken off; it is not checked that the others agree. */
  function Trimmed(plain: bytes): Decryption {
    if |plain| < 1 then EmptyError
    else if |plain| < plain[|plain| - 1] then LengthError
    else Plain(plain[..|plain| - plain[|plain| - 1]])
  }

  lemma {:induction false} MappedLength(c: Cipher, forward: bool, key: bytes, text: bytes)
    requires Permutes(c) && |key| == BLOCK && |text| % BLOCK == 0
    ensures |Mapped(c, forward, key, text)| == |text|
    decreases |text|
  {
    hide Permutes, Crypt;
    if |text| >= BLOCK {
      var n := |text| - BLOCK;
      MappedLength(c, forward, key, text[..n]);
      OneBlock(c, key, text[n..]);
    }
  }

  lemma MappedNothing(c: Cipher, forward: bool, key: bytes)
    ensures Mapped(c, forward, key, []) == []
  {
  }

  lemma MappedMore(c: Cipher, forward: bool, key: bytes, text: bytes, bs: nat)
    requires bs + BLOCK <= |text|
    ensures Mapped(c, forward, key, text[..bs + BLOCK])
         == Mapped(c, forward, key, text[..bs]) + Crypt(c, forward, key, text[bs..bs + BLOCK])
  {
    hide Crypt;
    assert text[..bs + BLOCK][..bs] == text[..bs] && text[..bs + BLOCK][bs..] == text[bs..bs + BLOCK];
  }

  lemma {:induction false} MappedInverse(c: Cipher, key: bytes, text: bytes)
    requires Permutes(c) && |key| == BLOCK && |text| % BLOCK == 0
    ensures Mapped(c, false, key, Mapped(c, true, key, text)) == text
    decreases |text|
  {
    hide Permutes, Crypt, Mapped;
    if |text| < BLOCK {
      MappedNothing(c, true, key);
      MappedNothing(c, false, key);
    } else {
      var n := |text| - BLOCK;
      var front, last := text[..n], text[n..];
      var e, f := Mapped(c, true, key, front), Crypt(c, true, key, last);
      MappedLength(c, true, key, front);
      MappedInverse(c, key, front);
      OneBlock(c, key, last);
      assert (e + f)[..n] == e && (e + f)[n..] == f && text == front + last;
      MappedMore(c, true, key, text, n);
      MappedMore(c, false, key, e + f, n);
      assert text[..n + BLOCK] == text && (e + f)[..n + BLOCK] == e + f;
    }
  }

  function BlockOf(text: bytes, k: nat): bytes
    requires BLOCK * k + BLOCK <= |text|
  {
    text[BLOCK * k..BLOCK * k + BLOCK]
  }

  lemma {:induction false} MappedBlocks(c: Cipher, forward: bool, key: bytes, text: bytes)
    requires Permutes(c) && |key| == BLOCK && |text| % BLOCK == 0
    ensures |Mapped(c, forward, key, text)| == |text|
    ensures forall k | 0 <= k < |text| / BLOCK ::
              BlockOf(Mapped(c, forward, key, text), k) == Crypt(c, forward, key, BlockOf(text, k))
    decreases |text|
  {
    hide Permutes, Crypt, Mapped;
    MappedLength(c, forward, key, text);
    if |text| >= BLOCK {
      var n := |text| - BLOCK;
      var front, m := text[..n], Mapped(c, forward, key, text);
      MappedBlocks(c, forward, key, front);
      OneBlock(c, key, text[n..]);
      MappedMore(c, forward, key, text, n);
      assert text[..n + BLOCK] == text;
      forall k | 0 <= k < |text| / BLOCK
        ensures BlockOf(m, k) == Crypt(c, forward, key, BlockOf(text, k))
      {
        if k < n / BLOCK {
          assert BlockOf(front, k) == BlockOf(text, k);
          assert BlockOf(Mapped(c, forward, key, front), k) == BlockOf(m, k);
        } else {
          assert BlockOf(text, k) == text[n..];
        }
      }
    }
  }

  /** Every block of the result is a block of the padded text, encrypted. */
  lemma BlocksEncrypted(c: Cipher, src: bytes, key: bytes, k: nat)
    requires Permutes(c) && BLOCK * k <= |src|
    ensures |Encrypted(c, src, key)| == |Padded(src)| == PaddedLength(|src|) >= BLOCK * k + BLOCK
    ensures BlockOf(Encrypted(c, src, key), k) == c.encrypt(BlockKey(key), BlockOf(Padded(src), k))
  {
    hide Permutes, Mapped, BlockKey;
    MappedBlocks(c, true, BlockKey(key), Padded(src));
  }

  /**
    What a received message decrypts to, from its own blocks: an error unless it is a positive number of whole blocks
    and the last decrypted byte counts no more bytes than there are; otherwise the bytes in front of those counted.
   */
  lemma DecryptedExactly(c: Cipher, encrypted: bytes, key: bytes)
    requires Permutes(c)
    ensures |encrypted| % BLOCK != 0 ==> Decrypted(c, encrypted, key) == LengthError
    ensures encrypted == [] ==> Decrypted(c, encrypted, key) == EmptyError
    ensures |encrypted| % BLOCK == 0 && encrypted != [] ==>
              && |c.decrypt(BlockKey(key), encrypted[|encrypted| - BLOCK..])| == BLOCK
              && var pad := c.decrypt(BlockKey(key), encrypted[|encrypted| - BLOCK..])[BLOCK - 1];
                 if pad > |encrypted| then Decrypted(c, encrypted, key) == LengthError
                 else
                   && Decrypted(c, encrypted, key).Plain?
                   && |Decrypted(c, encrypted, key).text| == |encrypted| - pad
                   && forall i | 0 <= i < |encrypted| - pad ::
                        && |c.decrypt(BlockKey(key), BlockOf(encrypted, i / BLOCK))| == BLOCK
                        && Decrypted(c, encrypted, key).text[i]
                           == c.decrypt(BlockKey(key), BlockOf(encrypted, i / BLOCK))[i % BLOCK]
  {
    hide Permutes, Mapped, BlockKey;
    if |encrypted| % BLOCK == 0 && encrypted != [] {
      var plain := Mapped(c, false, BlockKey(key), encrypted);
      var last := |encrypted| / BLOCK - 1;
      MappedBlocks(c, false, BlockKey(key), encrypted);
      assert BlockOf(encrypted, last) == encrypted[|encrypted| - BLOCK..];
      assert BlockOf(plain, last)[BLOCK - 1] == plain[|plain| - 1];
      forall i | 0 <= i < |encrypted|
        ensures |BlockOf(plain, i / BLOCK)| == BLOCK && plain[i] == BlockOf(plain, i / BLOCK)[i % BLOCK]
        ensures BlockOf(plain, i / BLOCK) == c.decrypt(BlockKey(key), BlockOf(encrypted, i / BLOCK))
      {
        assert i / BLOCK < |encrypted| / BLOCK;
      }
    } else if encrypted == [] {
      MappedNothing(c, false, BlockKey(key));
    }
  }

  /** Decryption takes encryption back, for every text and every key. */
  lemma RoundTrip(c: Cipher, src: bytes, key: bytes)
    requires Permutes(c)
    ensures Decrypted(c, Encrypted(c, src, key), key) == Plain(src)
  {
    hide Permutes, Mapped, BlockKey;
    MappedLength(c, true, BlockKey(key), Padded(src));
    MappedInverse(c, BlockKey(key), Padded(src));
  }

  /** So two different texts never encrypt alike under one key. */
  lemma EncryptedApart(c: Cipher, a: bytes, b: bytes, key: bytes)
    requires Permutes(c) && Encrypted(c, a, key) == Encrypted(c, b, key)
    ensures a == b
  {
    hide Encrypted, Decrypted, Permutes;
    RoundTrip(c, a, key);
    RoundTrip(c, b, key);
  }

  // ----- the loops over slices -----

  /** One block of a slice, in place in another */
  method CryptBlock(c: Cipher, forward: bool, key: bytes, from: array<byte>, to: array<byte>, at: nat)
    requires Permutes(c) && |key| == BLOCK && from != to && at + BLOCK <= from.Length == to.Length
    requires to[..at] == Mapped(c, forward, key, from[..at])
    modifies to
    ensures to[..at + BLOCK] == Mapped(c, forward, key, from[..at + BLOCK])
  {
    hide Permutes, Mapped, Crypt;
    OneBlock(c, key, from[at..at + BLOCK]);
    MappedMore(c, forward, key, from[..], at);
    assert from[..][..at] == from[..at] && from[..][..at + BLOCK] == from[..at + BLOCK];
    assert from[..][at..at + BLOCK] == from[at..at + BLOCK];
    var block := Crypt(c, forward, key, from[at..at + BLOCK]);
    for k := 0 to BLOCK
      invariant to[..at + k] == old(to[..at]) + block[..k]
    {
      to[at + k] := block[k];
      assert to[..at + k + 1] == to[..at + k] + [block[k]];
    }
  }

  method AESEncrypt(c: Cipher, src: bytes, key: bytes) returns (encrypted: array<byte>)
    requires Permutes(c)
    ensures fresh(encrypted) && encrypted[..] == Encrypted(c, src, key)
  {
    hide Permutes, Mapped, BlockKey;
    var blockKey := GenerateEcbKey(key);
    var plain := Pad(src);
    encrypted := new byte[plain.Length](i => 0);
    var bs, be := 0, BLOCK;
    ghost var whole := BlockKey(key);
    MappedNothing(c, true, whole);
    assert encrypted[..0] == [] && plain[..0] == [];
    while bs <= |src|
      invariant be == bs + BLOCK && bs % BLOCK == 0 && bs <= plain.Length
      invariant blockKey[..] == whole && plain[..] == Padded(src)
      invariant encrypted[..bs] == Mapped(c, true, whole, plain[..bs])
      decreases plain.Length - bs
    {
      CryptBlock(c, true, blockKey[..], plain, encrypted, bs);
      bs, be := bs + BLOCK, be + BLOCK;
    }
    assert plain.Length == PaddedLength(|src|) == bs;
    assert encrypted[..bs] == encrypted[..] && plain[..bs] == plain[..];
  }

  method Pad(src: bytes) returns (plain: array<byte>)
    ensures fresh(plain) && plain[..] == Padded(src)
  {
    var length := (|src| + BLOCK) / BLOCK;
    assert length * BLOCK == PaddedLength(|src|);
    plain := new byte[length * BLOCK](i => 0);
    for i := 0 to |src|
      invariant plain[..i] == src[..i]
    {
      plain[i] := src[i];
    }
    var pad: byte := plain.Length - |src|;
    for i := |src| to plain.Length
      invariant plain[..|src|] == src && forall j | |src| <= j < i :: plain[j] == pad
    {
      plain[i] := pad;
    }
  }

  method AESDecrypt(c: Cipher, encrypted: array<byte>, key: bytes) returns (r: Decryption)
    requires Permutes(c)
    ensures r == Decrypted(c, encrypted[..], key)
  {
    hide Permutes, Mapped, BlockKey;
    var blockKey := GenerateEcbKey(key);
    var decrypted := new byte[encrypted.Length](i => 0);
    var bs, be := 0, BLOCK;
    ghost var whole := BlockKey(key);
    MappedNothing(c, false, whole);
    assert encrypted[..0] == [] && decrypted[..0] == [];
    while bs < encrypted.Length
      invariant be == bs + BLOCK && bs % BLOCK == 0 && bs <= encrypted.Length
      invariant blockKey[..] == whole && decrypted[..bs] == Mapped(c, false, whole, encrypted[..bs])
      decreases encrypted.Length - bs
    {
      // be < bs, which the source also tests, does not happen.
      if be > decrypted.Length || be > encrypted.Length {
        assert encrypted.Length % BLOCK == encrypted.Length - bs;
        return LengthError;
      }
      CryptBlock(c, false, blockKey[..], encrypted, decrypted, bs);
      bs, be := bs + BLOCK, be + BLOCK;
    }
    assert encrypted[..bs] == encrypted[..] && decrypted[..bs] == decrypted[..];
    if decrypted.Length < 1 {
      return EmptyError;
    }
    if decrypted.Length < decrypted[decrypted.Length - 1] {
      return LengthError;
    }
    var trim := decrypted.Length - decrypted[decrypted.Length - 1];
    return Plain(decrypted[..trim]);
  }
}
