/**
 * The keyed XOR transform on byte contents: one block against the key (what
 * `xor` leaves in its buffer) and a whole input against the key repeated
 * cyclically (what the block loop of `doXor` writes).
 */
module KeyedXor {
  import KeyBytes

  /** `block` XORed position by position with the first `|block|` bytes of `key`. */
  function XorBlock(block: seq<bv8>, key: seq<bv8>): (r: seq<bv8>)
    requires |block| <= |key|
    ensures |r| == |block|
  {
    seq(|block|, j requires 0 <= j < |block| => block[j] ^ key[j])
  }

  /** Every byte of `data` XORed with the key byte at its offset modulo the key length. */
  function Cipher(data: seq<bv8>, key: seq<bv8>): (r: seq<bv8>)
    requires |key| > 0
    ensures |r| == |data|
  {
    seq(|data|, i requires 0 <= i < |data| => data[i] ^ key[i % |key|])
  }

  /** XORing a block twice with the same key restores it. */
  lemma XorBlockTwice(block: seq<bv8>, key: seq<bv8>)
    requires |block| <= |key|
    ensures XorBlock(XorBlock(block, key), key) == block
  {
    var once := XorBlock(block, key);
    forall j | 0 <= j < |block|
      ensures XorBlock(once, key)[j] == block[j]
    {
      XorTwice(block[j], key[j]);
    }
  }

  lemma XorTwice(x: bv8, k: bv8)
    ensures (x ^ k) ^ k == x
  {
  }

  /** The transform is its own inverse: running it twice with the same key gives the input back. */
  lemma CipherTwice(data: seq<bv8>, key: seq<bv8>)
    requires |key| > 0
    ensures Cipher(Cipher(data, key), key) == data
  {
    var once := Cipher(data, key);
    forall i | 0 <= i < |data|
      ensures Cipher(once, key)[i] == data[i]
    {
      XorTwice(data[i], key[i % |key|]);
    }
  }

  /** An all-zero key leaves the input unchanged. */
  lemma CipherZeroKey(data: seq<bv8>, key: seq<bv8>)
    requires |key| > 0 && forall j :: 0 <= j < |key| ==> key[j] == 0
    ensures Cipher(data, key) == data
  {
    forall i | 0 <= i < |data|
      ensures Cipher(data, key)[i] == data[i]
    {
      assert key[i % |key|] == 0;
    }
  }

  lemma ModOffset(q: nat, n: nat, j: nat)
    requires n > 0 && j < n
    ensures (q * n + j) % n == j
  {
    KeyBytes.DivModUnique(q * n + j, n, q, j);
  }

  /**
   * Transforming the input block by block: when `done` ends on a key
   * boundary, the next block (key-sized, or a shorter last one) is
   * transformed as one `XorBlock` against the leading key bytes.
   */
  lemma CipherAppendBlock(done: seq<bv8>, block: seq<bv8>, key: seq<bv8>)
    requires |key| > 0 && |done| % |key| == 0 && |block| <= |key|
    ensures Cipher(done + block, key) == Cipher(done, key) + XorBlock(block, key)
  {
    var n := |key|;
    var q := |done| / n;
    assert |done| == q * n;
    var whole := done + block;
    forall i | 0 <= i < |whole|
      ensures Cipher(whole, key)[i] == (Cipher(done, key) + XorBlock(block, key))[i]
    {
      if i >= |done| {
        ModOffset(q, n, i - |done|);
      }
    }
  }

  /**
   * One step of the block loop: after `blocks` whole blocks, transforming the
   * next `len` bytes (at most a key's worth) extends the transformed prefix.
   */
  lemma CipherPrefixStep(data: seq<bv8>, key: seq<bv8>, blocks: nat, len: nat)
    requires |key| > 0 && blocks * |key| + len <= |data| && len <= |key|
    ensures var position := blocks * |key|;
      Cipher(data[..position + len], key)
      == Cipher(data[..position], key) + XorBlock(data[position..position + len], key)
  {
    var position := blocks * |key|;
    ModOffset(blocks, |key|, 0);
    CipherAppendBlock(data[..position], data[position..position + len], key);
    assert data[..position + len] == data[..position] + data[position..position + len];
  }
}
