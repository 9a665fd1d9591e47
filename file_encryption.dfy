/** Key derivation and the keystream cipher of
    Cryptography/examples/06_file_encryption.c. Hashes are C `uint32_t`
    values, kept as integers below 2^32 with every wrap written out. */
module FileEncryption {
  import opened Common

  const KEY_SIZE: nat := 32
  const SALT_SIZE: nat := 16
  const IV_SIZE: nat := 16
  const STREAM_SIZE: nat := 48  // KEY_SIZE + IV_SIZE
  const ITERATIONS: nat := 10000

  /** The value of a password byte as a (signed) C `char`. */
  function CharValue(b: bv8): (v: int)
    ensures -128 <= v < 128 && v % 256 == b as int
  {
    if b < 128 then b as int else b as int - 256
  }

  /** The password bytes as the chars added to the hash. */
  function CharValues(password: seq<bv8>): (r: seq<int>)
    ensures |r| == |password|
  {
    seq(|password|, i requires 0 <= i < |password| => CharValue(password[i]))
  }

  /** The hash after feeding data, one step per value, starting from h. */
  function Absorb(h: nat, data: seq<int>): (r: nat)
    requires h < TWO_32
    ensures r < TWO_32
  {
    if |data| == 0 then h else Mix(Absorb(h, data[..|data| - 1]), data[|data| - 1])
  }

  /** Absorbing a + b is absorbing a, then b. */
  lemma {:induction false} AbsorbConcat(h: nat, a: seq<int>, b: seq<int>)
    requires h < TWO_32
    ensures Absorb(h, a + b) == Absorb(Absorb(h, a), b)
  {
    if |b| > 0 {
      assert (a + b)[..|a + b| - 1] == a + b[..|b| - 1];
      AbsorbConcat(h, a, b[..|b| - 1]);
    } else {
      assert a + b == a;
    }
  }

  /** Started from 5381, absorbing is the djb2 hash. */
  lemma {:induction false} AbsorbIsDjb2(data: seq<int>)
    ensures Absorb(5381, data) == Djb2(data)
  {
    if |data| > 0 {
      AbsorbIsDjb2(data[..|data| - 1]);
      MixIsMul33(Absorb(5381, data[..|data| - 1]), data[|data| - 1]);
    }
  }

  /** What one iteration of the outer loop feeds: the password chars, then
      the salt. */
  function Block(password: seq<bv8>, salt: seq<bv8>): seq<int>
  {
    CharValues(password) + ByteValues(salt)
  }

  /** The hash after n iterations of the outer loop. */
  function Rounds(password: seq<bv8>, salt: seq<bv8>, n: nat): (h: nat)
    ensures h < TWO_32
  {
    if n == 0 then 5381 else Absorb(Rounds(password, salt, n - 1), Block(password, salt))
  }

  /** 0, 1, ..., n - 1: the counters mixed in for the key bytes. */
  function Counters(n: nat): (r: seq<int>)
    ensures |r| == n && forall i :: 0 <= i < n ==> r[i] == i
  {
    if n == 0 then [] else Counters(n - 1) + [n - 1]
  }

  /** The key derive_key writes: byte i is the low byte of the hash after
      the counters 0..i have been mixed into the hash of the rounds. */
  function DeriveKey(password: seq<bv8>, salt: seq<bv8>): (key: seq<bv8>)
    ensures |key| == KEY_SIZE
  {
    var h := Rounds(password, salt, ITERATIONS);
    seq(KEY_SIZE, i requires 0 <= i < KEY_SIZE => LowByte(KeyHash(h, i)))
  }

  /** The hash once counter i has been mixed in, starting from h. */
  function KeyHash(h: nat, i: nat): (r: nat)
    requires h < TWO_32
    ensures r < TWO_32
  {
    Mix(if i == 0 then h else KeyHash(h, i - 1), i)
  }

  /** `hash & 0xFF` stored in a uint8_t. */
  function LowByte(h: nat): bv8
  {
    (h % 256) as bv8
  }

  /** The key hashes are the hash absorbing the counters 0..i. */
  lemma {:induction false} KeyHashAbsorbs(h: nat, i: nat)
    requires h < TWO_32
    ensures KeyHash(h, i) == Absorb(h, Counters(i + 1))
  {
    assert Counters(i + 1)[..i] == Counters(i);
    if i > 0 {
      KeyHashAbsorbs(h, i - 1);
    }
  }

  /** n copies of a block, one after the other. */
  function Repeat(block: seq<int>, n: nat): (r: seq<int>)
    ensures |r| == n * |block|
  {
    if n == 0 then [] else Repeat(block, n - 1) + block
  }

  lemma {:induction false} RoundsAbsorbRepeat(password: seq<bv8>, salt: seq<bv8>, n: nat)
    ensures Rounds(password, salt, n) == Absorb(5381, Repeat(Block(password, salt), n))
  {
    if n > 0 {
      RoundsAbsorbRepeat(password, salt, n - 1);
      AbsorbConcat(5381, Repeat(Block(password, salt), n - 1), Block(password, salt));
    }
  }

  /** The derived key, independently of the loops: key byte i is the low
      byte of the djb2 hash of 10000 copies of password ‖ salt followed by
      the counters 0..i. */
  lemma DeriveKeyIsDjb2(password: seq<bv8>, salt: seq<bv8>, i: nat)
    requires i < KEY_SIZE
    ensures DeriveKey(password, salt)[i]
         == LowByte(Djb2(Repeat(Block(password, salt), ITERATIONS) + Counters(i + 1)))
  {
    var pre := Repeat(Block(password, salt), ITERATIONS);
    KeyHashAbsorbs(Rounds(password, salt, ITERATIONS), i);
    RoundsAbsorbRepeat(password, salt, ITERATIONS);
    AbsorbConcat(5381, pre, Counters(i + 1));
    AbsorbIsDjb2(pre + Counters(i + 1));
  }

  /** The password loop of one iteration. */
  method AbsorbPassword(h0: nat, password: seq<bv8>) returns (h: nat)
    requires h0 < TWO_32
    ensures h == Absorb(h0, CharValues(password))
  {
    h := h0;
    for i := 0 to |password|
      invariant h == Absorb(h0, CharValues(password)[..i])
    {
      assert CharValues(password)[..i + 1][..i] == CharValues(password)[..i];
      h := Mix(h, CharValue(password[i]));
    }
    assert CharValues(password)[..|password|] == CharValues(password);
  }

  /** The salt loop of one iteration. */
  method AbsorbSalt(h0: nat, salt: seq<bv8>) returns (h: nat)
    requires h0 < TWO_32 && |salt| == SALT_SIZE
    ensures h == Absorb(h0, ByteValues(salt))
  {
    h := h0;
    for i := 0 to SALT_SIZE
      invariant h == Absorb(h0, ByteValues(salt)[..i])
    {
      assert ByteValues(salt)[..i + 1][..i] == ByteValues(salt)[..i];
      h := Mix(h, salt[i] as int);
    }
    assert ByteValues(salt)[..SALT_SIZE] == ByteValues(salt);
  }

  /** The outer loop of derive_key: 10000 rounds over the password and the
      16-byte salt. */
  method HashRounds(password: seq<bv8>, salt: seq<bv8>) returns (hash: nat)
    requires |salt| == SALT_SIZE
    ensures hash == Rounds(password, salt, ITERATIONS)
  {
    hash := 5381;
    for iteration := 0 to ITERATIONS
      invariant hash == Rounds(password, salt, iteration)
    {
      hash := AbsorbPassword(hash, password);
      hash := AbsorbSalt(hash, salt);
      AbsorbConcat(Rounds(password, salt, iteration), CharValues(password), ByteValues(salt));
    }
  }

  /** derive_key: the rounds, then one hash step per key byte. Writes
      key[0..32) and nothing else. */
  method DeriveKeyInto(password: seq<bv8>, salt: seq<bv8>, key: array<bv8>)
    requires |salt| == SALT_SIZE && key.Length >= KEY_SIZE
    modifies key
    ensures key[..KEY_SIZE] == DeriveKey(password, salt)
    ensures key[KEY_SIZE..] == old(key[KEY_SIZE..])
  {
    var hash := HashRounds(password, salt);
    ghost var h := hash;
    ghost var want := DeriveKey(password, salt);
    for i := 0 to KEY_SIZE
      invariant hash == if i == 0 then h else KeyHash(h, i - 1)
      invariant forall k :: 0 <= k < i ==> key[k] == want[k]
      invariant forall k :: KEY_SIZE <= k < key.Length ==> key[k] == old(key[k])
    {
      hash := Mix(hash, i);
      assert hash == KeyHash(h, i) && want[i] == LowByte(hash);
      key[i] := LowByte(hash);
    }
  }

  // ------------------------------------------------------------ keystream

  /** A data byte XOR its keystream slot. */
  function Cipher(b: bv8, slot: bv8): bv8
  {
    b ^ slot
  }

  /** The keystream update: the slot just used is XORed with a byte. */
  function Feedback(slot: bv8, b: bv8): bv8
  {
    slot ^ b
  }

  /** The keystream of encrypt_data once the bytes of d have been processed:
      it starts as key ‖ iv, and byte i XORs slot i mod 48 with the output
      byte it produced. */
  function Stream(d: seq<bv8>, ks0: seq<bv8>): (ks: seq<bv8>)
    requires |ks0| == STREAM_SIZE
    ensures |ks| == STREAM_SIZE
  {
    if |d| == 0 then ks0
    else
      var ks := Stream(d[..|d| - 1], ks0);
      var j := (|d| - 1) % STREAM_SIZE;
      ks[j := Feedback(ks[j], Cipher(d[|d| - 1], ks[j]))]
  }

  /** encrypt_data's result: byte i is data[i] XOR slot i mod 48 of the
      keystream as the first i bytes left it. */
  function Encrypt(d: seq<bv8>, key: seq<bv8>, iv: seq<bv8>): (r: seq<bv8>)
    requires |key| == KEY_SIZE && |iv| == IV_SIZE
    ensures |r| == |d|
  {
    seq(|d|, i requires 0 <= i < |d| => Cipher(d[i], Slot(d, i, key + iv)))
  }

  /** The keystream byte that encrypts byte i of d. */
  function Slot(d: seq<bv8>, i: nat, ks0: seq<bv8>): bv8
    requires |ks0| == STREAM_SIZE && i <= |d|
  {
    Stream(d[..i], ks0)[i % STREAM_SIZE]
  }

  /** One more byte of the keystream. */
  lemma StreamNext(d: seq<bv8>, i: nat, ks0: seq<bv8>)
    requires |ks0| == STREAM_SIZE && i < |d|
    ensures Stream(d[..i + 1], ks0)
         == Stream(d[..i], ks0)[i % STREAM_SIZE := Feedback(Stream(d[..i], ks0)[i % STREAM_SIZE],
                                                           Cipher(d[i], Stream(d[..i], ks0)[i % STREAM_SIZE]))]
  {
    assert d[..i + 1][..i] == d[..i];
  }

  /** encrypt_data: the keystream starts as key ‖ iv; data[0..len) is
      replaced by its encryption and the rest of the buffer is unchanged. */
  method EncryptData(data: array<bv8>, len: nat, key: seq<bv8>, iv: seq<bv8>)
    requires len <= data.Length && |key| == KEY_SIZE && |iv| == IV_SIZE
    modifies data
    ensures data[..len] == Encrypt(old(data[..len]), key, iv)
    ensures data[len..] == old(data[len..])
  {
    ghost var d := data[..len];
    ghost var ks0 := key + iv;
    var keystream := new bv8[STREAM_SIZE](k requires 0 <= k < STREAM_SIZE => (key + iv)[k]);
    assert d[..0] == [];
    for i := 0 to len
      invariant keystream[..] == Stream(d[..i], ks0)
      invariant forall k :: 0 <= k < i ==> data[k] == Cipher(d[k], Slot(d, k, ks0))
      invariant forall k :: i <= k < data.Length ==> data[k] == old(data[k])
    {
      EncryptByte(data, i, keystream, d, ks0);
    }
  }

  /** One pass of encrypt_data's loop: byte i is XORed with its slot, and
      the slot with the result. */
  method EncryptByte(data: array<bv8>, i: nat, keystream: array<bv8>, ghost d: seq<bv8>, ghost ks0: seq<bv8>)
    requires i < |d| && i < data.Length && data[i] == d[i] && |ks0| == STREAM_SIZE
    requires keystream.Length == STREAM_SIZE && keystream[..] == Stream(d[..i], ks0)
    requires data != keystream
    modifies data, keystream
    ensures keystream[..] == Stream(d[..i + 1], ks0)
    ensures data[i] == Cipher(d[i], Slot(d, i, ks0))
    ensures forall k :: 0 <= k < data.Length && k != i ==> data[k] == old(data[k])
  {
    StreamNext(d, i, ks0);
    var j := i % STREAM_SIZE;
    var slot := keystream[j];
    var c := Cipher(data[i], slot);
    data[i] := c;
    keystream[j] := Feedback(slot, c);
  }

  /** decrypt_data: the same call as encrypt_data. */
  method DecryptData(data: array<bv8>, len: nat, key: seq<bv8>, iv: seq<bv8>)
    requires len <= data.Length && |key| == KEY_SIZE && |iv| == IV_SIZE
    modifies data
    ensures data[..len] == Encrypt(old(data[..len]), key, iv)
    ensures data[len..] == old(data[len..])
  {
    EncryptData(data, len, key, iv);
  }

  lemma XorSelfCancels(x: bv8, y: bv8)
    ensures y ^ (x ^ y) == x && (x ^ y) ^ y == x
  {
  }

  /** Within the first 48 bytes no slot is used twice, so a used slot
      ends up holding the data byte itself. */
  lemma {:induction false} FirstBlock(d: seq<bv8>, ks0: seq<bv8>)
    requires |ks0| == STREAM_SIZE && |d| <= STREAM_SIZE
    ensures forall j :: 0 <= j < STREAM_SIZE ==> Stream(d, ks0)[j] == if j < |d| then d[j] else ks0[j]
  {
    if |d| > 0 {
      var n := |d| - 1;
      FirstBlock(d[..n], ks0);
      assert n % STREAM_SIZE == n;
      XorSelfCancels(d[n], ks0[n]);
    }
  }

  /** The first 48 output bytes are the data XOR key ‖ iv. */
  lemma EncryptFirstBlock(d: seq<bv8>, key: seq<bv8>, iv: seq<bv8>, j: nat)
    requires |key| == KEY_SIZE && |iv| == IV_SIZE && j < |d| && j < STREAM_SIZE
    ensures Encrypt(d, key, iv)[j] == d[j] ^ (key + iv)[j]
  {
    FirstBlock(d[..j], key + iv);
    assert j % STREAM_SIZE == j;
  }

  /** Decrypting with the same call gives the data back when it is at most
      48 bytes long. */
  lemma DecryptEncryptShort(d: seq<bv8>, key: seq<bv8>, iv: seq<bv8>)
    requires |key| == KEY_SIZE && |iv| == IV_SIZE && |d| <= STREAM_SIZE
    ensures Encrypt(Encrypt(d, key, iv), key, iv) == d
  {
    var c := Encrypt(d, key, iv);
    forall j | 0 <= j < |d| ensures Encrypt(c, key, iv)[j] == d[j] {
      EncryptFirstBlock(d, key, iv, j);
      EncryptFirstBlock(c, key, iv, j);
      XorSelfCancels(d[j], (key + iv)[j]);
    }
  }

  /** Byte 48 reuses slot 0, which by then holds byte 0 of the data: it
      comes out as data[48] XOR data[0]. */
  lemma Byte48(d: seq<bv8>, key: seq<bv8>, iv: seq<bv8>)
    requires |key| == KEY_SIZE && |iv| == IV_SIZE && |d| > STREAM_SIZE
    ensures Encrypt(d, key, iv)[STREAM_SIZE] == d[STREAM_SIZE] ^ d[0]
  {
    FirstBlock(d[..STREAM_SIZE], key + iv);
    assert STREAM_SIZE % STREAM_SIZE == 0;
  }

  /** Byte 48 after encrypt_data twice: data[48] XOR (key ‖ iv)[0]. */
  lemma TwiceByte48(d: seq<bv8>, key: seq<bv8>, iv: seq<bv8>)
    requires |key| == KEY_SIZE && |iv| == IV_SIZE && |d| > STREAM_SIZE
    ensures Encrypt(Encrypt(d, key, iv), key, iv)[STREAM_SIZE] == d[STREAM_SIZE] ^ key[0]
  {
    var c := Encrypt(d, key, iv);
    Byte48(c, key, iv);
    Byte48(d, key, iv);
    EncryptFirstBlock(d, key, iv, 0);
    assert (key + iv)[0] == key[0];
  }

  /** Past 48 bytes the same call does not decrypt: for a message of 49 or
      more bytes and a key whose first byte is not zero, byte 48 comes back
      changed. */
  lemma DecryptAsWrittenFails(d: seq<bv8>, key: seq<bv8>, iv: seq<bv8>)
    requires |key| == KEY_SIZE && |iv| == IV_SIZE && |d| > STREAM_SIZE
    requires key[0] != 0
    ensures Encrypt(Encrypt(d, key, iv), key, iv) != d
  {
    TwiceByte48(d, key, iv);
    XorChanges(d[STREAM_SIZE], key[0]);
  }

  lemma XorChanges(x: bv8, k: bv8)
    requires k != 0
    ensures x ^ k != x
  {
  }

  /** The keystream of the corrected decryption after the ciphertext c:
      each slot is fed the ciphertext byte, as it was during encryption. */
  function DecryptStream(c: seq<bv8>, ks0: seq<bv8>): (ks: seq<bv8>)
    requires |ks0| == STREAM_SIZE
    ensures |ks| == STREAM_SIZE
  {
    if |c| == 0 then ks0
    else
      var ks := DecryptStream(c[..|c| - 1], ks0);
      var j := (|c| - 1) % STREAM_SIZE;
      ks[j := Feedback(ks[j], c[|c| - 1])]
  }

  /** The evident intent of decrypt_data: byte i is c[i] XOR the slot the
      encryption used for it. */
  function Decrypt(c: seq<bv8>, key: seq<bv8>, iv: seq<bv8>): (r: seq<bv8>)
    requires |key| == KEY_SIZE && |iv| == IV_SIZE
    ensures |r| == |c|
  {
    seq(|c|, i requires 0 <= i < |c| => Cipher(c[i], DecryptSlot(c, i, key + iv)))
  }

  /** The keystream byte that decrypts byte i of c. */
  function DecryptSlot(c: seq<bv8>, i: nat, ks0: seq<bv8>): bv8
    requires |ks0| == STREAM_SIZE && i <= |c|
  {
    DecryptStream(c[..i], ks0)[i % STREAM_SIZE]
  }

  /** Decryption rebuilds the keystream encryption had, prefix by prefix. */
  lemma {:induction false} SameStream(d: seq<bv8>, key: seq<bv8>, iv: seq<bv8>, n: nat)
    requires |key| == KEY_SIZE && |iv| == IV_SIZE && n <= |d|
    ensures DecryptStream(Encrypt(d, key, iv)[..n], key + iv) == Stream(d[..n], key + iv)
  {
    var c := Encrypt(d, key, iv);
    if n > 0 {
      SameStream(d, key, iv, n - 1);
      assert c[..n][..n - 1] == c[..n - 1];
      assert d[..n][..n - 1] == d[..n - 1];
    }
  }

  /** The corrected decryption inverts encryption at every length. */
  lemma DecryptEncrypt(d: seq<bv8>, key: seq<bv8>, iv: seq<bv8>)
    requires |key| == KEY_SIZE && |iv| == IV_SIZE
    ensures Decrypt(Encrypt(d, key, iv), key, iv) == d
  {
    var c := Encrypt(d, key, iv);
    forall i | 0 <= i < |d| ensures Decrypt(c, key, iv)[i] == d[i] {
      SameStream(d, key, iv, i);
      XorSelfCancels(d[i], Stream(d[..i], key + iv)[i % STREAM_SIZE]);
    }
  }

  /** One more byte of the corrected keystream. */
  lemma DecryptStreamNext(c: seq<bv8>, i: nat, ks0: seq<bv8>)
    requires |ks0| == STREAM_SIZE && i < |c|
    ensures DecryptStream(c[..i + 1], ks0)
         == DecryptStream(c[..i], ks0)[i % STREAM_SIZE := Feedback(DecryptStream(c[..i], ks0)[i % STREAM_SIZE], c[i])]
  {
    assert c[..i + 1][..i] == c[..i];
  }

  /** decrypt_data corrected: the keystream slot is XORed with the
      ciphertext byte, read before it is overwritten. */
  method DecryptDataFixed(data: array<bv8>, len: nat, key: seq<bv8>, iv: seq<bv8>)
    requires len <= data.Length && |key| == KEY_SIZE && |iv| == IV_SIZE
    modifies data
    ensures data[..len] == Decrypt(old(data[..len]), key, iv)
    ensures data[len..] == old(data[len..])
  {
    ghost var d := data[..len];
    ghost var ks0 := key + iv;
    var keystream := new bv8[STREAM_SIZE](k requires 0 <= k < STREAM_SIZE => (key + iv)[k]);
    assert d[..0] == [];
    for i := 0 to len
      invariant keystream[..] == DecryptStream(d[..i], ks0)
      invariant forall k :: 0 <= k < i ==> data[k] == Cipher(d[k], DecryptSlot(d, k, ks0))
      invariant forall k :: i <= k < data.Length ==> data[k] == old(data[k])
    {
      DecryptByte(data, i, keystream, d, ks0);
    }
  }

  /** One pass of the corrected loop: the slot takes the ciphertext byte. */
  method DecryptByte(data: array<bv8>, i: nat, keystream: array<bv8>, ghost c: seq<bv8>, ghost ks0: seq<bv8>)
    requires i < |c| && i < data.Length && data[i] == c[i] && |ks0| == STREAM_SIZE
    requires keystream.Length == STREAM_SIZE && keystream[..] == DecryptStream(c[..i], ks0)
    requires data != keystream
    modifies data, keystream
    ensures keystream[..] == DecryptStream(c[..i + 1], ks0)
    ensures data[i] == Cipher(c[i], DecryptSlot(c, i, ks0))
    ensures forall k :: 0 <= k < data.Length && k != i ==> data[k] == old(data[k])
  {
    DecryptStreamNext(c, i, ks0);
    var j := i % STREAM_SIZE;
    var slot := keystream[j];
    var b := data[i];
    data[i] := Cipher(b, slot);
    keystream[j] := Feedback(slot, b);
  }
}
