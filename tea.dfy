/** A two-round Feistel cipher in the style of TEA (the Tiny Encryption
    Algorithm): TEA_Encryption.java and TEA_Decryption.java.

    The source keeps its blocks in `long`s and reduces every sum with
    `& 0xffffffffL`, which is the remainder modulo 2^32; the model writes it
    as that remainder.  Text and key blocks are 32-bit words. */
module Tea {

  const Modulus: int := 0x1_0000_0000

  /** A 32-bit block, held as a non-negative integer below 2^32. */
  type Word = x: int | 0 <= x < 0x1_0000_0000

  /** The round constants, one per round. */
  const DeltaValues: seq<Word> := [0x11111111, 0x22222222]

  /** Addition modulo 2^32 of two non-negative values (the first may be
      wider than 32 bits, as `x << 4` is in the source). */
  function AdditionMod2To32(a: nat, b: nat): (r: Word)
    ensures a + b < Modulus ==> r == a + b
    ensures (a + b - r) % Modulus == 0
  {
    (a + b) % Modulus
  }

  /** Subtraction modulo 2^32: it wraps around below zero. */
  function SubtractionMod2To32(a: Word, b: Word): (r: Word)
    ensures a >= b ==> r == a - b
    ensures a < b ==> r == a - b + Modulus
  {
    (a - b) % Modulus
  }

  /** Bitwise exclusive or of two words. */
  function Xor(a: Word, b: Word): (r: Word)
  {
    ((a as bv32) ^ (b as bv32)) as int
  }

  /** The round's mixing function of one half-block `x`:
      ((x << 4) + k1) xor ((x >>> 5) + k2) xor (x + delta), every sum mod 2^32.
      On a word, the source's `long` shift `x << 4` is `x * 16` (no bit is
      lost before the mask) and `x >>> 5` is `x / 32`. */
  function Mix(x: Word, k1: Word, k2: Word, delta: Word): (r: Word)
  {
    var a := AdditionMod2To32(x * 16, k1);
    var b := AdditionMod2To32(x / 32, k2);
    var c := AdditionMod2To32(x, delta);
    Xor(Xor(a, b), c)
  }

  /** A pair of half-blocks (left, right). */
  datatype Halves = Halves(left: Word, right: Word)

  /** One encryption round: the new left half is the old right half, and the
      new right half is the old left half plus the mix of the old right half. */
  function EncryptRound(h: Halves, k1: Word, k2: Word, delta: Word): (r: Halves)
    ensures r.left == h.right
    ensures SubtractionMod2To32(r.right, Mix(h.right, k1, k2, delta)) == h.left
  {
    SubtractionUndoesAddition(h.left, Mix(h.right, k1, k2, delta));
    Halves(h.right, AdditionMod2To32(h.left, Mix(h.right, k1, k2, delta)))
  }

  /** One decryption round: the new right half is the incoming left half,
      and the new left half is the incoming right half minus the mix of the
      incoming left half. */
  function DecryptRound(h: Halves, k1: Word, k2: Word, delta: Word): (r: Halves)
    ensures r.right == h.left
    ensures AdditionMod2To32(r.left, Mix(h.left, k1, k2, delta)) == h.right
  {
    AdditionUndoesSubtraction(h.right, Mix(h.left, k1, k2, delta));
    Halves(SubtractionMod2To32(h.right, Mix(h.left, k1, k2, delta)), h.left)
  }

  lemma SubtractionUndoesAddition(a: Word, b: Word)
    ensures SubtractionMod2To32(AdditionMod2To32(a, b), b) == a
  {
    if a + b >= Modulus {
      assert AdditionMod2To32(a, b) == a + b - Modulus;
    } else {
      assert AdditionMod2To32(a, b) == a + b;
    }
  }

  lemma AdditionUndoesSubtraction(a: Word, b: Word)
    ensures AdditionMod2To32(SubtractionMod2To32(a, b), b) == a
  {
    if a < b {
      assert SubtractionMod2To32(a, b) == a - b + Modulus;
    } else {
      assert SubtractionMod2To32(a, b) == a - b;
    }
  }

  /** Decryption round `i` undoes encryption round `i` when both use the same
      key pair and round constant. */
  lemma DecryptRoundUndoesEncryptRound(h: Halves, k1: Word, k2: Word, delta: Word)
    ensures DecryptRound(EncryptRound(h, k1, k2, delta), k1, k2, delta) == h
  {
    var e := EncryptRound(h, k1, k2, delta);
    SubtractionUndoesAddition(h.left, Mix(h.right, k1, k2, delta));
    assert DecryptRound(e, k1, k2, delta).left == h.left;
  }

  /** The key has four blocks: round `i` uses K[2i] and K[2i+1]. */
  predicate IsKey(key: seq<Word>)
  {
    |key| == 4
  }

  /** An encryption round with the same keys and delta undoes a decryption
      round. */
  lemma EncryptRoundUndoesDecryptRound(h: Halves, k1: Word, k2: Word, delta: Word)
    ensures EncryptRound(DecryptRound(h, k1, k2, delta), k1, k2, delta) == h
  {
    var d := DecryptRound(h, k1, k2, delta);
    AdditionUndoesSubtraction(h.right, Mix(h.left, k1, k2, delta));
    assert EncryptRound(d, k1, k2, delta).right == h.right;
  }

  /** The two-round decryption performed by TEA_Decryption's main loop:
      round 1 first, then round 0. Encrypting its result with the same key
      gives back the ciphertext. */
  function Decrypt(key: seq<Word>, cipher: Halves): (r: Halves)
    requires IsKey(key)
    ensures Encrypt(key, r) == cipher
  {
    var h1 := DecryptRound(cipher, key[2], key[3], DeltaValues[1]);
    var r := DecryptRound(h1, key[0], key[1], DeltaValues[0]);
    EncryptRoundUndoesDecryptRound(h1, key[0], key[1], DeltaValues[0]);
    EncryptRoundUndoesDecryptRound(cipher, key[2], key[3], DeltaValues[1]);
    r
  }

  /** The two-round encryption performed by TEA_Encryption's main loop. */
  function Encrypt(key: seq<Word>, plain: Halves): (r: Halves)
    requires IsKey(key)
  {
    var h1 := EncryptRound(plain, key[0], key[1], DeltaValues[0]);
    EncryptRound(h1, key[2], key[3], DeltaValues[1])
  }

  /** Decrypting an encryption with the same key returns the plaintext. */
  lemma DecryptUndoesEncrypt(key: seq<Word>, plain: Halves)
    requires IsKey(key)
    ensures Decrypt(key, Encrypt(key, plain)) == plain
  {
    var h1 := EncryptRound(plain, key[0], key[1], DeltaValues[0]);
    DecryptRoundUndoesEncryptRound(h1, key[2], key[3], DeltaValues[1]);
    DecryptRoundUndoesEncryptRound(plain, key[0], key[1], DeltaValues[0]);
  }

  /** `encryptText(round)`: reads index `round` of the block arrays and writes
      index `round + 1` of each, and nothing else. */
  method EncryptText(keyBlocks: array<Word>, leftTextBlocks: array<Word>, rightTextBlocks: array<Word>, round: nat)
    requires keyBlocks.Length == 4 && leftTextBlocks.Length == 3 && rightTextBlocks.Length == 3
    requires leftTextBlocks != rightTextBlocks
    requires round < |DeltaValues|
    modifies leftTextBlocks, rightTextBlocks
    ensures var h := EncryptRound(Halves(old(leftTextBlocks[round]), old(rightTextBlocks[round])),
                                  keyBlocks[2 * round], keyBlocks[2 * round + 1], DeltaValues[round]);
            leftTextBlocks[round + 1] == h.left && rightTextBlocks[round + 1] == h.right
    ensures forall k :: 0 <= k < 3 && k != round + 1 ==>
              leftTextBlocks[k] == old(leftTextBlocks[k]) && rightTextBlocks[k] == old(rightTextBlocks[k])
  {
    var keyBlock1 := keyBlocks[2 * round];
    var keyBlock2 := keyBlocks[2 * round + 1];
    var delta := DeltaValues[round];
    var inputLeftTextBlock := leftTextBlocks[round];
    var inputRightTextBlock: int := rightTextBlocks[round];
    var outputLeftTextBlock := inputRightTextBlock;
    var a := AdditionMod2To32(inputRightTextBlock * 16, keyBlock1);
    var b := AdditionMod2To32(inputRightTextBlock / 32, keyBlock2);
    var c := AdditionMod2To32(inputRightTextBlock, delta);
    assert Xor(Xor(a, b), c) == Mix(inputRightTextBlock, keyBlock1, keyBlock2, delta);
    var outputRightTextBlock := AdditionMod2To32(inputLeftTextBlock, Xor(Xor(a, b), c));
    ghost var h := EncryptRound(Halves(inputLeftTextBlock, inputRightTextBlock), keyBlock1, keyBlock2, delta);
    assert outputLeftTextBlock == h.left && outputRightTextBlock == h.right;
    leftTextBlocks[round + 1] := outputLeftTextBlock;
    rightTextBlocks[round + 1] := outputRightTextBlock;
    assert keyBlocks[2 * round] == keyBlock1 && keyBlocks[2 * round + 1] == keyBlock2;
  }

  /** `decryptText(round)`: reads index `round + 1` of the block arrays and
      writes index `round` of each, and nothing else. */
  method DecryptText(keyBlocks: array<Word>, leftTextBlocks: array<Word>, rightTextBlocks: array<Word>, round: nat)
    requires keyBlocks.Length == 4 && leftTextBlocks.Length == 3 && rightTextBlocks.Length == 3
    requires leftTextBlocks != rightTextBlocks
    requires round < |DeltaValues|
    modifies leftTextBlocks, rightTextBlocks
    ensures var h := DecryptRound(Halves(old(leftTextBlocks[round + 1]), old(rightTextBlocks[round + 1])),
                                  keyBlocks[2 * round], keyBlocks[2 * round + 1], DeltaValues[round]);
            leftTextBlocks[round] == h.left && rightTextBlocks[round] == h.right
    ensures forall k :: 0 <= k < 3 && k != round ==>
              leftTextBlocks[k] == old(leftTextBlocks[k]) && rightTextBlocks[k] == old(rightTextBlocks[k])
  {
    var keyBlock1 := keyBlocks[2 * round];
    var keyBlock2 := keyBlocks[2 * round + 1];
    var delta := DeltaValues[round];
    var inputLeftTextBlock: int := leftTextBlocks[round + 1];
    var inputRightTextBlock := rightTextBlocks[round + 1];
    var outputRightTextBlock := inputLeftTextBlock;
    var a := AdditionMod2To32(inputLeftTextBlock * 16, keyBlock1);
    var b := AdditionMod2To32(inputLeftTextBlock / 32, keyBlock2);
    var c := AdditionMod2To32(inputLeftTextBlock, delta);
    var outputLeftTextBlock := SubtractionMod2To32(inputRightTextBlock, Xor(Xor(a, b), c));
    leftTextBlocks[round] := outputLeftTextBlock;
    rightTextBlocks[round] := outputRightTextBlock;
    assert keyBlocks[2 * round] == keyBlock1 && keyBlocks[2 * round + 1] == keyBlock2;
  }

  /** The round loop of TEA_Encryption's `main`: rounds 0 and 1 fill indices
      1 and 2; index 2 then holds the ciphertext. */
  method EncryptBlocks(keyBlocks: array<Word>, leftTextBlocks: array<Word>, rightTextBlocks: array<Word>)
    requires keyBlocks.Length == 4 && leftTextBlocks.Length == 3 && rightTextBlocks.Length == 3
    requires leftTextBlocks != rightTextBlocks
    modifies leftTextBlocks, rightTextBlocks
    ensures leftTextBlocks[0] == old(leftTextBlocks[0]) && rightTextBlocks[0] == old(rightTextBlocks[0])
    ensures Halves(leftTextBlocks[1], rightTextBlocks[1]) ==
            EncryptRound(Halves(leftTextBlocks[0], rightTextBlocks[0]), keyBlocks[0], keyBlocks[1], DeltaValues[0])
    ensures Halves(leftTextBlocks[2], rightTextBlocks[2]) ==
            Encrypt(keyBlocks[..], Halves(leftTextBlocks[0], rightTextBlocks[0]))
  {
    for i := 0 to keyBlocks.Length / 2
      invariant leftTextBlocks[0] == old(leftTextBlocks[0]) && rightTextBlocks[0] == old(rightTextBlocks[0])
      invariant i >= 1 ==> (Halves(leftTextBlocks[1], rightTextBlocks[1]) ==
                  EncryptRound(Halves(leftTextBlocks[0], rightTextBlocks[0]), keyBlocks[0], keyBlocks[1], DeltaValues[0]))
      invariant i >= 2 ==> (Halves(leftTextBlocks[2], rightTextBlocks[2]) ==
                  EncryptRound(Halves(leftTextBlocks[1], rightTextBlocks[1]), keyBlocks[2], keyBlocks[3], DeltaValues[1]))
    {
      EncryptText(keyBlocks, leftTextBlocks, rightTextBlocks, i);
    }
  }

  /** The descending round loop of TEA_Decryption's `main`: round 1 fills
      index 1 from index 2, then round 0 fills index 0; index 0 then holds
      the plaintext. */
  method DecryptBlocks(keyBlocks: array<Word>, leftTextBlocks: array<Word>, rightTextBlocks: array<Word>)
    requires keyBlocks.Length == 4 && leftTextBlocks.Length == 3 && rightTextBlocks.Length == 3
    requires leftTextBlocks != rightTextBlocks
    modifies leftTextBlocks, rightTextBlocks
    ensures leftTextBlocks[2] == old(leftTextBlocks[2]) && rightTextBlocks[2] == old(rightTextBlocks[2])
    ensures Halves(leftTextBlocks[1], rightTextBlocks[1]) ==
            DecryptRound(Halves(leftTextBlocks[2], rightTextBlocks[2]), keyBlocks[2], keyBlocks[3], DeltaValues[1])
    ensures Halves(leftTextBlocks[0], rightTextBlocks[0]) ==
            Decrypt(keyBlocks[..], Halves(leftTextBlocks[2], rightTextBlocks[2]))
  {
    for i := keyBlocks.Length / 2 downto 0
      invariant leftTextBlocks[2] == old(leftTextBlocks[2]) && rightTextBlocks[2] == old(rightTextBlocks[2])
      invariant i <= 1 ==> (Halves(leftTextBlocks[1], rightTextBlocks[1]) ==
                  DecryptRound(Halves(leftTextBlocks[2], rightTextBlocks[2]), keyBlocks[2], keyBlocks[3], DeltaValues[1]))
      invariant i == 0 ==> (Halves(leftTextBlocks[0], rightTextBlocks[0]) ==
                  DecryptRound(Halves(leftTextBlocks[1], rightTextBlocks[1]), keyBlocks[0], keyBlocks[1], DeltaValues[0]))
    {
      DecryptText(keyBlocks, leftTextBlocks, rightTextBlocks, i);
    }
  }

  /** The example in TEA_Encryption's documentation. */
  lemma EncryptionTestVector()
    ensures Encrypt([0xA4E31F06, 0xBB48C001, 0x10C4DF38, 0x200CA3B4], Halves(0x28BF7D9A, 0xD35FB1A0))
            == Halves(0x280CC3D3, 0xCE52A1EF)
  {
    MixTestValueRound0();
    MixTestValueRound1();
  }

  /** The example in TEA_Decryption's documentation. */
  lemma DecryptionTestVector()
    ensures Decrypt([0xA4E31F06, 0xBB48C001, 0x10C4DF38, 0x200CA3B4], Halves(0x280CC3D3, 0xCE52A1EF))
            == Halves(0x28BF7D9A, 0xD35FB1A0)
  {
    var key: seq<Word> := [0xA4E31F06, 0xBB48C001, 0x10C4DF38, 0x200CA3B4];
    EncryptionTestVector();
    DecryptUndoesEncrypt(key, Halves(0x28BF7D9A, 0xD35FB1A0));
  }

  /** The mixing value of the documented example's first round. */
  lemma MixTestValueRound0()
    ensures Mix(0xD35FB1A0, 0xA4E31F06, 0xBB48C001, 0x11111111) == 0xFF4D4639
  {
    assert AdditionMod2To32(0xD35FB1A0 * 16, 0xA4E31F06) == 0xDADE3906;
    assert AdditionMod2To32(0xD35FB1A0 / 32, 0xBB48C001) == 0xC1E3BD8E;
    assert AdditionMod2To32(0xD35FB1A0, 0x11111111) == 0xE470C2B1;
    assert Xor(0xDADE3906, 0xC1E3BD8E) == 0x1B3D8488 by {
      assert ((0xDADE3906 as bv32) ^ (0xC1E3BD8E as bv32)) as int == 0x1B3D8488;
    }
    assert Xor(0x1B3D8488, 0xE470C2B1) == 0xFF4D4639 by {
      assert ((0x1B3D8488 as bv32) ^ (0xE470C2B1 as bv32)) as int == 0xFF4D4639;
    }
  }

  /** The mixing value of the documented example's second round. */
  lemma MixTestValueRound1()
    ensures Mix(0x280CC3D3, 0x10C4DF38, 0x200CA3B4, 0x22222222) == 0xFAF2F04F
  {
    assert AdditionMod2To32(0x280CC3D3 * 16, 0x10C4DF38) == 0x91911C68;
    assert AdditionMod2To32(0x280CC3D3 / 32, 0x200CA3B4) == 0x214D09D2;
    assert AdditionMod2To32(0x280CC3D3, 0x22222222) == 0x4A2EE5F5;
    assert Xor(0x91911C68, 0x214D09D2) == 0xB0DC15BA by {
      assert ((0x91911C68 as bv32) ^ (0x214D09D2 as bv32)) as int == 0xB0DC15BA;
    }
    assert Xor(0xB0DC15BA, 0x4A2EE5F5) == 0xFAF2F04F by {
      assert ((0xB0DC15BA as bv32) ^ (0x4A2EE5F5 as bv32)) as int == 0xFAF2F04F;
    }
  }
}
