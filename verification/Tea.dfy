/** The Tiny Encryption Algorithm of bertos/algo/tea.c, in arithmetic modulo 2^32. */
module Tea {

  /** A 32-bit unsigned word. */
  type word = x: int | 0 <= x < 0x1_0000_0000

  const DELTA: word := 0x9e3779b9
  const ROUNDS := 32

  function Add(a: word, b: word): word {
    (a + b) % 0x1_0000_0000
  }

  function Sub(a: word, b: word): word {
    (a - b) % 0x1_0000_0000
  }

  function Xor(a: word, b: word): word {
    ((a as bv32) ^ (b as bv32)) as int
  }

  /** Byte order of the processor: the conversion to and from little-endian words. */
  function SwapBytes(bigEndian: bool, w: word): word {
    if bigEndian then
      (w % 0x100) * 0x100_0000 + (w / 0x100 % 0x100) * 0x1_0000 + (w / 0x1_0000 % 0x100) * 0x100 + w / 0x100_0000
    else w
  }

  lemma BytesOfWord(w: int, b0: int, b1: int, b2: int, b3: int)
    requires 0 <= b0 < 0x100 && 0 <= b1 < 0x100 && 0 <= b2 < 0x100 && 0 <= b3 < 0x100
    requires w == b0 + 0x100 * (b1 + 0x100 * (b2 + 0x100 * b3))
    ensures w % 0x100 == b0 && w / 0x100 == b1 + 0x100 * (b2 + 0x100 * b3)
    ensures w / 0x100 % 0x100 == b1 && w / 0x1_0000 == b2 + 0x100 * b3
    ensures w / 0x1_0000 % 0x100 == b2 && w / 0x100_0000 == b3
  {
  }

  lemma SwapInvolution(bigEndian: bool, w: word)
    ensures SwapBytes(bigEndian, SwapBytes(bigEndian, w)) == w
  {
    var b0, b1, b2, b3 := w % 0x100, w / 0x100 % 0x100, w / 0x1_0000 % 0x100, w / 0x100_0000;
    BytesOfWord(w, b0, b1, b2, b3);
    if bigEndian {
      BytesOfWord(SwapBytes(bigEndian, w), b3, b2, b1, b0);
    }
  }

  lemma SubAdd(a: word, b: word)
    ensures Sub(Add(a, b), b) == a && Add(Sub(a, b), b) == a
  {
  }

  function Mix(input: word, sum: word, k0: word, k1: word): word {
    Xor(Xor(Add(input * 16 % 0x1_0000_0000, k0), Add(input, sum)), Add(input / 32, k1))
  }

  datatype Key = Key(k0: word, k1: word, k2: word, k3: word)

  datatype Block = Block(y: word, z: word)

  /** One encryption round with the sum already advanced. */
  function Round(k: Key, b: Block, sum: word): Block {
    var y := Add(b.y, Mix(b.z, sum, k.k0, k.k1));
    Block(y, Add(b.z, Mix(y, sum, k.k2, k.k3)))
  }

  /** One decryption round, before the sum is taken back. */
  function Unround(k: Key, b: Block, sum: word): Block {
    var z := Sub(b.z, Mix(b.y, sum, k.k2, k.k3));
    Block(Sub(b.y, Mix(z, sum, k.k0, k.k1)), z)
  }

  /** The sum after `n` rounds of encryption. */
  function SumAt(n: nat): word {
    if n == 0 then 0 else Add(SumAt(n - 1), DELTA)
  }

  function Encrypt(k: Key, b: Block, n: nat): Block {
    if n == 0 then b else Round(k, Encrypt(k, b, n - 1), SumAt(n))
  }

  /** Undoes rounds `n` down to 1. */
  function Decrypt(k: Key, b: Block, n: nat): Block
    decreases n
  {
    if n == 0 then b else Decrypt(k, Unround(k, b, SumAt(n)), n - 1)
  }

  lemma RoundInverse(k: Key, b: Block, sum: word)
    ensures Unround(k, Round(k, b, sum), sum) == b
    ensures Round(k, Unround(k, b, sum), sum) == b
  {
    hide Mix, Add, Sub;
    var m1 := Mix(b.z, sum, k.k0, k.k1);
    SubAdd(b.y, m1);
    SubAdd(b.z, Mix(Add(b.y, m1), sum, k.k2, k.k3));
    var m2 := Mix(b.y, sum, k.k2, k.k3);
    SubAdd(b.z, m2);
    SubAdd(b.y, Mix(Sub(b.z, m2), sum, k.k0, k.k1));
  }

  /** Decryption undoes encryption, for any number of rounds. */
  lemma {:induction false} DecryptEncrypt(k: Key, b: Block, n: nat)
    ensures Decrypt(k, Encrypt(k, b, n), n) == b
    decreases n
  {
    hide Round, Unround;
    if n > 0 {
      RoundInverse(k, Encrypt(k, b, n - 1), SumAt(n));
      DecryptEncrypt(k, b, n - 1);
    }
  }

  /** And encryption undoes decryption: the cipher is a permutation of the blocks. */
  lemma {:induction false} EncryptDecrypt(k: Key, b: Block, n: nat)
    ensures Encrypt(k, Decrypt(k, b, n), n) == b
    decreases n
  {
    hide Round, Unround;
    if n > 0 {
      var c := Unround(k, b, SumAt(n));
      EncryptDecrypt(k, c, n - 1);
      RoundInverse(k, b, SumAt(n));
    }
  }

  lemma AddModulo(p: nat, d: word)
    ensures (p % 0x1_0000_0000 + d) % 0x1_0000_0000 == (p + d) % 0x1_0000_0000
  {
  }

  /** The sums of the rounds are the multiples of DELTA; decryption starts from the last one. */
  lemma {:induction false} SumIsProduct(n: nat)
    ensures SumAt(n) == (DELTA * n) % 0x1_0000_0000
  {
    if n > 0 {
      var p := DELTA * (n - 1);
      SumIsProduct(n - 1);
      AddModulo(p, DELTA);
      assert p + DELTA == DELTA * n;
    }
  }

  // --- Values ---

  lemma XorValues()
    ensures Xor(0x9ace0123, 0x27e347a8) == 0xbd2d468b
    ensures Xor(0xbd2d468b, 0x48a2c4e6) == 0xf58f826d
    ensures Xor(0xf3c627fb, 0x94ea418d) == 0x672c6676
    ensures Xor(0x672c6676, 0xd493853d) == 0xb3bfe34b
    ensures Xor(0xd6cc35d3, 0x79daa4ac) == 0xaf16917f
    ensures Xor(0xaf16917f, 0x4640c400) == 0xe956557f
    ensures Xor(0x892b7feb, 0x1c7810c5) == 0x95536f2e
    ensures Xor(0x95536f2e, 0xd3de37e9) == 0x468d58c7
  {
  }

  lemma MixValues()
    ensures Mix(0x89abcdef, 0x9e3779b9, 0x00112233, 0x44556677) == 0xf58f826d
    ensures Mix(0xf6b2c7d4, 0x9e3779b9, 0x8899aabb, 0xccddeeff) == 0xb3bfe34b
    ensures Mix(0x3d6bb13a, 0x3c6ef372, 0x00112233, 0x44556677) == 0xe956557f
    ensures Mix(0xe0091d53, 0x3c6ef372, 0x8899aabb, 0xccddeeff) == 0x468d58c7
  {
    hide Xor;
    XorValues();
  }

  /** Two rounds of a block with a key of four different words, as 32-bit arithmetic has them. */
  lemma TwoRounds()
    ensures var k, b := Key(0x00112233, 0x44556677, 0x8899aabb, 0xccddeeff), Block(0x01234567, 0x89abcdef);
      && Encrypt(k, b, 1) == Block(0xf6b2c7d4, 0x3d6bb13a)
      && Encrypt(k, b, 2) == Block(0xe0091d53, 0x83f90a01)
  {
    hide Mix;
    MixValues();
    assert SumAt(1) == 0x9e3779b9 && SumAt(2) == 0x3c6ef372;
  }

  /** Decryption starts from this sum. */
  lemma LastSum()
    ensures SumAt(ROUNDS) == 0xc6ef3720 && ROUNDS == 32
  {
    hide SumAt;
    SumIsProduct(ROUNDS);
    assert DELTA * 32 == 0x13_c6ef_3720;
  }

  // --- In memory ---

  /** The value of four bytes in memory, first to last, as the processor loads it. */
  function Load(bigEndian: bool, b0: nat, b1: nat, b2: nat, b3: nat): word
    requires b0 < 0x100 && b1 < 0x100 && b2 < 0x100 && b3 < 0x100
  {
    if bigEndian then b3 + 0x100 * (b2 + 0x100 * (b1 + 0x100 * b0)) else b0 + 0x100 * (b1 + 0x100 * (b2 + 0x100 * b3))
  }

  /** The same bytes in memory are the same word on either processor. */
  lemma SameOnEitherProcessor(b0: nat, b1: nat, b2: nat, b3: nat)
    requires b0 < 0x100 && b1 < 0x100 && b2 < 0x100 && b3 < 0x100
    ensures SwapBytes(true, Load(true, b0, b1, b2, b3)) == SwapBytes(false, Load(false, b0, b1, b2, b3))
  {
    BytesOfWord(Load(true, b0, b1, b2, b3), b3, b2, b1, b0);
  }

  function KeyOf(bigEndian: bool, k: seq<word>): Key
    requires |k| >= 4
  {
    Key(SwapBytes(bigEndian, k[0]), SwapBytes(bigEndian, k[1]), SwapBytes(bigEndian, k[2]), SwapBytes(bigEndian, k[3]))
  }

  function BlockOf(bigEndian: bool, v: seq<word>): Block
    requires |v| >= 2
  {
    Block(SwapBytes(bigEndian, v[0]), SwapBytes(bigEndian, v[1]))
  }

  /** In memory, too: decrypting what encryption wrote restores the two words, and the reverse. */
  lemma MemoryRoundTrip(bigEndian: bool, k: seq<word>, v: seq<word>, w: seq<word>)
    requires |k| == 4 && |v| == 2 && |w| == 2
    ensures BlockOf(bigEndian, w) == Encrypt(KeyOf(bigEndian, k), BlockOf(bigEndian, v), ROUNDS)
       <==> BlockOf(bigEndian, v) == Decrypt(KeyOf(bigEndian, k), BlockOf(bigEndian, w), ROUNDS)
    ensures BlockOf(bigEndian, w) == BlockOf(bigEndian, v) ==> w == v
  {
    hide SwapBytes, Encrypt, Decrypt;
    DecryptEncrypt(KeyOf(bigEndian, k), BlockOf(bigEndian, v), ROUNDS);
    EncryptDecrypt(KeyOf(bigEndian, k), BlockOf(bigEndian, w), ROUNDS);
    SwapInvolution(bigEndian, v[0]);
    SwapInvolution(bigEndian, v[1]);
    SwapInvolution(bigEndian, w[0]);
    SwapInvolution(bigEndian, w[1]);
  }

  method Enc(bigEndian: bool, v: array<word>, k: array<word>)
    requires v.Length == 2 && k.Length == 4
    modifies v
    ensures BlockOf(bigEndian, v[..]) == Encrypt(KeyOf(bigEndian, old(k[..])), BlockOf(bigEndian, old(v[..])), ROUNDS)
  {
    hide Add, Sub, Mix, SwapBytes;
    ghost var key, block := KeyOf(bigEndian, k[..]), BlockOf(bigEndian, v[..]);
    var y, z := SwapBytes(bigEndian, v[0]), SwapBytes(bigEndian, v[1]);
    var sum: word := 0;
    var n := ROUNDS;
    while n > 0
      invariant 0 <= n <= ROUNDS
      invariant sum == SumAt(ROUNDS - n) && Block(y, z) == Encrypt(key, block, ROUNDS - n)
    {
      n := n - 1;
      sum := Add(sum, DELTA);
      y := Add(y, Mix(z, sum, SwapBytes(bigEndian, k[0]), SwapBytes(bigEndian, k[1])));
      z := Add(z, Mix(y, sum, SwapBytes(bigEndian, k[2]), SwapBytes(bigEndian, k[3])));
    }
    v[0] := SwapBytes(bigEndian, y);
    v[1] := SwapBytes(bigEndian, z);
    SwapInvolution(bigEndian, y);
    SwapInvolution(bigEndian, z);
  }

  method Dec(bigEndian: bool, v: array<word>, k: array<word>)
    requires v.Length == 2 && k.Length == 4
    modifies v
    ensures BlockOf(bigEndian, v[..]) == Decrypt(KeyOf(bigEndian, old(k[..])), BlockOf(bigEndian, old(v[..])), ROUNDS)
  {
    hide Add, Sub, Mix, SwapBytes;
    ghost var key, block := KeyOf(bigEndian, k[..]), BlockOf(bigEndian, v[..]);
    SumIsProduct(ROUNDS);
    var sum: word := (DELTA * 32) % 0x1_0000_0000;
    var n := ROUNDS;
    var y, z := SwapBytes(bigEndian, v[0]), SwapBytes(bigEndian, v[1]);
    while n > 0
      invariant 0 <= n <= ROUNDS
      invariant sum == SumAt(n) && Decrypt(key, Block(y, z), n) == Decrypt(key, block, ROUNDS)
    {
      n := n - 1;
      z := Sub(z, Mix(y, sum, SwapBytes(bigEndian, k[2]), SwapBytes(bigEndian, k[3])));
      y := Sub(y, Mix(z, sum, SwapBytes(bigEndian, k[0]), SwapBytes(bigEndian, k[1])));
      SubAdd(SumAt(n), DELTA);
      sum := Sub(sum, DELTA);
    }
    v[0] := SwapBytes(bigEndian, y);
    v[1] := SwapBytes(bigEndian, z);
    SwapInvolution(bigEndian, y);
    SwapInvolution(bigEndian, z);
  }
}
