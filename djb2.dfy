/** The djb2 string hash used to key every table (help/hash_table.c). */
module StringHash {
  import opened Common

  const DJB2_SEED: Word := 5381

  /** One step of the hash: hash * 33 + c, wrapping at 2^64 like `unsigned long`. */
  function Step(h: Word, c: bv8): Word
  {
    (h * 33 + c as int) % WORD_MOD
  }

  /** Reference definition of the djb2 value of a byte string. */
  function Djb2(s: seq<bv8>): Word
    decreases |s|
  {
    if s == [] then DJB2_SEED else Step(Djb2(s[..|s| - 1]), s[|s| - 1])
  }

  /** `(hash << 5) + hash + c` on a 64-bit word is one step of the hash. */
  lemma ShiftStep(h: Word, c: bv8)
    ensures ((h * 32) % WORD_MOD + h + c as int) % WORD_MOD == Step(h, c)
  {
    var q := (h * 32) / WORD_MOD;
    assert h * 32 == q * WORD_MOD + (h * 32) % WORD_MOD;
  }

  /** hash_djb2: the accumulator loop reads bytes until the terminating NUL and computes
      hash = (hash << 5) + hash + c, where the shift is a multiplication by 32 modulo 2^64. */
  method HashDjb2(str: CString) returns (hash: Word)
    ensures hash == Djb2(str)
    ensures |str| == 0 ==> hash == DJB2_SEED
  {
    hash := 5381;
    var i := 0;
    while i < |str|
      invariant 0 <= i <= |str|
      invariant hash == Djb2(str[..i])
    {
      var c := str[i];
      ShiftStep(hash, c);
      hash := ((hash * 32) % WORD_MOD + hash + c as int) % WORD_MOD;
      i := i + 1;
      assert str[..i][..i - 1] == str[..i - 1];
    }
    assert str[..|str|] == str;
  }

  /** Appending one byte performs one step of the hash. */
  lemma {:induction false} Djb2Snoc(s: seq<bv8>, c: bv8)
    ensures Djb2(s + [c]) == Step(Djb2(s), c)
  {
    assert (s + [c])[..|s|] == s;
  }

  /** The names "ab" and "bA". */
  const AB: CString := [0x61, 0x62]
  const BA: CString := [0x62, 0x41]

  /** Two different names with one djb2 value: "ab" and "bA" (both hash to 5863208). */
  lemma CollidingNames()
    ensures AB != BA && Djb2(AB) == Djb2(BA) == 5863208
  {
    assert AB[..1][..0] == [] && BA[..1][..0] == [];
    assert Djb2(AB[..1]) == 177670;
    assert Djb2(BA[..1]) == 177671;
  }
}
