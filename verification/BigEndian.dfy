/** Numbers as big-endian digits to base 256. */
module BigEndian {
  import opened Basics

  /** `v >> 8*n` */
  function Top(v: nat, n: nat): nat {
    if n == 0 then v else Top(v / 0x100, n - 1)
  }

  /** The `n` low digits of `v`, most significant first. */
  function Digits(v: nat, n: nat): (bs: seq<byte>)
    ensures |bs| == n
  {
    if n == 0 then [] else Digits(v / 0x100, n - 1) + [v % 0x100]
  }

  /** The number whose digits are `seed` and then `bs`. */
  function Word(seed: int, bs: seq<byte>): (w: int)
    ensures seed >= 0 ==> w >= 0
  {
    if bs == [] then seed else Word(seed, bs[..|bs| - 1]) * 0x100 + (bs[|bs| - 1] as int)
  }

  lemma {:induction false} WordOfDigits(v: nat, n: nat)
    ensures Word(Top(v, n), Digits(v, n)) == v
  {
    if n > 0 {
      var ds := Digits(v, n);
      assert ds[..n - 1] == Digits(v / 0x100, n - 1);
      WordOfDigits(v / 0x100, n - 1);
    }
  }

  lemma {:induction false} DigitsOfWord(seed: nat, bs: seq<byte>)
    ensures Digits(Word(seed, bs), |bs|) == bs && Top(Word(seed, bs), |bs|) == seed
  {
    if bs != [] {
      DigitsOfWord(seed, bs[..|bs| - 1]);
      LastDigit(Word(seed, bs[..|bs| - 1]), bs[|bs| - 1]);
      assert bs == bs[..|bs| - 1] + [bs[|bs| - 1]];
    }
  }

  lemma LastDigit(w: nat, b: byte)
    ensures (w * 0x100 + (b as int)) / 0x100 == w && (w * 0x100 + (b as int)) % 0x100 == b
  {
  }

  // A word can be built from its most significant end.
  lemma {:induction false} WordFront(seed: int, bs: seq<byte>)
    requires bs != []
    ensures Word(seed, bs) == Word(seed * 0x100 + (bs[0] as int), bs[1..])
  {
    if |bs| > 1 {
      WordFront(seed, bs[..|bs| - 1]);
      assert bs[..|bs| - 1][1..] == bs[1..][..|bs| - 2];
    } else {
      assert bs[..0] == [];
    }
  }
}
