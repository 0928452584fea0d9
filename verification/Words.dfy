/** Machine words of the Vector-06C as bounded integers, and the wrap-around
    conversions that C++ applies when it stores into uint8_t and uint16_t. */
module Words {

  type Bit = x: int | 0 <= x < 2
  type Byte = x: int | 0 <= x < 256
  type Word = x: int | 0 <= x < 65536

  /** Store into a uint8_t. */
  function ToByte(x: int): Byte { x % 256 }

  /** Store into a uint16_t. */
  function ToWord(x: int): Word { x % 65536 }

  function Lo(w: Word): Byte { w % 256 }

  function Hi(w: Word): Byte { w / 256 }

  function Pair(hi: Byte, lo: Byte): Word { 256 * hi + lo }

  function Flag(b: bool): Bit { if b then 1 else 0 }

  /** Bit 3 of a word, the one the half-carry tables look at. */
  function Bit3(x: nat): Bit { x / 8 % 2 }

  /** A finite set of integers drawn from 0..n-1 has at most n elements. */
  lemma {:induction false} BoundedSetSize(s: set<int>, n: nat)
    requires forall x <- s :: 0 <= x < n
    ensures |s| <= n
    decreases n
  {
    if n == 0 {
      assert forall x <- s :: false;
      assert s == {};
    } else {
      BoundedSetSize(s - {n - 1}, n - 1);
      assert s <= (s - {n - 1}) + {n - 1};
    }
  }
}
