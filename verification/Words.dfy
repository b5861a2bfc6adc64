/** Machine word ranges.  On cc65 an `unsigned int` has 16 bits and an `unsigned long` 32. */
module Words {
  type Byte = x: int | 0 <= x < 0x100
  type U16 = x: int | 0 <= x < 0x1_0000
  type U32 = x: int | 0 <= x < 0x1_0000_0000

  function Wrap16(x: int): U16 {
    x % 0x1_0000
  }

  function Wrap32(x: int): U32 {
    x % 0x1_0000_0000
  }

  function Sum(s: seq<int>): int {
    if s == [] then 0 else s[0] + Sum(s[1..])
  }

  lemma {:induction false} SumConcat(a: seq<int>, b: seq<int>)
    ensures Sum(a + b) == Sum(a) + Sum(b)
  {
    if a == [] {
      assert a + b == b;
    } else {
      assert (a + b)[1..] == a[1..] + b;
      SumConcat(a[1..], b);
    }
  }

  lemma Unwrapped(x: int)
    requires 0 <= x < 0x1_0000
    ensures Wrap16(x) == x == Wrap32(x)
  {
  }

  lemma WrapSum(x: int, y: int)
    ensures Wrap32(Wrap32(x) + y) == Wrap32(x + y)
  {
  }

  lemma SumSnoc(s: seq<int>, v: int)
    ensures Sum(s + [v]) == Sum(s) + v
  {
    SumConcat(s, [v]);
    assert Sum([v]) == v;
  }
}
