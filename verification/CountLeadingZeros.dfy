/** The portable count-leading-zeros loop. */
module CountLeadingZeros {
  import opened Arith
  import opened FixedPoint

  /** Where the top bit of a 32-bit word is: the bracket pins the count down. */
  function LeadingZeros(x: u32): (n: nat)
    ensures n <= 32
    ensures n == 32 <==> x == 0
    ensures x > 0 ==> Pow2(31 - n) <= x < Pow2(32 - n)
  {
    Pow2Values();
    LeadingZerosFrom(x, 32)
  }

  function LeadingZerosFrom(x: nat, width: nat): (n: nat)
    requires x < Pow2(width)
    ensures n <= width
    ensures n == width <==> x == 0
    ensures x > 0 ==> Pow2(width - n - 1) <= x < Pow2(width - n)
  {
    if width == 0 then 0
    else if x >= Pow2(width - 1) then 0
    else 1 + LeadingZerosFrom(x, width - 1)
  }

  method Clz(data: u32) returns (count: u32)
    ensures count == LeadingZeros(data)
  {
    if data == 0 {
      return 32;
    }
    count := 0;
    var mask: u32 := 0x8000_0000;
    Pow2Values();
    while (data / mask) % 2 == 0
      invariant 0 <= count <= 31
      invariant mask == Pow2(31 - count)
      invariant data < Pow2(32 - count)
      decreases 31 - count
    {
      assert Pow2(32 - count) == 2 * mask;
      if data >= mask {
        QuotientIs(data, mask, 1);
      }
      assert data < mask;
      count := count + 1;
      mask := mask / 2;
    }
    assert mask <= data by {
      if data < mask {
        QuotientIs(data, mask, 0);
      }
    }
    CountIsUnique(data, count);
  }

  lemma CountIsUnique(x: u32, n: nat)
    requires n <= 31 && Pow2(31 - n) <= x < Pow2(32 - n)
    ensures LeadingZeros(x) == n
  {
    hide Pow2, LeadingZeros;
    var m := LeadingZeros(x);
    if m < n {
      Pow2AtMost(32 - n, 31 - m);
    } else if n < m {
      Pow2AtMost(32 - m, 31 - n);
    }
  }
}
