/** The capacity policy shared by DS_Array, DS_DynamicString, DS_Map and DS_Set:
    an empty container grows to 8 slots, a non-empty one doubles. */
module Growth {

  /** 8, 16, 32, ... */
  predicate IsDoubledFrom8(c: int)
    decreases if c < 0 then 0 else c
  {
    c == 8 || (c > 8 && c % 2 == 0 && IsDoubledFrom8(c / 2))
  }

  /** Every capacity a container can ever have: 0 before the first growth, then 8 * 2^k. */
  predicate IsGrowthCapacity(c: int) {
    c == 0 || IsDoubledFrom8(c)
  }

  /** One growth step: `Capacity == 0 ? 8 : Capacity * 2`. */
  function NextCapacity(c: int): (r: int)
    requires IsGrowthCapacity(c)
    ensures IsGrowthCapacity(r) && r > c && r >= 8
    ensures c > 0 ==> r / 2 == c
  {
    if c == 0 then 8 else Doubled(c); c * 2
  }

  /** Doubling a capacity of the growth sequence gives the next one. */
  lemma Doubled(c: int)
    requires IsDoubledFrom8(c)
    ensures IsDoubledFrom8(c * 2) && (c * 2) / 2 == c
  {
    assert (c * 2) % 2 == 0 && (c * 2) / 2 == c;
  }

  /** The capacity after `k` doublings of the first allocation: 8 * 2^k. */
  function DoubledTimes(k: nat): (r: int)
    ensures IsDoubledFrom8(r)
  {
    if k == 0 then 8 else Doubled(DoubledTimes(k - 1)); DoubledTimes(k - 1) * 2
  }

  /** Every growth capacity after the first step is a multiple of 8. */
  lemma {:induction false} GrowthCapacityMultipleOf8(c: int)
    requires IsGrowthCapacity(c)
    ensures c % 8 == 0
    decreases if c < 0 then 0 else c
  {
    if c > 8 {
      var h := c / 2;
      GrowthCapacityMultipleOf8(h);
      var k := h / 8;
      assert h == 8 * k && c == 2 * h;
      assert c == 8 * (2 * k);
    }
  }

  /** The doubling loop of Reserve: grow `capacity` until it holds `n` elements.
      The result is the first capacity of the growth sequence that is large enough. */
  method GrowCapacity(capacity: int, n: int) returns (c: int)
    requires IsGrowthCapacity(capacity)
    ensures IsGrowthCapacity(c) && c >= capacity && c >= n
    ensures n <= capacity ==> c == capacity
    ensures capacity < n ==> c == 8 || c / 2 < n
  {
    c := capacity;
    while n > c
      invariant IsGrowthCapacity(c) && c >= capacity
      invariant c > capacity ==> capacity < n && (c == 8 || c / 2 < n)
      decreases n - c
    {
      c := NextCapacity(c);
    }
  }
}
