/** Types and counting shared by the other modules.
 */
module Basics {

  datatype Option<T> = None | Some(value: T)

  type Byte = x: int | 0 <= x < 0x100
  type U32 = x: int | 0 <= x < 0x1_0000_0000

  /** How often `x` occurs in `s`. */
  function Count(s: seq<nat>, x: nat): nat {
    if s == [] then 0 else (if s[0] == x then 1 else 0) + Count(s[1..], x)
  }

  lemma CountFirst(h: nat, s: seq<nat>, x: nat)
    ensures Count([h] + s, x) == (if h == x then 1 else 0) + Count(s, x)
  {
    assert ([h] + s)[1..] == s;
  }

  lemma {:induction false} CountAppend(a: seq<nat>, b: seq<nat>, x: nat)
    ensures Count(a + b, x) == Count(a, x) + Count(b, x)
    decreases |a|
  {
    if a == [] {
      assert a + b == b;
    } else {
      assert (a + b)[1..] == a[1..] + b;
      CountAppend(a[1..], b, x);
    }
  }

  lemma CountLast(s: seq<nat>, h: nat, x: nat)
    ensures Count(s + [h], x) == Count(s, x) + if h == x then 1 else 0
  {
    CountAppend(s, [h], x);
    CountFirst(h, [], x);
    assert [h] + [] == [h];
  }

  lemma {:induction false} CountIn(s: seq<nat>, x: nat)
    ensures x in s <==> Count(s, x) > 0
    decreases |s|
  {
    if s != [] {
      CountIn(s[1..], x);
    }
  }
}
