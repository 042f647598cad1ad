// Machine words and small helpers shared by every component of the kernel model.
module Words {
  const TWO64: nat := 0x1_0000_0000_0000_0000
  const PAGE: nat := 0x1000

  // The kernel's `uint64`, `uint` and `address`.
  type uint64 = n: int | 0 <= n < 0x1_0000_0000_0000_0000

  datatype Option<+T> = None | Some(value: T)

  // Addition and subtraction wrap around at 2^64.
  function Add64(a: uint64, b: uint64): uint64 {
    if a + b < TWO64 then a + b else a + b - TWO64
  }

  function Sub64(a: uint64, b: uint64): uint64 {
    if b <= a then a - b else a - b + TWO64
  }

  function Turns(k: int): int { k * TWO64 }

  // Equality modulo 2^64.
  ghost predicate Congruent(a: int, b: int) {
    exists k: int :: a == b + Turns(k)
  }

  lemma CongruentSelf(a: int)
    ensures Congruent(a, a)
  {
    assert a == a + Turns(0);
  }

  // Wrapping arithmetic keeps a congruence, also inside a sum with another word.
  lemma AddCongruent(a: uint64, b: uint64, other: int, x: int)
    requires Congruent(a + other, x)
    ensures Congruent(Add64(a, b) + other, x + b)
  {
    var k :| a + other == x + Turns(k);
    assert Add64(a, b) + other == x + b + Turns(if a + b < TWO64 then k else k - 1);
  }

  lemma SubCongruent(a: uint64, b: uint64, other: int, x: int)
    requires Congruent(a + other, x)
    ensures Congruent(Sub64(a, b) + other, x - b)
  {
    var k :| a + other == x + Turns(k);
    assert Sub64(a, b) + other == x - b + Turns(if b <= a then k else k + 1);
  }
}
