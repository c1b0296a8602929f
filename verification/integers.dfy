/** Circular index arithmetic of integer.h. */
module Integers {

  function Abs(x: int): int {
    if x < 0 then -x else x
  }

  function MinInt(x: int, y: int): int {
    if x < y then x else y
  }

  function ConstrainInt(x: int, min: int, max: int): int {
    if min > max then min else if x < min then min else if x > max then max else x
  }

  /** x - y on a circle of circumference m, by the shortest path. */
  function ModuloSubtract(x: int, y: int, m: int): int
    requires 0 <= x < m && 0 <= y < m
  {
    var d1 := x - y;
    var d2 := (if x > y then -m else m) + d1;
    if Abs(d1) > Abs(d2) then d2 else d1
  }

  /** x + y on a circle of circumference m. */
  function ModuloAdd(x: int, y: int, m: int): (r: int)
    requires 0 <= x < m && -m <= y <= m
    ensures 0 <= r < m
    ensures r == x + y || r == x + y - m || r == x + y + m
  {
    var sum := x + y;
    var sum := if sum >= m then sum - m else sum;
    if sum < 0 then sum + m else sum
  }

  /** The circular difference of two counters that are kept modulo m differs
      from the true difference by whole turns, and is never longer than half way
      round. */
  lemma ShortestPath(n: int, h: int, m: int) returns (turns: int)
    requires m > 0
    ensures n - h == ModuloSubtract(n % m, h % m, m) + turns * m
    ensures 2 * Abs(ModuloSubtract(n % m, h % m, m)) <= m
  {
    var d := ModuloSubtract(n % m, h % m, m);
    var q := n / m - h / m;
    assert n - h == q * m + n % m - h % m by {
      assert (n / m) * m - (h / m) * m == q * m;
    }
    turns := if d == n % m - h % m then q else if n % m > h % m then q + 1 else q - 1;
  }
}
