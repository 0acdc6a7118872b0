/** Counting and repeating elements of a sequence, used to state how often a record is filed under a key. */
module SeqUtil {

  /** The number of occurrences of x in s. */
  function Count<X(==)>(x: X, s: seq<X>): (n: nat)
    ensures n <= |s|
    ensures n == 0 <==> x !in s
    decreases |s|
  {
    if s == [] then 0
    else Count(x, s[..|s| - 1]) + (if s[|s| - 1] == x then 1 else 0)
  }

  /** n copies of x. */
  function Repeat<X>(x: X, n: nat): (s: seq<X>)
  {
    seq(n, _ => x)
  }
}
