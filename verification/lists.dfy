/** The list operation the game and the editor use to delete from a list they iterate over. */
module Lists {

  /**
   * Python's `list.remove(x)`: deletes the FIRST element equal to `x`.
   * (Python raises `ValueError` when `x` is absent; every caller here removes
   * an element it has just taken from the list.)
   */
  function RemoveFirst<T(==)>(s: seq<T>, x: T): (r: seq<T>)
    requires x in s
    ensures |r| == |s| - 1
  {
    if s[0] == x then s[1..]
    else
      [s[0]] + RemoveFirst(s[1..], x)
  }

  /**
   * When no element before `x` equals it, `remove` deletes exactly that
   * occurrence and keeps everything else in order.
   */
  lemma {:induction false} RemoveFirstAfter<T>(prefix: seq<T>, x: T, rest: seq<T>)
    requires x !in prefix
    ensures RemoveFirst(prefix + [x] + rest, x) == prefix + rest
  {
    if prefix != [] {
      assert (prefix + [x] + rest)[1..] == prefix[1..] + [x] + rest;
      RemoveFirstAfter(prefix[1..], x, rest);
    }
  }
}
