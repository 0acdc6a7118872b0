/**
 * The part of java.util.ArrayList that comparator mode depends on: the element sequence and the structural
 * modification count that its fail-fast iterators compare against. ArrayList's own code is not part of this
 * model; `Remove` follows the documented behaviour of List.remove(Object).
 */
module JavaList {

  /** s without its first element equal to o; s itself when there is none. */
  function RemoveFirst<T(==)>(s: seq<T>, o: T): (r: seq<T>)
    ensures o !in s ==> r == s
    ensures o in s ==> |r| == |s| - 1 && multiset(r) == multiset(s) - multiset{o}
  {
    if s == [] then []
    else if s[0] == o then
      assert s == [s[0]] + s[1..];
      s[1..]
    else
      assert s == [s[0]] + s[1..];
      [s[0]] + RemoveFirst(s[1..], o)
  }

  /** When i is the first position holding s[i], removing the first occurrence of s[i] removes position i. */
  lemma {:induction false} RemoveFirstAt<T>(s: seq<T>, i: nat)
    requires i < |s| && s[i] !in s[..i]
    ensures RemoveFirst(s, s[i]) == s[..i] + s[i + 1..]
  {
    if i == 0 {
      assert s[..0] + s[1..] == s[1..];
    } else {
      var t := s[1..];
      PrefixShift(s, i);
      RemoveFirstAt(t, i - 1);
      RemoveFirstPast(s, s[i]);
    }
  }

  /** How s[..i] and s[i + 1..] look from s[1..], for 0 < i. */
  lemma PrefixShift<T>(s: seq<T>, i: nat)
    requires 0 < i < |s| && s[i] !in s[..i]
    ensures s[0] != s[i] && s[1..][i - 1] == s[i] && s[i] !in s[1..][..i - 1]
    ensures s[..i] + s[i + 1..] == [s[0]] + (s[1..][..i - 1] + s[1..][i..])
  {
    assert s[0] == s[..i][0];
    assert s[1..][..i - 1] == s[1..i];
    assert s[..i] == [s[0]] + s[1..i];
  }

  /** Removing o from a list that does not start with o keeps the first element. */
  lemma RemoveFirstPast<T>(s: seq<T>, o: T)
    requires s != [] && s[0] != o
    ensures RemoveFirst(s, o) == [s[0]] + RemoveFirst(s[1..], o)
  {
  }

  class ArrayList<T(==)> {
    var elems: seq<T>
    var modCount: nat

    constructor (s: seq<T>)
      ensures elems == s && modCount == 0
    {
      elems := s;
      modCount := 0;
    }

    /** List.remove(Object): remove the first element equal to o, if any; a removal is a structural
        modification and increments modCount. */
    method Remove(o: T) returns (found: bool)
      modifies this
      ensures found == (o in old(elems))
      ensures elems == RemoveFirst(old(elems), o)
      ensures modCount == old(modCount) + (if found then 1 else 0)
    {
      var index := 0;
      while index < |elems| && elems[index] != o
        invariant index <= |elems|
        invariant o !in elems[..index]
      {
        index := index + 1;
      }
      found := index < |elems|;
      if found {
        RemoveFirstAt(elems, index);
        elems := elems[..index] + elems[index + 1..];
        modCount := modCount + 1;
      } else {
        assert elems[..index] == elems;
      }
    }
  }
}
