/** The JavaScript array operations the handlers apply to a user's task
    list: push (sequence append), indexOf, and splice(index, 1). */
module Lists {

  /** Array.prototype.indexOf: the position of the first occurrence of x,
      or -1 when there is none. */
  function IndexOf<T(==)>(s: seq<T>, x: T): (i: int)
    ensures -1 <= i < |s|
    ensures i == -1 <==> x !in s
    ensures 0 <= i ==> s[i] == x && x !in s[..i]
  {
    if s == [] then -1
    else if s[0] == x then 0
    else
      var j := IndexOf(s[1..], x);
      if j == -1 then -1
      else
        assert s[..j + 1] == [s[0]] + s[1..][..j];
        j + 1
  }

  /** `const index = s.indexOf(x); if (index > -1) s.splice(index, 1);`
      as a value: the sequence without the first occurrence of x. */
  function RemoveFirst<T(==)>(s: seq<T>, x: T): (r: seq<T>)
    ensures x !in s ==> r == s
    ensures x in s ==> exists i :: 0 <= i < |s| && s[i] == x && x !in s[..i] && r == s[..i] + s[i + 1..]
    ensures multiset(r) == multiset(s) - multiset{x}
  {
    var i := IndexOf(s, x);
    if i > -1 then
      assert s == s[..i] + [s[i]] + s[i + 1..];
      s[..i] + s[i + 1..]
    else
      s
  }

  /** Removing the first occurrence of what was just pushed undoes the push
      when the sequence did not hold it before. */
  lemma RemoveFirstUndoesPush<T>(s: seq<T>, x: T)
    requires x !in s
    ensures RemoveFirst(s + [x], x) == s
  {
  }

  /** When the sequence already held x, push then remove-first yields the
      same elements but need not yield the same order: the earlier
      occurrence is the one removed. */
  lemma PushThenRemoveFirstKeepsElements<T>(s: seq<T>, x: T)
    ensures multiset(RemoveFirst(s + [x], x)) == multiset(s)
  {
  }

  /** A witness that the order can change: pushing "a" onto ["a", "b"] and
      removing the first "a" gives ["b", "a"]. */
  lemma PushThenRemoveFirstReorders()
    ensures RemoveFirst(["a", "b"] + ["a"], "a") == ["b", "a"]
    ensures RemoveFirst(["a", "b"] + ["a"], "a") != ["a", "b"]
  {
    var s := ["a", "b"] + ["a"];
    assert IndexOf(s, "a") == 0;
    assert s[..0] + s[1..] == ["b", "a"];
  }

  /** Pushing an element that is already present duplicates it. */
  lemma PushDuplicates<T>(s: seq<T>, x: T)
    requires x in s
    ensures multiset(s + [x])[x] >= 2
  {
  }
}
