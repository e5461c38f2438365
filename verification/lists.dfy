/** `findIndex` followed by `splice(i, 1)`: the list edits of the scaffolder. */
module Lists {
  import opened Wrappers

  /** `splice(i, 1)`. */
  function RemoveAt<T>(s: seq<T>, i: nat): (r: seq<T>)
    requires i < |s|
    ensures |r| == |s| - 1
    ensures r[..i] == s[..i] && r[i..] == s[i + 1..]
    ensures multiset(r) + multiset{s[i]} == multiset(s)
  {
    assert s == s[..i] + [s[i]] + s[i + 1..];
    s[..i] + s[i + 1..]
  }

  /** `findIndex(v => v === x)`, with absent for -1. */
  function IndexOf<T(==)>(s: seq<T>, x: T): (r: Option<nat>)
    ensures r.None? <==> x !in s
    ensures r.Some? ==> r.value < |s| && s[r.value] == x && x !in s[..r.value]
  {
    if s == [] then None
    else if s[0] == x then Some(0)
    else match IndexOf(s[1..], x)
      case None => None
      case Some(i) =>
        assert s[..i + 1] == [s[0]] + s[1..][..i];
        Some(i + 1)
  }

  /** Removes the first occurrence of x, if any. */
  function RemoveFirst<T(==)>(s: seq<T>, x: T): seq<T> {
    match IndexOf(s, x)
    case None => s
    case Some(i) => RemoveAt(s, i)
  }

  /** Only the first occurrence goes: the elements before it and after it
      keep their order, exactly one x leaves the multiset, and a list
      without x is unchanged. */
  lemma RemoveFirstSpec<T>(s: seq<T>, x: T)
    ensures x !in s ==> RemoveFirst(s, x) == s
    ensures x in s ==>
      exists i :: 0 <= i < |s| && s[i] == x && x !in s[..i]
                  && RemoveFirst(s, x) == s[..i] + s[i + 1..]
    ensures x in s ==> multiset(RemoveFirst(s, x)) == multiset(s) - multiset{x}
    ensures x in s ==> multiset(RemoveFirst(s, x))[x] == multiset(s)[x] - 1
  {
    if x in s {
      var i := IndexOf(s, x).value;
      assert RemoveFirst(s, x) == s[..i] + s[i + 1..];
    }
  }
}
