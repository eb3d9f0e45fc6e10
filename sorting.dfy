/**
 * The ORDER BY of the views: an insertion sort on a text key. The result is
 * ordered by the key and is a permutation of its input.
 */
module Sorting {
  import opened Text

  ghost predicate SortedBy<T>(s: seq<T>, key: T -> string) {
    forall i, j :: 0 <= i < j < |s| ==> StrLe(key(s[i]), key(s[j]))
  }

  /** Every element of rest, drawn from s and x, is at least b. */
  lemma BoundedByAll<T>(b: string, s: seq<T>, x: T, rest: seq<T>, key: T -> string)
    requires multiset(rest) == multiset(s) + multiset{x}
    requires forall j :: 0 <= j < |s| ==> StrLe(b, key(s[j]))
    requires StrLe(b, key(x))
    ensures forall k :: 0 <= k < |rest| ==> StrLe(b, key(rest[k]))
  {
    forall k | 0 <= k < |rest|
      ensures StrLe(b, key(rest[k]))
    {
      var y := rest[k];
      assert y in multiset(rest);
      if y != x {
        assert y in multiset(s);
        var j :| 0 <= j < |s| && s[j] == y;
      }
    }
  }

  /** Inserts x after every element whose key is not greater than its own. */
  function InsertBy<T>(x: T, s: seq<T>, key: T -> string): (r: seq<T>)
    requires SortedBy(s, key)
    ensures SortedBy(r, key)
    ensures multiset(r) == multiset(s) + multiset{x}
  {
    if s == [] then
      [x]
    else if StrLt(key(x), key(s[0])) then
      assert forall j :: 0 <= j < |s| ==> StrLe(key(x), key(s[j])) by {
        forall j | 0 <= j < |s|
          ensures StrLe(key(x), key(s[j]))
        {
          if j > 0 {
            StrLeTrans(key(x), key(s[0]), key(s[j]));
          }
        }
      }
      assert s == [s[0]] + s[1..];
      [x] + s
    else
      var rest := InsertBy(x, s[1..], key);
      assert StrLe(key(s[0]), key(x)) by {
        StrLeTotal(key(x), key(s[0]));
        StrLeRefl(key(x));
      }
      BoundedByAll(key(s[0]), s[1..], x, rest, key);
      assert s == [s[0]] + s[1..];
      [s[0]] + rest
  }

  /** The rows in ascending key order. */
  function SortBy<T>(s: seq<T>, key: T -> string): (r: seq<T>)
    ensures SortedBy(r, key)
    ensures multiset(r) == multiset(s)
  {
    if s == [] then
      []
    else
      assert s == s[..|s| - 1] + [s[|s| - 1]];
      InsertBy(s[|s| - 1], SortBy(s[..|s| - 1], key), key)
  }
}
