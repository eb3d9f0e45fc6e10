/**
 * What the command and the views ask of a table: how many rows satisfy a
 * filter (`count()`), the single row a filter selects (`get()`), and the first
 * row of a filter under an ordering (`order_by(...)[0]`).
 */
module Queries {
  import opened Optional
  import opened Text

  /** `QuerySet.count()`: the number of rows that satisfy p. */
  function CountIf<T>(s: seq<T>, p: T -> bool): nat {
    if s == [] then 0 else (if p(s[0]) then 1 else 0) + CountIf(s[1..], p)
  }

  /** Row k is the only row that satisfies p. */
  predicate OnlyAt<T>(s: seq<T>, p: T -> bool, k: int) {
    0 <= k < |s| && p(s[k]) && forall j :: 0 <= j < |s| && p(s[j]) ==> j == k
  }

  lemma {:induction false} CountIfNone<T>(s: seq<T>, p: T -> bool)
    ensures CountIf(s, p) == 0 <==> forall i :: 0 <= i < |s| ==> !p(s[i])
  {
    if s != [] {
      CountIfNone(s[1..], p);
      assert forall i :: 1 <= i < |s| ==> s[i] == s[1..][i - 1];
    }
  }

  lemma {:induction false} CountIfOnly<T>(s: seq<T>, p: T -> bool, k: int)
    requires OnlyAt(s, p, k)
    ensures CountIf(s, p) == 1
  {
    if k == 0 {
      CountIfNone(s[1..], p);
      assert forall i :: 0 <= i < |s| - 1 ==> s[1..][i] == s[i + 1];
    } else {
      assert forall i :: 0 <= i < |s| - 1 ==> s[1..][i] == s[i + 1];
      CountIfOnly(s[1..], p, k - 1);
    }
  }

  lemma {:induction false} CountIfOneAt<T>(s: seq<T>, p: T -> bool)
    requires CountIf(s, p) == 1
    ensures exists k :: OnlyAt(s, p, k)
  {
    assert forall i :: 0 <= i < |s| - 1 ==> s[1..][i] == s[i + 1];
    if p(s[0]) {
      CountIfNone(s[1..], p);
      assert OnlyAt(s, p, 0);
    } else {
      CountIfOneAt(s[1..], p);
      var k :| OnlyAt(s[1..], p, k);
      assert OnlyAt(s, p, k + 1);
    }
  }

  /** Two tables whose rows agree on p, row by row, have the same count. */
  lemma {:induction false} CountIfPointwise<T>(s: seq<T>, t: seq<T>, p: T -> bool)
    requires |s| == |t|
    requires forall i :: 0 <= i < |s| ==> p(s[i]) == p(t[i])
    ensures CountIf(s, p) == CountIf(t, p)
  {
    if s != [] {
      assert forall i :: 0 <= i < |s| - 1 ==> s[1..][i] == s[i + 1] && t[1..][i] == t[i + 1];
      CountIfPointwise(s[1..], t[1..], p);
    }
  }

  /** The outcome of `Model.objects.get(...)`. */
  datatype Lookup<T> = Found(value: T) | Missing | Ambiguous

  /** `get()`: the one row that satisfies p, DoesNotExist for none, MultipleObjectsReturned for more. */
  function GetOne<T>(s: seq<T>, p: T -> bool): (r: Lookup<T>)
    ensures r.Missing? <==> CountIf(s, p) == 0
    ensures r.Found? <==> CountIf(s, p) == 1
    ensures r.Found? ==> r.value in s && p(r.value)
  {
    if s == [] then Missing
    else
      var rest := GetOne(s[1..], p);
      if !p(s[0]) then rest
      else if rest.Missing? then Found(s[0])
      else Ambiguous
  }

  /** `get()` only looks at the rows its filter selects. */
  lemma {:induction false} GetOneAgree<T>(s: seq<T>, t: seq<T>, p: T -> bool)
    requires |s| == |t|
    requires forall i :: 0 <= i < |s| && (p(s[i]) || p(t[i])) ==> s[i] == t[i]
    ensures GetOne(s, p) == GetOne(t, p)
  {
    if s != [] {
      assert forall i :: 0 <= i < |s| - 1 ==> s[1..][i] == s[i + 1] && t[1..][i] == t[i + 1];
      GetOneAgree(s[1..], t[1..], p);
    }
  }

  lemma StrLtLe(a: string, b: string, c: string)
    requires StrLt(a, b) && StrLe(b, c)
    ensures StrLt(a, c)
  {
    StrLeTrans(a, b, c);
    if a == c {
      StrLeAntisym(a, b);
    }
  }

  /**
   * `filter(p).order_by(key)[0]` over the rows before n: the index of the
   * satisfying row with the least key, the earliest one among equal keys.
   */
  function FirstIn<T>(s: seq<T>, p: T -> bool, key: T -> string, n: nat): (r: Option<nat>)
    requires n <= |s|
    ensures r.Some? ==> r.value < n && p(s[r.value])
    ensures r.None? <==> forall j :: 0 <= j < n ==> !p(s[j])
    ensures r.Some? ==> forall j :: 0 <= j < n && p(s[j]) ==>
      StrLe(key(s[r.value]), key(s[j])) && (j < r.value ==> StrLt(key(s[r.value]), key(s[j])))
  {
    if n == 0 then None
    else
      var b := FirstIn(s, p, key, n - 1);
      if p(s[n - 1]) && (b.None? || StrLt(key(s[n - 1]), key(s[b.value]))) then
        StrLeRefl(key(s[n - 1]));
        assert forall j :: 0 <= j < n - 1 && p(s[j]) ==> StrLt(key(s[n - 1]), key(s[j])) by {
          forall j | 0 <= j < n - 1 && p(s[j])
            ensures StrLt(key(s[n - 1]), key(s[j]))
          {
            StrLtLe(key(s[n - 1]), key(s[b.value]), key(s[j]));
          }
        }
        Some(n - 1)
      else
        assert b.Some? && p(s[n - 1]) ==> StrLe(key(s[b.value]), key(s[n - 1])) by {
          if b.Some? && p(s[n - 1]) {
            StrLeTotal(key(s[n - 1]), key(s[b.value]));
          }
        }
        b
  }

  /** Two tables that agree row by row on p and on the key give the same first row. */
  lemma {:induction false} FirstInPointwise<T>(s: seq<T>, t: seq<T>, p: T -> bool, key: T -> string, n: nat)
    requires n <= |s| == |t|
    requires forall i :: 0 <= i < |s| ==> p(s[i]) == p(t[i]) && key(s[i]) == key(t[i])
    ensures FirstIn(s, p, key, n) == FirstIn(t, p, key, n)
  {
    if n > 0 {
      FirstInPointwise(s, t, p, key, n - 1);
    }
  }
}
