/**
 * The JSON views over AltName: the main names of all countries, the main
 * names of the larger cities of one country, and the autocomplete list of
 * "City, Region, Country" texts. A request parameter is an Option (None when
 * it is absent); `get_language()` is the active language passed in.
 */
module Views {
  import opened Optional
  import opened Text
  import opened Records
  import opened Queries
  import opened Sorting

  /** The response of a view: a JSON list, 400, 404, or 500 for an exception the view does not catch. */
  datatype Response<T> = Ok(items: seq<T>) | BadRequest(minLen: int) | NotFound | ServerError

  // ---------------------------------------------------------------------------
  // list_uniq

  /** The list comprehension of `list_uniq` from a point where `seen` holds the values already kept. */
  function UniqFrom<T(==)>(xs: seq<T>, seen: set<T>): seq<T>
    decreases |xs|
  {
    if xs == [] then []
    else if xs[0] in seen then UniqFrom(xs[1..], seen)
    else [xs[0]] + UniqFrom(xs[1..], seen + {xs[0]})
  }

  /** `list_uniq(seq)`. */
  function Uniq<T(==)>(xs: seq<T>): seq<T> {
    UniqFrom(xs, {})
  }

  predicate Distinct<T(==)>(s: seq<T>) {
    forall i, j :: 0 <= i < j < |s| ==> s[i] != s[j]
  }

  ghost predicate Ascending(s: seq<string>) {
    forall i, j :: 0 <= i < j < |s| ==> StrLe(s[i], s[j])
  }

  function Elements<T>(s: seq<T>): set<T> {
    set x | x in s
  }

  /** `list_uniq` with its set `seen`, one value at a time. */
  method ListUniq<T(==)>(xs: seq<T>) returns (r: seq<T>)
    ensures r == Uniq(xs)
  {
    var seen: set<T> := {};
    r := [];
    var i := 0;
    while i < |xs|
      invariant 0 <= i <= |xs|
      invariant r + UniqFrom(xs[i..], seen) == Uniq(xs)
    {
      assert xs[i..][0] == xs[i] && xs[i..][1..] == xs[i + 1..];
      if xs[i] !in seen {
        assert r + UniqFrom(xs[i..], seen) == (r + [xs[i]]) + UniqFrom(xs[i + 1..], seen + {xs[i]});
        r := r + [xs[i]];
        seen := seen + {xs[i]};
      }
      i := i + 1;
    }
    assert xs[i..] == [];
  }

  /** The values kept are those of xs not seen before. */
  lemma {:induction false} UniqFromMembers<T>(xs: seq<T>, seen: set<T>)
    ensures forall x :: x in UniqFrom(xs, seen) <==> x in xs && x !in seen
    ensures |UniqFrom(xs, seen)| <= |xs|
    decreases |xs|
  {
    if xs != [] {
      UniqFromMembers(xs[1..], seen);
      UniqFromMembers(xs[1..], seen + {xs[0]});
      assert forall x :: x in xs <==> x == xs[0] || x in xs[1..];
    }
  }

  /** No value is kept twice. */
  lemma {:induction false} UniqFromDistinct<T>(xs: seq<T>, seen: set<T>)
    ensures Distinct(UniqFrom(xs, seen))
    decreases |xs|
  {
    if xs != [] && xs[0] !in seen {
      var rest := UniqFrom(xs[1..], seen + {xs[0]});
      UniqFromDistinct(xs[1..], seen + {xs[0]});
      UniqFromMembers(xs[1..], seen + {xs[0]});
      var r := [xs[0]] + rest;
      forall i, j | 0 <= i < j < |r|
        ensures r[i] != r[j]
      {
        if i == 0 {
          assert r[j] == rest[j - 1];
        } else {
          assert r[i] == rest[i - 1] && r[j] == rest[j - 1];
        }
      }
    } else if xs != [] {
      UniqFromDistinct(xs[1..], seen);
    }
  }

  /** A list without repeats, none of them seen, comes out unchanged. */
  lemma {:induction false} UniqFromUnchanged<T>(xs: seq<T>, seen: set<T>)
    requires Distinct(xs)
    requires forall x :: x in xs ==> x !in seen
    ensures UniqFrom(xs, seen) == xs
    decreases |xs|
  {
    if xs != [] {
      assert forall i, j :: 0 <= i < j < |xs[1..]| ==> xs[1..][i] == xs[i + 1] && xs[1..][j] == xs[j + 1];
      assert forall x :: x in xs[1..] ==> x != xs[0] by {
        forall x | x in xs[1..]
          ensures x != xs[0]
        {
          var k :| 0 <= k < |xs[1..]| && xs[1..][k] == x;
          assert xs[k + 1] == x;
        }
      }
      UniqFromUnchanged(xs[1..], seen + {xs[0]});
    }
  }

  /** The two halves of a list are cleaned one after the other. */
  lemma {:induction false} UniqFromAppend<T>(a: seq<T>, b: seq<T>, seen: set<T>)
    ensures UniqFrom(a + b, seen) == UniqFrom(a, seen) + UniqFrom(b, seen + Elements(a))
    decreases |a|
  {
    if a == [] {
      assert a + b == b;
      assert seen + Elements(a) == seen;
    } else {
      assert (a + b)[0] == a[0] && (a + b)[1..] == a[1..] + b;
      var seen' := if a[0] in seen then seen else seen + {a[0]};
      UniqFromAppend(a[1..], b, seen');
      assert seen' + Elements(a[1..]) == seen + Elements(a);
    }
  }

  /** Cleaning an ascending list leaves it ascending. */
  lemma {:induction false} UniqFromAscending(xs: seq<string>, seen: set<string>)
    requires Ascending(xs)
    ensures Ascending(UniqFrom(xs, seen))
    decreases |xs|
  {
    if xs != [] {
      assert Ascending(xs[1..]) by {
        assert forall i :: 0 <= i < |xs[1..]| ==> xs[1..][i] == xs[i + 1];
      }
      UniqFromAscending(xs[1..], seen);
      UniqFromAscending(xs[1..], seen + {xs[0]});
      if xs[0] !in seen {
        var rest := UniqFrom(xs[1..], seen + {xs[0]});
        UniqFromMembers(xs[1..], seen + {xs[0]});
        var r := [xs[0]] + rest;
        forall i, j | 0 <= i < j < |r|
          ensures StrLe(r[i], r[j])
        {
          assert r[j] == rest[j - 1];
          if i == 0 {
            assert rest[j - 1] in rest;
            var k :| 0 <= k < |xs[1..]| && xs[1..][k] == r[j];
            assert xs[k + 1] == r[j];
          } else {
            assert r[i] == rest[i - 1];
          }
        }
      }
    }
  }

  // ---------------------------------------------------------------------------
  // Queries of the views

  /** `filter(p)` in storage order. */
  function Where(s: seq<AltName>, p: AltName -> bool): (r: seq<AltName>)
    ensures |r| <= |s|
    ensures forall x :: x in r <==> x in s && p(x)
  {
    if s == [] then []
    else
      var rest := Where(s[1..], p);
      assert forall x :: x in s <==> x == s[0] || x in s[1..];
      if p(s[0]) then [s[0]] + rest else rest
  }

  function Itself(x: string): string { x }
  function CrcKey(a: AltName): string { a.crc }
  function NameKey(a: AltName): string { a.name }

  /** `values_list('crc')`. */
  function CrcsOf(rows: seq<AltName>): (r: seq<string>)
    ensures |r| == |rows| && forall i :: 0 <= i < |rows| ==> r[i] == rows[i].crc
  {
    seq(|rows|, i requires 0 <= i < |rows| => rows[i].crc)
  }

  /** `[(x.geoname_id, text(x)) for x in rows]`. */
  function IdPairs(rows: seq<AltName>, text: AltName -> string): (r: seq<(int, string)>)
    ensures |r| == |rows| && forall i :: 0 <= i < |rows| ==> r[i] == (rows[i].geonameId, text(rows[i]))
  {
    seq(|rows|, i requires 0 <= i < |rows| => (rows[i].geonameId, text(rows[i])))
  }

  /** `int(request.GET.get(name, default))`; None stands for the ValueError of a non-integer value. */
  function IntParam(param: Option<string>, default: int): Option<int> {
    if param.None? then Some(default) else PyInt(param.value)
  }

  /** `get_language()[:2]`. */
  function ShortLanguage(active: string): string {
    PySlice(active, 2)
  }

  lemma SortLength<T>(s: seq<T>, key: T -> string)
    ensures |SortBy(s, key)| == |s|
  {
    var r := SortBy(s, key);
    assert |r| == |multiset(r)| == |multiset(s)| == |s|;
  }

  lemma SortMember<T>(s: seq<T>, key: T -> string, x: T)
    ensures x in SortBy(s, key) <==> x in s
  {
    var r := SortBy(s, key);
    assert x in r <==> x in multiset(r);
    assert x in s <==> x in multiset(s);
  }

  // ---------------------------------------------------------------------------
  // city_autocomplete_crc

  predicate IsCityIn(a: AltName, lg: string) {
    a.language == lg && a.geoType == CityType
  }

  /** `filter(crc__istartswith=q, language=lg, type=3)`. */
  function BeginsWith(q: string, lg: string): AltName -> bool {
    (a: AltName) => IsCityIn(a, lg) && StartsWithCI(a.crc, q)
  }

  /** `filter(crc__icontains=q, language=lg, type=3).exclude(crc__istartswith=q)`. */
  function ContainsLater(q: string, lg: string): AltName -> bool {
    (a: AltName) => IsCityIn(a, lg) && ContainsCI(a.crc, q) && !StartsWithCI(a.crc, q)
  }

  /** The crc values of the rows that satisfy p, ordered by crc. */
  function SortedCrcs(alts: seq<AltName>, p: AltName -> bool): seq<string> {
    SortBy(CrcsOf(Where(alts, p)), Itself)
  }

  /** The list before `list_uniq`: up to `size` beginning with q, then the rest of `size` containing it. */
  function Candidates(alts: seq<AltName>, q: string, lg: string, size: int): seq<string> {
    Fill(SortedCrcs(alts, BeginsWith(q, lg)), SortedCrcs(alts, ContainsLater(q, lg)), size)
  }

  /** `li = first[:size]`, topped up from `more` while it is shorter than size. */
  function Fill(first: seq<string>, more: seq<string>, size: int): seq<string> {
    var li := PySlice(first, size);
    if |li| < size then li + PySlice(more, size - |li|) else li
  }

  /** When both lists fit into size, nothing is cut. */
  lemma FillAll(first: seq<string>, more: seq<string>, size: int)
    requires |first| + |more| <= size
    ensures Fill(first, more, size) == first + more
  {
    var li := PySlice(first, size);
    assert li == first;
    if |li| < size {
      assert PySlice(more, size - |li|) == more;
    } else {
      assert more == [];
      assert li + more == li;
    }
  }

  /**
   * The shape of `li` after the top-up: a prefix of first, then a prefix of
   * more, the second non-empty only when all of first was taken; for a
   * non-negative size, as many values as fit, up to size.
   */
  lemma FillShape(first: seq<string>, more: seq<string>, size: int)
    ensures var li := PySlice(first, size);
            var rest := Fill(first, more, size)[|li|..];
      && Fill(first, more, size) == li + rest
      && li == first[..|li|] && rest == more[..|rest|]
      && (rest != [] ==> li == first)
      && (size >= 0 ==> |li| + |rest| == Min(size, |first| + |more|))
  {
    var li := PySlice(first, size);
    var c := Fill(first, more, size);
    if |li| < size {
      var m := PySlice(more, size - |li|);
      assert c == li + m;
      assert c[|li|..] == m;
    } else {
      assert c[|li|..] == [];
    }
  }

  /** With a non-negative size the list has as many values as both lists hold, up to size. */
  lemma FillLength(first: seq<string>, more: seq<string>, size: int)
    requires size >= 0
    ensures |Fill(first, more, size)| == Min(size, |first| + |more|)
  {
    FillShape(first, more, size);
  }

  /** A value of an ascending first list that is left out: the list is full, and holds only smaller values of first. */
  lemma FillCutFirst(first: seq<string>, more: seq<string>, size: int, x: string)
    requires Ascending(first) && size >= 0
    requires x in first && x !in Fill(first, more, size)
    ensures Fill(first, more, size) == PySlice(first, size)
    ensures |Fill(first, more, size)| == size
    ensures forall y :: y in Fill(first, more, size) ==> StrLe(y, x)
  {
    FillShape(first, more, size);
    var li := PySlice(first, size);
    var k :| 0 <= k < |first| && first[k] == x;
    forall y | y in li
      ensures StrLe(y, x)
    {
      var i :| 0 <= i < |li| && li[i] == y;
      assert first[i] == y;
    }
  }

  /** A value of an ascending more list that is left out: the list is full, and its top-up holds only smaller values of more. */
  lemma FillCutMore(first: seq<string>, more: seq<string>, size: int, x: string)
    requires Ascending(more) && size >= 0
    requires x in more && x !in Fill(first, more, size)
    ensures |Fill(first, more, size)| == size
    ensures forall y :: y in Fill(first, more, size)[|PySlice(first, size)|..] ==> StrLe(y, x)
  {
    FillShape(first, more, size);
    var li := PySlice(first, size);
    var rest := Fill(first, more, size)[|li|..];
    var k :| 0 <= k < |more| && more[k] == x;
    forall y | y in rest
      ensures StrLe(y, x)
    {
      var i :| 0 <= i < |rest| && rest[i] == y;
      assert more[i] == y;
    }
  }

  /** `city_autocomplete_crc`: q is `request.GET.get('q', '')` and minLen the CITY_AUTOCOMPELTE_MIN_LEN setting. */
  function Autocomplete(alts: seq<AltName>, q: string, lgParam: Option<string>, active: string,
                        sizeParam: Option<string>, minLen: int): Response<string>
  {
    match IntParam(sizeParam, 20)
    case None => ServerError
    case Some(size) =>
      if q == [] || |q| < minLen then BadRequest(minLen)
      else if size < 0 then ServerError
      else Ok(Uniq(Candidates(alts, q, AutocompleteLanguage(lgParam, active), size)))
  }

  method CityAutocompleteCrc(alts: seq<AltName>, q: string, lgParam: Option<string>, active: string,
                             sizeParam: Option<string>, minLen: int) returns (resp: Response<string>)
    ensures resp == Autocomplete(alts, q, lgParam, active, sizeParam, minLen)
  {
    var size := IntParam(sizeParam, 20);
    if size.None? {
      return ServerError;
    }
    if q == [] || |q| < minLen {
      return BadRequest(minLen);
    }
    if size.value < 0 {
      return ServerError;
    }
    var li := Candidates(alts, q, AutocompleteLanguage(lgParam, active), size.value);
    var items := ListUniq(li);
    return Ok(items);
  }

  lemma StartsWithContains(s: string, q: string)
    requires StartsWithCI(s, q)
    ensures ContainsCI(s, q)
  {
  }

  lemma SortedCrcsAscending(alts: seq<AltName>, p: AltName -> bool)
    ensures Ascending(SortedCrcs(alts, p))
  {
    var r := SortedCrcs(alts, p);
    assert SortedBy(r, Itself);
    forall i, j | 0 <= i < j < |r|
      ensures StrLe(r[i], r[j])
    {
      assert Itself(r[i]) == r[i] && Itself(r[j]) == r[j];
    }
  }

  lemma SortedCrcsLength(alts: seq<AltName>, p: AltName -> bool)
    ensures |SortedCrcs(alts, p)| == |Where(alts, p)|
  {
    SortLength(CrcsOf(Where(alts, p)), Itself);
  }

  /** The crc values listed are exactly those of the rows that satisfy p. */
  lemma SortedCrcsMember(alts: seq<AltName>, p: AltName -> bool, x: string)
    ensures x in SortedCrcs(alts, p) <==> exists a :: a in alts && p(a) && a.crc == x
  {
    var rows := Where(alts, p);
    var crcs := CrcsOf(rows);
    SortMember(crcs, Itself, x);
    if x in crcs {
      var i :| 0 <= i < |crcs| && crcs[i] == x;
      assert rows[i] in rows;
    }
    if exists a :: a in alts && p(a) && a.crc == x {
      var a :| a in alts && p(a) && a.crc == x;
      var i :| 0 <= i < |rows| && rows[i] == a;
      assert crcs[i] == x;
    }
  }

  /** Every value of a prefix of an ascending list is in the list, and the prefix is ascending. */
  lemma SliceFacts(s: seq<string>, n: int)
    requires Ascending(s)
    ensures Ascending(PySlice(s, n))
    ensures forall x :: x in PySlice(s, n) ==> x in s
  {
    var r := PySlice(s, n);
    assert forall i :: 0 <= i < |r| ==> r[i] == s[i];
  }

  /** x is the crc of a city row in language lg that contains q: a value the view may answer. */
  predicate CrcMatches(x: string, alts: seq<AltName>, q: string, lg: string) {
    exists a :: a in alts && IsCityIn(a, lg) && ContainsCI(a.crc, q) && a.crc == x
  }

  /** Every value of items is the crc of a city row in language lg that contains q. */
  predicate FromCities(items: seq<string>, alts: seq<AltName>, q: string, lg: string) {
    forall x :: x in items ==> CrcMatches(x, alts, q, lg)
  }

  /** The first p values begin with q and the others do not; each group is ascending. */
  ghost predicate SplitAt(items: seq<string>, q: string, p: int) {
    && 0 <= p <= |items|
    && Ascending(items[..p]) && Ascending(items[p..])
    && (forall i :: 0 <= i < p ==> StartsWithCI(items[i], q))
    && (forall i :: p <= i < |items| ==> !StartsWithCI(items[i], q))
  }

  /** The list before cleaning: the values beginning with q, ascending, then the others, ascending. */
  lemma CandidatesShape(alts: seq<AltName>, q: string, lg: string, size: int)
    ensures var li := PySlice(SortedCrcs(alts, BeginsWith(q, lg)), size);
            var rest := Candidates(alts, q, lg, size)[|li|..];
      && Candidates(alts, q, lg, size) == li + rest
      && Ascending(li) && Ascending(rest)
      && (forall x :: x in li ==> exists a :: a in alts && BeginsWith(q, lg)(a) && a.crc == x)
      && (forall x :: x in rest ==> exists a :: a in alts && ContainsLater(q, lg)(a) && a.crc == x)
      && (size >= 0 ==> |li| + |rest| <= size)
  {
    var begins := SortedCrcs(alts, BeginsWith(q, lg));
    var later := SortedCrcs(alts, ContainsLater(q, lg));
    SortedCrcsAscending(alts, BeginsWith(q, lg));
    SortedCrcsAscending(alts, ContainsLater(q, lg));
    var li := PySlice(begins, size);
    SliceFacts(begins, size);
    var c := Candidates(alts, q, lg, size);
    var rest := c[|li|..];
    if |li| < size {
      var more := PySlice(later, size - |li|);
      SliceFacts(later, size - |li|);
      assert c == li + more;
      assert rest == more;
    } else {
      assert c == li;
      assert rest == [];
    }
    forall x | x in li
      ensures exists a :: a in alts && BeginsWith(q, lg)(a) && a.crc == x
    {
      SortedCrcsMember(alts, BeginsWith(q, lg), x);
    }
    forall x | x in rest
      ensures exists a :: a in alts && ContainsLater(q, lg)(a) && a.crc == x
    {
      SortedCrcsMember(alts, ContainsLater(q, lg), x);
    }
  }

  /**
   * x, not in items, sorts after every listed value of its own group
   * (beginning with q or not), and when x begins with q every listed value
   * does too: no value of the other group was taken in its place.
   */
  ghost predicate LeftOutAfter(items: seq<string>, q: string, x: string) {
    && (forall y :: y in items && StartsWithCI(y, q) == StartsWithCI(x, q) ==> StrLe(y, x))
    && (StartsWithCI(x, q) ==> forall y :: y in items ==> StartsWithCI(y, q))
  }

  /**
   * The list before cleaning takes the smallest values beginning with q,
   * and tops up with the smallest of the others only when all of the first
   * were taken; with a non-negative size it has as many values as the two
   * sorted lists hold (one per matching row, by SortedCrcsLength), up to size.
   */
  lemma CandidatesTopUp(alts: seq<AltName>, q: string, lg: string, size: int)
    ensures var li := PySlice(SortedCrcs(alts, BeginsWith(q, lg)), size);
            var rest := Candidates(alts, q, lg, size)[|li|..];
      && li == SortedCrcs(alts, BeginsWith(q, lg))[..|li|]
      && rest == SortedCrcs(alts, ContainsLater(q, lg))[..|rest|]
      && (rest != [] ==> li == SortedCrcs(alts, BeginsWith(q, lg)))
    ensures size >= 0 ==>
      |Candidates(alts, q, lg, size)|
      == Min(size, |SortedCrcs(alts, BeginsWith(q, lg))| + |SortedCrcs(alts, ContainsLater(q, lg))|)
  {
    var begins := SortedCrcs(alts, BeginsWith(q, lg));
    var later := SortedCrcs(alts, ContainsLater(q, lg));
    FillShape(begins, later, size);
    if size >= 0 {
      FillLength(begins, later, size);
    }
  }




  /**
   * A matching crc the cleaned list leaves out: the list was full (size
   * values) before cleaning; every listed value of its own group (beginning
   * with q or not) sorts before it; and a value beginning with q is left out
   * only when no value of the other group was taken.
   */
  lemma CandidatesCut(alts: seq<AltName>, q: string, lg: string, size: int, x: string)
    requires size >= 0 && CrcMatches(x, alts, q, lg)
    requires x !in Uniq(Candidates(alts, q, lg, size))
    ensures |Candidates(alts, q, lg, size)| == size
    ensures LeftOutAfter(Uniq(Candidates(alts, q, lg, size)), q, x)
  {
    var begins := SortedCrcs(alts, BeginsWith(q, lg));
    var later := SortedCrcs(alts, ContainsLater(q, lg));
    var c := Candidates(alts, q, lg, size);
    var li := PySlice(begins, size);
    var rest := c[|li|..];
    UniqFromMembers(c, {});
    CandidatesShape(alts, q, lg, size);
    var a :| a in alts && IsCityIn(a, lg) && ContainsCI(a.crc, q) && a.crc == x;
    if StartsWithCI(x, q) {
      CrcListed(alts, BeginsWith(q, lg), a);
      SortedCrcsAscending(alts, BeginsWith(q, lg));
      FillCutFirst(begins, later, size, x);
      forall y | y in Uniq(c)
        ensures StartsWithCI(y, q) && StrLe(y, x)
      {
        assert y in li;
        var b :| b in alts && BeginsWith(q, lg)(b) && b.crc == y;
      }
    } else {
      CrcListed(alts, ContainsLater(q, lg), a);
      SortedCrcsAscending(alts, ContainsLater(q, lg));
      FillCutMore(begins, later, size, x);
      forall y | y in Uniq(c) && !StartsWithCI(y, q)
        ensures StrLe(y, x)
      {
        assert y in li + rest;
      }
    }
  }

  /** Cleaning a list that begins with q-values and ends with others keeps the two groups apart. */
  lemma UniqSplit(li: seq<string>, rest: seq<string>, q: string)
    requires Ascending(li) && Ascending(rest)
    requires forall x :: x in li ==> StartsWithCI(x, q)
    requires forall x :: x in rest ==> !StartsWithCI(x, q)
    ensures SplitAt(Uniq(li + rest), q, |UniqFrom(li, {})|)
  {
    UniqFromAppend(li, rest, {});
    assert {} + Elements(li) == Elements(li);
    var u1 := UniqFrom(li, {});
    var u2 := UniqFrom(rest, Elements(li));
    var items := Uniq(li + rest);
    assert items == u1 + u2;
    UniqFromMembers(li, {});
    UniqFromMembers(rest, Elements(li));
    UniqFromAscending(li, {});
    UniqFromAscending(rest, Elements(li));
    assert items[..|u1|] == u1 && items[|u1|..] == u2;
    forall i | 0 <= i < |u1|
      ensures StartsWithCI(items[i], q)
    {
      assert u1[i] in u1;
    }
    forall i | |u1| <= i < |items|
      ensures !StartsWithCI(items[i], q)
    {
      assert u2[i - |u1|] in u2;
    }
  }

  /** Cleaning keeps only values of the list. */
  lemma UniqFromCities(c: seq<string>, alts: seq<AltName>, q: string, lg: string)
    requires FromCities(c, alts, q, lg)
    ensures FromCities(Uniq(c), alts, q, lg)
    ensures |Uniq(c)| <= |c|
  {
    UniqFromMembers(c, {});
  }

  lemma CandidatesFromCities(alts: seq<AltName>, q: string, lg: string, size: int)
    ensures FromCities(Candidates(alts, q, lg, size), alts, q, lg)
  {
    CandidatesShape(alts, q, lg, size);
    var li := PySlice(SortedCrcs(alts, BeginsWith(q, lg)), size);
    var c := Candidates(alts, q, lg, size);
    var rest := c[|li|..];
    forall x | x in c
      ensures exists a :: a in alts && IsCityIn(a, lg) && ContainsCI(a.crc, q) && a.crc == x
    {
      if x in li {
        var a :| a in alts && BeginsWith(q, lg)(a) && a.crc == x;
        StartsWithContains(a.crc, q);
      } else {
        assert x in rest;
      }
    }
  }

  /**
   * The cleaned list holds distinct crc values of city rows in the
   * language, each containing q; those that begin with q come first, each
   * group in crc order; it is no longer than size. A matching crc is left
   * out only when the list was full before cleaning, and then it sorts
   * after the listed values of its group, the values beginning with q
   * being taken first.
   */
  lemma CleanCandidates(alts: seq<AltName>, q: string, lg: string, size: int)
    ensures var items := Uniq(Candidates(alts, q, lg, size));
      && Distinct(items)
      && FromCities(items, alts, q, lg)
      && (exists p :: SplitAt(items, q, p))
      && (size >= 0 ==> |items| <= size)
    ensures size >= 0 ==>
      forall x :: CrcMatches(x, alts, q, lg) && x !in Uniq(Candidates(alts, q, lg, size)) ==>
        |Candidates(alts, q, lg, size)| == size && LeftOutAfter(Uniq(Candidates(alts, q, lg, size)), q, x)
  {
    if size >= 0 {
      forall x | CrcMatches(x, alts, q, lg) && x !in Uniq(Candidates(alts, q, lg, size))
        ensures |Candidates(alts, q, lg, size)| == size && LeftOutAfter(Uniq(Candidates(alts, q, lg, size)), q, x)
      {
        CandidatesCut(alts, q, lg, size, x);
      }
    }
    var c := Candidates(alts, q, lg, size);
    CandidatesShape(alts, q, lg, size);
    var li := PySlice(SortedCrcs(alts, BeginsWith(q, lg)), size);
    var rest := c[|li|..];
    forall x | x in li
      ensures StartsWithCI(x, q)
    {
      var a :| a in alts && BeginsWith(q, lg)(a) && a.crc == x;
    }
    forall x | x in rest
      ensures !StartsWithCI(x, q)
    {
      var a :| a in alts && ContainsLater(q, lg)(a) && a.crc == x;
    }
    UniqSplit(li, rest, q);
    UniqFromDistinct(c, {});
    CandidatesFromCities(alts, q, lg, size);
    UniqFromCities(c, alts, q, lg);
  }

  /** The language of the autocomplete: the `lg` parameter, else the active language's first two characters. */
  function AutocompleteLanguage(lgParam: Option<string>, active: string): string {
    if lgParam.Some? then lgParam.value else ShortLanguage(active)
  }

  /**
   * The answer of city_autocomplete_crc: 500 for a non-integer size, 400
   * for a q shorter than minLen, then 500 for a negative size (a queryset
   * refuses a negative slice bound); otherwise the cleaned candidate list,
   * which leaves a matching crc out only when the list was full, and then
   * only for smaller values of its group, beginning-with values first.
   */
  lemma AutocompleteResult(alts: seq<AltName>, q: string, lgParam: Option<string>, active: string,
                           sizeParam: Option<string>, minLen: int)
    ensures var r := Autocomplete(alts, q, lgParam, active, sizeParam, minLen);
      r.ServerError? <==> IntParam(sizeParam, 20).None? || (|q| >= Max(minLen, 1) && IntParam(sizeParam, 20).value < 0)
    ensures var r := Autocomplete(alts, q, lgParam, active, sizeParam, minLen);
      r.BadRequest? <==> IntParam(sizeParam, 20).Some? && |q| < Max(minLen, 1)
    ensures var r := Autocomplete(alts, q, lgParam, active, sizeParam, minLen);
      r.Ok? ==>
        var lg := AutocompleteLanguage(lgParam, active);
        var size := IntParam(sizeParam, 20).value;
        && Distinct(r.items)
        && FromCities(r.items, alts, q, lg)
        && (exists p :: SplitAt(r.items, q, p))
        && |r.items| <= size
        && (forall x :: CrcMatches(x, alts, q, lg) && x !in r.items ==>
              |Candidates(alts, q, lg, size)| == size && LeftOutAfter(r.items, q, x))
  {
    if Autocomplete(alts, q, lgParam, active, sizeParam, minLen).Ok? {
      CleanCandidates(alts, q, AutocompleteLanguage(lgParam, active), IntParam(sizeParam, 20).value);
    }
  }

  /** When all matching rows fit into size, the candidates are all of them. */
  lemma CandidatesAll(alts: seq<AltName>, q: string, lg: string, size: int)
    requires |Where(alts, BeginsWith(q, lg))| + |Where(alts, ContainsLater(q, lg))| <= size
    ensures Candidates(alts, q, lg, size) == SortedCrcs(alts, BeginsWith(q, lg)) + SortedCrcs(alts, ContainsLater(q, lg))
  {
    SortedCrcsLength(alts, BeginsWith(q, lg));
    SortedCrcsLength(alts, ContainsLater(q, lg));
    FillAll(SortedCrcs(alts, BeginsWith(q, lg)), SortedCrcs(alts, ContainsLater(q, lg)), size);
  }

  /** When all matching rows fit into size, every crc of a city row in the language that contains q is a candidate. */
  lemma CandidatesComplete(alts: seq<AltName>, q: string, lg: string, size: int, a: AltName)
    requires |Where(alts, BeginsWith(q, lg))| + |Where(alts, ContainsLater(q, lg))| <= size
    requires a in alts && IsCityIn(a, lg) && ContainsCI(a.crc, q)
    ensures a.crc in Uniq(Candidates(alts, q, lg, size))
  {
    var begins := SortedCrcs(alts, BeginsWith(q, lg));
    var later := SortedCrcs(alts, ContainsLater(q, lg));
    CandidatesAll(alts, q, lg, size);
    if StartsWithCI(a.crc, q) {
      CrcListed(alts, BeginsWith(q, lg), a);
    } else {
      CrcListed(alts, ContainsLater(q, lg), a);
    }
    UniqKeeps(begins + later, a.crc);
  }

  lemma CrcListed(alts: seq<AltName>, p: AltName -> bool, a: AltName)
    requires a in alts && p(a)
    ensures a.crc in SortedCrcs(alts, p)
  {
    SortedCrcsMember(alts, p, a.crc);
  }

  lemma UniqKeeps<T>(xs: seq<T>, x: T)
    requires x in xs
    ensures x in Uniq(xs)
  {
    UniqFromMembers(xs, {});
  }

  /** When all matching rows fit into size, the autocomplete lists every crc of a city row in the language containing q. */
  lemma AutocompleteComplete(alts: seq<AltName>, q: string, lgParam: Option<string>, active: string,
                             sizeParam: Option<string>, minLen: int, a: AltName)
    requires Autocomplete(alts, q, lgParam, active, sizeParam, minLen).Ok?
    requires var lg := AutocompleteLanguage(lgParam, active);
      |Where(alts, BeginsWith(q, lg))| + |Where(alts, ContainsLater(q, lg))| <= IntParam(sizeParam, 20).value
    requires a in alts && IsCityIn(a, AutocompleteLanguage(lgParam, active)) && ContainsCI(a.crc, q)
    ensures a.crc in Autocomplete(alts, q, lgParam, active, sizeParam, minLen).items
  {
    CandidatesComplete(alts, q, AutocompleteLanguage(lgParam, active), IntParam(sizeParam, 20).value, a);
  }

  // ---------------------------------------------------------------------------
  // cities_in_country

  function CountryWithId(pk: int): Country -> bool {
    (c: Country) => c.id == pk
  }

  /** `get_object_or_404(Country, pk=request.GET.get('q', None))`, a ValueError counting as not found. */
  function CountryParam(countries: seq<Country>, q: Option<string>): Lookup<Country> {
    if q.None? then Missing
    else match PyInt(q.value)
      case None => Missing
      case Some(pk) => GetOne(countries, CountryWithId(pk))
  }

  /** `City.objects.filter(country=country, population__gt=population)`, as the ids of its rows. */
  function LargeCityIds(cities: seq<City>, countryId: int, population: int): (ids: set<int>)
    ensures forall id :: id in ids <==> exists c :: c in cities && c.countryId == countryId && c.population > population && c.id == id
  {
    set c | c in cities && c.countryId == countryId && c.population > population :: c.id
  }

  /** `filter(geoname_id__in=ids, is_main=1, type=t, language=lg)`. */
  function MainNameIn(ids: set<int>, t: GeoType, lg: string): AltName -> bool {
    (a: AltName) => a.geonameId in ids && a.isMain && a.geoType == t && a.language == lg
  }

  /** `cities_in_country`: (geoname id, crc) of the main city names, by crc, at most `size` of them. */
  function CitiesInCountry(t: Tables, active: string, qParam: Option<string>, populationParam: Option<string>,
                           sizeParam: Option<string>): Response<(int, string)>
  {
    match IntParam(populationParam, 5000)
    case None => ServerError
    case Some(population) =>
      match IntParam(sizeParam, 10000)
      case None => ServerError
      case Some(size) =>
        match CountryParam(t.countries, qParam)
        case Missing => NotFound
        case Ambiguous => ServerError
        case Found(country) =>
          if size < 0 then ServerError
          else
          var ids := LargeCityIds(t.cities, country.id, population);
          var rows := SortBy(Where(t.altNames, MainNameIn(ids, CityType, ShortLanguage(active))), CrcKey);
          Ok(PySlice(IdPairs(rows, CrcKey), size))
  }

  /** The rows of the answer to cities_in_country once its parameters are accepted. */
  function CityRows(t: Tables, active: string, countryId: int, population: int): seq<AltName> {
    SortBy(Where(t.altNames, MainNameIn(LargeCityIds(t.cities, countryId, population), CityType, ShortLanguage(active))),
           CrcKey)
  }

  lemma SortedPairs(rows: seq<AltName>, key: AltName -> string, n: int)
    requires SortedBy(rows, key)
    ensures var r := PySlice(IdPairs(rows, key), n);
      && |r| <= |rows|
      && forall i, j :: 0 <= i < j < |r| ==> StrLe(r[i].1, r[j].1)
    ensures forall i :: 0 <= i < |PySlice(IdPairs(rows, key), n)| ==>
      PySlice(IdPairs(rows, key), n)[i] == (rows[i].geonameId, key(rows[i]))
  {
  }

  /** A (geoname id, crc) pair of a main name, in the language, of a city of the country above the population. */
  ghost predicate IsCityItem(x: (int, string), t: Tables, active: string, pk: int, population: int) {
    exists a, c :: a in t.altNames && c in t.cities
      && a.isMain && a.geoType == CityType && a.language == ShortLanguage(active)
      && a.geonameId == c.id && c.countryId == pk && c.population > population
      && x == (a.geonameId, a.crc)
  }

  ghost predicate CityItems(items: seq<(int, string)>, t: Tables, active: string, pk: int, population: int) {
    forall i :: 0 <= i < |items| ==> IsCityItem(items[i], t, active, pk, population)
  }

  lemma CityItemFrom(t: Tables, active: string, pk: int, population: int, a: AltName)
    requires a in CityRows(t, active, pk, population)
    ensures a in t.altNames && a.isMain && a.geoType == CityType && a.language == ShortLanguage(active)
    ensures exists c :: c in t.cities && a.geonameId == c.id && c.countryId == pk && c.population > population
  {
    var p := MainNameIn(LargeCityIds(t.cities, pk, population), CityType, ShortLanguage(active));
    SortMember(Where(t.altNames, p), CrcKey, a);
    assert p(a);
    var c :| c in t.cities && c.countryId == pk && c.population > population && c.id == a.geonameId;
  }

  /** Every main city name the view selects is one of its rows. */
  lemma CityRowOf(t: Tables, active: string, pk: int, population: int, x: (int, string))
    requires IsCityItem(x, t, active, pk, population)
    ensures var rows := CityRows(t, active, pk, population);
      exists k :: 0 <= k < |rows| && x == (rows[k].geonameId, rows[k].crc)
  {
    var ids := LargeCityIds(t.cities, pk, population);
    var p := MainNameIn(ids, CityType, ShortLanguage(active));
    var a, c :| a in t.altNames && c in t.cities
      && a.isMain && a.geoType == CityType && a.language == ShortLanguage(active)
      && a.geonameId == c.id && c.countryId == pk && c.population > population
      && x == (a.geonameId, a.crc);
    assert a.geonameId in ids;
    assert p(a);
    SortMember(Where(t.altNames, p), CrcKey, a);
    var rows := CityRows(t, active, pk, population);
    var k :| 0 <= k < |rows| && rows[k] == a;
  }

  /**
   * A selected pair is in the answer when all rows fit; one left out by the
   * cut sorts, by crc, after every pair that was kept.
   */
  lemma CityItemListed(t: Tables, active: string, pk: int, population: int, size: int, x: (int, string))
    requires IsCityItem(x, t, active, pk, population)
    ensures var items := PySlice(IdPairs(CityRows(t, active, pk, population), CrcKey), size);
      && (size >= |CityRows(t, active, pk, population)| ==> x in items)
      && (x !in items ==> forall i :: 0 <= i < |items| ==> StrLe(items[i].1, x.1))
  {
    var rows := CityRows(t, active, pk, population);
    var items := PySlice(IdPairs(rows, CrcKey), size);
    CityRowOf(t, active, pk, population, x);
    var k :| 0 <= k < |rows| && x == (rows[k].geonameId, rows[k].crc);
    SortedPairs(rows, CrcKey, size);
    if k < |items| {
      assert items[k] == x;
    } else {
      forall i | 0 <= i < |items|
        ensures StrLe(items[i].1, x.1)
      {
        assert items[i].1 == CrcKey(rows[i]) && x.1 == CrcKey(rows[k]);
      }
    }
  }

  /**
   * The accepted answer: at most size pairs in crc order, each from a main
   * city name; every selected pair is listed when all fit, and a pair that
   * the cut leaves out sorts after every listed one.
   */
  lemma CityAnswer(t: Tables, active: string, pk: int, population: int, size: int)
    ensures var rows := CityRows(t, active, pk, population);
            var items := PySlice(IdPairs(rows, CrcKey), size);
      && (size >= 0 ==> |items| == Min(size, |rows|))
      && (forall i, j :: 0 <= i < j < |items| ==> StrLe(items[i].1, items[j].1))
      && CityItems(items, t, active, pk, population)
      && (size >= |rows| ==> forall x :: IsCityItem(x, t, active, pk, population) ==> x in items)
      && (forall x :: IsCityItem(x, t, active, pk, population) && x !in items ==>
            forall i :: 0 <= i < |items| ==> StrLe(items[i].1, x.1))
  {
    forall x | IsCityItem(x, t, active, pk, population)
      ensures var items := PySlice(IdPairs(CityRows(t, active, pk, population), CrcKey), size);
        && (size >= |CityRows(t, active, pk, population)| ==> x in items)
        && (x !in items ==> forall i :: 0 <= i < |items| ==> StrLe(items[i].1, x.1))
    {
      CityItemListed(t, active, pk, population, size, x);
    }
    var rows := CityRows(t, active, pk, population);
    var items := PySlice(IdPairs(rows, CrcKey), size);
    SortedPairs(rows, CrcKey, size);
    forall i | 0 <= i < |items|
      ensures IsCityItem(items[i], t, active, pk, population)
    {
      var a := rows[i];
      assert a in rows;
      assert items[i] == (a.geonameId, a.crc);
      CityItemFrom(t, active, pk, population, a);
      var c :| c in t.cities && a.geonameId == c.id && c.countryId == pk && c.population > population;
    }
  }

  /**
   * The answer of cities_in_country: 500 for a non-integer population or
   * size, 404 unless q is the id of a country, then 500 for a negative size
   * (a queryset refuses a negative slice bound); otherwise the main city names
   * in the language of cities of that country above the population, as
   * (geoname id, crc) pairs in crc order, at most size of them: every one
   * when they all fit, and otherwise the ones first in crc order.
   */
  lemma CitiesInCountryResult(t: Tables, active: string, qParam: Option<string>, populationParam: Option<string>,
                              sizeParam: Option<string>)
    ensures var r := CitiesInCountry(t, active, qParam, populationParam, sizeParam);
      r.ServerError? <==> (|| IntParam(populationParam, 5000).None? || IntParam(sizeParam, 10000).None?
                           || CountryParam(t.countries, qParam).Ambiguous?
                           || (CountryParam(t.countries, qParam).Found? && IntParam(sizeParam, 10000).value < 0))
    ensures var r := CitiesInCountry(t, active, qParam, populationParam, sizeParam);
      r.NotFound? <==> (&& IntParam(populationParam, 5000).Some? && IntParam(sizeParam, 10000).Some?
                        && CountryParam(t.countries, qParam).Missing?)
    ensures var r := CitiesInCountry(t, active, qParam, populationParam, sizeParam);
      r.Ok? ==>
        var pk := CountryParam(t.countries, qParam).value.id;
        var population := IntParam(populationParam, 5000).value;
        var size := IntParam(sizeParam, 10000).value;
        var rows := CityRows(t, active, pk, population);
        && |r.items| == Min(size, |rows|)
        && (forall i, j :: 0 <= i < j < |r.items| ==> StrLe(r.items[i].1, r.items[j].1))
        && CityItems(r.items, t, active, pk, population)
        && (size >= |rows| ==> forall x :: IsCityItem(x, t, active, pk, population) ==> x in r.items)
        && (forall x :: IsCityItem(x, t, active, pk, population) && x !in r.items ==>
              forall i :: 0 <= i < |r.items| ==> StrLe(r.items[i].1, x.1))
  {
    var r := CitiesInCountry(t, active, qParam, populationParam, sizeParam);
    if r.Ok? {
      var pk := CountryParam(t.countries, qParam).value.id;
      var population := IntParam(populationParam, 5000).value;
      var size := IntParam(sizeParam, 10000).value;
      assert r.items == PySlice(IdPairs(CityRows(t, active, pk, population), CrcKey), size);
      CityAnswer(t, active, pk, population, size);
    }
  }

  // ---------------------------------------------------------------------------
  // all_countries

  function CountryIdSet(countries: seq<Country>): (ids: set<int>)
    ensures forall id :: id in ids <==> exists c :: c in countries && c.id == id
  {
    set c | c in countries :: c.id
  }

  /** `all_countries`: (geoname id, name) of the main country names in the active language, by name. */
  function AllCountries(t: Tables, active: string): seq<(int, string)> {
    IdPairs(CountryRows(t, active), NameKey)
  }

  /** The rows all_countries reports, ordered by name. */
  function CountryRows(t: Tables, active: string): seq<AltName> {
    SortBy(Where(t.altNames, MainNameIn(CountryIdSet(t.countries), CountryType, ShortLanguage(active))), NameKey)
  }

  /** A main country name in the language whose geoname id is a country's id. */
  ghost predicate IsCountryEntry(x: (int, string), t: Tables, active: string) {
    exists a, c :: a in t.altNames && c in t.countries && a.geonameId == c.id
      && a.isMain && a.geoType == CountryType && a.language == ShortLanguage(active)
      && x == (a.geonameId, a.name)
  }

  lemma CountryEntrySound(t: Tables, active: string, x: (int, string))
    requires x in AllCountries(t, active)
    ensures IsCountryEntry(x, t, active)
  {
    var p := MainNameIn(CountryIdSet(t.countries), CountryType, ShortLanguage(active));
    var rows := CountryRows(t, active);
    var r := AllCountries(t, active);
    var i :| 0 <= i < |r| && r[i] == x;
    var a := rows[i];
    assert a in rows;
    SortMember(Where(t.altNames, p), NameKey, a);
    var c :| c in t.countries && c.id == a.geonameId;
  }

  lemma CountryEntryComplete(t: Tables, active: string, x: (int, string))
    requires IsCountryEntry(x, t, active)
    ensures x in AllCountries(t, active)
  {
    var p := MainNameIn(CountryIdSet(t.countries), CountryType, ShortLanguage(active));
    var rows := CountryRows(t, active);
    var a, c :| a in t.altNames && c in t.countries && a.geonameId == c.id
      && a.isMain && a.geoType == CountryType && a.language == ShortLanguage(active)
      && x == (a.geonameId, a.name);
    assert p(a);
    SortMember(Where(t.altNames, p), NameKey, a);
    var i :| 0 <= i < |rows| && rows[i] == a;
    assert AllCountries(t, active)[i] == x;
  }

  /**
   * The answer of all_countries lists, in name order, one entry per main
   * country name in the active language whose geoname id is a country's id,
   * and nothing else.
   */
  lemma AllCountriesResult(t: Tables, active: string)
    ensures var r := AllCountries(t, active);
      forall i, j :: 0 <= i < j < |r| ==> StrLe(r[i].1, r[j].1)
    ensures forall x :: x in AllCountries(t, active) <==> IsCountryEntry(x, t, active)
    ensures |AllCountries(t, active)| == |Where(t.altNames, MainNameIn(CountryIdSet(t.countries), CountryType, ShortLanguage(active)))|
  {
    var rows := CountryRows(t, active);
    var r := AllCountries(t, active);
    assert r == IdPairs(rows, NameKey);
    SortLength(Where(t.altNames, MainNameIn(CountryIdSet(t.countries), CountryType, ShortLanguage(active))), NameKey);
    forall i, j | 0 <= i < j < |r|
      ensures StrLe(r[i].1, r[j].1)
    {
      assert NameKey(rows[i]) == r[i].1 && NameKey(rows[j]) == r[j].1;
    }
    forall x
      ensures x in r <==> IsCountryEntry(x, t, active)
    {
      if x in r {
        CountryEntrySound(t, active, x);
      }
      if IsCountryEntry(x, t, active) {
        CountryEntryComplete(t, active, x);
      }
    }
  }
}
