/**
 * `define_main_alt_names` and its `try_to_set_main`: make exactly one AltName
 * row the main one for each geoname id and language that has rows. The
 * filters of `try_to_set_main` select by language and geoname id only, not by
 * type. `[0]` of a filter takes the first row under AltName's default
 * ordering, by crc.
 */
module MainNames {
  import opened Optional
  import opened Text
  import opened Records
  import opened Queries

  predicate OfPair(a: AltName, lg: string, id: int) {
    a.language == lg && a.geonameId == id
  }

  function RowOf(lg: string, id: int): AltName -> bool {
    a => OfPair(a, lg, id)
  }

  function MainRowOf(lg: string, id: int): AltName -> bool {
    a => OfPair(a, lg, id) && a.isMain
  }

  function ShortRowOf(lg: string, id: int): AltName -> bool {
    a => OfPair(a, lg, id) && a.isShort
  }

  function PreferredRowOf(lg: string, id: int): AltName -> bool {
    a => OfPair(a, lg, id) && a.isPreferred
  }

  function Crc(a: AltName): string {
    a.crc
  }

  function CountRows(s: seq<AltName>, lg: string, id: int): nat {
    CountIf(s, RowOf(lg, id))
  }

  function CountMains(s: seq<AltName>, lg: string, id: int): nat {
    CountIf(s, MainRowOf(lg, id))
  }

  predicate HasPair(s: seq<AltName>, lg: string, id: int) {
    exists i :: 0 <= i < |s| && OfPair(s[i], lg, id)
  }

  /** r is s with only the is_main flags possibly changed. */
  predicate SameButMain(s: seq<AltName>, r: seq<AltName>) {
    |r| == |s| && forall i :: 0 <= i < |s| ==> r[i] == s[i].(isMain := r[i].isMain)
  }

  /** The loop over `anlist` when more than one row is main: each of them is saved with is_main False. */
  function ClearMains(s: seq<AltName>, lg: string, id: int): (r: seq<AltName>)
    ensures SameButMain(s, r)
    ensures forall i :: 0 <= i < |s| ==> r[i].isMain == (s[i].isMain && !OfPair(s[i], lg, id))
  {
    seq(|s|, i requires 0 <= i < |s| => if OfPair(s[i], lg, id) then s[i].(isMain := false) else s[i])
  }

  /**
   * The row the tries pick: the only row of the pair (try 1), else the first
   * short row (try 2), else the first preferred row (try 3), else the first
   * row (try 4); nothing when the pair has no row. "First" is in the table's
   * crc order, ties going to the earlier row, as `filter(...)[0]` reads it.
   */
  function Chosen(s: seq<AltName>, lg: string, id: int): (r: Option<nat>)
    ensures r.Some? <==> HasPair(s, lg, id)
    ensures r.Some? ==> r.value < |s| && OfPair(s[r.value], lg, id)
    ensures r.Some? && CountRows(s, lg, id) == 1 ==> OnlyAt(s, RowOf(lg, id), r.value)
    ensures r.Some? && CountRows(s, lg, id) != 1 && FirstIn(s, ShortRowOf(lg, id), Crc, |s|).Some? ==>
      s[r.value].isShort
    ensures (r.Some? && CountRows(s, lg, id) != 1 && FirstIn(s, ShortRowOf(lg, id), Crc, |s|).None?
             && FirstIn(s, PreferredRowOf(lg, id), Crc, |s|).Some?) ==> s[r.value].isPreferred
    ensures CountRows(s, lg, id) != 1 && FirstIn(s, ShortRowOf(lg, id), Crc, |s|).Some? ==>
      r == FirstIn(s, ShortRowOf(lg, id), Crc, |s|)
    ensures (CountRows(s, lg, id) != 1 && FirstIn(s, ShortRowOf(lg, id), Crc, |s|).None?
             && FirstIn(s, PreferredRowOf(lg, id), Crc, |s|).Some?) ==>
      r == FirstIn(s, PreferredRowOf(lg, id), Crc, |s|)
    ensures (CountRows(s, lg, id) != 1 && FirstIn(s, ShortRowOf(lg, id), Crc, |s|).None?
             && FirstIn(s, PreferredRowOf(lg, id), Crc, |s|).None?) ==>
      r == FirstIn(s, RowOf(lg, id), Crc, |s|)
  {
    var first := FirstIn(s, RowOf(lg, id), Crc, |s|);
    var short := FirstIn(s, ShortRowOf(lg, id), Crc, |s|);
    var preferred := FirstIn(s, PreferredRowOf(lg, id), Crc, |s|);
    assert first.Some? ==> HasPair(s, lg, id);
    if CountRows(s, lg, id) == 1 then
      CountIfOneAt(s, RowOf(lg, id));
      first
    else if short.Some? then short
    else if preferred.Some? then preferred
    else first
  }

  /**
   * Step 0 of `try_to_set_main` when the pair does not have exactly one main
   * row: if it has several, they are all cleared. Either way no row of the
   * pair is main afterwards.
   */
  function Unmain(s: seq<AltName>, lg: string, id: int): (r: seq<AltName>)
    requires CountMains(s, lg, id) != 1
    ensures SameButMain(s, r)
    ensures forall i :: 0 <= i < |s| && !OfPair(s[i], lg, id) ==> r[i] == s[i]
    ensures forall i :: 0 <= i < |s| ==> !MainRowOf(lg, id)(r[i])
    ensures HasPair(r, lg, id) == HasPair(s, lg, id)
  {
    CountIfNone(s, MainRowOf(lg, id));
    var r := if CountMains(s, lg, id) > 1 then ClearMains(s, lg, id) else s;
    SameButMainPairs(s, r, lg, id);
    r
  }

  /** With no main row in the pair, making row k of the pair main leaves exactly one. */
  lemma MakeMain(s: seq<AltName>, lg: string, id: int, k: nat)
    requires k < |s| && OfPair(s[k], lg, id)
    requires forall i :: 0 <= i < |s| ==> !MainRowOf(lg, id)(s[i])
    ensures CountMains(s[k := s[k].(isMain := true)], lg, id) == 1
  {
    CountIfOnly(s[k := s[k].(isMain := true)], MainRowOf(lg, id), k);
  }

  /**
   * `try_to_set_main(lg, go)` on the AltName table: the new table and the
   * value it returns. True and the table untouched when one row is main
   * already; otherwise the extra mains are cleared and the chosen row is made
   * main; False only when the pair has no row at all.
   */
  function SetMain(s: seq<AltName>, lg: string, id: int): (r: (seq<AltName>, bool))
    ensures SameButMain(s, r.0)
    ensures forall i :: 0 <= i < |s| && !OfPair(s[i], lg, id) ==> r.0[i] == s[i]
    ensures r.1 <==> HasPair(s, lg, id)
    ensures r.1 ==> CountMains(r.0, lg, id) == 1
    ensures !r.1 ==> r.0 == s
  {
    if CountMains(s, lg, id) == 1 then
      CountIfOneAt(s, MainRowOf(lg, id));
      (s, true)
    else
      var s1 := Unmain(s, lg, id);
      match Chosen(s1, lg, id)
      case None => (s1, false)
      case Some(k) =>
        MakeMain(s1, lg, id, k);
        (s1[k := s1[k].(isMain := true)], true)
  }

  /** A second call on the pair finds one main row and changes nothing. */
  lemma {:induction false} SetMainIdempotent(s: seq<AltName>, lg: string, id: int)
    ensures SetMain(SetMain(s, lg, id).0, lg, id) == SetMain(s, lg, id)
  {
    var r := SetMain(s, lg, id);
    if !r.1 {
      assert !HasPair(r.0, lg, id);
    }
  }

  /** The main row that the tries set sits where Chosen points, and nowhere else in the pair. */
  lemma SetMainPicksChosen(s: seq<AltName>, lg: string, id: int)
    requires CountMains(s, lg, id) != 1 && HasPair(s, lg, id)
    ensures OnlyAt(SetMain(s, lg, id).0, MainRowOf(lg, id), Chosen(s, lg, id).value)
  {
    var s1 := Unmain(s, lg, id);
    UnmainKeepsChosen(s, lg, id);
    var k := Chosen(s, lg, id).value;
    MarkOnly(s1, lg, id, k);
  }

  /** Clearing the main flags does not change which row the tries pick. */
  lemma UnmainKeepsChosen(s: seq<AltName>, lg: string, id: int)
    requires CountMains(s, lg, id) != 1
    ensures Chosen(Unmain(s, lg, id), lg, id) == Chosen(s, lg, id)
  {
    var s1 := Unmain(s, lg, id);
    forall i | 0 <= i < |s|
      ensures SameChoice(s[i], s1[i], lg, id)
    {
      assert s1[i] == s[i].(isMain := s1[i].isMain);
    }
    ChosenPointwise(s, s1, lg, id);
  }

  /** a and b agree on everything the tries look at. */
  predicate SameChoice(a: AltName, b: AltName, lg: string, id: int) {
    && RowOf(lg, id)(a) == RowOf(lg, id)(b)
    && ShortRowOf(lg, id)(a) == ShortRowOf(lg, id)(b)
    && PreferredRowOf(lg, id)(a) == PreferredRowOf(lg, id)(b)
    && Crc(a) == Crc(b)
  }

  lemma ChosenPointwise(s: seq<AltName>, r: seq<AltName>, lg: string, id: int)
    requires |r| == |s| && forall i :: 0 <= i < |s| ==> SameChoice(s[i], r[i], lg, id)
    ensures Chosen(r, lg, id) == Chosen(s, lg, id)
  {
    CountIfPointwise(s, r, RowOf(lg, id));
    FirstInPointwise(s, r, RowOf(lg, id), Crc, |s|);
    FirstInPointwise(s, r, ShortRowOf(lg, id), Crc, |s|);
    FirstInPointwise(s, r, PreferredRowOf(lg, id), Crc, |s|);
  }

  /** With no main row in the pair, marking row k makes it the pair's only main row. */
  lemma MarkOnly(s: seq<AltName>, lg: string, id: int, k: nat)
    requires k < |s| && OfPair(s[k], lg, id)
    requires forall i :: 0 <= i < |s| ==> !MainRowOf(lg, id)(s[i])
    ensures OnlyAt(s[k := s[k].(isMain := true)], MainRowOf(lg, id), k)
  {
  }

  /** A pair with no row, or with exactly one main row. */
  predicate Resolved(s: seq<AltName>, lg: string, id: int) {
    !HasPair(s, lg, id) || CountMains(s, lg, id) == 1
  }

  lemma SameButMainPairs(s: seq<AltName>, r: seq<AltName>, lg: string, id: int)
    requires SameButMain(s, r)
    ensures HasPair(r, lg, id) == HasPair(s, lg, id)
  {
    assert forall i :: 0 <= i < |s| ==> OfPair(r[i], lg, id) == OfPair(s[i], lg, id);
  }

  /** Setting the main row of one pair leaves every other pair's rows, and whether it is resolved, alone. */
  lemma SetMainKeepsResolved(s: seq<AltName>, lg: string, id: int, lg2: string, id2: int)
    requires Resolved(s, lg2, id2)
    ensures Resolved(SetMain(s, lg, id).0, lg2, id2)
  {
    var r := SetMain(s, lg, id).0;
    SameButMainPairs(s, r, lg2, id2);
    if lg != lg2 || id != id2 {
      assert forall i :: 0 <= i < |s| ==> MainRowOf(lg2, id2)(s[i]) == MainRowOf(lg2, id2)(r[i]);
      CountIfPointwise(s, r, MainRowOf(lg2, id2));
    }
  }

  /** A resolved pair is left as it is. */
  lemma SetMainResolved(s: seq<AltName>, lg: string, id: int)
    requires Resolved(s, lg, id)
    ensures SetMain(s, lg, id).0 == s
  {
  }

  /** The inner loop of the pass: `try_to_set_main(lg, go)` for each language in order. */
  function MainsFor(s: seq<AltName>, id: int, langs: seq<string>): seq<AltName>
    decreases |langs|
  {
    if langs == [] then s else MainsFor(SetMain(s, langs[0], id).0, id, langs[1..])
  }

  /** The whole pass: every geoname id in order (countries, regions, cities), every language. */
  function DefineMains(s: seq<AltName>, ids: seq<int>, langs: seq<string>): seq<AltName>
    decreases |ids|
  {
    if ids == [] then s else DefineMains(MainsFor(s, ids[0], langs), ids[1..], langs)
  }

  /** One turn of the loop over the ids. */
  lemma DefineMainsAt(s: seq<AltName>, ids: seq<int>, langs: seq<string>, k: nat)
    requires k < |ids|
    ensures DefineMains(s, ids[k..], langs) == DefineMains(MainsFor(s, ids[k], langs), ids[k + 1..], langs)
  {
    assert ids[k..][0] == ids[k] && ids[k..][1..] == ids[k + 1..];
  }

  /** One turn of the loop over the languages. */
  lemma MainsForAt(s: seq<AltName>, id: int, langs: seq<string>, j: nat)
    requires j < |langs|
    ensures MainsFor(s, id, langs[j..]) == MainsFor(SetMain(s, langs[j], id).0, id, langs[j + 1..])
  {
    assert langs[j..][0] == langs[j] && langs[j..][1..] == langs[j + 1..];
  }

  lemma {:induction false} MainsForEffect(s: seq<AltName>, id: int, langs: seq<string>)
    ensures SameButMain(s, MainsFor(s, id, langs))
    ensures forall i :: 0 <= i < |s| && (s[i].geonameId != id || s[i].language !in langs) ==>
      MainsFor(s, id, langs)[i] == s[i]
    ensures forall lg :: lg in langs ==> Resolved(MainsFor(s, id, langs), lg, id)
    ensures forall lg, id2 :: Resolved(s, lg, id2) ==> Resolved(MainsFor(s, id, langs), lg, id2)
    decreases |langs|
  {
    if langs != [] {
      var t := SetMain(s, langs[0], id).0;
      MainsForEffect(t, id, langs[1..]);
      forall lg, id2 | Resolved(s, lg, id2)
        ensures Resolved(t, lg, id2)
      {
        SetMainKeepsResolved(s, langs[0], id, lg, id2);
      }
      assert Resolved(t, langs[0], id) by {
        SameButMainPairs(s, t, langs[0], id);
      }
    }
  }

  /**
   * After the pass every visited pair that has a row has exactly one main
   * row; only is_main flags change, and only on rows of visited pairs; a
   * pair that was resolved before stays resolved.
   */
  lemma {:induction false} DefineMainsEffect(s: seq<AltName>, ids: seq<int>, langs: seq<string>)
    ensures SameButMain(s, DefineMains(s, ids, langs))
    ensures forall i :: 0 <= i < |s| && (s[i].geonameId !in ids || s[i].language !in langs) ==>
      DefineMains(s, ids, langs)[i] == s[i]
    ensures forall id, lg :: id in ids && lg in langs ==> Resolved(DefineMains(s, ids, langs), lg, id)
    ensures forall lg, id :: Resolved(s, lg, id) ==> Resolved(DefineMains(s, ids, langs), lg, id)
    decreases |ids|
  {
    if ids != [] {
      var t := MainsFor(s, ids[0], langs);
      MainsForEffect(s, ids[0], langs);
      DefineMainsEffect(t, ids[1..], langs);
      assert forall id :: id in ids ==> id == ids[0] || id in ids[1..];
    }
  }

  /** When every visited pair is resolved already the pass changes nothing. */
  lemma {:induction false} DefineMainsStable(s: seq<AltName>, ids: seq<int>, langs: seq<string>)
    requires forall id, lg :: id in ids && lg in langs ==> Resolved(s, lg, id)
    ensures DefineMains(s, ids, langs) == s
    decreases |ids|
  {
    if ids != [] {
      MainsForStable(s, ids[0], langs);
      DefineMainsStable(s, ids[1..], langs);
    }
  }

  lemma {:induction false} MainsForStable(s: seq<AltName>, id: int, langs: seq<string>)
    requires forall lg :: lg in langs ==> Resolved(s, lg, id)
    ensures MainsFor(s, id, langs) == s
    decreases |langs|
  {
    if langs != [] {
      SetMainResolved(s, langs[0], id);
      MainsForStable(s, id, langs[1..]);
    }
  }

  /** Running the pass twice is running it once. */
  lemma DefineMainsIdempotent(s: seq<AltName>, ids: seq<int>, langs: seq<string>)
    ensures DefineMains(DefineMains(s, ids, langs), ids, langs) == DefineMains(s, ids, langs)
  {
    DefineMainsEffect(s, ids, langs);
    DefineMainsStable(DefineMains(s, ids, langs), ids, langs);
  }
}
