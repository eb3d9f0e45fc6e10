/**
 * The string operations the importer and the views rely on, on code points:
 * Python's str.strip(), str.split(sep), int() and slicing, ASCII case
 * mapping, Django's slugify, and the lexicographic order by which the
 * database sorts names.
 */
module Text {
  import opened Optional

  /** Python's str.isspace() for one character. */
  predicate IsSpace(c: char) {
    || c == ' ' || ('\t' <= c <= '\r') || ('\U{1C}' <= c <= '\U{1F}')
    || c == '\U{85}' || c == '\U{A0}' || c == '\U{1680}'
    || ('\U{2000}' <= c <= '\U{200A}') || c == '\U{2028}' || c == '\U{2029}'
    || c == '\U{202F}' || c == '\U{205F}' || c == '\U{3000}'
  }

  function StripLeft(s: string): (r: string)
    ensures |r| <= |s| && r == s[|s| - |r|..]
    ensures r == [] || !IsSpace(r[0])
    ensures forall i :: 0 <= i < |s| - |r| ==> IsSpace(s[i])
  {
    if s != [] && IsSpace(s[0]) then StripLeft(s[1..]) else s
  }

  function StripRight(s: string): (r: string)
    ensures |r| <= |s| && r == s[..|r|]
    ensures r == [] || !IsSpace(r[|r| - 1])
    ensures forall i :: |r| <= i < |s| ==> IsSpace(s[i])
  {
    if s != [] && IsSpace(s[|s| - 1]) then StripRight(s[..|s| - 1]) else s
  }

  /** The number of spaces Strip removes at the front. */
  function LeadingSpaces(s: string): nat {
    |s| - |StripLeft(s)|
  }

  /** Python's str.strip() without argument: the text between the outermost non-space characters. */
  function Strip(s: string): (r: string)
    ensures var a := LeadingSpaces(s);
      && a + |r| <= |s| && r == s[a..a + |r|]
      && (forall i :: 0 <= i < a ==> IsSpace(s[i]))
      && (forall i :: a + |r| <= i < |s| ==> IsSpace(s[i]))
    ensures r == [] || (!IsSpace(r[0]) && !IsSpace(r[|r| - 1]))
  {
    var l := StripLeft(s);
    var r := StripRight(l);
    assert r == s[|s| - |l|..|s| - |l| + |r|];
    r
  }

  lemma StripUnspaced(t: string)
    requires t == [] || (!IsSpace(t[0]) && !IsSpace(t[|t| - 1]))
    ensures Strip(t) == t
  {
  }

  /** Stripping twice strips nothing more. */
  lemma StripIdempotent(s: string)
    ensures Strip(Strip(s)) == Strip(s)
  {
    StripUnspaced(Strip(s));
  }

  /** The number of occurrences of c in s. */
  function Count(s: string, c: char): nat {
    if s == [] then 0 else (if s[0] == c then 1 else 0) + Count(s[1..], c)
  }

  /** Python's s.split(sep) for a one-character separator: always one more part than separators. */
  function Split(s: string, sep: char): (parts: seq<string>)
    ensures |parts| == Count(s, sep) + 1
    ensures forall i :: 0 <= i < |parts| ==> sep !in parts[i]
  {
    if s == [] then [[]]
    else
      var rest := Split(s[1..], sep);
      if s[0] == sep then [[]] + rest else [[s[0]] + rest[0]] + rest[1..]
  }

  /** Python's sep.join(parts). */
  function Join(parts: seq<string>, sep: char): string
    requires |parts| > 0
  {
    if |parts| == 1 then parts[0] else parts[0] + [sep] + Join(parts[1..], sep)
  }

  lemma JoinCons(c: char, parts: seq<string>, sep: char)
    requires |parts| > 0
    ensures Join([[c] + parts[0]] + parts[1..], sep) == [c] + Join(parts, sep)
  {
    var q := [[c] + parts[0]] + parts[1..];
    if |parts| > 1 {
      assert q[1..] == parts[1..];
    }
  }

  /** Joining the parts of a split gives back the text. */
  lemma {:induction false} JoinSplit(s: string, sep: char)
    ensures Join(Split(s, sep), sep) == s
  {
    if s != [] {
      JoinSplit(s[1..], sep);
      var rest := Split(s[1..], sep);
      if s[0] == sep {
        assert ([[]] + rest)[1..] == rest;
      } else {
        JoinCons(s[0], rest, sep);
      }
    }
  }

  lemma {:induction false} SplitUnseparated(p: string, sep: char)
    requires sep !in p
    ensures Split(p, sep) == [p]
  {
    if p != [] {
      SplitUnseparated(p[1..], sep);
      assert [p[0]] + p[1..] == p;
    }
  }

  lemma {:induction false} SplitAtFirst(p: string, t: string, sep: char)
    requires sep !in p
    ensures Split(p + [sep] + t, sep) == [p] + Split(t, sep)
  {
    if p == [] {
      assert p + [sep] + t == [sep] + t;
      assert ([sep] + t)[1..] == t;
    } else {
      SplitAtFirst(p[1..], t, sep);
      var u := p + [sep] + t;
      assert u[0] == p[0] && u[1..] == p[1..] + [sep] + t;
      var rest := Split(u[1..], sep);
      assert rest == [p[1..]] + Split(t, sep);
      assert [u[0]] + rest[0] == p;
      assert rest[1..] == Split(t, sep);
    }
  }

  /** Splitting a join of separator-free parts gives back the parts. */
  lemma {:induction false} SplitJoin(parts: seq<string>, sep: char)
    requires |parts| > 0
    requires forall i :: 0 <= i < |parts| ==> sep !in parts[i]
    ensures Split(Join(parts, sep), sep) == parts
  {
    if |parts| == 1 {
      SplitUnseparated(parts[0], sep);
    } else {
      SplitJoin(parts[1..], sep);
      SplitAtFirst(parts[0], Join(parts[1..], sep), sep);
    }
  }

  /** `code.split('.')[0]`: the part of a code before its first '.'. */
  function CodePrefix(code: string): (p: string)
    ensures '.' !in p && IsPrefix(p, code)
    ensures p == code || code[|p|] == '.'
  {
    JoinSplit(code, '.');
    Split(code, '.')[0]
  }

  predicate IsDigit(c: char) {
    '0' <= c <= '9'
  }

  predicate AllDigits(s: string) {
    forall i :: 0 <= i < |s| ==> IsDigit(s[i])
  }

  function DigitsValue(s: string): nat
    requires AllDigits(s)
  {
    if s == [] then 0 else DigitsValue(s[..|s| - 1]) * 10 + (s[|s| - 1] as int - '0' as int)
  }

  /** Python's int() on a stripped text: an optional sign and at least one ASCII digit. */
  function ParseDecimal(t: string): Option<int> {
    if |t| > 1 && (t[0] == '+' || t[0] == '-') && AllDigits(t[1..]) then
      var v: int := DigitsValue(t[1..]);
      Some(if t[0] == '-' then -v else v)
    else if |t| > 0 && AllDigits(t) then
      Some(DigitsValue(t))
    else
      None
  }

  /** Python's int(s) on a str: surrounding whitespace is ignored; None stands for ValueError. */
  function PyInt(s: string): Option<int> {
    ParseDecimal(Strip(s))
  }

  function NatDigits(n: nat): (r: string)
    ensures |r| > 0 && AllDigits(r)
  {
    if n < 10 then [('0' as int + n) as char] else NatDigits(n / 10) + [('0' as int + n % 10) as char]
  }

  /** Python's str(n) for an int. */
  function Show(n: int): string {
    if n < 0 then "-" + NatDigits(-n) else NatDigits(n)
  }

  lemma {:induction false} NatDigitsValue(n: nat)
    ensures DigitsValue(NatDigits(n)) == n
  {
    if n >= 10 {
      NatDigitsValue(n / 10);
      var r := NatDigits(n);
      assert r[..|r| - 1] == NatDigits(n / 10);
    }
  }

  /** int() reads back what str() writes. */
  lemma PyIntShow(n: int)
    ensures PyInt(Show(n)) == Some(n)
  {
    var t := Show(n);
    ShowUnspaced(n);
    StripUnspaced(t);
    if n < 0 {
      NatDigitsValue(-n);
      assert t[1..] == NatDigits(-n);
    } else {
      NatDigitsValue(n);
    }
  }

  lemma ShowUnspaced(n: int)
    ensures |Show(n)| > 0 && !IsSpace(Show(n)[0]) && !IsSpace(Show(n)[|Show(n)| - 1])
  {
    var d := NatDigits(if n < 0 then -n else n);
    assert IsDigit(d[0]) && IsDigit(d[|d| - 1]);
  }

  /** An empty or all-space text is not an integer. */
  lemma PyIntBlank(s: string)
    requires Strip(s) == []
    ensures PyInt(s) == None
  {
  }

  function LowerChar(c: char): char {
    if 'A' <= c <= 'Z' then (c as int + 32) as char else c
  }

  function UpperChar(c: char): char {
    if 'a' <= c <= 'z' then (c as int - 32) as char else c
  }

  /** str.lower(), approximated on ASCII letters. */
  function Lower(s: string): (r: string)
    ensures |r| == |s| && forall i :: 0 <= i < |s| ==> r[i] == LowerChar(s[i])
  {
    seq(|s|, i requires 0 <= i < |s| => LowerChar(s[i]))
  }

  /** str.upper(), approximated on ASCII letters. */
  function Upper(s: string): (r: string)
    ensures |r| == |s| && forall i :: 0 <= i < |s| ==> r[i] == UpperChar(s[i])
  {
    seq(|s|, i requires 0 <= i < |s| => UpperChar(s[i]))
  }

  predicate IsPrefix(p: string, s: string) {
    |p| <= |s| && s[..|p|] == p
  }

  predicate Contains(s: string, p: string)
    decreases |s|
  {
    IsPrefix(p, s) || (s != [] && Contains(s[1..], p))
  }

  /** The ORM's `istartswith`, with case folding approximated by ASCII lowercasing. */
  predicate StartsWithCI(s: string, q: string) {
    IsPrefix(Lower(q), Lower(s))
  }

  /** The ORM's `icontains`, with case folding approximated by ASCII lowercasing. */
  predicate ContainsCI(s: string, q: string) {
    Contains(Lower(s), Lower(q))
  }

  function Min(a: int, b: int): int {
    if a <= b then a else b
  }

  function Max(a: int, b: int): int {
    if a <= b then b else a
  }

  /** Python's s[:n]: a prefix; a negative n counts from the end. */
  function PySlice<T>(s: seq<T>, n: int): (r: seq<T>)
    ensures |r| <= |s| && r == s[..|r|]
    ensures n >= 0 ==> |r| == Min(n, |s|)
    ensures n < 0 ==> |r| == Max(0, |s| + n)
  {
    if n >= 0 then (if n <= |s| then s[..n] else s)
    else (if |s| + n >= 0 then s[..|s| + n] else [])
  }

  predicate IsWordChar(c: char) {
    'a' <= c <= 'z' || 'A' <= c <= 'Z' || '0' <= c <= '9' || c == '_'
  }

  /** The characters a slug may hold. */
  predicate IsSlugChar(c: char) {
    'a' <= c <= 'z' || '0' <= c <= '9' || c == '_' || c == '-'
  }

  predicate IsDashOrSpace(c: char) {
    c == '-' || IsSpace(c)
  }

  /** ASCII encoding with errors ignored, then `re.sub(r'[^\w\s-]', '', ...)`. */
  function SlugKeep(s: string): (r: string)
    ensures forall i :: 0 <= i < |r| ==> IsSlugSource(r[i])
  {
    if s == [] then []
    else
      (if IsSlugSource(s[0]) then [s[0]] else [])
      + SlugKeep(s[1..])
  }

  function DropRun(s: string): (r: string)
    ensures |r| <= |s| && r == s[|s| - |r|..]
    ensures r == [] || !IsDashOrSpace(r[0])
  {
    if s != [] && IsDashOrSpace(s[0]) then DropRun(s[1..]) else s
  }

  /** `re.sub(r'[-\s]+', '-', ...)`: every run of dashes and spaces becomes one dash. */
  function Collapse(s: string): (r: string)
    requires forall i :: 0 <= i < |s| ==> IsSlugChar(s[i]) || IsSpace(s[i])
    ensures forall i :: 0 <= i < |r| ==> IsSlugChar(r[i])
    decreases |s|
  {
    if s == [] then []
    else if IsDashOrSpace(s[0]) then
      var rest := DropRun(s[1..]);
      assert forall i :: 0 <= i < |rest| ==> rest[i] == s[|s| - |rest| + i];
      "-" + Collapse(rest)
    else
      [s[0]] + Collapse(s[1..])
  }

  /** Django's slugify on ASCII: keep word characters, spaces and dashes, strip, lowercase, join runs with '-'. */
  function Slugify(s: string): (r: string)
    ensures forall i :: 0 <= i < |r| ==> IsSlugChar(r[i])
  {
    var kept := SlugKeep(s);
    StripKeepsSlugSource(kept);
    var lowered := Lower(Strip(kept));
    Collapse(lowered)
  }

  predicate IsSlugSource(c: char) {
    c < '\U{80}' && (IsWordChar(c) || IsSpace(c) || c == '-')
  }

  lemma StripKeepsSlugSource(s: string)
    requires forall i :: 0 <= i < |s| ==> IsSlugSource(s[i])
    ensures forall i :: 0 <= i < |Strip(s)| ==> IsSlugSource(Strip(s)[i])
  {
    var r := Strip(s);
    var a := LeadingSpaces(s);
    assert forall i :: 0 <= i < |r| ==> r[i] == s[a + i];
  }

  /** A slug never holds the path separator. */
  lemma SlugHasNoSlash(s: string)
    ensures '/' !in Slugify(s)
  {
  }

  /** Lexicographic order on code points, standing in for the database collation. */
  predicate StrLe(a: string, b: string)
    decreases |a|
  {
    a == [] || (b != [] && (a[0] < b[0] || (a[0] == b[0] && StrLe(a[1..], b[1..]))))
  }

  predicate StrLt(a: string, b: string) {
    StrLe(a, b) && a != b
  }

  lemma {:induction false} StrLeRefl(a: string)
    ensures StrLe(a, a)
  {
    if a != [] {
      StrLeRefl(a[1..]);
    }
  }

  lemma {:induction false} StrLeTotal(a: string, b: string)
    ensures StrLe(a, b) || StrLe(b, a)
  {
    if a != [] && b != [] && a[0] == b[0] {
      StrLeTotal(a[1..], b[1..]);
    }
  }

  lemma {:induction false} StrLeTrans(a: string, b: string, c: string)
    requires StrLe(a, b) && StrLe(b, c)
    ensures StrLe(a, c)
  {
    if a != [] && a[0] == b[0] && b[0] == c[0] {
      StrLeTrans(a[1..], b[1..], c[1..]);
    }
  }

  lemma {:induction false} StrLeAntisym(a: string, b: string)
    requires StrLe(a, b) && StrLe(b, a)
    ensures a == b
  {
    if a != [] {
      StrLeAntisym(a[1..], b[1..]);
      assert a == [a[0]] + a[1..] && b == [b[0]] + b[1..];
    }
  }
}
