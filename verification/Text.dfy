/** The few string functions of the standard library the components rely on.

    Trimming, case (of ASCII letters only), joining with a separator, and sorting. Joining is injective on
    nonempty parts without the separator; sorting forgets the order of its input
    and nothing else. */
module Text {

  /** unicode.IsSpace */
  predicate IsSpace(c: char) {
    c in {'\t', '\n', '\U{0B}', '\U{0C}', '\r', ' ', '\U{85}', '\U{A0}', '\U{1680}', '\U{2028}', '\U{2029}',
          '\U{202F}', '\U{205F}', '\U{3000}'}
    || '\U{2000}' <= c <= '\U{200A}'
  }

  function TrimLeft(s: string): string {
    if s != [] && IsSpace(s[0]) then TrimLeft(s[1..]) else s
  }

  function TrimRight(s: string): string {
    if s != [] && IsSpace(s[|s| - 1]) then TrimRight(s[..|s| - 1]) else s
  }

  function Trim(s: string): string {
    TrimRight(TrimLeft(s))
  }

  /** Nothing to trim at either end. */
  predicate Trimmed(s: string) {
    s == [] || (!IsSpace(s[0]) && !IsSpace(s[|s| - 1]))
  }

  lemma {:induction false} TrimRightFacts(s: string)
    ensures var r := TrimRight(s); r == [] || (s != [] && !IsSpace(r[|r| - 1]) && r[0] == s[0])
    ensures Trimmed(s) ==> TrimRight(s) == s
  {
    if s != [] && IsSpace(s[|s| - 1]) {
      TrimRightFacts(s[..|s| - 1]);
    }
  }

  lemma {:induction false} TrimLeftFacts(s: string)
    ensures var l := TrimLeft(s); l == [] || !IsSpace(l[0])
    ensures Trimmed(s) ==> TrimLeft(s) == s
  {
    if s != [] && IsSpace(s[0]) {
      TrimLeftFacts(s[1..]);
    }
  }

  lemma TrimFacts(s: string)
    ensures Trimmed(Trim(s))
    ensures Trimmed(s) ==> Trim(s) == s
  {
    TrimLeftFacts(s);
    TrimRightFacts(TrimLeft(s));
  }

  predicate AllSpace(s: string) {
    forall i :: 0 <= i < |s| ==> IsSpace(s[i])
  }

  lemma {:induction false} TrimLeftCuts(s: string) returns (a: string)
    ensures s == a + TrimLeft(s) && AllSpace(a)
  {
    a := "";
    if s != [] && IsSpace(s[0]) {
      var b := TrimLeftCuts(s[1..]);
      a := [s[0]] + b;
    }
  }

  lemma {:induction false} TrimRightCuts(s: string) returns (b: string)
    ensures s == TrimRight(s) + b && AllSpace(b)
  {
    b := "";
    if s != [] && IsSpace(s[|s| - 1]) {
      var a := TrimRightCuts(s[..|s| - 1]);
      b := a + [s[|s| - 1]];
    }
  }

  /** Trimming cuts space off both ends, all of it and nothing else. */
  lemma TrimCutsSpace(s: string) returns (a: string, b: string)
    ensures s == a + Trim(s) + b && AllSpace(a) && AllSpace(b) && Trimmed(Trim(s))
  {
    a := TrimLeftCuts(s);
    b := TrimRightCuts(TrimLeft(s));
    TrimFacts(s);
  }

  lemma {:induction false} TrimLeftOf(a: string, m: string)
    requires AllSpace(a) && (m == "" || !IsSpace(m[0]))
    ensures TrimLeft(a + m) == m
  {
    if a == "" {
      assert a + m == m;
    } else {
      assert (a + m)[1..] == a[1..] + m;
      TrimLeftOf(a[1..], m);
    }
  }

  lemma {:induction false} TrimRightOf(m: string, b: string)
    requires AllSpace(b) && Trimmed(m)
    ensures TrimRight(m + b) == m
    decreases |b|
  {
    if b == "" {
      assert m + b == m;
      TrimRightFacts(m);
    } else {
      assert (m + b)[..|m + b| - 1] == m + b[..|b| - 1];
      TrimRightOf(m, b[..|b| - 1]);
    }
  }

  lemma TrimSurrounded(a: string, m: string, b: string)
    requires AllSpace(a) && AllSpace(b) && Trimmed(m) && m != ""
    ensures Trim(a + m + b) == m
  {
    assert a + m + b == a + (m + b);
    TrimLeftOf(a, m + b);
    TrimRightOf(m, b);
  }

  /** strings.ToLower on ASCII letters. */
  function LowerChar(c: char): char {
    if 'A' <= c <= 'Z' then (c as int + 32) as char else c
  }

  function Lower(s: string): string {
    seq(|s|, i requires 0 <= i < |s| => LowerChar(s[i]))
  }

  /** strings.ToUpper on ASCII letters. */
  function UpperChar(c: char): char {
    if 'a' <= c <= 'z' then (c as int - 32) as char else c
  }

  function Upper(s: string): string {
    seq(|s|, i requires 0 <= i < |s| => UpperChar(s[i]))
  }

  const UPPERS := "ABCDEFGHIJKLMNOPQRSTUVWXYZ"
  const LOWERS := "abcdefghijklmnopqrstuvwxyz"

  /** The letters change into one another, place by place in the alphabet, and nothing else changes. */
  lemma LettersFold(c: char)
    ensures forall k :: 0 <= k < 26 ==> LowerChar(UPPERS[k]) == LOWERS[k] && UpperChar(LOWERS[k]) == UPPERS[k]
    ensures c !in UPPERS ==> LowerChar(c) == c
    ensures c !in LOWERS ==> UpperChar(c) == c
  {
    if 'A' <= c <= 'Z' {
      assert UPPERS[c as int - 'A' as int] == c;
    }
    if 'a' <= c <= 'z' {
      assert LOWERS[c as int - 'a' as int] == c;
    }
  }

  predicate EqualFold(a: string, b: string) {
    Lower(a) == Lower(b)
  }

  lemma LowerConcat(a: string, b: string)
    ensures Lower(a + b) == Lower(a) + Lower(b)
  {
  }

  // ---------- joining and sorting ----------

  function Join(parts: seq<string>, sep: char): string {
    if parts == [] then ""
    else if |parts| == 1 then parts[0]
    else parts[0] + [sep] + Join(parts[1..], sep)
  }

  lemma {:induction false} FirstPart(a: string, b: string, x: string, y: string, sep: char)
    requires sep !in a && sep !in b && a + [sep] + x == b + [sep] + y
    ensures a == b && x == y
  {
    var l := a + [sep] + x;
    assert l[0] == if a == "" then sep else a[0];
    assert l[0] == if b == "" then sep else b[0];
    if a == "" {
      assert x == l[1..] && y == l[1..];
    } else {
      assert l[1..] == a[1..] + [sep] + x && l[1..] == b[1..] + [sep] + y;
      FirstPart(a[1..], b[1..], x, y, sep);
      assert a == [a[0]] + a[1..] && b == [b[0]] + b[1..];
    }
  }

  predicate Separable(parts: seq<string>, sep: char) {
    forall i :: 0 <= i < |parts| ==> parts[i] != "" && sep !in parts[i]
  }

  /** Nonempty parts without the separator can be told from their join. */
  lemma {:induction false} JoinInjective(a: seq<string>, b: seq<string>, sep: char)
    requires Separable(a, sep) && Separable(b, sep)
    requires Join(a, sep) == Join(b, sep)
    ensures a == b
    decreases |a|
  {
    JoinShape(a, sep);
    JoinShape(b, sep);
    if |a| > 1 {
      FirstPart(a[0], b[0], Join(a[1..], sep), Join(b[1..], sep), sep);
      JoinInjective(a[1..], b[1..], sep);
      assert a == [a[0]] + a[1..] && b == [b[0]] + b[1..];
    }
  }

  lemma JoinShape(parts: seq<string>, sep: char)
    requires Separable(parts, sep)
    ensures Join(parts, sep) == "" <==> parts == []
    ensures sep in Join(parts, sep) <==> |parts| > 1
  {
    if |parts| > 1 {
      assert Join(parts, sep)[|parts[0]|] == sep;
    }
  }

  predicate Leq(a: string, b: string) {
    a == "" || (b != "" && (a[0] < b[0] || (a[0] == b[0] && Leq(a[1..], b[1..]))))
  }

  /** The order is that of dictionaries: by the first character that differs, a prefix before what it begins. */
  lemma {:induction false} LeqIsLexicographic(a: string, b: string)
    ensures Leq(a, b) <==> a <= b || exists k :: 0 <= k < |a| && k < |b| && a[..k] == b[..k] && a[k] < b[k]
  {
    if a != "" && b != "" {
      LeqIsLexicographic(a[1..], b[1..]);
      if a[0] == b[0] {
        assert a <= b <==> a[1..] <= b[1..];
        if k :| 0 <= k < |a| && k < |b| && a[..k] == b[..k] && a[k] < b[k] {
          assert a[1..][..k - 1] == a[..k][1..] && b[1..][..k - 1] == b[..k][1..];
          assert a[1..][k - 1] < b[1..][k - 1];
        }
        if k :| 0 <= k < |a[1..]| && k < |b[1..]| && a[1..][..k] == b[1..][..k] && a[1..][k] < b[1..][k] {
          assert a[..k + 1] == [a[0]] + a[1..][..k] && b[..k + 1] == [b[0]] + b[1..][..k];
          assert a[k + 1] < b[k + 1];
        }
      } else {
        assert a[..0] == b[..0];
      }
    }
  }

  lemma {:induction false} LeqTotal(a: string, b: string)
    ensures Leq(a, b) || Leq(b, a)
    ensures Leq(a, b) && Leq(b, a) ==> a == b
  {
    if a != "" && b != "" {
      LeqTotal(a[1..], b[1..]);
      assert a == [a[0]] + a[1..] && b == [b[0]] + b[1..];
    }
  }

  lemma {:induction false} LeqTransitive(a: string, b: string, c: string)
    requires Leq(a, b) && Leq(b, c)
    ensures Leq(a, c)
  {
    if a != "" {
      if a[0] == b[0] == c[0] {
        LeqTransitive(a[1..], b[1..], c[1..]);
      }
    }
  }

  ghost predicate Sorted(s: seq<string>) {
    forall i, j :: 0 <= i < j < |s| ==> Leq(s[i], s[j])
  }

  function InsertSorted(s: seq<string>, x: string): seq<string> {
    if s == [] || Leq(x, s[0]) then [x] + s else [s[0]] + InsertSorted(s[1..], x)
  }

  /** slices.Sort */
  function Sort(s: seq<string>): seq<string> {
    if s == [] then [] else InsertSorted(Sort(s[1..]), s[0])
  }

  lemma {:induction false} InsertSortedFacts(s: seq<string>, x: string)
    requires Sorted(s)
    ensures multiset(InsertSorted(s, x)) == multiset(s) + multiset{x}
    ensures Sorted(InsertSorted(s, x))
  {
    if s == [] || Leq(x, s[0]) {
      var r := [x] + s;
      forall j | 0 < j < |r|
        ensures Leq(x, r[j])
      {
        if j > 1 { LeqTransitive(x, s[0], s[j - 1]); }
      }
    } else {
      assert s == [s[0]] + s[1..];
      InsertSortedFacts(s[1..], x);
      var t := InsertSorted(s[1..], x);
      LeqTotal(x, s[0]);
      forall j | 0 <= j < |t|
        ensures Leq(s[0], t[j])
      {
        assert t[j] in multiset(t);
        if t[j] != x {
          assert t[j] in s[1..];
        }
      }
    }
  }

  lemma {:induction false} SortFacts(s: seq<string>)
    ensures multiset(Sort(s)) == multiset(s) && Sorted(Sort(s))
  {
    if s != [] {
      SortFacts(s[1..]);
      InsertSortedFacts(Sort(s[1..]), s[0]);
      assert s == [s[0]] + s[1..];
    }
  }

  lemma SortMembers(s: seq<string>, x: string)
    ensures x in Sort(s) <==> x in s
  {
    SortFacts(s);
    assert x in Sort(s) <==> x in multiset(Sort(s));
  }

  lemma LeastIsFirst(a: seq<string>, x: string)
    requires Sorted(a) && x in a
    ensures Leq(a[0], x)
  {
    LeqTotal(x, x);
  }

  lemma TailsSame(a: seq<string>, b: seq<string>)
    requires a != [] && b != [] && multiset(a) == multiset(b) && a[0] == b[0]
    ensures multiset(a[1..]) == multiset(b[1..])
  {
    assert a == [a[0]] + a[1..] && b == [b[0]] + b[1..];
    assert multiset(a[1..]) == multiset(a) - multiset{a[0]};
  }

  lemma {:induction false} SortedUnique(a: seq<string>, b: seq<string>)
    requires Sorted(a) && Sorted(b) && multiset(a) == multiset(b)
    ensures a == b
    decreases |a|
  {
    assert |multiset(a)| == |a| && |multiset(b)| == |b|;
    if a != [] {
      assert a[0] in multiset(b) && b[0] in multiset(a);
      LeastIsFirst(a, b[0]);
      LeastIsFirst(b, a[0]);
      LeqTotal(a[0], b[0]);
      TailsSame(a, b);
      SortedUnique(a[1..], b[1..]);
      assert a == [a[0]] + a[1..] && b == [b[0]] + b[1..];
    }
  }

  /** Sorting forgets order and nothing else. */
  lemma {:induction false} SortSame(a: seq<string>, b: seq<string>)
    ensures Sort(a) == Sort(b) <==> multiset(a) == multiset(b)
  {
    SortFacts(a);
    SortFacts(b);
    if multiset(a) == multiset(b) {
      SortedUnique(Sort(a), Sort(b));
    }
  }
}
