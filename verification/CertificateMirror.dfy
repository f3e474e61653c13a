/** Mirroring certificates up to the list to apply: a bundle cache keyed by looks, and a digest of the list. */
module CertificateMirror {
  import opened Common
  import opened Text

  type Bytes = seq<bv8>

  /** Times are given as they are formatted, "" for a zero time; `rest` stands for the fields the cache
      key leaves out. */
  datatype Certificate = Certificate(
    id: string, kind: string, status: string, updatedAt: string, notAfter: string, serial: string,
    lastError: string, domains: seq<string>, rest: string)

  function CleanDomains(domains: seq<string>): seq<string> {
    if domains == [] then []
    else
      var value := Lower(Trim(domains[0]));
      (if value == "" then [] else [value]) + CleanDomains(domains[1..])
  }

  const KEY_PARTS := 8

  function KeyPart(c: Certificate, i: nat): string {
    match i
    case 0 => Trim(c.id)
    case 1 => Lower(Trim(c.kind))
    case 2 => Lower(Trim(c.status))
    case 3 => c.updatedAt
    case 4 => c.notAfter
    case 5 => Trim(c.serial)
    case 6 => Trim(c.lastError)
    case _ => Join(Sort(CleanDomains(c.domains)), ',')
  }

  function KeyFrom(c: Certificate, i: nat): string
    requires i < KEY_PARTS
    decreases KEY_PARTS - i
  {
    if i + 1 == KEY_PARTS then KeyPart(c, i) else KeyPart(c, i) + "|" + KeyFrom(c, i + 1)
  }

  /** The parts of a certificate that decide whether its bundle is fetched again, with bars between. */
  function CacheKey(c: Certificate): string {
    KeyFrom(c, 0)
  }

  // ---------- what a key tells ----------

  /** Blank domains are dropped, the others trimmed and in lower case. */
  lemma CleanDomain(x: string)
    ensures CleanDomains([x]) == if Trim(x) == "" then [] else [Lower(Trim(x))]
  {
    assert [x][1..] == [];
    hide Trim, Lower;
  }

  lemma {:induction false} CleanDomainsOfConcat(a: seq<string>, b: seq<string>)
    ensures CleanDomains(a + b) == CleanDomains(a) + CleanDomains(b)
  {
    hide Trim, Lower;
    if a == [] {
      assert a + b == b;
    } else {
      assert (a + b)[1..] == a[1..] + b;
      CleanDomainsOfConcat(a[1..], b);
      hide CleanDomains;
    }
  }

  /** The two look the same in everything that decides whether a bundle is fetched again. */
  predicate LooksLike(c: Certificate, d: Certificate) {
    && Trim(c.id) == Trim(d.id)
    && EqualFold(Trim(c.kind), Trim(d.kind))
    && EqualFold(Trim(c.status), Trim(d.status))
    && c.updatedAt == d.updatedAt
    && c.notAfter == d.notAfter
    && Trim(c.serial) == Trim(d.serial)
    && Trim(c.lastError) == Trim(d.lastError)
    && multiset(CleanDomains(c.domains)) == multiset(CleanDomains(d.domains))
  }

  /** Outside the error text, which may hold anything, there are no bars, and no commas in domains. */
  predicate NoBars(c: Certificate) {
    && '|' !in c.id && '|' !in c.kind && '|' !in c.status && '|' !in c.updatedAt && '|' !in c.notAfter && '|' !in c.serial
    && forall i :: 0 <= i < |c.domains| ==> '|' !in c.domains[i] && ',' !in c.domains[i]
  }

  lemma TrimAdds(s: string, c: char)
    requires c !in s
    ensures c !in Trim(s)
  {
    var a, b := TrimCutsSpace(s);
    assert forall x :: x in Trim(s) ==> x in a + Trim(s) + b;
  }

  lemma LowerAdds(s: string, c: char)
    requires c !in s && c in {'|', ',', '\n'}
    ensures c !in Lower(s)
  {
  }

  /** Cleaned domains are not blank and hold none of a separator the domains do not hold. */
  lemma {:induction false} CleanDomainsHold(domains: seq<string>, c: char)
    requires c in {'|', ',', '\n'} && forall i :: 0 <= i < |domains| ==> c !in domains[i]
    ensures Separable(CleanDomains(domains), c)
  {
    hide Trim, Lower;
    if domains != [] {
      CleanDomainsHold(domains[1..], c);
      TrimAdds(domains[0], c);
      LowerAdds(Trim(domains[0]), c);
    }
  }

  lemma SortSeparable(parts: seq<string>, c: char)
    requires Separable(parts, c)
    ensures Separable(Sort(parts), c)
  {
    hide Sort;
    forall i | 0 <= i < |Sort(parts)|
      ensures Sort(parts)[i] != "" && c !in Sort(parts)[i]
    {
      SortMembers(parts, Sort(parts)[i]);
    }
  }

  lemma {:induction false} JoinHolds(parts: seq<string>, sep: char, c: char)
    requires c != sep && forall i :: 0 <= i < |parts| ==> c !in parts[i]
    ensures c !in Join(parts, sep)
  {
    if |parts| > 1 {
      JoinHolds(parts[1..], sep, c);
    }
  }

  lemma DomainPart(c: Certificate, bar: char)
    requires bar in {'|', '\n'} && forall i :: 0 <= i < |c.domains| ==> bar !in c.domains[i]
    ensures bar !in KeyPart(c, 7)
  {
    CleanDomainsHold(c.domains, bar);
    SortSeparable(CleanDomains(c.domains), bar);
    JoinHolds(Sort(CleanDomains(c.domains)), ',', bar);
  }

  lemma BarlessParts(c: Certificate)
    requires NoBars(c)
    ensures forall i :: 0 <= i < KEY_PARTS && i != 6 ==> '|' !in KeyPart(c, i)
  {
    TrimAdds(c.id, '|');
    TrimAdds(c.kind, '|');
    TrimAdds(c.status, '|');
    TrimAdds(c.serial, '|');
    LowerAdds(Trim(c.kind), '|');
    LowerAdds(Trim(c.status), '|');
    DomainPart(c, '|');
  }

  lemma JoinedDomainsTell(x: seq<string>, y: seq<string>)
    requires Separable(x, ',') && Separable(y, ',')
    ensures Join(Sort(x), ',') == Join(Sort(y), ',') <==> multiset(x) == multiset(y)
  {
    hide Join, Sort, Separable;
    SortSame(x, y);
    SortSeparable(x, ',');
    SortSeparable(y, ',');
    if Join(Sort(x), ',') == Join(Sort(y), ',') {
      JoinInjective(Sort(x), Sort(y), ',');
    }
  }

  lemma DomainsTold(c: Certificate, d: Certificate)
    requires NoBars(c) && NoBars(d)
    ensures KeyPart(c, 7) == KeyPart(d, 7) <==> multiset(CleanDomains(c.domains)) == multiset(CleanDomains(d.domains))
  {
    hide Join, Sort, Separable, CleanDomains;
    CleanDomainsHold(c.domains, ',');
    CleanDomainsHold(d.domains, ',');
    JoinedDomainsTell(CleanDomains(c.domains), CleanDomains(d.domains));
  }

  /** The last bar parts the error text from the domains. */
  lemma {:induction false} LastPart(a: string, b: string, x: string, y: string)
    requires '|' !in x && '|' !in y && a + "|" + x == b + "|" + y
    ensures a == b && x == y
    decreases |x|
  {
    var l := a + "|" + x;
    assert l[|l| - 1] == if x == "" then '|' else x[|x| - 1];
    assert l[|l| - 1] == if y == "" then '|' else y[|y| - 1];
    if x == "" {
      assert a == l[..|l| - 1] && b == l[..|l| - 1];
    } else {
      var m, n := x[..|x| - 1], y[..|y| - 1];
      assert l[..|l| - 1] == a + "|" + m && l[..|l| - 1] == b + "|" + n;
      LastPart(a, b, m, n);
      assert x == m + [x[|x| - 1]] && y == n + [y[|y| - 1]];
    }
  }

  /** Equal keys have equal parts, one by one up to the error text. */
  lemma {:induction false} FrontParts(c: Certificate, d: Certificate, n: nat)
    requires NoBars(c) && NoBars(d) && CacheKey(c) == CacheKey(d) && n <= 6
    ensures KeyFrom(c, n) == KeyFrom(d, n) && forall i :: 0 <= i < n ==> KeyPart(c, i) == KeyPart(d, i)
  {
    hide KeyPart, NoBars;
    if n > 0 {
      FrontParts(c, d, n - 1);
      BarlessParts(c);
      BarlessParts(d);
      FirstPart(KeyPart(c, n - 1), KeyPart(d, n - 1), KeyFrom(c, n), KeyFrom(d, n), '|');
    }
  }

  lemma {:induction false} SameParts(c: Certificate, d: Certificate, n: nat)
    requires n < KEY_PARTS && forall i :: n <= i < KEY_PARTS ==> SamePart(c, d, i)
    ensures KeyFrom(c, n) == KeyFrom(d, n)
    decreases KEY_PARTS - n
  {
    hide KeyPart;
    assert SamePart(c, d, n);
    if n + 1 < KEY_PARTS {
      SameParts(c, d, n + 1);
    }
  }

  lemma LastParts(c: Certificate)
    ensures KeyFrom(c, 6) == KeyPart(c, 6) + "|" + KeyPart(c, 7)
  {
    hide KeyPart;
    assert KeyFrom(c, 7) == KeyPart(c, 7);
  }

  ghost predicate SamePart(c: Certificate, d: Certificate, i: nat) {
    KeyPart(c, i) == KeyPart(d, i)
  }

  lemma LooksAreParts(c: Certificate, d: Certificate)
    requires NoBars(c) && NoBars(d)
    ensures LooksLike(c, d) <==>
            && SamePart(c, d, 0) && SamePart(c, d, 1) && SamePart(c, d, 2) && SamePart(c, d, 3)
            && SamePart(c, d, 4) && SamePart(c, d, 5) && SamePart(c, d, 6) && SamePart(c, d, 7)
  {
    hide NoBars, Trim, Lower, CleanDomains, Join, Sort;
    DomainsTold(c, d);
  }

  /** Two certificates have the same cache key exactly when they look the same. */
  lemma {:induction false} KeyTellsLooks(c: Certificate, d: Certificate)
    requires NoBars(c) && NoBars(d)
    ensures CacheKey(c) == CacheKey(d) <==> LooksLike(c, d)
  {
    hide KeyPart, NoBars, KeyFrom, LooksLike;
    LooksAreParts(c, d);
    if CacheKey(c) == CacheKey(d) {
      FrontParts(c, d, 6);
      LastParts(c);
      LastParts(d);
      BarlessParts(c);
      BarlessParts(d);
      LastPart(KeyPart(c, 6), KeyPart(d, 6), KeyPart(c, 7), KeyPart(d, 7));
    } else if LooksLike(c, d) {
      forall i | 0 <= i < KEY_PARTS
        ensures SamePart(c, d, i)
      {
        assert i in {0, 1, 2, 3, 4, 5, 6, 7};
      }
      SameParts(c, d, 0);
    }
  }

  /** A remote certificate as the mirroring loop sees it. */
  datatype Remote = Remote(certificate: Certificate, id: string, key: string)

  function RemoteOf(c: Certificate): (r: Remote)
    ensures '|' in r.key
  {
    var key := CacheKey(c);
    assert key[|KeyPart(c, 0)|] == '|';
    Remote(c, Trim(c.id), key)
  }

  function KeysOf(items: seq<Remote>): seq<string> {
    seq(|items|, i requires 0 <= i < |items| => items[i].key)
  }

  function Digest(items: seq<Remote>): string {
    Join(Sort(KeysOf(items)), '\n')
  }

  /** What stands for a digest before the first apply. */
  const UNINITIALIZED := "__cluster_sync_digest_uninitialized__"

  // ---------- what a digest tells ----------

  /** All cache keys hold a bar. */
  predicate Barred(items: seq<Remote>) {
    forall i :: 0 <= i < |items| ==> '|' in items[i].key
  }

  /** None holds a line break; only a recorded error text or an ID could bring one in. */
  predicate OneLine(items: seq<Remote>) {
    Barred(items) && forall i :: 0 <= i < |items| ==> '\n' !in items[i].key
  }

  lemma SortedKeys(items: seq<Remote>)
    requires Barred(items)
    ensures |Sort(KeysOf(items))| == |items|
    ensures forall i :: 0 <= i < |items| ==> '|' in Sort(KeysOf(items))[i]
    ensures OneLine(items) <==> Separable(Sort(KeysOf(items)), '\n')
  {
    var s := Sort(KeysOf(items));
    SortFacts(KeysOf(items));
    assert |multiset(s)| == |s| && |multiset(KeysOf(items))| == |items|;
    forall i | 0 <= i < |s|
      ensures '|' in s[i] && (OneLine(items) ==> '\n' !in s[i])
    {
      SortMembers(KeysOf(items), s[i]);
      var j :| 0 <= j < |items| && KeysOf(items)[j] == s[i];
    }
    forall j | 0 <= j < |items| && Separable(s, '\n')
      ensures '\n' !in items[j].key
    {
      assert KeysOf(items)[j] in KeysOf(items);
      SortMembers(KeysOf(items), items[j].key);
      var i :| 0 <= i < |s| && s[i] == items[j].key;
    }
  }

  function Breaks(s: string): nat {
    if s == "" then 0 else Breaks(s[..|s| - 1]) + if s[|s| - 1] == '\n' then 1 else 0
  }

  lemma {:induction false} BreaksOfConcat(a: string, b: string)
    ensures Breaks(a + b) == Breaks(a) + Breaks(b)
  {
    if b == "" {
      assert a + b == a;
    } else {
      assert (a + b)[..|a + b| - 1] == a + b[..|b| - 1];
      BreaksOfConcat(a, b[..|b| - 1]);
    }
  }

  lemma {:induction false} NoBreaks(s: string)
    ensures Breaks(s) == 0 <==> '\n' !in s
  {
    if s != "" {
      NoBreaks(s[..|s| - 1]);
      assert s == s[..|s| - 1] + [s[|s| - 1]];
    }
  }

  /** Joined lines hold one break fewer than lines, and more only if a line holds one. */
  lemma {:induction false} BreaksOfJoin(parts: seq<string>)
    requires parts != [] && forall i :: 0 <= i < |parts| ==> parts[i] != ""
    ensures Breaks(Join(parts, '\n')) >= |parts| - 1
    ensures Breaks(Join(parts, '\n')) == |parts| - 1 <==> Separable(parts, '\n')
  {
    NoBreaks(parts[0]);
    if |parts| > 1 {
      var rest := Join(parts[1..], '\n');
      BreaksOfJoin(parts[1..]);
      BreaksOfConcat(parts[0] + ['\n'], rest);
      BreaksOfConcat(parts[0], ['\n']);
      assert ['\n'][..0] == "" && Breaks(['\n']) == 1;
      assert Separable(parts, '\n') <==> Separable(parts[1..], '\n') && '\n' !in parts[0];
    }
  }

  /** If one of two lists has keys of one line each, the lists have the same cache keys, in any order,
      exactly when they have the same digest and the same length. */
  lemma DigestDeterminesKeys(a: seq<Remote>, b: seq<Remote>)
    requires OneLine(a) && Barred(b)
    ensures multiset(KeysOf(a)) == multiset(KeysOf(b)) <==> Digest(a) == Digest(b) && |a| == |b|
  {
    var s, t := Sort(KeysOf(a)), Sort(KeysOf(b));
    SortedKeys(a);
    SortedKeys(b);
    SortSame(KeysOf(a), KeysOf(b));
    if Digest(a) == Digest(b) && |a| == |b| && a != [] {
      BreaksOfJoin(s);
      BreaksOfJoin(t);
      JoinInjective(s, t, '\n');
    }
  }

  /** Lists of one-line keys with the same digest have the same keys. */
  lemma OneLineDigest(a: seq<Remote>, b: seq<Remote>)
    requires OneLine(a) && OneLine(b) && Digest(a) == Digest(b)
    ensures multiset(KeysOf(a)) == multiset(KeysOf(b))
  {
    SortedKeys(a);
    SortedKeys(b);
    SortSame(KeysOf(a), KeysOf(b));
    JoinInjective(Sort(KeysOf(a)), Sort(KeysOf(b)), '\n');
  }

  lemma SameKeysSameDigest(a: seq<Remote>, b: seq<Remote>)
    requires multiset(KeysOf(a)) == multiset(KeysOf(b))
    ensures Digest(a) == Digest(b)
  {
    SortSame(KeysOf(a), KeysOf(b));
  }

  function HeadOf(c: Certificate, n: nat): string {
    if n == 0 then "" else HeadOf(c, n - 1) + KeyPart(c, n - 1) + "|"
  }

  lemma OneMorePart(c: Certificate, n: nat)
    requires 0 < n < KEY_PARTS
    ensures HeadOf(c, n) == HeadOf(c, n - 1) + KeyPart(c, n - 1) + "|"
    ensures KeyFrom(c, n - 1) == KeyPart(c, n - 1) + "|" + KeyFrom(c, n)
  {
    hide KeyPart;
  }

  lemma Associate(a: string, b: string, d: string)
    ensures a + (b + "|" + d) == (a + b + "|") + d
  {
  }

  lemma NoParts(c: Certificate)
    ensures HeadOf(c, 0) + KeyFrom(c, 0) == KeyFrom(c, 0)
  {
    hide KeyFrom;
  }

  lemma {:induction false} KeySplits(c: Certificate, n: nat)
    requires n < KEY_PARTS
    ensures CacheKey(c) == HeadOf(c, n) + KeyFrom(c, n)
  {
    hide KeyPart, HeadOf, KeyFrom;
    if n == 0 {
      NoParts(c);
    } else {
      KeySplits(c, n - 1);
      OneMorePart(c, n);
      Associate(HeadOf(c, n - 1), KeyPart(c, n - 1), KeyFrom(c, n));
    }
  }

  lemma {:induction false} SameHead(c: Certificate, d: Certificate, n: nat)
    requires forall i :: 0 <= i < n ==> KeyPart(c, i) == KeyPart(d, i)
    ensures HeadOf(c, n) == HeadOf(d, n)
  {
    hide KeyPart;
    if n > 0 {
      SameHead(c, d, n - 1);
    }
  }

  /** The end of one key, a line break, and all but the last part of the other. */
  function TwoKeysAsError(c: Certificate, d: Certificate): string {
    KeyPart(c, 6) + "|" + KeyPart(c, 7) + "\n" + HeadOf(d, 6) + KeyPart(d, 6)
  }

  function Merged(c: Certificate, d: Certificate): Certificate {
    c.(lastError := TwoKeysAsError(c, d), domains := d.domains)
  }

  lemma HeadEndsInBar(c: Certificate, n: nat)
    requires n > 0
    ensures var h := HeadOf(c, n); h != "" && h[|h| - 1] == '|'
  {
  }

  lemma MergedErrorIsTrimmed(c: Certificate, d: Certificate)
    ensures Trim(TwoKeysAsError(c, d)) == TwoKeysAsError(c, d)
  {
    var e, first, last := TwoKeysAsError(c, d), KeyPart(c, 6), KeyPart(d, 6);
    TrimFacts(c.lastError);
    TrimFacts(d.lastError);
    HeadEndsInBar(d, 6);
    assert e[0] == if first == "" then '|' else first[0];
    assert e[|e| - 1] == if last == "" then '|' else last[|last| - 1];
    TrimFacts(e);
  }

  lemma LastTwoParts(c: Certificate)
    ensures CacheKey(c) == HeadOf(c, 6) + (KeyPart(c, 6) + "|" + KeyPart(c, 7))
  {
    KeySplits(c, 6);
    hide HeadOf, KeyPart;
    assert KeyFrom(c, 7) == KeyPart(c, 7);
    assert KeyFrom(c, 6) == KeyPart(c, 6) + "|" + KeyPart(c, 7);
  }

  lemma MergedParts(c: Certificate, d: Certificate)
    ensures HeadOf(Merged(c, d), 6) == HeadOf(c, 6)
    ensures KeyPart(Merged(c, d), 6) == TwoKeysAsError(c, d) && KeyPart(Merged(c, d), 7) == KeyPart(d, 7)
  {
    MergedErrorIsTrimmed(c, d);
    hide HeadOf, TwoKeysAsError;
    SameHead(Merged(c, d), c, 6);
  }

  lemma Regroup(h: string, e: string, x: string, g: string, f: string, y: string)
    ensures h + ((e + "|" + x + "\n" + g + f) + "|" + y) == (h + (e + "|" + x)) + "\n" + (g + (f + "|" + y))
  {
  }

  lemma MergedKey(c: Certificate, d: Certificate)
    ensures CacheKey(Merged(c, d)) == CacheKey(c) + "\n" + CacheKey(d)
  {
    hide KeyPart, HeadOf, CacheKey, Merged;
    LastTwoParts(Merged(c, d));
    LastTwoParts(c);
    LastTwoParts(d);
    MergedParts(c, d);
    Regroup(HeadOf(c, 6), KeyPart(c, 6), KeyPart(c, 7), HeadOf(d, 6), KeyPart(d, 6), KeyPart(d, 7));
  }

  lemma KeysOfTwo(c: Remote, d: Remote)
    ensures KeysOf([c]) == [c.key] && KeysOf([c, d]) == [c.key, d.key]
  {
  }

  /** One certificate in place of two. */
  function Mimic(c: Certificate, d: Certificate): Certificate {
    if Leq(CacheKey(c), CacheKey(d)) then Merged(c, d) else Merged(d, c)
  }

  /** Without that the digest may mislead: for any two certificates there is a single one, with an error
      text of two lines, that has the digest of both. */
  lemma {:induction false} ErrorTextMayMimicTwo(c: Certificate, d: Certificate)
    ensures Digest([RemoteOf(Mimic(c, d))]) == Digest([RemoteOf(c), RemoteOf(d)])
  {
    hide CacheKey, KeysOf, Leq, Merged, Sort, Join, Digest;
    var x, y := RemoteOf(c), RemoteOf(d);
    KeysOfTwo(x, y);
    KeysOfTwo(y, x);
    LeqTotal(CacheKey(c), CacheKey(d));
    if Leq(CacheKey(c), CacheKey(d)) {
      MergedKey(c, d);
      DigestOfTwo(RemoteOf(Merged(c, d)), x, y);
    } else {
      MergedKey(d, c);
      DigestOfTwo(RemoteOf(Merged(d, c)), y, x);
      assert multiset(KeysOf([x, y])) == multiset(KeysOf([y, x]));
      SameKeysSameDigest([x, y], [y, x]);
    }
  }

  lemma DigestOfTwo(m: Remote, x: Remote, y: Remote)
    requires Leq(x.key, y.key) && m.key == x.key + "\n" + y.key
    ensures Digest([m]) == Digest([x, y])
  {
    hide KeysOf, Leq, Sort, Join;
    KeysOfTwo(m, x);
    KeysOfTwo(x, y);
    SortOfTwo(x.key, y.key);
    LeqTotal(m.key, m.key);
    SortOfTwo(m.key, m.key);
  }

  lemma SortOfTwo(a: string, b: string)
    requires Leq(a, b)
    ensures Sort([a, b]) == [a, b]
    ensures Sort([a]) == [a] && Join([a], '\n') == a
    ensures Join([a, b], '\n') == a + "\n" + b
  {
    assert [a, b][1..] == [b] && [b][1..] == [] && [a][1..] == [];
    assert Sort([b]) == [b];
    assert Join([b], '\n') == b;
  }

  lemma NoBar()
    ensures '|' !in UNINITIALIZED
  {
  }

  /** No list has the digest a follower starts with, so its first run always applies. */
  lemma {:induction false} DigestIsInitialized(items: seq<Remote>)
    requires Barred(items)
    ensures Digest(items) != UNINITIALIZED
  {
    SortedKeys(items);
    var s := Sort(KeysOf(items));
    if s == [] {
      assert Digest(items) == "";
    } else {
      var i :| 0 <= i < |s[0]| && s[0][i] == '|';
      assert Digest(items)[i] == '|';
      assert '|' in Digest(items);
      NoBar();
    }
  }

  // ---------- building the mirrored list ----------

  datatype Mirrored = Mirrored(remote: Remote, bundle: Bytes)

  datatype CacheEntry = CacheEntry(cacheKey: string, bundle: Bytes, materialUnavailable: bool)

  type Cache = map<string, CacheEntry>

  datatype Fetched = Bundle(zip: Bytes) | MaterialUnavailable | FetchFailed(message: string)

  datatype Built = Built(mirrored: seq<Mirrored>, cache: Cache)

  predicate Hit(previous: Cache, c: Remote) {
    c.id in previous && previous[c.id].cacheKey == c.key
  }

  /** The next cache entry of one certificate, or the error that ends the build. */
  function EntryFor(c: Remote, previous: Cache, fetched: Fetched): Result<CacheEntry, string> {
    if c.id == "" then Failure("remote certificate id is required")
    else if Hit(previous, c) then Success(previous[c.id])
    else match fetched
      case Bundle(zip) => Success(CacheEntry(c.key, zip, false))
      case MaterialUnavailable => Success(CacheEntry(c.key, [], true))
      case FetchFailed(message) => Failure(message)
  }

  function BundleIn(e: CacheEntry): Bytes {
    if e.materialUnavailable then [] else e.bundle
  }

  /** The first n certificates. */
  function BuildTo(remote: seq<Remote>, previous: Cache, fetch: string -> Fetched, n: nat): Result<Built, string>
    requires n <= |remote|
  {
    if n == 0 then Success(Built([], map[]))
    else
      var before, c := BuildTo(remote, previous, fetch, n - 1), remote[n - 1];
      if before.Failure? then before
      else
        var e := EntryFor(c, previous, fetch(c.id));
        if e.Failure? then Failure(e.error)
        else Success(Built(before.value.mirrored + [Mirrored(c, BundleIn(e.value))], before.value.cache[c.id := e.value]))
  }

  function Build(remote: seq<Remote>, previous: Cache, fetch: string -> Fetched): Result<Built, string> {
    BuildTo(remote, previous, fetch, |remote|)
  }

  function RemotesOf(certificates: seq<Certificate>): seq<Remote> {
    seq(|certificates|, i requires 0 <= i < |certificates| => RemoteOf(certificates[i]))
  }

  /** One certificate: its next cache entry and the bundle that goes into the mirrored list. */
  method MirrorOne(c: Remote, previous: Cache, fetch: string -> Fetched)
    returns (entry: Result<CacheEntry, string>, bundle: Bytes)
    ensures entry == EntryFor(c, previous, fetch(c.id))
    ensures entry.Success? ==> bundle == BundleIn(entry.value)
  {
    bundle := [];
    if c.id == "" {
      return Failure("remote certificate id is required"), [];
    }
    if c.id in previous && previous[c.id].cacheKey == c.key {
      var cached := previous[c.id];
      if !cached.materialUnavailable && |cached.bundle| > 0 {
        bundle := cached.bundle;
      }
      return Success(cached), bundle;
    }
    match fetch(c.id) {
      case Bundle(zip) => return Success(CacheEntry(c.key, zip, false)), zip;
      case MaterialUnavailable => return Success(CacheEntry(c.key, [], true)), [];
      case FetchFailed(message) => return Failure(message), [];
    }
  }

  method BuildMirroredCertificates(certificates: seq<Certificate>, previous: Cache, fetch: string -> Fetched)
    returns (r: Result<Built, string>, digest: string)
    ensures r == Build(RemotesOf(certificates), previous, fetch)
    ensures r.Success? ==> digest == Digest(RemotesOf(certificates))
  {
    var remote := RemotesOf(certificates);
    r, digest := BuildFromRemotes(remote, previous, fetch);
  }

  method BuildFromRemotes(remote: seq<Remote>, previous: Cache, fetch: string -> Fetched)
    returns (r: Result<Built, string>, digest: string)
    ensures r == Build(remote, previous, fetch)
    ensures r.Success? ==> digest == Digest(remote)
  {
    var built := Built([], map[]);
    for i := 0 to |remote|
      invariant BuildTo(remote, previous, fetch, i) == Success(built)
    {
      var c := remote[i];
      BuildStep(remote, previous, fetch, i, built);
      var entry, bundle := MirrorOne(c, previous, fetch);
      if entry.Failure? {
        BuildStaysFailed(remote, previous, fetch, i + 1, |remote|);
        return Failure(entry.error), "";
      }
      built := Built(built.mirrored + [Mirrored(c, bundle)], built.cache[c.id := entry.value]);
    }
    return Success(built), Digest(remote);
  }

  lemma BuildStep(remote: seq<Remote>, previous: Cache, fetch: string -> Fetched, n: nat, b: Built)
    requires n < |remote| && BuildTo(remote, previous, fetch, n) == Success(b)
    ensures var c := remote[n];
            var e := EntryFor(c, previous, fetch(c.id));
            BuildTo(remote, previous, fetch, n + 1)
            == if e.Failure? then Failure(e.error)
               else Success(Built(b.mirrored + [Mirrored(c, BundleIn(e.value))], b.cache[c.id := e.value]))
  {
  }

  lemma {:induction false} BuildStaysFailed(
      remote: seq<Remote>, previous: Cache, fetch: string -> Fetched, m: nat, n: nat)
    requires m <= n <= |remote| && BuildTo(remote, previous, fetch, m).Failure?
    ensures BuildTo(remote, previous, fetch, n) == BuildTo(remote, previous, fetch, m)
    decreases n
  {
    if m < n {
      BuildStaysFailed(remote, previous, fetch, m, n - 1);
    }
  }

  // ---------- the cache changes nothing ----------

  /** The bundle behind every cache key, None where there is no material. */
  type Truth = string -> Option<Bytes>

  predicate TrueEntry(e: CacheEntry, truth: Truth) {
    if e.materialUnavailable then truth(e.cacheKey).None? && e.bundle == [] else truth(e.cacheKey) == Some(e.bundle)
  }

  ghost predicate TrueCache(cache: Cache, truth: Truth) {
    forall id :: id in cache ==> TrueEntry(cache[id], truth)
  }

  /** The controller answers a fetch with what the certificate's cache key determines, or fails. */
  predicate Answers(c: Remote, fetched: Fetched, truth: Truth) {
    match fetched
    case Bundle(zip) => truth(c.key) == Some(zip)
    case MaterialUnavailable => truth(c.key).None?
    case FetchFailed(_) => true
  }

  predicate AllAnswer(remote: seq<Remote>, fetch: string -> Fetched, truth: Truth) {
    forall i :: 0 <= i < |remote| ==> Answers(remote[i], fetch(remote[i].id), truth)
  }

  function FetchAfresh(c: Remote, truth: Truth): Mirrored {
    Mirrored(c, truth(c.key).GetOr([]))
  }

  /** The list as it would be with every bundle fetched afresh. */
  function Fresh(remote: seq<Remote>, truth: Truth): seq<Mirrored> {
    seq(|remote|, i requires 0 <= i < |remote| => FetchAfresh(remote[i], truth))
  }

  ghost function IdsOf(remote: seq<Remote>): set<string> {
    set i | 0 <= i < |remote| :: remote[i].id
  }

  lemma EntryIsTrue(c: Remote, previous: Cache, fetched: Fetched, truth: Truth)
    requires TrueCache(previous, truth) && Answers(c, fetched, truth)
    ensures var e := EntryFor(c, previous, fetched);
            e.Success? ==> TrueEntry(e.value, truth) && Mirrored(c, BundleIn(e.value)) == FetchAfresh(c, truth)
  {
  }

  lemma FreshGrows(remote: seq<Remote>, c: Remote, truth: Truth)
    ensures Fresh(remote + [c], truth) == Fresh(remote, truth) + [FetchAfresh(c, truth)]
    ensures IdsOf(remote + [c]) == IdsOf(remote) + {c.id}
  {
    var more := remote + [c];
    assert more[|remote|] == c;
    forall id | id in IdsOf(remote)
      ensures id in IdsOf(more)
    {
      var i :| 0 <= i < |remote| && remote[i].id == id;
      assert more[i] == remote[i];
    }
  }

  lemma {:induction false} BuildToIsFresh(
      remote: seq<Remote>, previous: Cache, fetch: string -> Fetched, truth: Truth, n: nat)
    requires n <= |remote| && TrueCache(previous, truth) && AllAnswer(remote, fetch, truth)
    ensures var r := BuildTo(remote, previous, fetch, n);
            r.Success? ==>
              && r.value.mirrored == Fresh(remote[..n], truth)
              && r.value.cache.Keys == IdsOf(remote[..n])
              && TrueCache(r.value.cache, truth)
  {
    if n > 0 {
      var c := remote[n - 1];
      BuildToIsFresh(remote, previous, fetch, truth, n - 1);
      EntryIsTrue(c, previous, fetch(c.id), truth);
      assert remote[..n] == remote[..n - 1] + [c];
      FreshGrows(remote[..n - 1], c, truth);
    }
  }

  /** A build that succeeds gives the list a fresh fetch of every bundle would give; the next cache
      holds exactly the remote IDs, and is again true. */
  lemma {:induction false} CacheIsTransparent(remote: seq<Remote>, previous: Cache, fetch: string -> Fetched, truth: Truth)
    requires TrueCache(previous, truth) && AllAnswer(remote, fetch, truth)
    requires Build(remote, previous, fetch).Success?
    ensures var b := Build(remote, previous, fetch).value;
            b.mirrored == Fresh(remote, truth) && b.cache.Keys == IdsOf(remote) && TrueCache(b.cache, truth)
  {
    BuildToIsFresh(remote, previous, fetch, truth, |remote|);
    assert remote[..|remote|] == remote;
  }

  predicate Fails(previous: Cache, fetch: string -> Fetched, c: Remote) {
    c.id == "" || (!Hit(previous, c) && fetch(c.id).FetchFailed?)
  }

  /** A build fails exactly when some certificate has no ID, or its bundle is neither cached nor to be had. */
  lemma {:induction false} BuildFailsExactly(
      remote: seq<Remote>, previous: Cache, fetch: string -> Fetched, n: nat)
    requires n <= |remote|
    ensures BuildTo(remote, previous, fetch, n).Failure?
            <==> exists i :: 0 <= i < n && Fails(previous, fetch, remote[i])
  {
    if n > 0 {
      BuildFailsExactly(remote, previous, fetch, n - 1);
      var c := remote[n - 1];
      assert EntryFor(c, previous, fetch(c.id)).Failure? <==> Fails(previous, fetch, c);
    }
  }

  // ---------- a change is noticed ----------

  function BundleOf(fetched: Fetched): Bytes {
    if fetched.Bundle? then fetched.zip else []
  }

  /** The bundle of one certificate: the cached one, or the one fetched. */
  function Chosen(c: Remote, previous: Cache, fetch: string -> Fetched): Bytes {
    if Hit(previous, c) then BundleIn(previous[c.id]) else BundleOf(fetch(c.id))
  }

  lemma {:induction false} MirroredIs(remote: seq<Remote>, previous: Cache, fetch: string -> Fetched, n: nat, i: nat)
    requires i < n <= |remote| && BuildTo(remote, previous, fetch, n).Success?
    ensures var b := BuildTo(remote, previous, fetch, n).value;
            |b.mirrored| == n && b.mirrored[i] == Mirrored(remote[i], Chosen(remote[i], previous, fetch))
    decreases n
  {
    EntryIs(remote[n - 1], previous, fetch);
    hide EntryFor, Chosen, BundleIn;
    if n > 1 {
      MirroredIs(remote, previous, fetch, n - 1, if i < n - 1 then i else 0);
    }
  }

  /** Under an ID the cache holds what the last certificate with it got. */
  lemma {:induction false} CachedIs(remote: seq<Remote>, previous: Cache, fetch: string -> Fetched, n: nat, i: nat)
    requires i < n <= |remote| && BuildTo(remote, previous, fetch, n).Success?
    requires forall k :: i < k < n ==> remote[k].id != remote[i].id
    ensures var c, b := remote[i], BuildTo(remote, previous, fetch, n).value;
            c.id in b.cache && b.cache[c.id].cacheKey == c.key && BundleIn(b.cache[c.id]) == Chosen(c, previous, fetch)
    decreases n
  {
    EntryIs(remote[n - 1], previous, fetch);
    hide EntryFor, Chosen, BundleIn;
    if i < n - 1 {
      CachedIs(remote, previous, fetch, n - 1, i);
    }
  }

  lemma {:induction false} NotCached(remote: seq<Remote>, previous: Cache, fetch: string -> Fetched, n: nat, id: string)
    requires n <= |remote| && BuildTo(remote, previous, fetch, n).Success?
    requires forall i :: 0 <= i < n ==> remote[i].id != id
    ensures id !in BuildTo(remote, previous, fetch, n).value.cache
  {
    hide EntryFor, BundleIn;
    if n > 0 {
      NotCached(remote, previous, fetch, n - 1, id);
    }
  }

  lemma EntryIs(c: Remote, previous: Cache, fetch: string -> Fetched)
    requires EntryFor(c, previous, fetch(c.id)).Success?
    ensures var e := EntryFor(c, previous, fetch(c.id)).value;
            e.cacheKey == c.key && BundleIn(e) == Chosen(c, previous, fetch)
  {
  }

  ghost predicate Barless(cs: seq<Certificate>) {
    forall i :: 0 <= i < |cs| ==> NoBars(cs[i])
  }

  /** The last of a list with an ID. */
  ghost predicate LastWithID(cs: seq<Certificate>, j: nat, id: string) {
    j < |cs| && Trim(cs[j].id) == id && forall k :: j < k < |cs| ==> Trim(cs[k].id) != id
  }

  lemma HitTells(remote: seq<Certificate>, previous: Cache, fetch: string -> Fetched, j: nat, c: Certificate)
    requires Barless(remote) && NoBars(c) && LastWithID(remote, j, Trim(c.id))
    requires Build(RemotesOf(remote), previous, fetch).Success?
    ensures var b := Build(RemotesOf(remote), previous, fetch).value;
            && |b.mirrored| == |remote| && Trim(c.id) in b.cache
            && BundleIn(b.cache[Trim(c.id)]) == b.mirrored[j].bundle
            && (Hit(b.cache, RemoteOf(c)) <==> LooksLike(remote[j], c))
  {
    hide NoBars, LooksLike, CacheKey, BundleIn, Chosen, BuildTo;
    var a := RemotesOf(remote);
    forall k | j < k < |a|
      ensures a[k].id != a[j].id
    {
    }
    MirroredIs(a, previous, fetch, |a|, j);
    CachedIs(a, previous, fetch, |a|, j);
    KeyTellsLooks(remote[j], c);
  }

  /** Of two builds one after the other, the second takes a bundle from the first exactly when the
      certificate still looks the same; a renewed one is fetched. */
  lemma {:induction false} FetchedAgainExactly(
      earlier: seq<Certificate>, later: seq<Certificate>, previous: Cache, fetch: string -> Fetched, again: string -> Fetched,
      j: nat, i: nat)
    requires Barless(earlier) && Barless(later) && i < |later| && LastWithID(earlier, j, Trim(later[i].id))
    requires Build(RemotesOf(earlier), previous, fetch).Success?
    requires Build(RemotesOf(later), Build(RemotesOf(earlier), previous, fetch).value.cache, again).Success?
    ensures var first := Build(RemotesOf(earlier), previous, fetch).value;
            var second := Build(RemotesOf(later), first.cache, again).value.mirrored;
            && |first.mirrored| == |earlier| && |second| == |later| && second[i].remote.certificate == later[i]
            && (LooksLike(earlier[j], later[i]) ==> second[i].bundle == first.mirrored[j].bundle)
            && (!LooksLike(earlier[j], later[i]) ==>
                  second[i].bundle == match again(Trim(later[i].id)) case Bundle(zip) => zip case _ => [])
  {
    hide NoBars, LooksLike, CacheKey, BundleIn, BuildTo;
    HitTells(earlier, previous, fetch, j, later[i]);
    var cache := Build(RemotesOf(earlier), previous, fetch).value.cache;
    MirroredIs(RemotesOf(later), cache, again, |later|, i);
  }

  /** A certificate whose ID was not there before is fetched. */
  lemma {:induction false} NewIsFetched(
      earlier: seq<Certificate>, later: seq<Certificate>, previous: Cache, fetch: string -> Fetched, again: string -> Fetched,
      i: nat)
    requires i < |later| && forall j :: 0 <= j < |earlier| ==> Trim(earlier[j].id) != Trim(later[i].id)
    requires Build(RemotesOf(earlier), previous, fetch).Success?
    requires Build(RemotesOf(later), Build(RemotesOf(earlier), previous, fetch).value.cache, again).Success?
    ensures var first := Build(RemotesOf(earlier), previous, fetch).value;
            var second := Build(RemotesOf(later), first.cache, again).value.mirrored;
            && |second| == |later| && second[i].remote.certificate == later[i]
            && second[i].bundle == match again(Trim(later[i].id)) case Bundle(zip) => zip case _ => []
  {
    hide CacheKey, BundleIn, BuildTo;
    var a, id := RemotesOf(earlier), Trim(later[i].id);
    var cache := Build(a, previous, fetch).value.cache;
    forall j | 0 <= j < |a|
      ensures a[j].id != id
    {
      assert Trim(earlier[j].id) != id;
    }
    NotCached(a, previous, fetch, |a|, id);
    MirroredIs(RemotesOf(later), cache, again, |later|, i);
  }

  /** A list in which some certificate looks like none of the other list has another digest: it is applied. */
  lemma {:induction false} ChangeIsNoticed(earlier: seq<Certificate>, later: seq<Certificate>, i: nat)
    requires Barless(earlier) && Barless(later)
    requires OneLine(RemotesOf(earlier)) && OneLine(RemotesOf(later))
    requires i < |later| && forall j :: 0 <= j < |earlier| ==> !LooksLike(earlier[j], later[i])
    ensures Digest(RemotesOf(earlier)) != Digest(RemotesOf(later)) && Digest(RemotesOf(later)) != Digest(RemotesOf(earlier))
  {
    hide NoBars, LooksLike, CacheKey, Digest, OneLine;
    var a, b := RemotesOf(earlier), RemotesOf(later);
    if Digest(a) == Digest(b) {
      OneLineDigest(a, b);
      assert KeysOf(b)[i] in multiset(KeysOf(a));
      var j :| 0 <= j < |KeysOf(a)| && KeysOf(a)[j] == KeysOf(b)[i];
      KeyTellsLooks(earlier[j], later[i]);
    }
  }

  /** Lists whose certificates look alike one by one have the same digest. */
  lemma AlikeIsSkipped(earlier: seq<Certificate>, later: seq<Certificate>)
    requires Barless(earlier) && Barless(later)
    requires |earlier| == |later| && forall i :: 0 <= i < |earlier| ==> LooksLike(earlier[i], later[i])
    ensures Digest(RemotesOf(earlier)) == Digest(RemotesOf(later))
  {
    hide NoBars, LooksLike, CacheKey, Sort, Join;
    forall i | 0 <= i < |earlier|
      ensures KeysOf(RemotesOf(earlier))[i] == KeysOf(RemotesOf(later))[i]
    {
      KeyTellsLooks(earlier[i], later[i]);
    }
    assert KeysOf(RemotesOf(earlier)) == KeysOf(RemotesOf(later));
  }

  /** A key is on one line if no field holds a line break. */
  lemma {:induction false} NoBreaksInKey(c: Certificate, n: nat)
    requires '\n' !in c.id && '\n' !in c.kind && '\n' !in c.status && '\n' !in c.updatedAt && '\n' !in c.notAfter
    requires '\n' !in c.serial && '\n' !in c.lastError && forall i :: 0 <= i < |c.domains| ==> '\n' !in c.domains[i]
    requires n < KEY_PARTS
    ensures '\n' !in KeyFrom(c, n)
    decreases KEY_PARTS - n
  {
    TrimAdds(c.id, '\n');
    TrimAdds(c.kind, '\n');
    TrimAdds(c.status, '\n');
    TrimAdds(c.serial, '\n');
    TrimAdds(c.lastError, '\n');
    LowerAdds(Trim(c.kind), '\n');
    LowerAdds(Trim(c.status), '\n');
    DomainPart(c, '\n');
    hide Trim, Lower, CleanDomains, Join, Sort;
    assert '\n' !in KeyPart(c, n);
    hide KeyPart;
    if n + 1 < KEY_PARTS {
      NoBreaksInKey(c, n + 1);
    }
  }
}
