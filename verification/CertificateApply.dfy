/** Applying a mirrored list, unless its digest has not changed, and what is then served from the files. */
module CertificateApply {
  import opened Common
  import opened CertificateMirror
  import opened Text

  // ---------- what the manager holds ----------

  /** What a bundle contains: a certificate and perhaps a key. */
  datatype Pair = Pair(crt: Bytes, key: Option<Bytes>)

  /** None if a bundle cannot be read or contains no certificate. */
  type Parse = Bytes -> Option<Pair>

  /** The two files kept for a certificate ID. */
  datatype Material = Material(crt: Option<Bytes>, key: Option<Bytes>)

  const NO_MATERIAL := Material(None, None)

  type Files = map<string, Material>

  function FileOf(files: Files, id: string): Material {
    if id in files then files[id] else NO_MATERIAL
  }

  /** A certificate, and which of its two paths are recorded with it. */
  datatype Item = Item(remote: Remote, crt: bool, key: bool)

  datatype Held = Held(items: seq<Item>, files: Files)

  /** What is served for an item: whatever is in its files now. */
  function Served(i: Item, files: Files): Material {
    var m := FileOf(files, i.remote.id);
    Material(if i.crt then m.crt else None, if i.key then m.key else None)
  }

  // ---------- replacing the mirrored certificates ----------

  datatype Wipe = Wiped | Left(crts: set<string>, keys: set<string>)

  /** What the disk does during one apply: whether the old files can all be removed, or which stay;
      whether the directory can be made; the item at which normalising or writing fails, and what that
      leaves in its files; whether the certificates can be saved. */
  datatype Disk = Disk(wipe: Wipe, ready: bool, stop: nat, partial: Material, saved: bool)

  function ItemOf(m: Mirrored, parse: Parse): Item {
    var p := if m.bundle == [] then None else parse(m.bundle);
    Item(m.remote, p.Some?, p.Some? && p.value.key.Some?)
  }

  function ItemsOf(list: seq<Mirrored>, parse: Parse): seq<Item> {
    seq(|list|, i requires 0 <= i < |list| => ItemOf(list[i], parse))
  }

  /** The files after all bundles of a list were written into an empty directory. */
  function FilesOf(list: seq<Mirrored>, parse: Parse): Files {
    if list == [] then map[]
    else
      var before, m := FilesOf(list[..|list| - 1], parse), list[|list| - 1];
      var p := if m.bundle == [] then None else parse(m.bundle);
      if p.None? then before else before[m.remote.id := Material(Some(p.value.crt), p.value.key)]
  }

  predicate Stops(list: seq<Mirrored>, d: Disk, parse: Parse, i: nat)
    requires i < |list|
  {
    i == d.stop || (list[i].bundle != [] && parse(list[i].bundle).None?)
  }

  /** The first item that cannot be prepared, or the length of the list. */
  function StopFrom(list: seq<Mirrored>, d: Disk, parse: Parse, i: nat): (k: nat)
    requires i <= |list|
    ensures i <= k <= |list|
    ensures forall j :: i <= j < k ==> !Stops(list, d, parse, j)
    ensures k < |list| ==> Stops(list, d, parse, k)
    decreases |list| - i
  {
    if i == |list| || Stops(list, d, parse, i) then i else StopFrom(list, d, parse, i + 1)
  }

  /** What the item that stopped an apply leaves in its own files. */
  function Broken(list: seq<Mirrored>, d: Disk, k: nat): Files
    requires k <= |list|
  {
    if k < |list| && k == d.stop && list[k].bundle != [] then map[list[k].remote.id := d.partial] else map[]
  }

  function Survivors(files: Files, crts: set<string>, keys: set<string>): Files {
    map id | id in files ::
      Material(if id in crts then files[id].crt else None, if id in keys then files[id].key else None)
  }

  function Replace(h: Held, list: seq<Mirrored>, d: Disk, parse: Parse): (Held, bool) {
    match d.wipe
    case Left(crts, keys) => (h.(files := Survivors(h.files, crts, keys)), false)
    case Wiped =>
      if !d.ready then (h.(files := map[]), false)
      else
        var k := StopFrom(list, d, parse, 0);
        if k < |list| then (h.(files := FilesOf(list[..k], parse) + Broken(list, d, k)), false)
        else (Held(ItemsOf(list, parse), FilesOf(list, parse)), d.saved)
  }

  /** Nothing stops an apply before it saves: the old files go, the directory is there, every bundle can be read
      and written. */
  ghost predicate GetsThrough(list: seq<Mirrored>, d: Disk, parse: Parse) {
    && d.wipe.Wiped? && d.ready && d.stop >= |list|
    && forall i :: 0 <= i < |list| && list[i].bundle != [] ==> parse(list[i].bundle).Some?
  }

  /** An apply succeeds exactly if nothing stops it and the certificates can be saved. They are replaced if nothing
      stops it, saved or not, each with the files its bundle brought; otherwise they stay. */
  lemma {:induction false} ReplacesExactly(h: Held, list: seq<Mirrored>, d: Disk, parse: Parse)
    ensures var (h', ok) := Replace(h, list, d, parse);
            && (ok <==> GetsThrough(list, d, parse) && d.saved)
            && (!GetsThrough(list, d, parse) ==> h'.items == h.items)
            && (GetsThrough(list, d, parse) ==> |h'.items| == |list|)
            && (GetsThrough(list, d, parse) ==> forall i :: 0 <= i < |list| ==>
                  && h'.items[i].remote == list[i].remote
                  && (h'.items[i].crt <==> list[i].bundle != [])
                  && (h'.items[i].key <==> list[i].bundle != [] && parse(list[i].bundle).value.key.Some?))
  {
    hide FilesOf, Broken, Survivors;
    var k := StopFrom(list, d, parse, 0);
    assert d.stop < |list| ==> Stops(list, d, parse, d.stop);
    assert forall i :: 0 <= i < |list| && list[i].bundle != [] && parse(list[i].bundle).None? ==> Stops(list, d, parse, i);
    assert k < |list| ==> Stops(list, d, parse, k);
  }

  class Manager {
    var items: seq<Item>
    var files: Files

    function Value(): Held
      reads this
    {
      Held(items, files)
    }

    constructor (held: Held)
      ensures Value() == held
    {
      items, files := held.items, held.files;
    }

    method ReplaceMirrored(list: seq<Mirrored>, d: Disk, parse: Parse) returns (ok: bool)
      modifies this
      ensures (Value(), ok) == Replace(old(Value()), list, d, parse)
    {
      if d.wipe.Left? {
        files := Survivors(files, d.wipe.crts, d.wipe.keys);
        return false;
      }
      files := map[];
      if !d.ready {
        return false;
      }
      var out: seq<Item> := [];
      for i := 0 to |list|
        invariant items == old(items)
        invariant out == ItemsOf(list[..i], parse) && files == FilesOf(list[..i], parse)
        invariant StopFrom(list, d, parse, 0) == StopFrom(list, d, parse, i)
      {
        assert list[..i + 1][..i] == list[..i];
        var m := list[i];
        var p := if m.bundle == [] then None else parse(m.bundle);
        if i == d.stop {
          if |m.bundle| > 0 {
            files := files[m.remote.id := d.partial];
          }
          assert files == FilesOf(list[..i], parse) + Broken(list, d, i);
          return false;
        }
        if |m.bundle| > 0 && p.None? {
          assert files == FilesOf(list[..i], parse) + Broken(list, d, i);
          return false;
        }
        if p.Some? {
          files := files[m.remote.id := Material(Some(p.value.crt), p.value.key)];
        }
        out := out + [Item(m.remote, p.Some?, p.Some? && p.value.key.Some?)];
      }
      assert list[..|list|] == list;
      items := out;
      return d.saved;
    }
  }

  // ---------- what a failed apply leaves of another set ----------

  /** A failed apply, as far as the files of other certificates are concerned: the old files could not all
      be removed; or they were, and `written` was written before it stopped, with `broken` half done; or
      only saving failed, after the certificates were replaced. */
  datatype Attempt =
    | Unwiped(crts: set<string>, keys: set<string>)
    | Stopped(written: seq<Mirrored>, broken: Files)
    | NotSaved

  function AttemptOf(list: seq<Mirrored>, d: Disk, parse: Parse): Attempt {
    match d.wipe
    case Left(crts, keys) => Unwiped(crts, keys)
    case Wiped =>
      if !d.ready then Stopped([], map[])
      else
        var k := StopFrom(list, d, parse, 0);
        if k < |list| then Stopped(list[..k], Broken(list, d, k)) else NotSaved
  }

  predicate Fits(p: Pair, m: Material) {
    m.crt == Some(p.crt) && (p.key.Some? ==> m.key == p.key)
  }

  /** Some written certificate has the same ID and the same material. */
  predicate Rewrites(written: seq<Mirrored>, id: string, p: Pair, parse: Parse) {
    exists m | m in written :: m.remote.id == id && m.bundle != [] && parse(m.bundle).Some?
                               && Fits(p, Material(Some(parse(m.bundle).value.crt), parse(m.bundle).value.key))
  }

  /** Failed applies leave the material p of a certificate alone: each left its files in place, or wrote
      the same material again before it stopped. */
  predicate Spared(id: string, p: Pair, since: seq<Attempt>, parse: Parse) {
    since == [] ||
    match since[|since| - 1]
    case Unwiped(crts, keys) => Spared(id, p, since[..|since| - 1], parse) && id in crts && (p.key.Some? ==> id in keys)
    case Stopped(written, broken) => if id in broken then Fits(p, broken[id]) else Rewrites(written, id, p, parse)
    case NotSaved => false
  }

  // ---------- runs ----------

  /** The loop's cache and digest, what the manager holds, and two facts of history: the remote set of the
      last apply that succeeded, and the applies that failed since. */
  datatype State = State(cache: Cache, digest: string, held: Held, last: seq<Remote>, since: seq<Attempt>)

  /** One run's certificate stages: what is fetched, whether a stage between fetching and applying fails,
      and what the disk does if it comes to an apply. */
  datatype Input = Input(remote: seq<Remote>, fetch: string -> Fetched, stopsEarly: bool, disk: Disk)

  function Apply(s: State, remote: seq<Remote>, mirrored: seq<Mirrored>, d: Disk, parse: Parse): (State, bool) {
    if s.digest == Digest(remote) then (s, true)
    else
      var (held, ok) := Replace(s.held, mirrored, d, parse);
      if ok then (s.(held := held, digest := Digest(remote), last := remote, since := []), true)
      else (s.(held := held, since := s.since + [AttemptOf(mirrored, d, parse)]), false)
  }

  /** The state after the certificate stages of one run, and whether they went through. */
  function Settle(s: State, i: Input, built: Result<Built, string>, parse: Parse): (State, bool) {
    if built.Failure? then (s, false)
    else if i.stopsEarly then (s.(cache := built.value.cache), false)
    else Apply(s.(cache := built.value.cache), i.remote, built.value.mirrored, i.disk, parse)
  }

  function Mirror(s: State, i: Input, parse: Parse): (State, bool) {
    Settle(s, i, Build(i.remote, s.cache, i.fetch), parse)
  }

  /** The follower starts with an empty cache and whatever certificates it had. */
  function Start(held: Held): State {
    State(map[], UNINITIALIZED, held, [], [])
  }

  function After(held: Held, inputs: seq<Input>, n: nat, parse: Parse): State
    requires n <= |inputs|
  {
    if n == 0 then Start(held) else Mirror(After(held, inputs, n - 1, parse), inputs[n - 1], parse).0
  }

  ghost predicate DistinctIDs(remote: seq<Remote>) {
    forall i, j :: 0 <= i < j < |remote| ==> remote[i].id != remote[j].id
  }

  ghost predicate GoodInput(i: Input, truth: Truth) {
    Barred(i.remote) && DistinctIDs(i.remote) && AllAnswer(i.remote, i.fetch, truth)
  }

  ghost predicate GoodInputs(inputs: seq<Input>, truth: Truth) {
    forall i :: 0 <= i < |inputs| ==> GoodInput(inputs[i], truth)
  }

  /** The material behind a cache key, if there is any. */
  function PairOf(key: string, truth: Truth, parse: Parse): Option<Pair> {
    var bundle := truth(key).GetOr([]);
    if bundle == [] then None else parse(bundle)
  }

  function MaterialOf(key: string, truth: Truth, parse: Parse): Material {
    var p := PairOf(key, truth, parse);
    if p.None? then NO_MATERIAL else Material(Some(p.value.crt), p.value.key)
  }

  /** Certificates, as far as cache keys tell, with what is served for them. */
  function View(h: Held): seq<(string, Material)> {
    seq(|h.items|, i requires 0 <= i < |h.items| => (h.items[i].remote.key, Served(h.items[i], h.files)))
  }

  /** Certificates with the material the controller has for them. */
  function Wanted(remote: seq<Remote>, truth: Truth, parse: Parse): seq<(string, Material)> {
    seq(|remote|, i requires 0 <= i < |remote| => (remote[i].key, MaterialOf(remote[i].key, truth, parse)))
  }

  /** The manager serves the remote set: the same certificates with the same material, in any order. */
  ghost predicate Serves(h: Held, remote: seq<Remote>, truth: Truth, parse: Parse) {
    multiset(View(h)) == multiset(Wanted(remote, truth, parse))
  }

  ghost predicate SameKeys(a: seq<Remote>, b: seq<Remote>) {
    multiset(KeysOf(a)) == multiset(KeysOf(b))
  }

  /** The failed applies did damage: one replaced the certificates, or some certificate was not spared. */
  ghost predicate Spoiled(last: seq<Remote>, since: seq<Attempt>, truth: Truth, parse: Parse) {
    || NotSaved in since
    || exists i :: 0 <= i < |last| && PairOf(last[i].key, truth, parse).Some?
                   && !Spared(last[i].id, PairOf(last[i].key, truth, parse).value, since, parse)
  }

  // ---------- files after an apply ----------

  ghost predicate DistinctMirrored(list: seq<Mirrored>) {
    forall i, j :: 0 <= i < j < |list| ==> list[i].remote.id != list[j].remote.id
  }

  lemma RewritesOneMore(rest: seq<Mirrored>, m: Mirrored, id: string, p: Pair, parse: Parse)
    ensures Rewrites(rest + [m], id, p, parse) <==> Rewrites(rest, id, p, parse) || Rewrites([m], id, p, parse)
  {
    if Rewrites(rest, id, p, parse) {
      var w :| w in rest && w.remote.id == id && w.bundle != [] && parse(w.bundle).Some?
               && Fits(p, Material(Some(parse(w.bundle).value.crt), parse(w.bundle).value.key));
      assert w in rest + [m];
    }
    if Rewrites([m], id, p, parse) {
      assert m in rest + [m];
    }
  }

  /** What was written for an ID is what the list has for it. */
  lemma {:induction false} WrittenIs(list: seq<Mirrored>, id: string, p: Pair, parse: Parse)
    requires DistinctMirrored(list)
    ensures Fits(p, FileOf(FilesOf(list, parse), id)) <==> Rewrites(list, id, p, parse)
    ensures (forall m :: m in list ==> m.remote.id != id) ==> id !in FilesOf(list, parse)
  {
    if list != [] {
      var rest, m := list[..|list| - 1], list[|list| - 1];
      WrittenIs(rest, id, p, parse);
      RewritesOneMore(rest, m, id, p, parse);
      assert list == rest + [m] && m in [m];
      if m.remote.id == id {
        assert forall w :: w in rest ==> w.remote.id != id;
      }
    }
  }

  lemma {:induction false} FileOfEach(list: seq<Mirrored>, i: nat, parse: Parse)
    requires DistinctMirrored(list) && i < |list|
    ensures list[i].bundle != [] && parse(list[i].bundle).Some? ==>
              var p := parse(list[i].bundle).value;
              FileOf(FilesOf(list, parse), list[i].remote.id) == Material(Some(p.crt), p.key)
    decreases |list|
  {
    var n := |list| - 1;
    if i < n {
      FileOfEach(list[..n], i, parse);
      assert list[..n][i] == list[i];
    }
  }

  lemma FreshIsDistinct(remote: seq<Remote>, truth: Truth)
    requires DistinctIDs(remote)
    ensures DistinctMirrored(Fresh(remote, truth))
  {
  }

  lemma FirstStop(list: seq<Mirrored>, d: Disk, parse: Parse, k: nat)
    requires k < |list| && (k == d.stop || (list[k].bundle != [] && parse(list[k].bundle).None?))
    requires forall i :: 0 <= i < k ==> i != d.stop && (list[i].bundle == [] || parse(list[i].bundle).Some?)
    ensures StopFrom(list, d, parse, 0) == k
  {
    assert Stops(list, d, parse, k);
    forall i | 0 <= i < k
      ensures !Stops(list, d, parse, i)
    {
      assert list[i].bundle == [] || parse(list[i].bundle).Some?;
    }
  }

  /** What an apply that stops at the k-th bundle leaves on disk: the files of those before it, whatever was written
      of the one it stopped in, and nothing else. */
  lemma StopLeaves(h: Held, list: seq<Mirrored>, d: Disk, parse: Parse, k: nat, id: string)
    requires d.wipe.Wiped? && d.ready && DistinctMirrored(list) && k < |list|
    requires k == d.stop || (list[k].bundle != [] && parse(list[k].bundle).None?)
    requires forall i :: 0 <= i < k ==> i != d.stop && (list[i].bundle == [] || parse(list[i].bundle).Some?)
    ensures var left := FileOf(Replace(h, list, d, parse).0.files, id);
            && (forall i :: 0 <= i < k && list[i].remote.id == id && list[i].bundle != [] ==>
                  left == Material(Some(parse(list[i].bundle).value.crt), parse(list[i].bundle).value.key))
            && (list[k].remote.id == id && k == d.stop && list[k].bundle != [] ==> left == d.partial)
            && ((forall i :: 0 <= i <= k && list[i].bundle != [] ==> list[i].remote.id != id) ==> left == Material(None, None))
  {
    FirstStop(list, d, parse, k);
    hide StopFrom;
    assert forall i :: 0 <= i < k ==> list[..k][i] == list[i];
    forall i | 0 <= i < k && list[i].remote.id == id && list[i].bundle != []
      ensures FileOf(FilesOf(list[..k], parse), id) == Material(Some(parse(list[i].bundle).value.crt), parse(list[i].bundle).value.key)
    {
      FileOfEach(list[..k], i, parse);
    }
    if forall i :: 0 <= i <= k && list[i].bundle != [] ==> list[i].remote.id != id {
      WrittenOnly(list[..k], id, parse);
    }
  }

  /** No file is written for an ID without a bundle. */
  lemma {:induction false} WrittenOnly(list: seq<Mirrored>, id: string, parse: Parse)
    requires forall i :: 0 <= i < |list| && list[i].bundle != [] ==> list[i].remote.id != id
    ensures id !in FilesOf(list, parse)
  {
    if list != [] {
      WrittenOnly(list[..|list| - 1], id, parse);
    }
  }

  /** A clean apply leaves the manager serving exactly the list. */
  lemma CleanApplyServes(remote: seq<Remote>, truth: Truth, parse: Parse)
    requires DistinctIDs(remote)
    ensures var list := Fresh(remote, truth);
            View(Held(ItemsOf(list, parse), FilesOf(list, parse))) == Wanted(remote, truth, parse)
  {
    var list := Fresh(remote, truth);
    var h := Held(ItemsOf(list, parse), FilesOf(list, parse));
    FreshIsDistinct(remote, truth);
    forall i | 0 <= i < |remote|
      ensures View(h)[i] == Wanted(remote, truth, parse)[i]
    {
      FileOfEach(list, i, parse);
    }
  }

  /** One more failed apply spares a certificate's files exactly as Spared says. */
  lemma AttemptSpares(h: Held, since: seq<Attempt>, list: seq<Mirrored>, d: Disk, parse: Parse, id: string, p: Pair)
    requires DistinctMirrored(list)
    requires Fits(p, FileOf(h.files, id)) <==> Spared(id, p, since, parse)
    requires !Replace(h, list, d, parse).1 && !AttemptOf(list, d, parse).NotSaved?
    ensures Fits(p, FileOf(Replace(h, list, d, parse).0.files, id))
            <==> Spared(id, p, since + [AttemptOf(list, d, parse)], parse)
  {
    var a := AttemptOf(list, d, parse);
    assert (since + [a])[..|since|] == since;
    if d.wipe.Wiped? && d.ready {
      var k := StopFrom(list, d, parse, 0);
      WrittenIs(list[..k], id, p, parse);
    }
  }

  // ---------- what the history tells ----------

  ghost predicate InStep(s: State, truth: Truth, parse: Parse, i: nat)
    requires i < |s.last|
  {
    var p := PairOf(s.last[i].key, truth, parse);
    p.Some? ==> (Fits(p.value, FileOf(s.held.files, s.last[i].id)) <==> Spared(s.last[i].id, p.value, s.since, parse))
  }

  ghost predicate NotReplaced(s: State, truth: Truth, parse: Parse) {
    s.held.items == ItemsOf(Fresh(s.last, truth), parse) && forall i :: 0 <= i < |s.last| ==> InStep(s, truth, parse, i)
  }

  ghost predicate ReplacedBy(s: State, from: seq<Remote>) {
    Digest(from) != s.digest && ItemKeys(s.held.items) == KeysOf(from)
  }

  function ItemKeys(items: seq<Item>): seq<string> {
    seq(|items|, i requires 0 <= i < |items| => items[i].remote.key)
  }

  /** What digest and history say about the manager. */
  ghost predicate Tells(s: State, truth: Truth, parse: Parse) {
    && TrueCache(s.cache, truth)
    && (s.digest != UNINITIALIZED ==>
          && s.digest == Digest(s.last) && DistinctIDs(s.last)
          && if NotSaved in s.since then exists from :: ReplacedBy(s, from) else NotReplaced(s, truth, parse))
  }

  lemma {:induction false} CleanApplyTells(s: State, remote: seq<Remote>, d: Disk, truth: Truth, parse: Parse)
    requires TrueCache(s.cache, truth) && DistinctIDs(remote)
    requires s.digest != Digest(remote) && Apply(s, remote, Fresh(remote, truth), d, parse).1
    ensures Tells(Apply(s, remote, Fresh(remote, truth), d, parse).0, truth, parse)
  {
    var list := Fresh(remote, truth);
    var s' := Apply(s, remote, list, d, parse).0;
    FreshIsDistinct(remote, truth);
    forall i | 0 <= i < |remote|
      ensures InStep(s', truth, parse, i)
    {
      FileOfEach(list, i, parse);
    }
  }

  lemma {:induction false} FailedApplyTells(s: State, remote: seq<Remote>, d: Disk, truth: Truth, parse: Parse)
    requires Tells(s, truth, parse) && DistinctIDs(remote)
    requires !Apply(s, remote, Fresh(remote, truth), d, parse).1
    ensures Tells(Apply(s, remote, Fresh(remote, truth), d, parse).0, truth, parse)
  {
    var list := Fresh(remote, truth);
    var s' := Apply(s, remote, list, d, parse).0;
    var a := AttemptOf(list, d, parse);
    assert s'.since == s.since + [a] && s'.last == s.last && s'.digest == s.digest;
    FreshIsDistinct(remote, truth);
    if s.digest != UNINITIALIZED {
      if a.NotSaved? {
        assert ItemKeys(s'.held.items) == KeysOf(remote);
        assert ReplacedBy(s', remote);
      } else if NotSaved in s.since {
        var from :| ReplacedBy(s, from);
        assert ReplacedBy(s', from);
      } else {
        forall i | 0 <= i < |s.last|
          ensures InStep(s', truth, parse, i)
        {
          assert InStep(s, truth, parse, i);
          var p := PairOf(s.last[i].key, truth, parse);
          if p.Some? {
            AttemptSpares(s.held, s.since, list, d, parse, s.last[i].id, p.value);
          }
        }
      }
    }
  }

  lemma {:induction false} MirrorKeepsTelling(s: State, i: Input, truth: Truth, parse: Parse)
    requires Tells(s, truth, parse) && GoodInput(i, truth)
    ensures Tells(Mirror(s, i, parse).0, truth, parse)
  {
    var built := Build(i.remote, s.cache, i.fetch);
    if built.Success? {
      CacheIsTransparent(i.remote, s.cache, i.fetch, truth);
      var cached := s.(cache := built.value.cache);
      CacheChangesNothing(s, cached, truth, parse);
      if !i.stopsEarly && s.digest != Digest(i.remote) {
        if Apply(cached, i.remote, built.value.mirrored, i.disk, parse).1 {
          CleanApplyTells(cached, i.remote, i.disk, truth, parse);
        } else {
          FailedApplyTells(cached, i.remote, i.disk, truth, parse);
        }
      }
    }
  }

  lemma {:induction false} CacheChangesNothing(s: State, t: State, truth: Truth, parse: Parse)
    requires Tells(s, truth, parse) && t == s.(cache := t.cache) && TrueCache(t.cache, truth)
    ensures Tells(t, truth, parse)
  {
    if s.digest != UNINITIALIZED {
      if NotSaved in s.since {
        var from :| ReplacedBy(s, from);
        assert ReplacedBy(t, from);
      } else {
        forall i | 0 <= i < |t.last|
          ensures InStep(t, truth, parse, i)
        {
          assert InStep(s, truth, parse, i);
        }
      }
    }
  }

  lemma {:induction false} RunsTell(held: Held, inputs: seq<Input>, truth: Truth, parse: Parse, n: nat)
    requires n <= |inputs| && GoodInputs(inputs, truth)
    ensures Tells(After(held, inputs, n, parse), truth, parse)
  {
    if n > 0 {
      RunsTell(held, inputs, truth, parse, n - 1);
      MirrorKeepsTelling(After(held, inputs, n - 1, parse), inputs[n - 1], truth, parse);
    }
  }

  // ---------- the same set ----------

  function Keys(marks: seq<(string, Material)>): seq<string> {
    seq(|marks|, i requires 0 <= i < |marks| => marks[i].0)
  }

  lemma KeysWithout(marks: seq<(string, Material)>, j: nat)
    requires j < |marks|
    ensures var rest := marks[..j] + marks[j + 1..];
            && multiset(marks) == multiset(rest) + multiset{marks[j]}
            && multiset(Keys(marks)) == multiset(Keys(rest)) + multiset{marks[j].0}
  {
    var rest, keys := marks[..j] + marks[j + 1..], Keys(marks);
    assert marks == marks[..j] + [marks[j]] + marks[j + 1..];
    assert keys == keys[..j] + [keys[j]] + keys[j + 1..];
    assert Keys(rest) == keys[..j] + keys[j + 1..];
  }

  lemma SameWithout<T>(x: multiset<T>, y: multiset<T>, m: T)
    requires x + multiset{m} == y + multiset{m}
    ensures x == y
  {
    assert x == (x + multiset{m}) - multiset{m};
  }

  lemma {:induction false} SameMarksSameKeys(a: seq<(string, Material)>, b: seq<(string, Material)>)
    requires multiset(a) == multiset(b)
    ensures multiset(Keys(a)) == multiset(Keys(b))
    decreases |a|
  {
    hide Keys;
    assert |multiset(a)| == |a| && |multiset(b)| == |b|;
    if a == [] {
      assert b == [];
    } else {
      assert a[0] in multiset(b);
      var j :| 0 <= j < |b| && b[j] == a[0];
      KeysWithout(a, 0);
      KeysWithout(b, j);
      var x, y := a[..0] + a[1..], b[..j] + b[j + 1..];
      SameWithout(multiset(x), multiset(y), a[0]);
      SameMarksSameKeys(x, y);
    }
  }

  lemma {:induction false} MarksFollowKeys(keys: seq<string>, truth: Truth, parse: Parse, marks: seq<(string, Material)>,
                                           k: string)
    requires |keys| == |marks|
    requires forall i :: 0 <= i < |keys| ==> marks[i] == (keys[i], MaterialOf(keys[i], truth, parse))
    ensures multiset(marks)[(k, MaterialOf(k, truth, parse))] == multiset(keys)[k]
    ensures forall m :: m != MaterialOf(k, truth, parse) ==> multiset(marks)[(k, m)] == 0
  {
    hide MaterialOf;
    if keys != [] {
      var n := |keys| - 1;
      MarksFollowKeys(keys[..n], truth, parse, marks[..n], k);
      assert keys == keys[..n] + [keys[n]] && marks == marks[..n] + [marks[n]];
    }
  }

  lemma SameKeysSameWanted(a: seq<Remote>, b: seq<Remote>, truth: Truth, parse: Parse)
    requires SameKeys(a, b)
    ensures multiset(Wanted(a, truth, parse)) == multiset(Wanted(b, truth, parse))
  {
    hide MaterialOf;
    forall m: (string, Material)
      ensures multiset(Wanted(a, truth, parse))[m] == multiset(Wanted(b, truth, parse))[m]
    {
      MarksFollowKeys(KeysOf(a), truth, parse, Wanted(a, truth, parse), m.0);
      MarksFollowKeys(KeysOf(b), truth, parse, Wanted(b, truth, parse), m.0);
    }
  }

  /** Serving a set means holding its keys. */
  lemma ServedKeys(h: Held, remote: seq<Remote>, truth: Truth, parse: Parse)
    requires Serves(h, remote, truth, parse)
    ensures multiset(ItemKeys(h.items)) == multiset(KeysOf(remote))
  {
    SameMarksSameKeys(View(h), Wanted(remote, truth, parse));
    assert Keys(View(h)) == ItemKeys(h.items) && Keys(Wanted(remote, truth, parse)) == KeysOf(remote);
  }

  /** And nothing else for any of them. */
  lemma ServedMaterial(h: Held, remote: seq<Remote>, truth: Truth, parse: Parse, i: nat)
    requires Serves(h, remote, truth, parse) && i < |h.items|
    ensures Served(h.items[i], h.files) == MaterialOf(h.items[i].remote.key, truth, parse)
  {
    var k := h.items[i].remote.key;
    hide MaterialOf, Served;
    MarksFollowKeys(KeysOf(remote), truth, parse, Wanted(remote, truth, parse), k);
    assert View(h)[i] in multiset(View(h));
  }

  lemma HeldItemServes(s: State, truth: Truth, parse: Parse, i: nat)
    requires NotReplaced(s, truth, parse) && i < |s.last|
    ensures |s.held.items| == |s.last| && s.held.items[i].remote == s.last[i]
    ensures var p := PairOf(s.last[i].key, truth, parse);
            Served(s.held.items[i], s.held.files) == MaterialOf(s.last[i].key, truth, parse)
            <==> p.None? || Spared(s.last[i].id, p.value, s.since, parse)
  {
    assert InStep(s, truth, parse, i);
  }

  // ---------- the result ----------

  /** While the digest skips the apply, the manager serves the remote set exactly if the set last applied
      has the same keys and no failed apply has spoiled it since. */
  lemma {:induction false} SkippedServesExactly(s: State, remote: seq<Remote>, truth: Truth, parse: Parse)
    requires Tells(s, truth, parse) && s.digest == Digest(remote) != UNINITIALIZED
    ensures Serves(s.held, remote, truth, parse) <==> SameKeys(s.last, remote) && !Spoiled(s.last, s.since, truth, parse)
  {
    if NotSaved in s.since {
      var from :| ReplacedBy(s, from);
      if Serves(s.held, remote, truth, parse) {
        ServedKeys(s.held, remote, truth, parse);
        SameKeysSameDigest(from, remote);
      }
    } else {
      NotReplacedServesExactly(s, remote, truth, parse);
    }
  }

  lemma NotReplacedServesExactly(s: State, remote: seq<Remote>, truth: Truth, parse: Parse)
    requires NotReplaced(s, truth, parse) && NotSaved !in s.since
    ensures Serves(s.held, remote, truth, parse) <==> SameKeys(s.last, remote) && !Spoiled(s.last, s.since, truth, parse)
  {
    assert ItemKeys(s.held.items) == KeysOf(s.last);
    if Serves(s.held, remote, truth, parse) {
      ServedKeys(s.held, remote, truth, parse);
      forall i | 0 <= i < |s.last| && PairOf(s.last[i].key, truth, parse).Some?
        ensures Spared(s.last[i].id, PairOf(s.last[i].key, truth, parse).value, s.since, parse)
      {
        HeldItemServes(s, truth, parse, i);
        ServedMaterial(s.held, remote, truth, parse, i);
      }
    }
    if SameKeys(s.last, remote) && !Spoiled(s.last, s.since, truth, parse) {
      forall i | 0 <= i < |s.last|
        ensures View(s.held)[i] == Wanted(s.last, truth, parse)[i]
      {
        HeldItemServes(s, truth, parse, i);
      }
      assert View(s.held) == Wanted(s.last, truth, parse);
      SameKeysSameWanted(s.last, remote, truth, parse);
    }
  }

  /** After a run whose certificate stages succeeded, the manager serves the remote set exactly unless the
      digest skipped the apply although the set last applied has other keys, or although an apply that
      failed since has replaced or damaged it. */
  lemma {:induction false} AppliedIsRemoteExactly(held: Held, inputs: seq<Input>, truth: Truth, parse: Parse, n: nat)
    requires n < |inputs| && GoodInputs(inputs, truth)
    requires Mirror(After(held, inputs, n, parse), inputs[n], parse).1
    ensures var s, s', remote := After(held, inputs, n, parse), After(held, inputs, n + 1, parse), inputs[n].remote;
            Serves(s'.held, remote, truth, parse)
            <==> !(s.digest == Digest(remote) && (!SameKeys(s.last, remote) || Spoiled(s.last, s.since, truth, parse)))
  {
    RunsTell(held, inputs, truth, parse, n);
    StepServesExactly(After(held, inputs, n, parse), inputs[n], truth, parse);
  }

  lemma {:induction false} StepServesExactly(s: State, i: Input, truth: Truth, parse: Parse)
    requires Tells(s, truth, parse) && GoodInput(i, truth) && Mirror(s, i, parse).1
    ensures Serves(Mirror(s, i, parse).0.held, i.remote, truth, parse)
            <==> !(s.digest == Digest(i.remote)
                   && (!SameKeys(s.last, i.remote) || Spoiled(s.last, s.since, truth, parse)))
  {
    CacheIsTransparent(i.remote, s.cache, i.fetch, truth);
    if s.digest == Digest(i.remote) {
      DigestIsInitialized(i.remote);
      SkippedServesExactly(s, i.remote, truth, parse);
    } else {
      CleanApplyServes(i.remote, truth, parse);
    }
  }

  // ---------- what follows ----------

  predicate FailsToApply(s: State, i: Input, parse: Parse) {
    Build(i.remote, s.cache, i.fetch).Success? && !i.stopsEarly && !Mirror(s, i, parse).1
  }

  lemma NoNewFailure(s: State, i: Input, parse: Parse)
    requires s.since == [] && !FailsToApply(s, i, parse)
    ensures Mirror(s, i, parse).0.since == []
  {
  }

  lemma {:induction false} NothingFailed(held: Held, inputs: seq<Input>, parse: Parse, n: nat)
    requires n <= |inputs|
    requires forall i :: 0 <= i < n ==> !FailsToApply(After(held, inputs, i, parse), inputs[i], parse)
    ensures After(held, inputs, n, parse).since == []
  {
    hide Mirror, FailsToApply;
    if n > 0 {
      NothingFailed(held, inputs, parse, n - 1);
      NoNewFailure(After(held, inputs, n - 1, parse), inputs[n - 1], parse);
    }
  }

  lemma {:induction false} LastIsOneLine(held: Held, inputs: seq<Input>, parse: Parse, n: nat)
    requires n <= |inputs| && forall i :: 0 <= i < n ==> OneLine(inputs[i].remote)
    ensures OneLine(After(held, inputs, n, parse).last)
  {
    if n > 0 {
      LastIsOneLine(held, inputs, parse, n - 1);
    }
  }

  /** In particular, with keys of one line, and as long as no apply has failed in any way, every
      successful run leaves the manager serving the remote set, also when the digest skipped the apply. */
  lemma {:induction false} CleanAppliesKeepRemote(held: Held, inputs: seq<Input>, truth: Truth, parse: Parse, n: nat)
    requires n < |inputs| && GoodInputs(inputs, truth) && forall i :: 0 <= i <= n ==> OneLine(inputs[i].remote)
    requires forall i :: 0 <= i < n ==> !FailsToApply(After(held, inputs, i, parse), inputs[i], parse)
    ensures Mirror(After(held, inputs, n, parse), inputs[n], parse).1 ==>
              Serves(After(held, inputs, n + 1, parse).held, inputs[n].remote, truth, parse)
  {
    var s, remote := After(held, inputs, n, parse), inputs[n].remote;
    NothingFailed(held, inputs, parse, n);
    LastIsOneLine(held, inputs, parse, n);
    RunsTell(held, inputs, truth, parse, n);
    if s.digest == Digest(remote) {
      DigestIsInitialized(remote);
      OneLineDigest(s.last, remote);
    }
    if Mirror(s, inputs[n], parse).1 {
      AppliedIsRemoteExactly(held, inputs, truth, parse, n);
    }
  }

  /** A failed apply that spoils the set in place is not noticed: once the controller goes back to that
      set, the next run succeeds if it can build, and whether it serves the set depends on the damage alone. */
  lemma {:induction false} SpoiledSetGoesUnnoticed(s: State, other: Input, back: Input, truth: Truth, parse: Parse)
    requires Tells(s, truth, parse) && s.since == [] && GoodInput(other, truth) && GoodInput(back, truth)
    requires s.digest == Digest(back.remote) != Digest(other.remote) && FailsToApply(s, other, parse)
    ensures var s', a := Mirror(s, other, parse).0, AttemptOf(Fresh(other.remote, truth), other.disk, parse);
            && (Build(back.remote, s'.cache, back.fetch).Success? && !back.stopsEarly ==> Mirror(s', back, parse).1)
            && (Mirror(s', back, parse).1 ==>
                  (Serves(Mirror(s', back, parse).0.held, back.remote, truth, parse)
                   <==> SameKeys(s.last, back.remote) && !Spoiled(s.last, [a], truth, parse)))
  {
    var s' := Mirror(s, other, parse).0;
    CacheIsTransparent(other.remote, s.cache, other.fetch, truth);
    assert s'.since == [AttemptOf(Fresh(other.remote, truth), other.disk, parse)] && s'.last == s.last;
    MirrorKeepsTelling(s, other, truth, parse);
    if Mirror(s', back, parse).1 {
      StepServesExactly(s', back, truth, parse);
    }
  }

  /** A list whose first bundle cannot be read spoils any set with material: the old files are gone. */
  lemma UnreadableBundleSpoils(last: seq<Remote>, list: seq<Mirrored>, d: Disk, truth: Truth, parse: Parse, i: nat)
    requires list != [] && list[0].bundle != [] && parse(list[0].bundle).None?
    requires d.wipe.Wiped? && d.ready && d.stop != 0
    requires i < |last| && PairOf(last[i].key, truth, parse).Some?
    ensures Spoiled(last, [AttemptOf(list, d, parse)], truth, parse)
  {
    assert AttemptOf(list, d, parse) == Stopped([], map[]);
    assert !Spared(last[i].id, PairOf(last[i].key, truth, parse).value, [AttemptOf(list, d, parse)], parse);
  }

  /** A list that brings every certificate of the last set again, with the same material, before the one
      that stops it spoils nothing. */
  lemma LateStopSparesAll(last: seq<Remote>, list: seq<Mirrored>, d: Disk, truth: Truth, parse: Parse)
    requires d.wipe.Wiped? && d.ready
    requires var k := StopFrom(list, d, parse, 0);
             k < |list| && (forall i :: 0 <= i < |last| ==> FetchAfresh(last[i], truth) in list[..k] && last[i].id != list[k].remote.id)
    ensures !Spoiled(last, [AttemptOf(list, d, parse)], truth, parse)
  {
    var k := StopFrom(list, d, parse, 0);
    var a := AttemptOf(list, d, parse);
    forall i | 0 <= i < |last| && PairOf(last[i].key, truth, parse).Some?
      ensures Spared(last[i].id, PairOf(last[i].key, truth, parse).value, [a], parse)
    {
      var m := FetchAfresh(last[i], truth);
      assert m in list[..k];
      assert Rewrites(list[..k], last[i].id, PairOf(last[i].key, truth, parse).value, parse);
    }
  }

  // ---------- a renewed certificate ----------

  ghost predicate DistinctCertificates(cs: seq<Certificate>) {
    forall i, j :: 0 <= i < j < |cs| ==> Trim(cs[i].id) != Trim(cs[j].id)
  }

  /** The certificate and the key a bundle contains. */
  ghost function MaterialIn(zip: Bytes, parse: Parse): Material {
    match if zip == [] then None else parse(zip)
    case None => Material(None, None)
    case Some(p) => Material(Some(p.crt), p.key)
  }

  /** A successful apply of a built list serves every certificate of the list with its own bundle. */
  lemma AppliedServesBundle(s: State, i: Input, later: seq<Certificate>, parse: Parse, k: nat)
    requires i.remote == RemotesOf(later) && DistinctCertificates(later) && k < |later|
    requires Mirror(s, i, parse).1 && s.digest != Digest(i.remote)
    ensures Build(i.remote, s.cache, i.fetch).Success? && |Build(i.remote, s.cache, i.fetch).value.mirrored| == |later|
    ensures var h, m := Mirror(s, i, parse).0.held, Build(i.remote, s.cache, i.fetch).value.mirrored[k];
            && |h.items| == |later| && h.items[k].remote.certificate == later[k]
            && (m.bundle != [] ==> parse(m.bundle).Some?)
            && Served(h.items[k], h.files) == MaterialIn(m.bundle, parse)
  {
    hide Digest, CacheKey, BundleIn, BuildTo, FilesOf;
    var list := Build(i.remote, s.cache, i.fetch).value.mirrored;
    forall n: nat | n < |later|
      ensures |list| == |later| && list[n].remote == RemoteOf(later[n])
    {
      MirroredIs(i.remote, s.cache, i.fetch, |later|, n);
    }
    assert DistinctMirrored(list);
    FileOfEach(list, k, parse);
    assert StopFrom(list, i.disk, parse, 0) == |list|;
    assert !Stops(list, i.disk, parse, k);
  }

  /** A certificate that no longer looks as it did when the last set was applied, nor as it did when the
      bundles were last cached, is fetched again and served with what was fetched. */
  lemma {:induction false} RenewalIsServed(
      s: State, i: Input, applied: seq<Certificate>, cached: seq<Certificate>, later: seq<Certificate>,
      previous: Cache, fetch: string -> Fetched, parse: Parse, j: nat, k: nat)
    requires Barless(applied) && Barless(cached) && Barless(later)
    requires OneLine(RemotesOf(applied)) && OneLine(RemotesOf(later))
    requires s.digest == Digest(RemotesOf(applied))
    requires Build(RemotesOf(cached), previous, fetch).Success? && s.cache == Build(RemotesOf(cached), previous, fetch).value.cache
    requires i.remote == RemotesOf(later) && DistinctCertificates(later) && Mirror(s, i, parse).1
    requires k < |later| && LastWithID(cached, j, Trim(later[k].id)) && !LooksLike(cached[j], later[k])
    requires forall l :: 0 <= l < |applied| ==> !LooksLike(applied[l], later[k])
    ensures var h := Mirror(s, i, parse).0.held;
            var zip := match i.fetch(Trim(later[k].id)) case Bundle(zip) => zip case _ => [];
            && |h.items| == |later| && h.items[k].remote.certificate == later[k]
            && (zip != [] ==> parse(zip).Some?)
            && Served(h.items[k], h.files) == MaterialIn(zip, parse)
  {
    hide NoBars, LooksLike, CacheKey, Digest, OneLine, BundleIn, BuildTo, Served, DistinctCertificates;
    ChangeIsNoticed(applied, later, k);
    AppliedServesBundle(s, i, later, parse, k);
    FetchedAgainExactly(cached, later, previous, fetch, i.fetch, j, k);
  }
}
