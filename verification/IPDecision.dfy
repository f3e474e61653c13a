/** Compiling a resolved policy and deciding about a client address.

    Which texts are rules, addresses or AS numbers, and which addresses a rule matches, is taken as
    given (`Net`). */
module IPDecision {
  import opened Common
  import opened Text
  import opened IPRules
  import opened IPAccess

  datatype ASNText = BadASN | NoASN | ASN(number: nat)

  /** Parsing and matching of addresses and AS numbers, taken as given: which texts are valid rules,
      which rule matches which address, what a text says about an AS number, what is an address. */
  datatype Net = Net(
    valid: string -> bool, contains: (string, string) -> bool, asn: string -> ASNText, isIP: string -> bool)

  datatype CompiledSource = CompiledSource(
    source: string, allowFirst: bool, allow: seq<string>, deny: seq<string>,
    allowASNs: set<nat>, denyASNs: set<nat>, denyReputation: seq<string>)

  datatype Policy = Policy(sources: seq<CompiledSource>, anyAllow: bool)

  // ---------- parsing rule lists ----------

  /** None if a rule is not valid. */
  function ParsedIPs(net: Net, items: seq<string>): Option<seq<string>> {
    if items == [] then Some([])
    else
      var before, candidate := ParsedIPs(net, items[..|items| - 1]), Trim(items[|items| - 1]);
      if before.None? || candidate == "" then before
      else if net.valid(candidate) then Some(before.value + [candidate])
      else None
  }

  function ParsedASNs(net: Net, items: seq<string>): Option<set<nat>> {
    if items == [] then Some({})
    else
      var before, value := ParsedASNs(net, items[..|items| - 1]), Trim(items[|items| - 1]);
      if before.None? || value == "" then before
      else match net.asn(value)
        case BadASN => None
        case NoASN => before
        case ASN(n) => Some(before.value + {n})
  }

  lemma {:induction false} ParsingStaysFailed(net: Net, items: seq<string>, m: nat, n: nat)
    requires m <= n <= |items|
    ensures ParsedIPs(net, items[..m]).None? ==> ParsedIPs(net, items[..n]).None?
    ensures ParsedASNs(net, items[..m]).None? ==> ParsedASNs(net, items[..n]).None?
    decreases n
  {
    if m < n {
      ParsingStaysFailed(net, items, m, n - 1);
      assert items[..n][..n - 1] == items[..n - 1];
    }
  }

  method ParseIPRules(net: Net, raw: seq<string>) returns (rules: Option<seq<string>>)
    ensures rules == ParsedIPs(net, raw)
  {
    var out: seq<string> := [];
    for i := 0 to |raw|
      invariant ParsedIPs(net, raw[..i]) == Some(out)
    {
      assert raw[..i + 1][..i] == raw[..i];
      var candidate := Trim(raw[i]);
      if candidate == "" {
        continue;
      }
      if !net.valid(candidate) {
        ParsingStaysFailed(net, raw, i + 1, |raw|);
        assert raw[..|raw|] == raw;
        return None;
      }
      out := out + [candidate];
    }
    assert raw[..|raw|] == raw;
    return Some(out);
  }

  method ParseASNRules(net: Net, raw: seq<string>) returns (rules: Option<set<nat>>)
    ensures rules == ParsedASNs(net, raw)
  {
    var out: set<nat> := {};
    for i := 0 to |raw|
      invariant ParsedASNs(net, raw[..i]) == Some(out)
    {
      assert raw[..i + 1][..i] == raw[..i];
      var value := Trim(raw[i]);
      var asn := if value == "" then NoASN else net.asn(value);
      match asn {
        case BadASN =>
          ParsingStaysFailed(net, raw, i + 1, |raw|);
          assert raw[..|raw|] == raw;
          return None;
        case NoASN =>
        case ASN(n) =>
          out := out + {n};
      }
    }
    assert raw[..|raw|] == raw;
    return Some(out);
  }

  // ---------- compiling ----------

  function CompiledLists(net: Net, source: string, allowFirst: bool, l: Lists): Option<CompiledSource> {
    var allow, deny, reputation := ParsedIPs(net, l.allow), ParsedIPs(net, l.deny), ParsedIPs(net, l.denyReputation);
    var allowASNs, denyASNs := ParsedASNs(net, l.allowASNs), ParsedASNs(net, l.denyASNs);
    if allow.None? || deny.None? || reputation.None? || allowASNs.None? || denyASNs.None? then None
    else Some(CompiledSource(source, allowFirst, allow.value, deny.value, allowASNs.value, denyASNs.value,
                             reputation.value))
  }

  method CompileLists(net: Net, source: string, allowFirst: bool, l: Lists) returns (c: Option<CompiledSource>)
    ensures c == CompiledLists(net, source, allowFirst, l)
  {
    var allow := ParseIPRules(net, l.allow);
    if allow.None? { return None; }
    var deny := ParseIPRules(net, l.deny);
    if deny.None? { return None; }
    var allowASNs := ParseASNRules(net, l.allowASNs);
    if allowASNs.None? { return None; }
    var denyASNs := ParseASNRules(net, l.denyASNs);
    if denyASNs.None? { return None; }
    var reputation := ParseIPRules(net, l.denyReputation);
    if reputation.None? { return None; }
    return Some(CompiledSource(source, allowFirst, allow.value, deny.value, allowASNs.value, denyASNs.value,
                               reputation.value));
  }

  function Key(name: string): string {
    Lower(Trim(name))
  }

  /** Sources by key; of two with the same key, the later one. */
  function SourceMap(sources: seq<Source>): map<string, Source> {
    if sources == [] then map[]
    else
      var before, s := SourceMap(sources[..|sources| - 1]), sources[|sources| - 1];
      if Key(s.name) == "" then before else before[Key(s.name) := s]
  }

  method BuildSourceMap(sources: seq<Source>) returns (m: map<string, Source>)
    ensures m == SourceMap(sources)
  {
    m := map[];
    for i := 0 to |sources|
      invariant m == SourceMap(sources[..i])
    {
      assert sources[..i + 1][..i] == sources[..i];
      var key := Key(sources[i].name);
      if key == "" {
        continue;
      }
      m := m[key := sources[i]];
    }
    assert sources[..|sources|] == sources;
  }

  /** The named sources, compiled in the order of their names; names without a source are passed over. */
  function CompiledNamed(net: Net, m: map<string, Source>, names: seq<string>): Option<seq<CompiledSource>> {
    if names == [] then Some([])
    else
      var before, key := CompiledNamed(net, m, names[..|names| - 1]), Key(names[|names| - 1]);
      if before.None? || key == "" || key !in m then before
      else
        var c := CompiledLists(net, key, m[key].allowFirst, m[key].lists);
        if c.None? then None else Some(before.value + [c.value])
  }

  lemma {:induction false} CompilingStaysFailed(net: Net, m: map<string, Source>, names: seq<string>, i: nat, n: nat)
    requires i <= n <= |names| && CompiledNamed(net, m, names[..i]).None?
    ensures CompiledNamed(net, m, names[..n]).None?
    decreases n
  {
    if i < n {
      CompilingStaysFailed(net, m, names, i, n - 1);
      assert names[..n][..n - 1] == names[..n - 1];
    }
  }

  predicate HasAllow(c: CompiledSource) {
    c.allow != [] || c.allowASNs != {}
  }

  predicate AnyAllow(sources: seq<CompiledSource>) {
    exists c | c in sources :: HasAllow(c)
  }

  method CompileNamed(net: Net, m: map<string, Source>, names: seq<string>)
    returns (sources: Option<seq<CompiledSource>>, anyAllow: bool)
    ensures sources == CompiledNamed(net, m, names)
    ensures sources.Some? ==> anyAllow == AnyAllow(sources.value)
  {
    var out: seq<CompiledSource> := [];
    anyAllow := false;
    for i := 0 to |names|
      invariant CompiledNamed(net, m, names[..i]) == Some(out)
      invariant anyAllow == AnyAllow(out)
    {
      assert names[..i + 1][..i] == names[..i];
      var key := Key(names[i]);
      if key == "" || key !in m {
        continue;
      }
      var c := CompileLists(net, key, m[key].allowFirst, m[key].lists);
      if c.None? {
        CompilingStaysFailed(net, m, names, i + 1, |names|);
        assert names[..|names|] == names;
        return None, false;
      }
      AnyAllowOfOneMore(out, c.value);
      if HasAllow(c.value) {
        anyAllow := true;
      }
      out := out + [c.value];
    }
    assert names[..|names|] == names;
    return Some(out), anyAllow;
  }

  lemma AnyAllowOfOneMore(sources: seq<CompiledSource>, c: CompiledSource)
    ensures AnyAllow(sources + [c]) <==> AnyAllow(sources) || HasAllow(c)
  {
    assert c in sources + [c];
    if d :| d in sources && HasAllow(d) {
      assert d in sources + [c];
    }
  }

  /** A policy without sources falls back to the flat lists, deny first. */
  function Compiled(net: Net, r: Resolved): Option<Policy> {
    var named := if r.order != [] && r.sources != [] then CompiledNamed(net, SourceMap(r.sources), r.order) else Some([]);
    if named.None? then None
    else if named.value != [] then Some(Policy(named.value, AnyAllow(named.value)))
    else
      var flat := CompiledLists(net, "legacy", false, r.access);
      if flat.None? then None else Some(Policy([flat.value], HasAllow(flat.value)))
  }

  method CompileIPAccessPolicy(net: Net, r: Resolved) returns (policy: Option<Policy>)
    ensures policy == Compiled(net, r)
  {
    var sources: Option<seq<CompiledSource>>, anyAllow := Some([]), false;
    if |r.order| > 0 && |r.sources| > 0 {
      var m := BuildSourceMap(r.sources);
      sources, anyAllow := CompileNamed(net, m, r.order);
    }
    if sources.None? {
      return None;
    }
    if |sources.value| > 0 {
      return Some(Policy(sources.value, anyAllow));
    }
    var flat := CompileLists(net, "legacy", false, r.access);
    if flat.None? {
      return None;
    }
    return Some(Policy([flat.value], HasAllow(flat.value)));
  }

  // ---------- deciding ----------

  predicate MatchAnyRule(net: Net, rules: seq<string>, ip: string) {
    exists r | r in rules :: net.contains(r, ip)
  }

  predicate MatchAnyASN(rules: set<nat>, asn: nat) {
    asn != 0 && asn in rules
  }

  datatype Verdict = Admit | Refuse | Silent

  function SourceVerdict(net: Net, c: CompiledSource, ip: string, asn: nat): Verdict {
    var admits := MatchAnyRule(net, c.allow, ip) || MatchAnyASN(c.allowASNs, asn);
    var refuses := MatchAnyRule(net, c.deny, ip) || MatchAnyASN(c.denyASNs, asn) || MatchAnyRule(net, c.denyReputation, ip);
    if c.allowFirst then if admits then Admit else if refuses then Refuse else Silent
    else if refuses then Refuse else if admits then Admit else Silent
  }

  function FirstVerdict(net: Net, sources: seq<CompiledSource>, ip: string, asn: nat): Verdict {
    if sources == [] then Silent
    else
      var v := SourceVerdict(net, sources[0], ip, asn);
      if v != Silent then v else FirstVerdict(net, sources[1..], ip, asn)
  }

  predicate DeniedByPolicy(net: Net, policy: Policy, ip: string, asn: nat) {
    if !net.isIP(ip) then policy.anyAllow
    else match FirstVerdict(net, policy.sources, ip, asn)
      case Admit => false
      case Refuse => true
      case Silent => policy.anyAllow
  }

  lemma {:induction false} FirstVerdictOfOneMore(
    net: Net, sources: seq<CompiledSource>, c: CompiledSource, ip: string, asn: nat)
    ensures FirstVerdict(net, sources + [c], ip, asn) ==
            var v := FirstVerdict(net, sources, ip, asn);
            if v != Silent then v else SourceVerdict(net, c, ip, asn)
  {
    if sources != [] {
      assert (sources + [c])[1..] == sources[1..] + [c];
      FirstVerdictOfOneMore(net, sources[1..], c, ip, asn);
    }
  }
}
