/** Bypass rules (local-stack/client/src/bypass.rs): exact host, `*.suffix`, IP literal, CIDR.  IP and CIDR text
    parsing are fields of `Ip`. */
module Bypass {
  import opened Prelude
  import opened Ascii

  const SLASH: byte := 47

  /** Addresses and networks are opaque values; `show` prints an address in canonical lower case. */
  datatype Ip = Ip(
    parse: Bytes -> Option<Bytes>,
    parseNet: Bytes -> Option<Bytes>,
    show: Bytes -> Bytes,
    contains: (Bytes, Bytes) -> bool)
  {
    /** No address or network text holds a star. */
    ghost predicate Lawful() {
      forall t: Bytes :: parse(t).Some? || parseNet(t).Some? ==> STAR !in t
    }
  }

  datatype Matcher = Matcher(exact: set<Bytes>, suffixes: seq<Bytes>, cidrs: seq<Bytes>)

  // ---- What a single rule means ----

  /** The domain itself or anything below it. */
  predicate DomainOrBelow(domain: Bytes, h: Bytes) {
    h == domain
    || var k := |h| - |domain|;
       k > 0 && h[k - 1] == DOT && h[k..] == domain
  }

  /** A trimmed, non-empty rule against a trimmed, lower-case host. */
  predicate Means(ip: Ip, r: Bytes, h: Bytes) {
    if ip.parseNet(r).Some? then ip.parse(h).Some? && ip.contains(ip.parseNet(r).value, ip.parse(h).value)
    else if ip.parse(r).Some? then h == ip.show(ip.parse(r).value)
    else if |r| >= 2 && r[0] == STAR && r[1] == DOT then DomainOrBelow(Lower(r[2..]), h)
    else h == Lower(r)
  }

  predicate RuleMatches(ip: Ip, raw: Bytes, host: Bytes) {
    Trim(raw) != [] && Means(ip, Trim(raw), Lower(Trim(host)))
  }

  /** A rule that can be compiled: not a malformed CIDR, and not a wildcard without a domain. */
  predicate Acceptable(ip: Ip, raw: Bytes) {
    var r := Trim(raw);
    r == [] || ip.parseNet(r).Some? || (SLASH !in r && (ip.parse(r).Some? || r != [STAR, DOT]))
  }

  // ---- The compiled matcher ----

  const EMPTY := Matcher({}, [], [])

  predicate IsWildcard(r: Bytes) {
    StartsWith(r, [STAR, DOT])
  }

  function Add(ip: Ip, m: Matcher, raw: Bytes): Matcher {
    var r := Trim(raw);
    if r == [] then m
    else if ip.parseNet(r).Some? then m.(cidrs := m.cidrs + [ip.parseNet(r).value])
    else if ip.parse(r).Some? then m.(exact := m.exact + {ip.show(ip.parse(r).value)})
    else if IsWildcard(r) then
      m.(exact := m.exact + {Lower(r[2..])}, suffixes := m.suffixes + [[DOT] + Lower(r[2..])])
    else m.(exact := m.exact + {Lower(r)})
  }

  function Build(ip: Ip, rules: seq<Bytes>): Matcher {
    if rules == [] then EMPTY else Add(ip, Build(ip, rules[..|rules| - 1]), rules[|rules| - 1])
  }

  predicate AllAcceptable(ip: Ip, rules: seq<Bytes>) {
    forall i :: 0 <= i < |rules| ==> Acceptable(ip, rules[i])
  }

  /** Compilation fails exactly on an unacceptable rule. */
  function Compiled(ip: Ip, rules: seq<Bytes>): Option<Matcher> {
    if AllAcceptable(ip, rules) then Some(Build(ip, rules)) else None
  }

  lemma LowerWildcard(r: Bytes)
    ensures IsWildcard(Lower(r)) <==> IsWildcard(r)
    ensures IsWildcard(r) ==> Lower(r)[2..] == Lower(r[2..])
  {
    if IsWildcard(Lower(r)) {
      assert Lower(r)[0] == STAR && Lower(r)[1] == DOT;
    }
    if IsWildcard(r) {
      assert r[0] == STAR && r[1] == DOT;
    }
  }

  method FromRules(ip: Ip, rules: seq<Bytes>) returns (m: Option<Matcher>)
    ensures m == Compiled(ip, rules)
  {
    var exact: set<Bytes> := {};
    var suffixes: seq<Bytes> := [];
    var cidrs: seq<Bytes> := [];
    for i := 0 to |rules|
      invariant Matcher(exact, suffixes, cidrs) == Build(ip, rules[..i])
      invariant forall j :: 0 <= j < i ==> Acceptable(ip, rules[j])
    {
      assert rules[..i + 1][..i] == rules[..i];
      var r := Trim(rules[i]);
      if r == [] {
        continue;
      }
      var net := ip.parseNet(r);
      if net.Some? {
        cidrs := cidrs + [net.value];
        continue;
      }
      if SLASH in r {
        assert !Acceptable(ip, rules[i]);
        return None;
      }
      var addr := ip.parse(r);
      if addr.Some? {
        exact := exact + {ip.show(addr.value)};
        continue;
      }
      var lc := Lower(r);
      LowerWildcard(r);
      if IsWildcard(lc) {
        var rest := lc[2..];
        if rest == [] {
          assert r == [STAR, DOT];
          assert !Acceptable(ip, rules[i]);
          return None;
        }
        suffixes := suffixes + [[DOT] + rest];
        exact := exact + {rest};
      } else {
        exact := exact + {lc};
      }
    }
    assert rules[..|rules|] == rules;
    m := Some(Matcher(exact, suffixes, cidrs));
  }

  /** Whether some suffix, or some network, of the matcher fits the host. */
  predicate SuffixFits(suffixes: seq<Bytes>, h: Bytes) {
    exists i :: 0 <= i < |suffixes| && EndsWith(h, suffixes[i])
  }

  predicate NetFits(ip: Ip, cidrs: seq<Bytes>, h: Bytes) {
    ip.parse(h).Some? && exists i :: 0 <= i < |cidrs| && ip.contains(cidrs[i], ip.parse(h).value)
  }

  predicate MatchesText(ip: Ip, m: Matcher, h: Bytes) {
    h in m.exact || SuffixFits(m.suffixes, h) || NetFits(ip, m.cidrs, h)
  }

  predicate MatchesHost(ip: Ip, m: Matcher, host: Bytes) {
    MatchesText(ip, m, Lower(Trim(host)))
  }

  // ---- Compilation preserves meaning ----

  lemma SuffixSnoc(suffixes: seq<Bytes>, s: Bytes, h: Bytes)
    ensures SuffixFits(suffixes + [s], h) <==> SuffixFits(suffixes, h) || EndsWith(h, s)
  {
    var all := suffixes + [s];
    assert all[|suffixes|] == s;
    if SuffixFits(suffixes, h) {
      var i :| 0 <= i < |suffixes| && EndsWith(h, suffixes[i]);
      assert EndsWith(h, all[i]);
    }
  }

  lemma NetSnoc(ip: Ip, cidrs: seq<Bytes>, n: Bytes, h: Bytes)
    ensures NetFits(ip, cidrs + [n], h)
            <==> NetFits(ip, cidrs, h) || (ip.parse(h).Some? && ip.contains(n, ip.parse(h).value))
  {
    var all := cidrs + [n];
    assert all[|cidrs|] == n;
    if NetFits(ip, cidrs, h) {
      var i :| 0 <= i < |cidrs| && ip.contains(cidrs[i], ip.parse(h).value);
      assert ip.contains(all[i], ip.parse(h).value);
    }
  }

  lemma BelowIsSuffix(domain: Bytes, h: Bytes)
    ensures DomainOrBelow(domain, h) <==> h == domain || EndsWith(h, [DOT] + domain)
  {
    var k := |h| - |domain|;
    if k > 0 {
      assert h[k - 1..] == [h[k - 1]] + h[k..];
    }
  }

  /** Adding a rule adds exactly its meaning. */
  lemma AddMeans(ip: Ip, m: Matcher, raw: Bytes, host: Bytes)
    ensures MatchesHost(ip, Add(ip, m, raw), host) <==> MatchesHost(ip, m, host) || RuleMatches(ip, raw, host)
  {
    var r, h := Trim(raw), Lower(Trim(host));
    if r != [] {
      if ip.parseNet(r).Some? {
        NetSnoc(ip, m.cidrs, ip.parseNet(r).value, h);
      } else if ip.parse(r).None? && IsWildcard(r) {
        SuffixSnoc(m.suffixes, [DOT] + Lower(r[2..]), h);
        BelowIsSuffix(Lower(r[2..]), h);
      }
    }
  }

  ghost predicate AnyRule(ip: Ip, rules: seq<Bytes>, host: Bytes) {
    exists i :: 0 <= i < |rules| && RuleMatches(ip, rules[i], host)
  }

  lemma AnyRuleConcat(ip: Ip, a: seq<Bytes>, b: seq<Bytes>, host: Bytes)
    ensures AnyRule(ip, a + b, host) <==> AnyRule(ip, a, host) || AnyRule(ip, b, host)
  {
    var all := a + b;
    forall i | 0 <= i < |a|
      ensures all[i] == a[i]
    {
    }
    forall i | 0 <= i < |b|
      ensures all[|a| + i] == b[i]
    {
    }
    if AnyRule(ip, all, host) {
      var i :| 0 <= i < |all| && RuleMatches(ip, all[i], host);
      if i >= |a| {
        assert RuleMatches(ip, b[i - |a|], host);
      } else {
        assert RuleMatches(ip, a[i], host);
      }
    }
    if AnyRule(ip, a, host) {
      var i :| 0 <= i < |a| && RuleMatches(ip, a[i], host);
      assert RuleMatches(ip, all[i], host);
    }
    if AnyRule(ip, b, host) {
      var i :| 0 <= i < |b| && RuleMatches(ip, b[i], host);
      assert RuleMatches(ip, all[|a| + i], host);
    }
  }

  /** A compiled matcher matches a host exactly when some single rule does. */
  lemma {:induction false} BuildMeans(ip: Ip, rules: seq<Bytes>, host: Bytes)
    ensures MatchesHost(ip, Build(ip, rules), host) <==> AnyRule(ip, rules, host)
  {
    if rules == [] {
    } else {
      var front, last := rules[..|rules| - 1], rules[|rules| - 1];
      BuildMeans(ip, front, host);
      AddMeans(ip, Build(ip, front), last, host);
      AnyRuleConcat(ip, front, [last], host);
      assert rules == front + [last];
      assert AnyRule(ip, [last], host) <==> RuleMatches(ip, last, host) by {
        assert [last][0] == last;
      }
    }
  }
}
