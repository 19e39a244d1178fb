/** Compiling rule lines into a host rule set (local-stack/client/src/default_rules.rs).  The regex library is a
    parameter. */
module HostRules {
  import opened Prelude
  import opened Ascii
  import opened Bypass
  import Glob

  datatype RuleSet = RuleSet(bypass: Matcher, globs: seq<Glob.Regex>, hasRules: bool)

  predicate GlobHits(globs: seq<Glob.Regex>, h: Bytes) {
    exists i :: 0 <= i < |globs| && globs[i].hits(h)
  }

  predicate Matches(ip: Ip, s: RuleSet, host: Bytes) {
    MatchesHost(ip, s.bypass, host) || GlobHits(s.globs, Trim(host))
  }

  // ---- Kinds of rule ----

  function Stars(s: Bytes): nat {
    if s == [] then 0 else (if s[0] == STAR then 1 else 0) + Stars(s[1..])
  }

  predicate NeedsGlob(s: Bytes) {
    Stars(s) > 1 || (Stars(s) == 1 && s[0] != STAR)
  }

  /** A leading star in front of a dotted name, as in `*example.com`. */
  predicate Starred(ip: Ip, r: Bytes) {
    && !(SLASH in r && STAR !in r)
    && ip.parse(r).None?
    && |r| > 1 && r[0] == STAR && !IsWildcard(r)
    && DOT in r[1..] && STAR !in r[1..]
  }

  function Expand(ip: Ip, raw: Bytes): seq<Bytes> {
    var r := Trim(raw);
    if r == [] then []
    else if SLASH in r && STAR !in r then [r]
    else if ip.parse(r).Some? then [r]
    else if Starred(ip, r) then [[STAR, DOT] + r[1..], r[1..]]
    else [r]
  }

  // ---- What a line means by itself ----

  /** A star that is not the first character. */
  predicate StarBehind(r: Bytes) {
    exists i :: 0 < i < |r| && r[i] == STAR
  }

  /** A star directly in front of a name that has a dot in it. */
  predicate StarAtName(r: Bytes) {
    |r| > 1 && r[0] == STAR && r[1] != DOT && exists i :: 1 < i < |r| && r[i] == DOT
  }

  /** A rule without a star behind the first character: a starred name stands for the domain and everything below it. */
  predicate SimpleMatches(ip: Ip, r: Bytes, host: Bytes) {
    if StarAtName(r) then DomainOrBelow(Lower(r[1..]), Lower(Trim(host))) || RuleMatches(ip, r[1..], host)
    else RuleMatches(ip, r, host)
  }

  /** An ordinary glob line means its language on ASCII hosts; any other line or host is what the regex library makes of
      it. */
  ghost predicate GlobMatches(lib: Glob.Library, r: Bytes, h: Bytes) {
    if Glob.Ordinary(r) && IsAscii(h) then Glob.InLanguage(r, h)
    else
      var re := lib.compile(Glob.RegexText(r));
      re.Some? && re.value.hits(h)
  }

  ghost predicate LineMatches(ip: Ip, lib: Glob.Library, line: Bytes, host: Bytes) {
    var r := Trim(line);
    r != [] && if StarBehind(r) then GlobMatches(lib, r, Trim(host)) else SimpleMatches(ip, r, host)
  }

  predicate LineAcceptable(ip: Ip, lib: Glob.Library, line: Bytes) {
    var r := Trim(line);
    if r == [] then true
    else if StarBehind(r) then Glob.Ordinary(r) || lib.compile(Glob.RegexText(r)).Some?
    else if StarAtName(r) then SLASH !in r
    else Acceptable(ip, r)
  }

  lemma {:induction false} NoStars(s: Bytes)
    ensures Stars(s) == 0 <==> forall i :: 0 <= i < |s| ==> s[i] != STAR
  {
    if s != [] {
      NoStars(s[1..]);
      assert s == [s[0]] + s[1..];
      assert (exists i :: 0 <= i < |s[1..]| && s[1..][i] == STAR) ==> exists i :: 0 <= i < |s| && s[i] == STAR;
    }
  }

  /** The compiler's two tests, by the places of stars and dots. */
  lemma KindOfLine(ip: Ip, r: Bytes)
    requires ip.Lawful()
    ensures NeedsGlob(r) <==> StarBehind(r)
    ensures !StarBehind(r) ==> (Starred(ip, r) <==> StarAtName(r))
  {
    if r != [] {
      var rest := r[1..];
      NoStars(rest);
      assert forall i :: 0 < i < |r| ==> r[i] == rest[i - 1];
      assert forall i :: 0 <= i < |rest| ==> rest[i] == r[i + 1];
    }
  }

  // ---- The compiler ----

  function SimpleOf(ip: Ip, line: Bytes): seq<Bytes> {
    var r := Trim(line);
    if r == [] || NeedsGlob(r) then [] else Expand(ip, r)
  }

  /** None when the line's regex does not compile. */
  function GlobsOf(lib: Glob.Library, line: Bytes): Option<seq<Glob.Regex>> {
    var r := Trim(line);
    if r == [] || !NeedsGlob(r) then Some([])
    else
      var re := lib.compile(Glob.RegexText(r));
      if re.None? then None else Some([re.value])
  }

  function AllSimple(ip: Ip, lines: seq<Bytes>): seq<Bytes> {
    if lines == [] then [] else AllSimple(ip, lines[..|lines| - 1]) + SimpleOf(ip, lines[|lines| - 1])
  }

  function AllGlobs(lib: Glob.Library, lines: seq<Bytes>): Option<seq<Glob.Regex>> {
    if lines == [] then Some([])
    else
      var front, last := AllGlobs(lib, lines[..|lines| - 1]), GlobsOf(lib, lines[|lines| - 1]);
      if front.None? || last.None? then None else Some(front.value + last.value)
  }

  function CompiledSet(ip: Ip, lib: Glob.Library, lines: seq<Bytes>): Option<RuleSet> {
    var simple, globs := AllSimple(ip, lines), AllGlobs(lib, lines);
    var m := Compiled(ip, simple);
    if globs.None? || m.None? then None
    else Some(RuleSet(m.value, globs.value, simple != [] || globs.value != []))
  }

  lemma {:induction false} GlobErrorStays(lib: Glob.Library, lines: seq<Bytes>, i: nat)
    requires i <= |lines| && AllGlobs(lib, lines[..i]).None?
    ensures AllGlobs(lib, lines).None?
  {
    if i == |lines| {
      assert lines[..i] == lines;
    } else {
      var front := lines[..|lines| - 1];
      assert front[..i] == lines[..i];
      GlobErrorStays(lib, front, i);
    }
  }

  method Compile(ip: Ip, lib: Glob.Library, lines: seq<Bytes>) returns (s: Option<RuleSet>)
    ensures s == CompiledSet(ip, lib, lines)
  {
    var simple: seq<Bytes> := [];
    var globs: seq<Glob.Regex> := [];
    for i := 0 to |lines|
      invariant simple == AllSimple(ip, lines[..i]) && AllGlobs(lib, lines[..i]) == Some(globs)
    {
      assert lines[..i + 1][..i] == lines[..i];
      var r := Trim(lines[i]);
      if r == [] {
        assert globs + [] == globs;
        continue;
      }
      if NeedsGlob(r) {
        TrimTrims(lines[i]);
        var text := Glob.ToRegexText(r);
        var re := lib.compile(text);
        if re.None? {
          GlobErrorStays(lib, lines, i + 1);
          return None;
        }
        globs := globs + [re.value];
      } else {
        assert globs + [] == globs;
        simple := simple + Expand(ip, r);
      }
    }
    assert lines[..|lines|] == lines;
    var hasRules := simple != [] || globs != [];
    var bypass := FromRules(ip, simple);
    if bypass.None? {
      return None;
    }
    s := Some(RuleSet(bypass.value, globs, hasRules));
  }

  // ---- Compilation preserves meaning ----

  /** The two rules a starred name expands to. */
  lemma StarredRules(ip: Ip, r: Bytes, host: Bytes)
    requires ip.Lawful() && Trimmed(r) && Starred(ip, r)
    ensures RuleMatches(ip, [STAR, DOT] + r[1..], host) <==> DomainOrBelow(Lower(r[1..]), Lower(Trim(host)))
    ensures Acceptable(ip, [STAR, DOT] + r[1..]) && Acceptable(ip, r[1..]) <==> SLASH !in r
  {
    var w := [STAR, DOT] + r[1..];
    assert Trimmed(w);
    TrimFixed(w);
    assert STAR in w;
    assert w[2..] == r[1..];
    assert r == [STAR] + r[1..];
    if SLASH !in r {
      TrimInside(r[1..]);
    } else {
      assert SLASH in w;
    }
  }

  /** Trimming keeps no character that was not there. */
  lemma TrimInside(t: Bytes)
    ensures forall c :: c in Trim(t) ==> c in t
  {
    TrimStartInside(t);
    TrimEndDone(TrimStart(t));
  }

  lemma {:induction false} TrimStartInside(t: Bytes)
    ensures forall c :: c in TrimStart(t) ==> c in t
  {
    if t != [] && IsSpace(t[0]) {
      TrimStartInside(t[1..]);
    }
  }

  lemma OneRule(ip: Ip, r: Bytes, host: Bytes)
    ensures AnyRule(ip, [r], host) <==> RuleMatches(ip, r, host)
    ensures AllAcceptable(ip, [r]) <==> Acceptable(ip, r)
  {
    assert [r][0] == r;
  }

  lemma TwoRules(ip: Ip, a: Bytes, b: Bytes, host: Bytes)
    ensures AnyRule(ip, [a, b], host) <==> RuleMatches(ip, a, host) || RuleMatches(ip, b, host)
    ensures AllAcceptable(ip, [a, b]) <==> Acceptable(ip, a) && Acceptable(ip, b)
  {
    assert [a, b][0] == a && [a, b][1] == b;
  }

  /** One simple line: the rules it expands to match as the line means, and compile when the line is acceptable. */
  lemma SimpleLine(ip: Ip, lib: Glob.Library, line: Bytes, host: Bytes)
    requires ip.Lawful()
    requires var r := Trim(line); r != [] && !NeedsGlob(r)
    ensures AnyRule(ip, SimpleOf(ip, line), host) <==> SimpleMatches(ip, Trim(line), host)
    ensures AllAcceptable(ip, SimpleOf(ip, line)) <==> LineAcceptable(ip, lib, line)
    ensures SimpleOf(ip, line) != []
  {
    var r := Trim(line);
    TrimTrims(line);
    KindOfLine(ip, r);
    if Starred(ip, r) {
      StarredRules(ip, r, host);
      TwoRules(ip, [STAR, DOT] + r[1..], r[1..], host);
    } else {
      OneRule(ip, r, host);
    }
  }

  lemma GlobHitsConcat(a: seq<Glob.Regex>, b: seq<Glob.Regex>, h: Bytes)
    ensures GlobHits(a + b, h) <==> GlobHits(a, h) || GlobHits(b, h)
  {
    var all := a + b;
    if GlobHits(all, h) {
      var i :| 0 <= i < |all| && all[i].hits(h);
      if i < |a| {
        assert a[i].hits(h);
      } else {
        assert b[i - |a|].hits(h);
      }
    }
    if GlobHits(a, h) {
      var i :| 0 <= i < |a| && a[i].hits(h);
      assert all[i].hits(h);
    }
    if GlobHits(b, h) {
      var i :| 0 <= i < |b| && b[i].hits(h);
      assert all[|a| + i].hits(h);
    }
  }

  /** One line contributes its meaning to exactly one of the two containers. */
  lemma LineMeans(ip: Ip, lib: Glob.Library, line: Bytes, host: Bytes)
    requires ip.Lawful() && lib.Lawful()
    ensures LineAcceptable(ip, lib, line) <==> AllAcceptable(ip, SimpleOf(ip, line)) && GlobsOf(lib, line).Some?
    ensures GlobsOf(lib, line).Some? ==>
              var globs := GlobsOf(lib, line).value;
              && (LineMatches(ip, lib, line, host)
                  <==> AnyRule(ip, SimpleOf(ip, line), host) || GlobHits(globs, Trim(host)))
              && (SimpleOf(ip, line) != [] || globs != [] <==> Trim(line) != [])
  {
    var r := Trim(line);
    KindOfLine(ip, r);
    if r != [] {
      if NeedsGlob(r) {
        if Glob.Ordinary(r) {
          Glob.PlainCompiled(lib, r, Trim(host));
        }
        var re := lib.compile(Glob.RegexText(r));
        if re.Some? {
          assert [re.value][0] == re.value;
        }
      } else {
        SimpleLine(ip, lib, line, host);
      }
    }
  }

  /** Some line matches the host by itself. */
  ghost predicate AnyLine(ip: Ip, lib: Glob.Library, lines: seq<Bytes>, host: Bytes) {
    lines != []
    && (AnyLine(ip, lib, lines[..|lines| - 1], host) || LineMatches(ip, lib, lines[|lines| - 1], host))
  }

  predicate AllLinesAcceptable(ip: Ip, lib: Glob.Library, lines: seq<Bytes>) {
    forall i :: 0 <= i < |lines| ==> LineAcceptable(ip, lib, lines[i])
  }

  predicate SomeLine(lines: seq<Bytes>) {
    exists i :: 0 <= i < |lines| && Trim(lines[i]) != []
  }

  lemma AcceptableConcat(ip: Ip, a: seq<Bytes>, b: seq<Bytes>)
    ensures AllAcceptable(ip, a + b) <==> AllAcceptable(ip, a) && AllAcceptable(ip, b)
  {
    var all := a + b;
    if AllAcceptable(ip, all) {
      forall i | 0 <= i < |a|
        ensures Acceptable(ip, a[i])
      {
        assert all[i] == a[i];
      }
      forall i | 0 <= i < |b|
        ensures Acceptable(ip, b[i])
      {
        assert all[|a| + i] == b[i];
      }
    }
  }

  lemma {:induction false} ContainersMean(ip: Ip, lib: Glob.Library, lines: seq<Bytes>, host: Bytes)
    requires ip.Lawful() && lib.Lawful() && AllGlobs(lib, lines).Some?
    ensures AnyLine(ip, lib, lines, host)
            <==> AnyRule(ip, AllSimple(ip, lines), host) || GlobHits(AllGlobs(lib, lines).value, Trim(host))
  {
    if lines == [] {
    } else {
      var n := |lines| - 1;
      var front, last := lines[..n], lines[n];
      ContainersMean(ip, lib, front, host);
      LineMeans(ip, lib, last, host);
      AnyRuleConcat(ip, AllSimple(ip, front), SimpleOf(ip, last), host);
      GlobHitsConcat(AllGlobs(lib, front).value, GlobsOf(lib, last).value, Trim(host));
    }
  }

  lemma LinesSplit(ip: Ip, lib: Glob.Library, lines: seq<Bytes>, front: seq<Bytes>, last: Bytes)
    requires lines != [] && front == lines[..|lines| - 1] && last == lines[|lines| - 1]
    ensures AllLinesAcceptable(ip, lib, lines) <==> AllLinesAcceptable(ip, lib, front) && LineAcceptable(ip, lib, last)
    ensures SomeLine(lines) <==> SomeLine(front) || Trim(last) != []
  {
    assert forall i :: 0 <= i < |front| ==> front[i] == lines[i];
    if SomeLine(front) {
      var i :| 0 <= i < |front| && Trim(front[i]) != [];
      assert Trim(lines[i]) != [];
    }
    if AllLinesAcceptable(ip, lib, lines) {
      forall i | 0 <= i < |front|
        ensures LineAcceptable(ip, lib, front[i])
      {
        assert LineAcceptable(ip, lib, lines[i]);
      }
    }
  }

  lemma {:induction false} ContainersCompile(ip: Ip, lib: Glob.Library, lines: seq<Bytes>)
    requires ip.Lawful() && lib.Lawful()
    ensures AllLinesAcceptable(ip, lib, lines)
            <==> AllAcceptable(ip, AllSimple(ip, lines)) && AllGlobs(lib, lines).Some?
    ensures AllGlobs(lib, lines).Some?
            ==> (SomeLine(lines) <==> AllSimple(ip, lines) != [] || AllGlobs(lib, lines).value != [])
  {
    if lines == [] {
    } else {
      var n := |lines| - 1;
      var front, last := lines[..n], lines[n];
      ContainersCompile(ip, lib, front);
      LineMeans(ip, lib, last, []);
      AcceptableConcat(ip, AllSimple(ip, front), SimpleOf(ip, last));
      LinesSplit(ip, lib, lines, front, last);
    }
  }

  /** Rule compilation preserves meaning: it succeeds exactly when every line is acceptable, and then the set matches a
      host exactly when some single line does; it has rules exactly when some line is not blank. */
  lemma CompileMeans(ip: Ip, lib: Glob.Library, lines: seq<Bytes>, host: Bytes)
    requires ip.Lawful() && lib.Lawful()
    ensures CompiledSet(ip, lib, lines).Some? <==> AllLinesAcceptable(ip, lib, lines)
    ensures CompiledSet(ip, lib, lines).Some? ==>
              var s := CompiledSet(ip, lib, lines).value;
              && (Matches(ip, s, host) <==> AnyLine(ip, lib, lines, host))
              && (s.hasRules <==> SomeLine(lines))
  {
    ContainersCompile(ip, lib, lines);
    if AllGlobs(lib, lines).Some? {
      ContainersMean(ip, lib, lines, host);
    }
    BuildMeans(ip, AllSimple(ip, lines), host);
  }

  // ---- A list of one line ----

  lemma OneLine(ip: Ip, lib: Glob.Library, line: Bytes, host: Bytes)
    requires ip.Lawful() && lib.Lawful()
    ensures var s := CompiledSet(ip, lib, [line]);
            && (s.Some? <==> LineAcceptable(ip, lib, line))
            && (s.Some? ==> (Matches(ip, s.value, host) <==> LineMatches(ip, lib, line, host)))
  {
    CompileMeans(ip, lib, [line], host);
    assert [line][..0] == [];
    assert [line][0] == line;
  }

  /** A line with a star behind its first character, and no regex syntax of its own, matches the ASCII hosts of its
      language: each star stands for any text, each question mark for one character. */
  lemma GlobLine(ip: Ip, lib: Glob.Library, line: Bytes, host: Bytes)
    requires ip.Lawful() && lib.Lawful() && Glob.Ordinary(Trim(line)) && IsAscii(Trim(host))
    requires var r := Trim(line); exists i :: 0 < i < |r| && r[i] == STAR
    ensures var s := CompiledSet(ip, lib, [line]);
            s.Some? && (Matches(ip, s.value, host) <==> Glob.InLanguage(Trim(line), Trim(host)))
  {
    OneLine(ip, lib, line, host);
  }

  lemma WildcardRule(ip: Ip, name: Bytes, host: Bytes)
    requires ip.Lawful() && Trimmed(name) && name != [] && SLASH !in name
    ensures var w := [STAR, DOT] + name;
            && Trim(w) == w && Acceptable(ip, w)
            && (RuleMatches(ip, w, host) <==> DomainOrBelow(Lower(name), Lower(Trim(host))))
  {
    var w := [STAR, DOT] + name;
    assert w[2..] == name && Trimmed(w);
    assert STAR in w && |w| > 2;
    TrimFixed(w);
  }

  /** `*.name` matches the domain and everything below it. */
  lemma WildcardLine(ip: Ip, lib: Glob.Library, name: Bytes, host: Bytes)
    requires ip.Lawful() && lib.Lawful() && Trimmed(name) && name != []
    requires STAR !in name && SLASH !in name
    ensures var s := CompiledSet(ip, lib, [[STAR, DOT] + name]);
            s.Some? && (Matches(ip, s.value, host) <==> DomainOrBelow(Lower(name), Lower(Trim(host))))
  {
    var w := [STAR, DOT] + name;
    WildcardRule(ip, name, host);
    assert !StarBehind(w) && !StarAtName(w);
    OneLine(ip, lib, w, host);
  }

  /** So does `*name` for a name with a dot in it that is no address. */
  lemma StarredLine(ip: Ip, lib: Glob.Library, name: Bytes, host: Bytes)
    requires ip.Lawful() && lib.Lawful() && Trimmed(name)
    requires STAR !in name && SLASH !in name && DOT in name && name[0] != DOT
    requires ip.parse(name).None? && ip.parseNet(name).None?
    ensures var s := CompiledSet(ip, lib, [[STAR] + name]);
            s.Some? && (Matches(ip, s.value, host) <==> DomainOrBelow(Lower(name), Lower(Trim(host))))
  {
    var v := [STAR] + name;
    assert v[1..] == name && Trimmed(v);
    TrimFixed(name);
    TrimFixed(v);
    OneLine(ip, lib, v, host);
  }

  /** A line without a star is one rule. */
  lemma StarlessLine(ip: Ip, lib: Glob.Library, line: Bytes, host: Bytes)
    requires ip.Lawful() && lib.Lawful() && STAR !in line
    ensures var s := CompiledSet(ip, lib, [line]);
            && (s.Some? <==> Acceptable(ip, line))
            && (s.Some? ==> (Matches(ip, s.value, host) <==> RuleMatches(ip, line, host)))
  {
    TrimInside(line);
    TrimTrims(line);
    OneLine(ip, lib, line, host);
  }
}
