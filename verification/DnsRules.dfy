/** Domain rule attribution and client ordering of the DNS server (app/dns/dns.go). */
module DnsRules {
  import opened Basics

  datatype OriginalRule = OriginalRule(rule: string, size: nat)

  /** A prioritized domain: its matcher's text, or None when no matcher can be made from it. */
  type Prioritized = Option<string>

  datatype Server = Server(domains: seq<Prioritized>, rules: seq<OriginalRule>)

  /** What is stored for a matcher index: both fields are 16 bits wide. */
  datatype Info = Info(clientIdx: Uint16, ruleIdx: Uint16)

  // ---- which rule a domain belongs to ----

  /** How many domains the loop gives to a rule: its size, but never none. */
  function Width(r: OriginalRule): nat {
    if r.size == 0 then 1 else r.size
  }

  function Total(rules: seq<OriginalRule>): nat {
    if rules == [] then 0 else Width(rules[0]) + Total(rules[1..])
  }

  /** Walk the rules by their widths; beyond the last rule every domain is a rule of its own. */
  function RuleOf(rules: seq<OriginalRule>, d: nat): nat {
    if rules == [] then d
    else if d < Width(rules[0]) then 0
    else 1 + RuleOf(rules[1..], d - Width(rules[0]))
  }

  /** The same walk by the configured sizes themselves. */
  function RuleBySize(rules: seq<OriginalRule>, d: nat): nat {
    if rules == [] then d
    else if d < rules[0].size then 0
    else 1 + RuleBySize(rules[1..], d - rules[0].size)
  }

  /**
   * The n domains of a server are all attributed by size range exactly when every rule of size zero lies
   * behind them: each zero-size rule that is reached takes a domain that is not its own.
   */
  lemma AttributionBySizeExactly(rules: seq<OriginalRule>, n: nat)
    ensures (forall d: nat :: d < n ==> RuleOf(rules, d) == RuleBySize(rules, d))
       <==> (forall i :: 0 <= i < |rules| && rules[i].size == 0 ==> Total(rules[..i]) >= n)
  {
    if forall i :: 0 <= i < |rules| && rules[i].size == 0 ==> Total(rules[..i]) >= n {
      forall d: nat | d < n ensures RuleOf(rules, d) == RuleBySize(rules, d) {
        AgreeBeforeZero(rules, d);
      }
    } else {
      var i :| 0 <= i < |rules| && rules[i].size == 0 && Total(rules[..i]) < n;
      var z := FirstZero(rules, i);
      TotalGrows(rules, z, i);
      ZeroDisagrees(rules, z);
      assert RuleOf(rules, Total(rules[..z])) != RuleBySize(rules, Total(rules[..z]));
    }
  }

  lemma FirstZero(rules: seq<OriginalRule>, k: nat) returns (z: nat)
    requires k < |rules| && rules[k].size == 0
    ensures z <= k && rules[z].size == 0 && forall j :: 0 <= j < z ==> rules[j].size > 0
  {
    z := 0;
    while rules[z].size > 0
      invariant 0 <= z <= k && forall j :: 0 <= j < z ==> rules[j].size > 0
      decreases k - z
    {
      z := z + 1;
    }
  }

  lemma {:induction false} TotalGrows(rules: seq<OriginalRule>, i: nat, j: nat)
    requires i <= j <= |rules|
    ensures Total(rules[..i]) <= Total(rules[..j])
    decreases j
  {
    if i < j {
      TotalGrows(rules, i, j - 1);
      TotalNext(rules, j - 1);
    }
  }

  lemma {:induction false} AgreeBeforeZero(rules: seq<OriginalRule>, d: nat)
    requires forall i :: 0 <= i < |rules| && rules[i].size == 0 ==> d < Total(rules[..i])
    ensures RuleOf(rules, d) == RuleBySize(rules, d)
    decreases |rules|
  {
    if rules != [] {
      assert Total(rules[..0]) == 0;
      if d >= rules[0].size {
        var rest := rules[1..];
        forall i | 0 <= i < |rest| && rest[i].size == 0 ensures d - rules[0].size < Total(rest[..i]) {
          assert rules[i + 1].size == 0 && rules[..i + 1][1..] == rest[..i];
        }
        AgreeBeforeZero(rest, d - rules[0].size);
      }
    }
  }

  lemma {:induction false} ZeroDisagrees(rules: seq<OriginalRule>, i: nat)
    requires i < |rules| && rules[i].size == 0 && forall j :: 0 <= j < i ==> rules[j].size > 0
    ensures RuleOf(rules, Total(rules[..i])) == i < RuleBySize(rules, Total(rules[..i]))
    decreases |rules|
  {
    if i == 0 {
      assert rules[..0] == [];
    } else {
      ZeroDisagrees(rules[1..], i - 1);
      assert rules[..i][1..] == rules[1..][..i - 1];
    }
  }

  /** A domain within the rules' reach belongs to the one rule whose range of positions covers it. */
  lemma {:induction false} RangeCovers(rules: seq<OriginalRule>, d: nat)
    ensures var r := RuleOf(rules, d);
            if d < Total(rules) then r < |rules| && Total(rules[..r]) <= d < Total(rules[..r + 1])
            else r == |rules| + (d - Total(rules))
    decreases |rules|
  {
    if rules != [] {
      var r := RuleOf(rules, d);
      if d < Width(rules[0]) {
        assert rules[..1] == [rules[0]] && rules[..0] == [];
        assert Total(rules[..1]) == Width(rules[0]) + Total(rules[..1][1..]);
      } else {
        RangeCovers(rules[1..], d - Width(rules[0]));
        if d < Total(rules) {
          assert rules[..r][1..] == rules[1..][..r - 1] && rules[..r + 1][1..] == rules[1..][..r];
        }
      }
    }
  }

  // ---- the loop over one server's domains ----

  /** Where the loop stands before domain d: the rule it is at, and how far into it. */
  predicate At(rules: seq<OriginalRule>, d: nat, curr: nat, iter: nat) {
    && (curr < |rules| ==> iter < Width(rules[curr]) && d == Total(rules[..curr]) + iter)
    && (curr >= |rules| ==> iter == 0 && d == Total(rules) + (curr - |rules|))
  }

  lemma AtDecides(rules: seq<OriginalRule>, d: nat, curr: nat, iter: nat)
    requires At(rules, d, curr, iter)
    ensures RuleOf(rules, d) == curr
    ensures curr < |rules| ==> if iter + 1 >= rules[curr].size then At(rules, d + 1, curr + 1, 0)
        else At(rules, d + 1, curr, iter + 1)
    ensures curr >= |rules| ==> At(rules, d + 1, curr + 1, 0)
  {
    if curr < |rules| {
      TotalNext(rules, curr);
      RuleInRange(rules, d, curr);
    } else {
      RangeCovers(rules, d);
    }
    assert rules[..|rules|] == rules;
  }

  lemma {:induction false} TotalNext(rules: seq<OriginalRule>, r: nat)
    requires r < |rules|
    ensures Total(rules[..r + 1]) == Total(rules[..r]) + Width(rules[r])
  {
    if r == 0 {
      assert rules[..1] == [rules[0]] && rules[..0] == [] && rules[..1][1..] == [];
    } else {
      TotalNext(rules[1..], r - 1);
      assert rules[..r + 1][1..] == rules[1..][..r] && rules[..r][1..] == rules[1..][..r - 1];
    }
  }

  lemma {:induction false} RuleInRange(rules: seq<OriginalRule>, d: nat, r: nat)
    requires r < |rules| && Total(rules[..r]) <= d < Total(rules[..r]) + Width(rules[r])
    ensures RuleOf(rules, d) == r
    decreases |rules|
  {
    if r == 0 {
      assert rules[..0] == [];
    } else {
      assert rules[..r][1..] == rules[1..][..r - 1];
      RuleInRange(rules[1..], d - Width(rules[0]), r - 1);
    }
  }

  /** The rule texts a server ends up with: one for each rule touched, the configured text or else the matcher's. */
  predicate RuleTexts(s: Server, n: nat, texts: seq<string>) {
    && n <= |s.domains|
    && |texts| == (if n == 0 then 0 else RuleOf(s.rules, n - 1) + 1)
    && (forall r :: 0 <= r < |texts| && r < |s.rules| ==> texts[r] == s.rules[r].rule)
    && (forall d :: 0 <= d < n && RuleOf(s.rules, d) >= |s.rules| ==>
          RuleOf(s.rules, d) < |texts| && s.domains[d].Some? && texts[RuleOf(s.rules, d)] == s.domains[d].value)
  }

  /** What the domains of one server are stored as. */
  function ServerInfos(s: Server, clientIdx: nat): (r: seq<Info>)
    ensures |r| == |s.domains|
  {
    seq(|s.domains|, d requires 0 <= d => Info(clientIdx % 65536, RuleOf(s.rules, d) % 65536))
  }

  /** The text of the rule domain d belongs to: the configured one, or the matcher's own beyond the last rule. */
  function RuleText(s: Server, d: nat): string
    requires d < |s.domains| && None !in s.domains
  {
    var r := RuleOf(s.rules, d);
    if r < |s.rules| then s.rules[r].rule else assert s.domains[d] in s.domains; s.domains[d].value
  }

  /** How many rules the domains of a server touch. */
  function RuleCount(s: Server): nat {
    if s.domains == [] then 0 else RuleOf(s.rules, |s.domains| - 1) + 1
  }

  /** The rule texts are complete, and every domain's rule is among them. */
  predicate ServerDone(s: Server, texts: seq<string>) {
    RuleTexts(s, |s.domains|, texts) && forall d :: 0 <= d < |s.domains| ==> RuleOf(s.rules, d) < |texts|
  }

  /** One server: the info of each domain and the server's rule texts, or None when a matcher cannot be made. */
  method EstablishServer(s: Server, clientIdx: nat) returns (r: Option<(seq<Info>, seq<string>)>)
    ensures r.None? <==> None in s.domains
    ensures r.Some? ==> r.value.0 == ServerInfos(s, clientIdx) && ServerDone(s, r.value.1)
  {
    hide At, RuleOf, Width, Total, RuleTexts, Reached;
    var infos: seq<Info>, texts: seq<string> := [], [];
    var curr, iter := 0, 0;
    AtStart(s.rules);
    NoTexts(s);
    var d := 0;
    while d < |s.domains|
      invariant 0 <= d <= |s.domains| && |infos| == d && None !in s.domains[..d]
      invariant At(s.rules, d, curr, iter) && RuleTexts(s, d, texts) && Reached(s, d, texts)
      invariant |texts| == if iter > 0 then curr + 1 else curr
      invariant forall e :: 0 <= e < d ==> infos[e] == Info(clientIdx % 65536, RuleOf(s.rules, e) % 65536)
    {
      if s.domains[d].None? {
        return None;
      }
      assert s.domains[..d + 1] == s.domains[..d] + [s.domains[d]];
      AtDecides(s.rules, d, curr, iter);
      AtBound(s.rules, d, curr, iter);
      TextsGrow(s, d, texts, curr, iter);
      var original := curr;
      if curr < |s.rules| {
        if curr >= |texts| {
          texts := texts + [s.rules[curr].rule];
        }
        iter := iter + 1;
        if iter >= s.rules[curr].size {
          iter, curr := 0, curr + 1;
        }
      } else {
        texts := texts + [s.domains[d].value];
        curr := curr + 1;
      }
      infos := infos + [Info(clientIdx % 65536, original % 65536)];
      d := d + 1;
    }
    assert s.domains[..d] == s.domains;
    AllReached(s, texts);
    return Some((infos, texts));
  }

  /** Every domain so far has its rule among the texts. */
  predicate Reached(s: Server, n: nat, texts: seq<string>) {
    forall d :: 0 <= d < n ==> RuleOf(s.rules, d) < |texts|
  }

  lemma NoTexts(s: Server)
    ensures RuleTexts(s, 0, []) && Reached(s, 0, [])
  {
  }

  lemma AllReached(s: Server, texts: seq<string>)
    requires RuleTexts(s, |s.domains|, texts) && Reached(s, |s.domains|, texts)
    ensures ServerDone(s, texts)
  {
  }

  /** The texts after one domain more: a new one when its rule is new, and otherwise the same. */
  lemma TextsGrow(s: Server, d: nat, texts: seq<string>, curr: nat, iter: nat)
    requires d < |s.domains| && s.domains[d].Some? && RuleOf(s.rules, d) == curr
    requires RuleTexts(s, d, texts) && Reached(s, d, texts)
    requires |texts| == (if iter > 0 then curr + 1 else curr) && (curr >= |s.rules| ==> iter == 0)
    ensures var texts' := if curr >= |s.rules| then texts + [s.domains[d].value]
                          else if curr >= |texts| then texts + [s.rules[curr].rule] else texts;
            RuleTexts(s, d + 1, texts') && Reached(s, d + 1, texts')
  {
    hide RuleOf;
  }

  lemma AtStart(rules: seq<OriginalRule>)
    ensures At(rules, 0, 0, 0)
  {
    assert rules[..0] == [];
  }

  lemma AtBound(rules: seq<OriginalRule>, d: nat, curr: nat, iter: nat)
    requires At(rules, d, curr, iter)
    ensures curr >= |rules| ==> iter == 0
  {
  }

  // ---- all servers ----

  /** The infos of all servers, in order; matcher indices start at one. */
  function AllInfos(servers: seq<Server>, firstClient: nat): seq<Info>
    decreases |servers|
  {
    if servers == [] then []
    else
      var n := |servers| - 1;
      AllInfos(servers[..n], firstClient) + ServerInfos(servers[n], firstClient + n)
  }

  predicate AllMatch(servers: seq<Server>) {
    forall i :: 0 <= i < |servers| ==> None !in servers[i].domains
  }

  /** establishDomainRules: the table of infos behind matcher indices 1, 2, ..., and every server's rule texts. */
  method EstablishDomainRules(servers: seq<Server>, firstClient: nat) returns (r: Option<(seq<Info>, seq<seq<string>>)>)
    ensures r.None? <==> !AllMatch(servers)
    ensures r.Some? ==>
      && r.value.0 == [Info(0, 0)] + AllInfos(servers, firstClient)
      && |r.value.1| == |servers| && forall i :: 0 <= i < |servers| ==> ServerDone(servers[i], r.value.1[i])
  {
    hide ServerDone, ServerInfos;
    var infos: seq<Info>, texts: seq<seq<string>> := [Info(0, 0)], [];
    var i := 0;
    assert servers[..0] == [];
    while i < |servers|
      invariant 0 <= i <= |servers| && |texts| == i
      invariant AllMatch(servers[..i]) && infos == [Info(0, 0)] + AllInfos(servers[..i], firstClient)
      invariant forall j :: 0 <= j < i ==> ServerDone(servers[j], texts[j])
    {
      assert servers[..i + 1][..i] == servers[..i] && servers[..i + 1][i] == servers[i];
      var one := EstablishServer(servers[i], firstClient + i);
      if one.None? {
        return None;
      }
      infos, texts := infos + one.value.0, texts + [one.value.1];
      i := i + 1;
    }
    assert servers[..i] == servers;
    return Some((infos, texts));
  }

  /** Matchers added before those of server i. */
  function Before(servers: seq<Server>, i: nat): nat
    requires i <= |servers|
  {
    if i == 0 then 0 else Before(servers, i - 1) + |servers[i - 1].domains|
  }

  lemma {:induction false} InfoAt(servers: seq<Server>, firstClient: nat, i: nat, d: nat)
    requires i < |servers| && d < |servers[i].domains|
    ensures var infos := AllInfos(servers, firstClient);
            && |infos| == Before(servers, |servers|) && Before(servers, i) + d < |infos|
            && infos[Before(servers, i) + d] == ServerInfos(servers[i], firstClient + i)[d]
    decreases |servers|
  {
    hide ServerInfos;
    var n := |servers| - 1;
    AllInfosSize(servers, firstClient);
    AllInfosSize(servers[..n], firstClient);
    BeforePrefix(servers, n, n);
    BeforePrefix(servers, n, Min(i, n));
    if i < n {
      hide Before;
      InfoAt(servers[..n], firstClient, i, d);
    }
  }

  lemma {:induction false} AllInfosSize(servers: seq<Server>, firstClient: nat)
    ensures |AllInfos(servers, firstClient)| == Before(servers, |servers|)
    decreases |servers|
  {
    if servers != [] {
      var n := |servers| - 1;
      AllInfosSize(servers[..n], firstClient);
      BeforePrefix(servers, n, n);
    }
  }

  lemma {:induction false} BeforePrefix(servers: seq<Server>, n: nat, i: nat)
    requires i <= n <= |servers|
    ensures Before(servers[..n], i) == Before(servers, i)
    decreases i
  {
    if i > 0 { BeforePrefix(servers, n, i - 1); }
  }

  /**
   * With fewer than 65536 clients and rules, the index the matcher assigned to domain d of server i leads to
   * that server's client and to the text of that domain's rule: nothing is truncated, nothing out of bounds.
   */
  lemma StoredIndexesExact(servers: seq<Server>, firstClient: nat, texts: seq<seq<string>>, i: nat, d: nat)
    requires AllMatch(servers) && |texts| == |servers|
    requires forall j :: 0 <= j < |servers| ==> ServerDone(servers[j], texts[j])
    requires firstClient + |servers| < 65536 && i < |servers| && RuleCount(servers[i]) < 65536
    requires d < |servers[i].domains|
    ensures var infos := [Info(0, 0)] + AllInfos(servers, firstClient); var midx := 1 + Before(servers, i) + d;
            && midx < |infos| && infos[midx].clientIdx == firstClient + i
            && infos[midx].ruleIdx == RuleOf(servers[i].rules, d) < |texts[i]|
            && texts[i][infos[midx].ruleIdx] == RuleText(servers[i], d)
  {
    hide RuleOf, ServerDone, ServerInfos, AllInfos, Before, RuleText, RuleCount;
    InfoAt(servers, firstClient, i, d);
    assert None !in servers[i].domains;
    OneServer(servers[i], firstClient + i, texts[i], d);
  }

  lemma OneServer(s: Server, clientIdx: nat, texts: seq<string>, d: nat)
    requires ServerDone(s, texts) && d < |s.domains| && None !in s.domains
    ensures ServerInfos(s, clientIdx)[d] == Info(clientIdx % 65536, RuleOf(s.rules, d) % 65536)
    ensures RuleOf(s.rules, d) < |texts| == RuleCount(s) && texts[RuleOf(s.rules, d)] == RuleText(s, d)
  {
    hide RuleOf;
  }

  /** Which domain of which server the j-th matcher stands for. */
  function Locate(servers: seq<Server>, j: nat): (r: (nat, nat))
    requires j < Before(servers, |servers|)
    ensures r.0 < |servers| && r.1 < |servers[r.0].domains| && j == Before(servers, r.0) + r.1
    decreases |servers|
  {
    var n := |servers| - 1;
    BeforePrefix(servers, n, n);
    if j >= Before(servers, n) then (n, j - Before(servers, n))
    else
      var r := Locate(servers[..n], j);
      BeforePrefix(servers, n, r.0);
      r
  }

  // ---- client order ----

  datatype Fallback = Enabled | Disabled | DisabledIfAnyMatch
  datatype Client = Client(fake: bool, fallback: Fallback)

  predicate Eligible(c: Client, fakeEnable: bool) {
    fakeEnable || !c.fake
  }

  /** The clients that matches lead to, without those that may not be asked. */
  function MatchedClients(clients: seq<Client>, hits: seq<nat>, fakeEnable: bool): seq<nat>
    requires forall i :: 0 <= i < |hits| ==> hits[i] < |clients|
    decreases |hits|
  {
    if hits == [] then []
    else
      var rest := MatchedClients(clients, hits[..|hits| - 1], fakeEnable);
      var c := hits[|hits| - 1];
      if Eligible(clients[c], fakeEnable) then rest + [c] else rest
  }

  /** Whether a client that did not match is asked after those that did. */
  predicate FallsBack(clients: seq<Client>, matched: seq<nat>, fakeEnable: bool, c: nat)
    requires c < |clients|
  {
    && c !in matched && Eligible(clients[c], fakeEnable)
    && !clients[c].fallback.Disabled? && !(clients[c].fallback.DisabledIfAnyMatch? && matched != [])
  }

  function Fallbacks(clients: seq<Client>, matched: seq<nat>, fakeEnable: bool, n: nat): (r: seq<nat>)
    requires n <= |clients|
    ensures forall x: nat :: x in r <==> x < n && FallsBack(clients, matched, fakeEnable, x)
    ensures forall i, j :: 0 <= i < j < |r| ==> r[i] < r[j]
  {
    if n == 0 then []
    else
      var r := Fallbacks(clients, matched, fakeEnable, n - 1);
      assert forall i :: 0 <= i < |r| ==> r[i] in r;
      if FallsBack(clients, matched, fakeEnable, n - 1) then r + [n - 1] else r
  }

  function Hits(infos: seq<Info>, matches: seq<nat>): (r: seq<nat>)
    requires forall i :: 0 <= i < |matches| ==> matches[i] < |infos|
    ensures |r| == |matches|
  {
    seq(|matches|, i requires 0 <= i < |matches| => infos[matches[i]].clientIdx)
  }

  /** The matches can be followed: into the table, to a client, and to a rule text of that client. */
  predicate Follows(clients: seq<Client>, domains: seq<seq<string>>, infos: seq<Info>, matches: seq<nat>) {
    && |domains| == |clients|
    && forall i :: 0 <= i < |matches| ==>
         && matches[i] < |infos| && infos[matches[i]].clientIdx < |clients|
         && infos[matches[i]].ruleIdx < |domains[infos[matches[i]].clientIdx]|
  }

  /** The rule texts of the matches, in match order. */
  function MatchedRules(clients: seq<Client>, domains: seq<seq<string>>, infos: seq<Info>,
      matches: seq<nat>): (r: seq<string>)
    requires Follows(clients, domains, infos, matches)
    ensures |r| == |matches|
  {
    seq(|matches|, i requires 0 <= i < |matches| =>
      domains[infos[matches[i]].clientIdx][infos[matches[i]].ruleIdx])
  }

  /**
   * sortClients: first the distinct eligible clients of the matches, in match order, then the eligible others
   * that may serve as fallbacks, in configuration order; and the rule texts of all matches.
   */
  method SortClients(clients: seq<Client>, domains: seq<seq<string>>, infos: seq<Info>, matches: seq<nat>,
      fakeEnable: bool)
    returns (r: seq<nat>, rules: seq<string>)
    requires Follows(clients, domains, infos, matches)
    ensures rules == MatchedRules(clients, domains, infos, matches)
    ensures var matched := Dedup(MatchedClients(clients, Hits(infos, matches), fakeEnable));
            r == matched + Fallbacks(clients, matched, fakeEnable, |clients|)
  {
    hide Dedup, MatchedClients, Hits;
    var matched, used;
    matched, used, rules := MatchLoop(clients, domains, infos, matches, fakeEnable);
    var back := FallbackLoop(clients, matched, used, fakeEnable);
    r := matched + back;
  }

  /** The second loop of sortClients. */
  method FallbackLoop(clients: seq<Client>, matched: seq<nat>, marked: set<nat>, fakeEnable: bool) returns (r: seq<nat>)
    requires forall x: nat :: x in marked <==> x in matched
    ensures r == Fallbacks(clients, matched, fakeEnable, |clients|)
  {
    var used := marked;
    r := [];
    var c := 0;
    while c < |clients|
      invariant 0 <= c <= |clients| && r == Fallbacks(clients, matched, fakeEnable, c)
      invariant forall x: nat :: x >= c ==> (x in used <==> x in matched)
    {
      if c in used || !Eligible(clients[c], fakeEnable) || clients[c].fallback.Disabled?
        || (clients[c].fallback.DisabledIfAnyMatch? && |matched| > 0) {
        assert !FallsBack(clients, matched, fakeEnable, c);
      } else {
        used, r := used + {c}, r + [c];
      }
      c := c + 1;
    }
  }

  /** The first loop of sortClients: `used` marks the clients taken. */
  method MatchLoop(clients: seq<Client>, domains: seq<seq<string>>, infos: seq<Info>, matches: seq<nat>,
      fakeEnable: bool)
    returns (r: seq<nat>, used: set<nat>, rules: seq<string>)
    requires Follows(clients, domains, infos, matches)
    ensures rules == MatchedRules(clients, domains, infos, matches)
    ensures r == Dedup(MatchedClients(clients, Hits(infos, matches), fakeEnable))
    ensures forall x: nat :: x in used <==> x in r
  {
    hide Dedup, MatchedClients;
    ghost var hits := Hits(infos, matches);
    NoHits(clients, fakeEnable);
    r, used, rules := [], {}, [];
    var i := 0;
    assert hits[..0] == [];
    while i < |matches|
      invariant 0 <= i <= |matches| && (forall x: nat :: x in used <==> x in r)
      invariant r == Dedup<nat>(MatchedClients(clients, hits[..i], fakeEnable))
      invariant rules == MatchedRules(clients, domains, infos, matches)[..i]
    {
      var c: nat := infos[matches[i]].clientIdx;
      rules := rules + [domains[c][infos[matches[i]].ruleIdx]];
      assert hits[..i + 1] == hits[..i] + [c];
      MatchedSnoc(clients, hits[..i], c, fakeEnable);
      DedupSnoc<nat>(MatchedClients(clients, hits[..i], fakeEnable), c);
      if c !in used && Eligible(clients[c], fakeEnable) {
        used, r := used + {c}, r + [c];
      }
      i := i + 1;
    }
    assert hits[..i] == hits;
  }

  lemma NoHits(clients: seq<Client>, fakeEnable: bool)
    ensures Dedup<nat>(MatchedClients(clients, [], fakeEnable)) == []
  {
  }

  lemma MatchedSnoc(clients: seq<Client>, hits: seq<nat>, c: nat, fakeEnable: bool)
    requires (forall i :: 0 <= i < |hits| ==> hits[i] < |clients|) && c < |clients|
    ensures var m := MatchedClients(clients, hits, fakeEnable);
            MatchedClients(clients, hits + [c], fakeEnable) == if Eligible(clients[c], fakeEnable) then m + [c] else m
  {
    assert (hits + [c])[..|hits|] == hits;
  }

  /** The order lists each client at most once, and lists exactly the eligible ones that matched or may fall back. */
  lemma OrderIsExact(clients: seq<Client>, hits: seq<nat>, fakeEnable: bool)
    requires forall i :: 0 <= i < |hits| ==> hits[i] < |clients|
    ensures var matched := Dedup(MatchedClients(clients, hits, fakeEnable));
            var order := matched + Fallbacks(clients, matched, fakeEnable, |clients|);
            && NoDup(order)
            && forall x: nat :: x in order <==>
                 && x < |clients| && (fakeEnable || !clients[x].fake)
                 && (x in hits || (!clients[x].fallback.Disabled?
                     && !(clients[x].fallback.DisabledIfAnyMatch? && matched != [])))
  {
    var m := MatchedClients(clients, hits, fakeEnable);
    MatchedExact(clients, hits, fakeEnable);
    DedupExact(m);
    var matched := Dedup(m);
    var back := Fallbacks(clients, matched, fakeEnable, |clients|);
    var order := matched + back;
    forall i, j | 0 <= i < j < |order| ensures order[i] != order[j] {
      if i < |matched| <= j { assert order[j] in back && order[i] in matched; }
    }
  }

  lemma {:induction false} MatchedExact(clients: seq<Client>, hits: seq<nat>, fakeEnable: bool)
    requires forall i :: 0 <= i < |hits| ==> hits[i] < |clients|
    ensures forall x :: x in MatchedClients(clients, hits, fakeEnable) <==>
        x in hits && Eligible(clients[x], fakeEnable)
    decreases |hits|
  {
    if hits != [] {
      MatchedExact(clients, hits[..|hits| - 1], fakeEnable);
      assert hits == hits[..|hits| - 1] + [hits[|hits| - 1]];
    }
  }

  // ---- a lookup through the table ----

  /** The clients that the matched domains belong to. */
  function Owners(servers: seq<Server>, firstClient: nat, matches: seq<nat>): (r: seq<nat>)
    requires forall k :: 0 <= k < |matches| ==> 1 <= matches[k] <= Before(servers, |servers|)
    ensures |r| == |matches|
    ensures forall k :: 0 <= k < |r| ==>
        r[k] == firstClient + Locate(servers, matches[k] - 1).0 < firstClient + |servers|
  {
    seq(|matches|, k requires 0 <= k < |matches| => firstClient + Locate(servers, matches[k] - 1).0)
  }

  /** Legacy clients come first and have no rule texts. */
  function ClientTexts(firstClient: nat, texts: seq<seq<string>>): (r: seq<seq<string>>)
    ensures |r| == firstClient + |texts| && forall i :: 0 <= i < |texts| ==> r[firstClient + i] == texts[i]
  {
    seq(firstClient, _ => []) + texts
  }

  /**
   * Establishing the rules and looking a domain up: whatever patterns match, no index is out of bounds, the
   * matched clients are those the patterns were configured for, and each match is reported with its own rule.
   */
  method EstablishAndSort(servers: seq<Server>, clients: seq<Client>, firstClient: nat, matches: seq<nat>,
      fakeEnable: bool)
    returns (r: Option<(seq<nat>, seq<string>)>)
    requires |clients| == firstClient + |servers| < 65536
    requires forall i :: 0 <= i < |servers| ==> RuleCount(servers[i]) < 65536
    requires forall k :: 0 <= k < |matches| ==> 1 <= matches[k] <= Before(servers, |servers|)
    ensures r.None? <==> !AllMatch(servers)
    ensures r.Some? ==>
      var matched := Dedup(MatchedClients(clients, Owners(servers, firstClient, matches), fakeEnable));
      r.value.0 == matched + Fallbacks(clients, matched, fakeEnable, |clients|)
    ensures r.Some? ==> |r.value.1| == |matches| && forall k :: 0 <= k < |matches| ==>
      var (i, d) := Locate(servers, matches[k] - 1);
      r.value.1[k] == RuleText(servers[i], d)
  {
    hide Dedup, MatchedClients, Fallbacks, ServerDone, RuleCount, AllInfos, Before, RuleText, RuleOf, Follows, Hits,
        Owners,
      MatchedRules, Locate;
    var table := EstablishDomainRules(servers, firstClient);
    if table.None? {
      return None;
    }
    var (infos, texts) := table.value;
    var domains := ClientTexts(firstClient, texts);
    forall k | 0 <= k < |matches|
      ensures LeadsTo(servers, firstClient, infos, domains, matches[k])
    {
      var (i, d) := Locate(servers, matches[k] - 1);
      StoredIndexesExact(servers, firstClient, texts, i, d);
    }
    FollowsAll(servers, clients, firstClient, infos, domains, matches);
    HitsAreOwners(servers, firstClient, infos, domains, matches);
    var order, rules := SortClients(clients, domains, infos, matches, fakeEnable);
    forall k | 0 <= k < |matches|
      ensures var (i, d) := Locate(servers, matches[k] - 1); rules[k] == RuleText(servers[i], d)
    {
      RuleOfMatch(servers, clients, firstClient, infos, domains, matches, k);
    }
    return Some((order, rules));
  }

  /** Every match leads somewhere. */
  predicate AllLead(servers: seq<Server>, firstClient: nat, infos: seq<Info>, domains: seq<seq<string>>,
      matches: seq<nat>)
  {
    && AllMatch(servers) && |domains| == firstClient + |servers|
    && forall k :: 0 <= k < |matches| ==>
         1 <= matches[k] <= Before(servers, |servers|) && LeadsTo(servers, firstClient, infos, domains, matches[k])
  }

  lemma FollowsAll(servers: seq<Server>, clients: seq<Client>, firstClient: nat, infos: seq<Info>,
                   domains: seq<seq<string>>, matches: seq<nat>)
    requires AllLead(servers, firstClient, infos, domains, matches) && |clients| == |domains|
    ensures Follows(clients, domains, infos, matches)
  {
    hide RuleText, RuleOf, Before, Locate, LeadsTo, AllMatch;
    forall k | 0 <= k < |matches|
      ensures matches[k] < |infos| && infos[matches[k]].clientIdx < |clients|
      ensures infos[matches[k]].ruleIdx < |domains[infos[matches[k]].clientIdx]|
    {
      Leads(servers, firstClient, infos, domains, matches[k]);
    }
  }

  lemma HitsAreOwners(servers: seq<Server>, firstClient: nat, infos: seq<Info>, domains: seq<seq<string>>,
      matches: seq<nat>)
    requires AllLead(servers, firstClient, infos, domains, matches)
    ensures forall k :: 0 <= k < |matches| ==> matches[k] < |infos|
    ensures Hits(infos, matches) == Owners(servers, firstClient, matches)
  {
    hide RuleText, RuleOf, Before, Locate, LeadsTo, AllMatch, Hits, Owners;
    var owners := Owners(servers, firstClient, matches);
    forall k | 0 <= k < |matches| ensures matches[k] < |infos| && infos[matches[k]].clientIdx == owners[k] {
      Leads(servers, firstClient, infos, domains, matches[k]);
    }
    HitsAre(infos, matches, owners);
  }

  lemma RuleOfMatch(servers: seq<Server>, clients: seq<Client>, firstClient: nat, infos: seq<Info>,
                    domains: seq<seq<string>>, matches: seq<nat>, k: nat)
    requires AllLead(servers, firstClient, infos, domains, matches) && Follows(clients, domains, infos, matches)
    requires k < |matches|
    ensures var (i, d) := Locate(servers, matches[k] - 1);
            MatchedRules(clients, domains, infos, matches)[k] == RuleText(servers[i], d)
  {
    hide RuleText, RuleOf, Before, Locate, LeadsTo, AllMatch, MatchedRules;
    Leads(servers, firstClient, infos, domains, matches[k]);
    MatchedRuleAt(clients, domains, infos, matches, k);
  }

  lemma Leads(servers: seq<Server>, firstClient: nat, infos: seq<Info>, domains: seq<seq<string>>, midx: nat)
    requires AllMatch(servers) && 1 <= midx <= Before(servers, |servers|)
    requires LeadsTo(servers, firstClient, infos, domains, midx)
    ensures var (i, d) := Locate(servers, midx - 1);
            && midx < |infos| && infos[midx].clientIdx == firstClient + i < |domains|
            && infos[midx].ruleIdx < |domains[firstClient + i]| && i < |servers| && d < |servers[i].domains|
            && domains[firstClient + i][infos[midx].ruleIdx] == RuleText(servers[i], d)
  {
    hide RuleText, RuleOf, Before, Locate;
  }

  lemma HitsAre(infos: seq<Info>, matches: seq<nat>, owners: seq<nat>)
    requires |owners| == |matches|
    requires forall k :: 0 <= k < |matches| ==> matches[k] < |infos| && infos[matches[k]].clientIdx == owners[k]
    ensures Hits(infos, matches) == owners
  {
  }

  lemma MatchedRuleAt(clients: seq<Client>, domains: seq<seq<string>>, infos: seq<Info>, matches: seq<nat>, k: nat)
    requires Follows(clients, domains, infos, matches) && k < |matches|
    ensures var info := infos[matches[k]];
            MatchedRules(clients, domains, infos, matches)[k] == domains[info.clientIdx][info.ruleIdx]
  {
  }

  /** A matcher index leads through the table to the client and the rule of the domain it was given for. */
  predicate LeadsTo(servers: seq<Server>, firstClient: nat, infos: seq<Info>, domains: seq<seq<string>>, midx: nat)
    requires AllMatch(servers) && 1 <= midx <= Before(servers, |servers|)
  {
    var (i, d) := Locate(servers, midx - 1);
    && midx < |infos| && infos[midx].clientIdx == firstClient + i < |domains|
    && infos[midx].ruleIdx < |domains[firstClient + i]|
    && domains[firstClient + i][infos[midx].ruleIdx] == RuleText(servers[i], d)
  }

  /** Matched clients come in the order in which the matches first lead to them. */
  lemma MatchedInOrder(clients: seq<Client>, hits: seq<nat>, fakeEnable: bool, i: nat, j: nat)
    requires forall k :: 0 <= k < |hits| ==> hits[k] < |clients|
    requires i < j < |Dedup(MatchedClients(clients, hits, fakeEnable))|
    ensures var matched := Dedup(MatchedClients(clients, hits, fakeEnable)); First(hits, matched[i]) < First(hits,
        matched[j])
  {
    hide Dedup, First;
    var m := MatchedClients(clients, hits, fakeEnable);
    var matched := Dedup(m);
    DedupInOrder(m);
    DedupExact(m);
    assert matched[i] in matched && matched[j] in matched;
    FilterKeepsOrder(clients, hits, fakeEnable, matched[i], matched[j]);
  }

  lemma {:induction false} FilterKeepsOrder(clients: seq<Client>, hits: seq<nat>, fakeEnable: bool, x: nat, y: nat)
    requires forall k :: 0 <= k < |hits| ==> hits[k] < |clients|
    requires var m := MatchedClients(clients, hits, fakeEnable); x in m && y in m && First(m, x) < First(m, y)
    ensures First(hits, x) < First(hits, y)
    decreases |hits|
  {
    var n := |hits| - 1;
    var init, c := hits[..n], hits[n];
    var m := MatchedClients(clients, init, fakeEnable);
    hide First;
    assert hits == init + [c];
    FirstOfAppend(init, c, x);
    FirstOfAppend(init, c, y);
    FirstOfAppend(m, c, x);
    FirstOfAppend(m, c, y);
    MatchedExact(clients, init, fakeEnable);
    if x in m && y in m {
      FilterKeepsOrder(clients, init, fakeEnable, x, y);
    }
  }
}
