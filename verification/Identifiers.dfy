/**
 The three identifiers an agent is published under (a handle, a did:web, an AIR URN) and the one parser of
 sm_bridge/router.py that reduces them to a local id. `lower()` is modelled on ASCII letters.
 */
module Identifiers {
  import opened Wrappers
  import opened Separators

  // ----- Python string helpers ------------------------------------------------------------

  function LowerChar(c: char): char
  {
    if 'A' <= c <= 'Z' then (c as int + 32) as char else c
  }

  function Lower(s: string): (t: string)
    ensures |t| == |s| && forall i :: 0 <= i < |s| ==> t[i] == LowerChar(s[i])
  {
    seq(|s|, i requires 0 <= i < |s| => LowerChar(s[i]))
  }

  /** `s.replace(pat, "")`. */
  function RemoveAll(s: string, pat: string): string
    requires pat != []
  {
    if s == [] then []
    else if pat <= s then RemoveAll(s[|pat|..], pat)
    else [s[0]] + RemoveAll(s[1..], pat)
  }

  /** What follows the first "://", if there is one. */
  function SchemeSplit(url: string): Option<string>
  {
    if url == [] then None else if "://" <= url then Some(url[3..]) else SchemeSplit(url[1..])
  }

  /** `url.split("://", 1)[-1]`. */
  function AfterScheme(url: string): string
  {
    match SchemeSplit(url)
    case None => url
    case Some(rest) => rest
  }

  function RStripSlash(s: string): string
  {
    if s != [] && s[|s| - 1] == '/' then RStripSlash(s[..|s| - 1]) else s
  }

  // ----- encoders -------------------------------------------------------------------------

  function CreateHandle(registry: string, ns: string, agentId: string): string
  {
    "@" + registry + ":" + ns + "/" + agentId
  }

  function Domain(providerUrl: string): string
  {
    RemoveAll(RemoveAll(providerUrl, "https://"), "http://")
  }

  function BuildDid(didMethod: string, providerUrl: string, ns: string, agentId: string): string
  {
    "did:" + didMethod + ":" + Domain(providerUrl) + ":agents:" + ns + ":" + agentId
  }

  function AirUrn(domain: string, slug: string): string
  {
    "urn:air:" + Lower(domain) + ":agent:" + slug
  }

  // ----- parser ---------------------------------------------------------------------------

  function DidAuthority(providerUrl: string): string
  {
    RStripSlash(AfterScheme(providerUrl))
  }

  function PublisherFqdn(providerUrl: string): string
  {
    Lower(BeforeFirst(BeforeFirst(AfterScheme(providerUrl), '/'), ':'))
  }

  function OrNone(s: string): Option<string>
  {
    if s == [] then None else Some(s)
  }

  function ParseHandle(body: string, registryId: string): Option<string>
  {
    if '/' in body then
      if BeforeFirst(BeforeFirst(body, '/'), ':') != registryId then None else OrNone(AfterFirst(body, '/'))
    else OrNone(body)
  }

  function ParseDid(value: string, providerUrl: string): Option<string>
  {
    var localPrefix := "did:web:" + DidAuthority(providerUrl) + ":";
    if localPrefix <= value then OrNone(AfterLast(value[|localPrefix|..], ':')) else None
  }

  function ParseAirUrn(rest: string, providerUrl: string): Option<string>
  {
    var (domain, path) := (BeforeFirst(rest, ':'), AfterFirst(rest, ':'));
    if Lower(domain) != PublisherFqdn(providerUrl) then None
    else if ':' !in path then None
    else OrNone(AfterLast(path, ':'))
  }

  function ParseAgentIdentifier(value: string, registryId: string, providerUrl: string): Option<string>
  {
    if value == [] then None
    else if "@" <= value then ParseHandle(value[1..], registryId)
    else if "did:" <= value then ParseDid(value, providerUrl)
    else if "urn:air:" <= Lower(value) then ParseAirUrn(value[8..], providerUrl)
    else if "urn:" <= Lower(value) then None
    else Some(value)
  }

  // ----- one parser inverts three encoders ------------------------------------------------

  /** No separator of any of the three forms. */
  predicate Plain(s: string)
  {
    ':' !in s && '/' !in s
  }

  function HttpsUrl(host: string): string
  {
    "https://" + host
  }

  /** No "://" inside. */
  predicate NoScheme(host: string)
  {
    SchemeSplit(host).None?
  }

  lemma HttpsHost(host: string)
    requires NoScheme(host)
    ensures Domain(HttpsUrl(host)) == host
  {
    var url := HttpsUrl(host);
    assert "https://" <= url && url[8..] == host;
    NothingRemoved(host, "https://");
    NothingRemoved(host, "http://");
  }

  lemma SchemeStripped(host: string)
    ensures AfterScheme(HttpsUrl(host)) == host
  {
    hide SchemeSplit;
    var rest := "://" + host;
    SplitHere(host);
    SplitLater('s', rest);
    SplitLater('p', ['s'] + rest);
    SplitLater('t', ['p'] + (['s'] + rest));
    SplitLater('t', ['t'] + (['p'] + (['s'] + rest)));
    SplitLater('h', ['t'] + (['t'] + (['p'] + (['s'] + rest))));
    assert ['h'] + (['t'] + (['t'] + (['p'] + (['s'] + rest)))) == HttpsUrl(host);
  }

  lemma SplitHere(host: string)
    ensures SchemeSplit("://" + host) == Some(host)
  {
    assert ("://" + host)[3..] == host;
  }

  lemma SplitLater(c: char, url: string)
    requires c != ':'
    ensures SchemeSplit([c] + url) == SchemeSplit(url)
  {
    assert ([c] + url)[1..] == url && ([c] + url)[0] == c;
  }

  lemma {:induction false} SchemeAt(s: string, k: nat)
    requires k <= |s| && "://" <= s[k..]
    ensures SchemeSplit(s).Some?
  {
    if k > 0 {
      assert s[1..][k - 1..] == s[k..];
      SchemeAt(s[1..], k - 1);
    }
  }

  lemma NotPrefix(s: string)
    requires NoScheme(s)
    ensures !("https://" <= s) && !("http://" <= s)
  {
    if "https://" <= s {
      assert s[5] == ':' && s[6] == '/' && s[7] == '/';
      SchemeAt(s, 5);
    }
    if "http://" <= s {
      assert s[4] == ':' && s[5] == '/' && s[6] == '/';
      SchemeAt(s, 4);
    }
  }

  lemma {:induction false} NothingRemoved(s: string, pat: string)
    requires NoScheme(s) && (pat == "https://" || pat == "http://")
    ensures RemoveAll(s, pat) == s
  {
    if s != [] {
      NotPrefix(s);
      NothingRemoved(s[1..], pat);
    }
  }

  lemma {:induction false} NoSlashNoScheme(s: string)
    requires '/' !in s
    ensures NoScheme(s)
  {
    if s != [] {
      assert |s| > 1 ==> s[1] in s;
      NoSlashNoScheme(s[1..]);
    }
  }

  // ----- handles --------------------------------------------------------------------------

  lemma {:induction false} FirstPart(s: string, c: char, t: string)
    ensures BeforeFirst(s + [c] + t, c) == BeforeFirst(s, c)
    ensures AfterFirst(s + [c] + t, c) == if c in s then AfterFirst(s, c) + [c] + t else t
  {
    var all := s + [c] + t;
    if s != [] {
      assert all[0] == s[0] && all[1..] == s[1..] + [c] + t;
      FirstPart(s[1..], c, t);
    }
  }

  /** What follows the first '/' of a handle. */
  function AfterSlash(registry: string, ns: string, agentId: string): string
  {
    if '/' in registry then AfterFirst(registry, '/') + [':'] + ns + ['/'] + agentId
    else if '/' in ns then AfterFirst(ns, '/') + ['/'] + agentId
    else agentId
  }

  // ----- every form of identifier ---------------------------------------------------------

  /** Anything that is no handle, DID or URN is a local id and returned whole, colons and all. */
  lemma LocalId(value: string, registryId: string, providerUrl: string)
    requires value != "" && value[0] != '@' && !("did:" <= value) && !("urn:" <= Lower(value))
    ensures ParseAgentIdentifier(value, registryId, providerUrl) == Some(value)
  {
    StartsWithAt(value);
    AirIsUrn(value);
  }

  lemma StartsWithAt(value: string)
    ensures "@" <= value <==> value != "" && value[0] == '@'
  {
  }

  lemma AirIsUrn(value: string)
    ensures "urn:air:" <= Lower(value) ==> "urn:" <= Lower(value)
  {
    assert "urn:air:"[..4] == "urn:";
    assert |value| >= 8 ==> Lower(value)[..8][..4] == Lower(value)[..4];
  }

  lemma NothingToParse(registryId: string, providerUrl: string)
    ensures ParseAgentIdentifier("", registryId, providerUrl) == None
  {
  }

  /** A handle names an agent, or a scope and an agent. A scope has to start with the own registry id, up to a
      colon; without one the name is taken as it is. */
  lemma {:induction false} AnyHandle(scope: string, agent: string, registryId: string, providerUrl: string)
    ensures '/' !in agent ==> ParseAgentIdentifier("@" + agent, registryId, providerUrl)
                              == if agent == "" then None else Some(agent)
    ensures '/' !in scope ==> ParseAgentIdentifier("@" + scope + "/" + agent, registryId, providerUrl)
                              == if BeforeFirst(scope, ':') != registryId || agent == "" then None else Some(agent)
  {
    hide BeforeFirst, AfterFirst;
    assert ("@" + agent)[1..] == agent;
    if '/' !in scope {
      var body := scope + ['/'] + agent;
      assert "@" + scope + "/" + agent == "@" + body && ("@" + body)[1..] == body && body[|scope|] == '/';
      PartitionOf(scope, '/', agent);
      ParsedHandle(body, registryId);
    }
  }

  /** A DID is read where it is a did:web under the own authority, as what follows its last colon, and refused
      everywhere else. */
  lemma AnyDid(value: string, registryId: string, here: string)
    requires "did:" <= value
    ensures var own := "did:web:" + RStripSlash(here) + ":";
            ParseAgentIdentifier(value, registryId, HttpsUrl(here))
            == if own <= value then OrNone(AfterLast(value[|own|..], ':')) else None
  {
    hide RStripSlash, AfterLast, AfterScheme;
    SchemeStripped(here);
    assert value[0] == "did:"[0];
  }

  /** Every URN but an AIR URN names another authority. */
  lemma ForeignUrn(value: string, registryId: string, providerUrl: string)
    requires "urn:" <= Lower(value) && !("urn:air:" <= Lower(value))
    ensures ParseAgentIdentifier(value, registryId, providerUrl) == None
  {
    UrnStart(value);
  }

  lemma UrnStart(value: string)
    requires "urn:" <= Lower(value)
    ensures value != "" && !("@" <= value) && !("did:" <= value)
  {
    assert Lower(value)[0] == "urn:"[0] == 'u';
    assert LowerChar(value[0]) == 'u' && value[0] != '@' && value[0] != 'd';
  }

  /** An AIR URN, its prefix in any case, needs the own domain, a namespace and a name. */
  lemma {:induction false} AnyAirUrn(prefix: string, domain: string, ns: string, name: string, registryId: string, providerUrl: string)
    requires Lower(prefix) == "urn:air:" && ':' !in domain && ':' !in name
    ensures ParseAgentIdentifier(prefix + domain, registryId, providerUrl) == None
    ensures ParseAgentIdentifier(prefix + (domain + ":" + name), registryId, providerUrl) == None
    ensures ParseAgentIdentifier(prefix + (domain + ":" + (ns + ":" + name)), registryId, providerUrl)
         == if Lower(domain) != PublisherFqdn(providerUrl) || name == "" then None else Some(name)
  {
    hide BeforeFirst, AfterFirst, AfterLast, PublisherFqdn, ParseAirUrn;
    AirRouted(prefix, domain, registryId, providerUrl);
    AirRouted(prefix, domain + ":" + name, registryId, providerUrl);
    AirRouted(prefix, domain + ":" + (ns + ":" + name), registryId, providerUrl);
    AirParts(domain, ns, name, providerUrl);
  }

  lemma {:induction false} AirRouted(prefix: string, rest: string, registryId: string, providerUrl: string)
    requires Lower(prefix) == "urn:air:"
    ensures ParseAgentIdentifier(prefix + rest, registryId, providerUrl) == ParseAirUrn(rest, providerUrl)
  {
    hide ParseAirUrn, ParseHandle, ParseDid;
    var value := prefix + rest;
    assert Lower(value)[..8] == Lower(prefix) && value[8..] == rest;
    assert "urn:air:"[..4] == "urn:" && Lower(value)[..8][..4] == Lower(value)[..4];
    UrnStart(value);
  }

  lemma {:induction false} AirParts(domain: string, ns: string, name: string, providerUrl: string)
    requires ':' !in domain && ':' !in name
    ensures ParseAirUrn(domain, providerUrl) == None
    ensures ParseAirUrn(domain + ":" + name, providerUrl) == None
    ensures ParseAirUrn(domain + ":" + (ns + ":" + name), providerUrl)
         == if Lower(domain) != PublisherFqdn(providerUrl) || name == "" then None else Some(name)
  {
    hide BeforeFirst, AfterFirst, AfterLast, PublisherFqdn;
    NoSecondPart(domain, ':');
    PartitionOf(domain, ':', name);
    assert domain + ":" + name == domain + [':'] + name;
    var path := ns + [':'] + name;
    assert path[|ns|] == ':';
    PartitionOf(domain, ':', path);
    assert domain + ":" + (ns + ":" + name) == domain + [':'] + path;
    AfterLastOf(ns, ':', name);
  }

  lemma {:induction false} NoSecondPart(s: string, c: char)
    requires c !in s
    ensures AfterFirst(s, c) == ""
  {
    if s != [] {
      NoSecondPart(s[1..], c);
    }
  }

  /** `lower()` on the letters of ASCII. */
  lemma LowerIs(c: char, k: nat)
    requires k < 26
    ensures LowerChar("ABCDEFGHIJKLMNOPQRSTUVWXYZ"[k]) == "abcdefghijklmnopqrstuvwxyz"[k]
    ensures c < 'A' || c > 'Z' ==> LowerChar(c) == c
  {
    UpperAt(k);
    LowerAt(k);
  }

  lemma UpperAt(k: nat)
    requires k < 26
    ensures "ABCDEFGHIJKLMNOPQRSTUVWXYZ"[k] == ('A' as int + k) as char
  {
  }

  lemma LowerAt(k: nat)
    requires k < 26
    ensures "abcdefghijklmnopqrstuvwxyz"[k] == ('a' as int + k) as char
  {
  }

  /** A handle is read, as what follows its first '/', under what its registry id starts with, up to a colon or
      '/', and refused under every other registry id. */
  lemma {:induction false} HandleRoundTrip(registry: string, ns: string, agentId: string, registryId: string, providerUrl: string)
    ensures ParseAgentIdentifier(CreateHandle(registry, ns, agentId), registryId, providerUrl)
         == if registryId == BeforeFirst(BeforeFirst(registry, '/'), ':')
            then OrNone(AfterSlash(registry, ns, agentId)) else None
    ensures CreateHandle(registry, ns, agentId) == "@" + registry + ":" + ns + "/" + agentId
  {
    hide BeforeFirst, AfterFirst, ParseHandle, AfterSlash;
    var body := registry + [':'] + ns + ['/'] + agentId;
    assert CreateHandle(registry, ns, agentId) == "@" + body;
    assert ("@" + body)[1..] == body;
    HandleScope(registry, ns, agentId);
    assert body[|registry + [':'] + ns|] == '/';
    ParsedHandle(body, registryId);
  }

  lemma ParsedHandle(body: string, registryId: string)
    requires '/' in body
    ensures ParseHandle(body, registryId) ==
            if BeforeFirst(BeforeFirst(body, '/'), ':') == registryId then OrNone(AfterFirst(body, '/')) else None
  {
    hide BeforeFirst, AfterFirst;
  }

  lemma {:induction false} HandleScope(registry: string, ns: string, agentId: string)
    ensures var body := registry + [':'] + ns + ['/'] + agentId;
            && BeforeFirst(BeforeFirst(body, '/'), ':') == BeforeFirst(BeforeFirst(registry, '/'), ':')
            && AfterFirst(body, '/') == AfterSlash(registry, ns, agentId)
  {
    hide BeforeFirst, AfterFirst;
    var scope := registry + [':'] + ns;
    FirstPart(scope, '/', agentId);
    SplitFirst(registry, '/');
    if '/' in registry {
      var (a, b) := (BeforeFirst(registry, '/'), AfterFirst(registry, '/'));
      assert scope == a + ['/'] + (b + [':'] + ns);
      PartitionOf(a, '/', b + [':'] + ns);
      assert scope[|a|] == '/';
    } else {
      SplitFirst(ns, '/');
      if '/' in ns {
        var (a, b) := (BeforeFirst(ns, '/'), AfterFirst(ns, '/'));
        var front := registry + [':'] + a;
        assert scope == front + ['/'] + b;
        PartitionOf(front, '/', b);
        FirstPart(registry, ':', a);
        assert scope[|front|] == '/';
      } else {
        NothingToPartition(scope, '/');
        FirstPart(registry, ':', ns);
      }
    }
  }

  lemma {:induction false} SplitFirst(s: string, c: char)
    ensures if c in s then s == BeforeFirst(s, c) + [c] + AfterFirst(s, c) else BeforeFirst(s, c) == s
  {
    if s != [] && s[0] != c {
      assert s == [s[0]] + s[1..];
      SplitFirst(s[1..], c);
    }
  }

  /** A registry reads its own handles back exactly when its id has neither ':' nor '/' and the namespace has no
      '/'. */
  lemma OwnHandle(registry: string, ns: string, agentId: string, providerUrl: string)
    requires agentId != []
    ensures ParseAgentIdentifier(CreateHandle(registry, ns, agentId), registry, providerUrl) == Some(agentId)
            <==> Plain(registry) && '/' !in ns
  {
    hide BeforeFirst, ParseAgentIdentifier, CreateHandle;
    HandleRoundTrip(registry, ns, agentId, registry, providerUrl);
    PlainIsFirst(registry);
    assert '/' in registry || '/' in ns ==> |AfterSlash(registry, ns, agentId)| > |agentId|;
  }

  lemma PlainIsFirst(s: string)
    ensures BeforeFirst(BeforeFirst(s, '/'), ':') == s <==> Plain(s)
  {
    hide BeforeFirst, AfterFirst;
    var front := BeforeFirst(s, '/');
    SplitFirst(s, '/');
    SplitFirst(front, ':');
    if BeforeFirst(front, ':') == s {
      assert |front| >= |s|;
    }
  }

  // ----- did:web --------------------------------------------------------------------------

  /** A did:web is read, as what follows the last colon of the agent id, exactly where the parsing registry's
      authority and a colon begin it. */
  lemma {:induction false} DidRoundTrip(host: string, ns: string, agentId: string, registryId: string, here: string)
    requires NoScheme(host)
    ensures ParseAgentIdentifier(BuildDid("web", HttpsUrl(host), ns, agentId), registryId, HttpsUrl(here))
         == if RStripSlash(here) + ":" <= host + ":agents:" + ns + ":" + agentId then OrNone(AfterLast(agentId, ':'))
            else None
    ensures BuildDid("web", HttpsUrl(host), ns, agentId) == "did:web:" + host + ":agents:" + ns + ":" + agentId
  {
    hide RemoveAll, AfterLast, Domain, RStripSlash, AfterScheme, BuildDid;
    DidText(host, ns, agentId);
    SchemeStripped(here);
    var scope, prefix := host + ":agents:" + ns + ":", RStripSlash(here) + ":";
    var whole := scope + agentId;
    var value := BuildDid("web", HttpsUrl(host), ns, agentId);
    assert value == "did:web:" + whole;
    assert "did:web:" + DidAuthority(HttpsUrl(here)) + ":" == "did:web:" + prefix;
    SamePrefix("did:web:", prefix, whole);
    assert value[0] == 'd' && "did:" <= value;
    if prefix <= whole {
      assert value[|"did:web:" + prefix|..] == whole[|prefix|..];
      CutAtColon(whole, |prefix|);
      CutAtColon(whole, |scope|);
    }
  }

  lemma DidText(host: string, ns: string, agentId: string)
    requires NoScheme(host)
    ensures BuildDid("web", HttpsUrl(host), ns, agentId) == "did:web:" + host + ":agents:" + ns + ":" + agentId
  {
    hide Domain;
    HttpsHost(host);
  }

  lemma CutAtColon(s: string, k: nat)
    requires 0 < k <= |s| && s[k - 1] == ':'
    ensures AfterLast(s, ':') == AfterLast(s[k..], ':')
  {
    hide AfterLast;
    assert s == s[..k - 1] + [':'] + s[k..];
    AfterLastOf(s[..k - 1], ':', s[k..]);
  }

  lemma SamePrefix(head: string, p: string, s: string)
    ensures head + p <= head + s <==> p <= s
  {
    if head + p <= head + s {
      assert (head + s)[|head|..|head + p|] == p;
      assert (head + s)[|head|..] == s;
    }
  }

  lemma {:induction false} SlashStripped(s: string)
    ensures RStripSlash(s) <= s && (s != [] && s[|s| - 1] == '/' ==> |RStripSlash(s)| < |s|)
    ensures |RStripSlash(s)| < |s| ==> s[|RStripSlash(s)|] == '/' == s[|s| - 1]
  {
    if s != [] && s[|s| - 1] == '/' {
      SlashStripped(s[..|s| - 1]);
    }
  }

  lemma LastIsWhole(s: string, c: char)
    ensures AfterLast(s, c) == s <==> c !in s
  {
  }

  /** A registry reads its own did:web identifiers back exactly when its provider URL has no trailing slash and
      the agent id no colon. */
  lemma {:induction false} OwnDid(host: string, ns: string, agentId: string, registryId: string)
    requires NoScheme(host)
    ensures var parsed := ParseAgentIdentifier(BuildDid("web", HttpsUrl(host), ns, agentId), registryId, HttpsUrl(host));
            var trailing := host != [] && host[|host| - 1] == '/';
            && parsed == (if trailing then None else OrNone(AfterLast(agentId, ':')))
            && (parsed == Some(agentId) <==> !trailing && ':' !in agentId && agentId != [])
  {
    hide RStripSlash, NoScheme, ParseAgentIdentifier, BuildDid, AfterLast;
    DidRoundTrip(host, ns, agentId, registryId, host);
    SlashStripped(host);
    LastIsWhole(agentId, ':');
    var authority, whole := RStripSlash(host), host + ":agents:" + ns + ":" + agentId;
    assert |authority| < |host| ==> whole[|authority|] == host[|authority|] == '/';
    assert (authority + ":")[|authority|] == ':';
    if |authority| == |host| {
      assert whole == (host + ":") + ("agents:" + ns + ":" + agentId);
    }
  }

  /** The parser cuts at the last colon, and an agent id may hold one: a registry answers its own identifier of
      agent `a:b` for agent `b`. */
  lemma {:induction false} MisreadAgent(host: string, ns: string, a: string, b: string, registryId: string)
    requires NoScheme(host) && !(host != [] && host[|host| - 1] == '/') && ':' !in b && b != []
    ensures ParseAgentIdentifier(BuildDid("web", HttpsUrl(host), ns, a + ":" + b), registryId, HttpsUrl(host)) == Some(b)
  {
    hide NoScheme, ParseAgentIdentifier, BuildDid, AfterLast;
    OwnDid(host, ns, a + ":" + b, registryId);
    assert a + ":" + b == a + [':'] + b;
    AfterLastOf(a, ':', b);
  }

  /** Among hosts without port and path only the own one is read. */
  lemma PlainHosts(host: string, ns: string, agentId: string, registryId: string, here: string)
    requires Plain(host) && Plain(here)
    ensures ParseAgentIdentifier(BuildDid("web", HttpsUrl(host), ns, agentId), registryId, HttpsUrl(here))
         == if host == here then OrNone(AfterLast(agentId, ':')) else None
  {
    hide NoScheme, RStripSlash, ParseAgentIdentifier, BuildDid, BeforeFirst, AfterFirst, AfterLast;
    NoSlashNoScheme(host);
    DidRoundTrip(host, ns, agentId, registryId, here);
    SlashStripped(here);
    assert RStripSlash(here) == here;
    var rest := "agents:" + ns + ":" + agentId;
    var whole := host + [':'] + rest;
    assert whole == host + ":agents:" + ns + ":" + agentId;
    PartitionOf(host, ':', rest);
    if here + ":" <= whole {
      assert whole == here + [':'] + whole[|here| + 1..];
      PartitionOf(here, ':', whole[|here| + 1..]);
    }
  }

  /** The parser looks for the own authority and a colon, and a port follows a colon too: a registry without a
      port answers for the agents of every port of its host. */
  lemma {:induction false} PortAnswered(here: string, port: string, ns: string, agentId: string, registryId: string)
    requires Plain(here) && '/' !in port
    ensures ParseAgentIdentifier(BuildDid("web", HttpsUrl(here + ":" + port), ns, agentId), registryId, HttpsUrl(here))
         == OrNone(AfterLast(agentId, ':'))
  {
    hide NoScheme, RStripSlash, ParseAgentIdentifier, BuildDid, BeforeFirst, AfterFirst, AfterLast;
    var host := here + ":" + port;
    NoSlashNoScheme(host);
    DidRoundTrip(host, ns, agentId, registryId, here);
    SlashStripped(here);
    assert RStripSlash(here) == here;
    assert host + ":agents:" + ns + ":" + agentId == (here + ":") + (port + ":agents:" + ns + ":" + agentId);
  }

  // ----- AIR URNs -------------------------------------------------------------------------

  /** An AIR URN is read, as what follows the last colon of the slug, where its domain, up to a colon, is the
      publisher's, letter case aside, and refused everywhere else. */
  lemma {:induction false} AirUrnRoundTrip(domain: string, slug: string, registryId: string, providerUrl: string)
    ensures ParseAgentIdentifier(AirUrn(domain, slug), registryId, providerUrl)
         == if Lower(BeforeFirst(domain, ':')) == PublisherFqdn(providerUrl) then OrNone(AfterLast(slug, ':')) else None
    ensures AirUrn(domain, slug) == "urn:air:" + Lower(domain) + ":agent:" + slug
  {
    hide AfterLast, PublisherFqdn, BeforeFirst, AfterFirst, ParseAirUrn, ParseHandle, ParseDid;
    var value, lowered := AirUrn(domain, slug), Lower(domain);
    var path := "agent" + [':'] + slug;
    var rest := lowered + [':'] + path;
    assert value == "urn:air:" + rest;
    AirPrefix(value, rest);
    AirRest(domain, slug, providerUrl);
  }

  lemma {:induction false} AirRest(domain: string, slug: string, providerUrl: string)
    ensures ParseAirUrn(Lower(domain) + [':'] + ("agent" + [':'] + slug), providerUrl)
         == if Lower(BeforeFirst(domain, ':')) == PublisherFqdn(providerUrl) then OrNone(AfterLast(slug, ':')) else None
  {
    hide AfterLast, PublisherFqdn, BeforeFirst, AfterFirst, Lower;
    var lowered := Lower(domain);
    var path := "agent" + [':'] + slug;
    FirstPart(lowered, ':', path);
    LowerBefore(domain);
    LowerTwice(BeforeFirst(domain, ':'));
    var front := if ':' in lowered then AfterFirst(lowered, ':') + [':'] + "agent" else "agent";
    assert AfterFirst(lowered + [':'] + path, ':') == front + [':'] + slug;
    assert (front + [':'] + slug)[|front|] == ':';
    AfterLastOf(front, ':', slug);
  }

  lemma LowerTwice(s: string)
    ensures Lower(Lower(s)) == Lower(s)
  {
  }

  lemma {:induction false} LowerBefore(s: string)
    ensures BeforeFirst(Lower(s), ':') == Lower(BeforeFirst(s, ':'))
  {
    if s != [] {
      assert Lower(s)[1..] == Lower(s[1..]);
      LowerBefore(s[1..]);
    }
  }

  /** Port and path of the provider URL do not matter. */
  lemma OwnAirUrn(host: string, tail: string, slug: string, registryId: string)
    requires Plain(host) && (tail == [] || tail[0] == ':' || tail[0] == '/')
    ensures ParseAgentIdentifier(AirUrn(host, slug), registryId, HttpsUrl(host + tail)) == OrNone(AfterLast(slug, ':'))
  {
    hide BeforeFirst, SchemeSplit;
    AirUrnRoundTrip(host, slug, registryId, HttpsUrl(host + tail));
    SchemeStripped(host + tail);
    PortAndPathDropped(host, tail);
    NothingToPartition(host, ':');
  }

  lemma {:induction false} PortAndPathDropped(host: string, tail: string)
    requires Plain(host) && (tail == [] || tail[0] == ':' || tail[0] == '/')
    ensures BeforeFirst(BeforeFirst(host + tail, '/'), ':') == host
  {
    if host == [] {
      assert host + tail == tail;
    } else {
      assert host[0] in host && (host + tail)[0] == host[0] && (host + tail)[1..] == host[1..] + tail;
      PortAndPathDropped(host[1..], tail);
    }
  }

  lemma AirPrefix(value: string, rest: string)
    requires value == "urn:air:" + rest
    ensures "urn:air:" <= Lower(value) && value[8..] == rest && value[0] == 'u'
  {
    var air := "urn:air:";
    assert Lower(air) == air;
    assert Lower(value)[..8] == Lower(value[..8]) && value[..8] == air;
  }
}
