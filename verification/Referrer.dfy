/** pkg/useragent.StripReferrer: the domain of a referrer URL. Lower-casing is modelled on ASCII letters. */
module Referrer {
  import opened Text

  const HTTPS: string := "https://"
  const HTTP: string := "http://"
  const WWW: string := "www."

  function LowerChar(c: char): char {
    if 'A' <= c <= 'Z' then (c as int + 32) as char else c
  }

  function Lower(s: string): (r: string)
    ensures |r| == |s| && forall i :: 0 <= i < |s| ==> r[i] == LowerChar(s[i])
  {
    seq(|s|, i requires 0 <= i < |s| => LowerChar(s[i]))
  }

  function Before(s: string, cut: int): string
    requires -1 <= cut <= |s|
  {
    if cut == -1 then s else s[..cut]
  }

  /** What follows an HTTP scheme, or nothing for any other text. */
  function AfterScheme(referrer: string): string {
    if HTTPS <= referrer then referrer[|HTTPS|..]
    else if HTTP <= referrer then referrer[|HTTP|..]
    else ""
  }

  /** The text up to the first slash, and of that the text up to the last colon. */
  function Authority(referrer: string): string {
    var rest := AfterScheme(referrer);
    var host := Before(rest, IndexOf(rest, '/'));
    Before(host, LastIndexOf(host, ':'))
  }

  function TrimWww(s: string): string {
    if WWW <= s then s[|WWW|..] else s
  }

  function Stripped(referrer: string): string {
    Lower(TrimWww(Authority(referrer)))
  }

  method StripReferrer(referrer: string) returns (domain: string)
    ensures domain == Stripped(referrer)
  {
    if referrer == "" {
      return "";
    }
    var rest;
    if HTTPS <= referrer {
      rest := referrer[|HTTPS|..];
    } else if HTTP <= referrer {
      rest := referrer[|HTTP|..];
    } else {
      return "";
    }
    var slash := IndexOf(rest, '/');
    if slash != -1 {
      rest := rest[..slash];
    }
    var colon := LastIndexOf(rest, ':');
    if colon != -1 {
      rest := rest[..colon];
    }
    if WWW <= rest {
      rest := rest[|WWW|..];
    }
    return Lower(rest);
  }

  // ----- Taking apart what was put together -----

  lemma {:induction false} IndexAfter(a: string, c: char, b: string)
    requires c !in a
    ensures IndexOf(a + [c] + b, c) == |a|
  {
    var s := a + [c] + b;
    assert s[|a|] == c;
    assert forall i :: 0 <= i < |a| ==> s[i] == a[i];
  }

  lemma {:induction false} LastIndexBefore(a: string, c: char, b: string)
    requires c !in b
    ensures LastIndexOf(a + [c] + b, c) == |a|
  {
    var s := a + [c] + b;
    assert s[|a|] == c;
    assert forall i :: |a| < i < |s| ==> s[i] in b;
  }

  /** A host that can be recovered: no slash, no colon, and no "www." of its own. */
  ghost predicate PlainHost(host: string) {
    host != "" && '/' !in host && ':' !in host && !(WWW <= host)
  }

  ghost predicate PortText(port: string) {
    port == "" || (port[0] == ':' && '/' !in port[1..] && ':' !in port[1..])
  }

  ghost predicate PathText(path: string) {
    path == "" || path[0] == '/'
  }

  lemma {:induction false} CutPath(host: string, path: string)
    requires '/' !in host && PathText(path)
    ensures Before(host + path, IndexOf(host + path, '/')) == host
  {
    if path == "" {
      assert host + path == host;
    } else {
      assert path == ['/'] + path[1..];
      assert host + path == host + ['/'] + path[1..];
      IndexAfter(host, '/', path[1..]);
    }
  }

  lemma {:induction false} CutPort(host: string, port: string)
    requires ':' !in host && PortText(port)
    ensures Before(host + port, LastIndexOf(host + port, ':')) == host
  {
    if port == "" {
      assert host + port == host;
    } else {
      assert port == [':'] + port[1..];
      assert host + port == host + [':'] + port[1..];
      LastIndexBefore(host, ':', port[1..]);
    }
  }

  lemma {:induction false} SchemeCut(scheme: string, rest: string)
    requires scheme == HTTPS || scheme == HTTP
    ensures AfterScheme(scheme + rest) == rest
  {
    if scheme == HTTP {
      assert (scheme + rest)[4] == ':' && HTTPS[4] == 's';
      assert !(HTTPS <= scheme + rest);
    }
  }

  lemma {:induction false} SplitRemains(host: string, port: string, path: string)
    requires '/' !in host && ':' !in host && PortText(port) && PathText(path)
    requires '/' !in port
    ensures var rest := host + port + path;
      var cut := Before(rest, IndexOf(rest, '/'));
      Before(cut, LastIndexOf(cut, ':')) == host
  {
    CutPath(host + port, path);
    CutPort(host, port);
  }

  lemma {:induction false} AuthorityOf(scheme: string, host: string, port: string, path: string)
    requires scheme == HTTPS || scheme == HTTP
    requires '/' !in host && ':' !in host && PortText(port) && PathText(path)
    ensures Authority(scheme + (host + port + path)) == host
  {
    assert '/' !in port by {
      assert port != "" ==> port == [port[0]] + port[1..];
    }
    SchemeCut(scheme, host + port + path);
    SplitRemains(host, port, path);
  }

  /** A URL built from an HTTP scheme, an optional "www.", a plain host, an optional port and an optional
      path is stripped to its host in lower case. */
  lemma {:induction false} BuildAndStrip(scheme: string, www: bool, host: string, port: string, path: string)
    requires scheme == "https://" || scheme == "http://"
    requires PlainHost(host) && PortText(port) && PathText(path)
    ensures Stripped(scheme + ((if www then "www." + host else host) + port + path)) == Lower(host)
  {
    AuthorityOf(scheme, if www then WWW + host else host, port, path);
    assert (WWW + host)[|WWW|..] == host;
  }

  // ----- What can be left over -----

  lemma {:induction false} LowerKeeps(s: string, c: char)
    requires !('A' <= c <= 'Z') && !('a' <= c <= 'z')
    ensures c in Lower(s) <==> c in s
  {
    forall i | 0 <= i < |s| ensures Lower(s)[i] == c <==> s[i] == c {}
    if c in s {
      var i :| 0 <= i < |s| && s[i] == c;
      assert Lower(s)[i] == c;
    }
  }

  lemma {:induction false} TrimKeeps(s: string, c: char)
    requires c !in WWW
    ensures c in TrimWww(s) <==> c in s
  {
    if WWW <= s {
      assert s == WWW + s[|WWW|..];
    }
  }

  /** Whatever does not start with an HTTP scheme has no domain. */
  lemma {:induction false} OtherSchemesAreEmpty(referrer: string)
    requires !("https://" <= referrer) && !("http://" <= referrer)
    ensures Stripped(referrer) == ""
  {
    assert AfterScheme(referrer) == "";
  }

  /** Lower-casing keeps the length, changes the letters A to Z to a to z, and nothing else. */
  lemma {:induction false} LowerExact(s: string, i: nat)
    requires i < |s|
    ensures |Lower(s)| == |s|
    ensures 'A' <= s[i] <= 'Z' ==> 'a' <= Lower(s)[i] <= 'z' && Lower(s)[i] - 'a' == s[i] - 'A'
    ensures !('A' <= s[i] <= 'Z') ==> Lower(s)[i] == s[i]
  {
  }

  /** No result ever contains a slash. */
  lemma {:induction false} NoSlash(referrer: string)
    ensures '/' !in Stripped(referrer)
  {
    var rest := AfterScheme(referrer);
    var host := Before(rest, IndexOf(rest, '/'));
    assert '/' !in host;
    assert '/' !in Authority(referrer);
    TrimKeeps(Authority(referrer), '/');
    LowerKeeps(TrimWww(Authority(referrer)), '/');
  }

  ghost predicate NoneUpTo(rest: string, c: char, i: int) {
    i <= |rest| && forall j :: 0 <= j < i ==> rest[j] != c
  }

  /** What stands at position i after the scheme is kept: it stands before every slash, and before every colon
      or else before a later colon that itself stands before every slash. */
  ghost predicate Kept(rest: string, i: int) {
    && 0 <= i < |rest| && NoneUpTo(rest, '/', i)
    && (NoneUpTo(rest, ':', i) || exists j :: i < j < |rest| && rest[j] == ':' && NoneUpTo(rest, '/', j))
  }

  function HostEnd(rest: string): (n: nat)
    ensures n <= |rest|
  {
    if IndexOf(rest, '/') == -1 then |rest| else IndexOf(rest, '/')
  }

  function AuthorityEnd(rest: string): (n: nat)
    ensures n <= HostEnd(rest)
  {
    var colon := LastIndexOf(rest[..HostEnd(rest)], ':');
    if colon == -1 then HostEnd(rest) else colon
  }

  lemma {:induction false} AuthorityIsPrefix(referrer: string)
    ensures Authority(referrer) == AfterScheme(referrer)[..AuthorityEnd(AfterScheme(referrer))]
  {
    var rest := AfterScheme(referrer);
    assert rest[..|rest|] == rest;
    var host := rest[..HostEnd(rest)];
    assert Before(rest, IndexOf(rest, '/')) == host;
    assert host[..AuthorityEnd(rest)] == rest[..AuthorityEnd(rest)];
    assert host[..|host|] == host;
  }

  lemma {:induction false} BeforeHostEnd(rest: string, i: int)
    requires 0 <= i < |rest| && rest[i] != '/'
    ensures NoneUpTo(rest, '/', i) <==> i < HostEnd(rest)
  {
  }

  lemma {:induction false} KeptExactly(rest: string, i: int)
    requires 0 <= i < |rest| && rest[i] != '/' && rest[i] != ':'
    ensures Kept(rest, i) <==> i < AuthorityEnd(rest)
  {
    BeforeHostEnd(rest, i);
    var host := rest[..HostEnd(rest)];
    var colon := LastIndexOf(host, ':');
    if i < HostEnd(rest) {
      if colon == -1 {
        forall j | 0 <= j < i ensures rest[j] != ':' {
          assert host[j] in host;
        }
      } else {
        assert rest[colon] == ':';
        BeforeHostEnd(rest, colon);
        forall j | i < j < |rest| && rest[j] == ':' && NoneUpTo(rest, '/', j) ensures j <= colon {
          BeforeHostEnd(rest, j);
          assert host[j] == ':';
        }
      }
    }
  }

  /** The function is documented to drop the query and the fragment. A mark of either survives exactly if it
      stands before every slash after the scheme, and no colon precedes it without another colon following
      before the first slash. */
  lemma {:induction false} QuerySurvivesExactly(referrer: string, mark: char)
    requires mark == '?' || mark == '#'
    ensures mark in Stripped(referrer) <==>
      exists i :: Kept(AfterScheme(referrer), i) && AfterScheme(referrer)[i] == mark
  {
    TrimKeeps(Authority(referrer), mark);
    LowerKeeps(TrimWww(Authority(referrer)), mark);
    AuthorityIsPrefix(referrer);
    var rest := AfterScheme(referrer);
    var end := AuthorityEnd(rest);
    if mark in rest[..end] {
      var i :| 0 <= i < end && rest[i] == mark;
      KeptExactly(rest, i);
    }
    if i :| Kept(rest, i) && rest[i] == mark {
      KeptExactly(rest, i);
      assert rest[..end][i] == mark;
    }
  }

  lemma {:induction false} StillNoWww(host: string, tail: string)
    requires !(WWW <= host) && tail != "" && tail[0] !in WWW
    ensures !(WWW <= host + tail)
  {
    if |host| >= |WWW| {
      assert (host + tail)[..|WWW|] == host[..|WWW|];
    } else {
      assert (host + tail)[|host|] == tail[0];
      assert WWW[|host|] in WWW;
    }
  }

  /** A query or fragment without slash or colon directly after a plain host is kept whole. */
  lemma {:induction false} QueryAfterHostSurvives(scheme: string, host: string, query: string)
    requires scheme == "https://" || scheme == "http://"
    requires PlainHost(host) && '/' !in query && ':' !in query
    requires query != "" && (query[0] == '?' || query[0] == '#')
    ensures Stripped(scheme + (host + query)) == Lower(host + query)
  {
    StillNoWww(host, query);
    BuildAndStrip(scheme, false, host + query, "", "");
    assert (host + query) + "" + "" == host + query;
  }

  lemma {:induction false} ExampleIsPlain()
    ensures PlainHost("t.co") && '/' !in "?s=20" && ':' !in "?s=20"
  {
    assert "t.co"[0] == 't' && WWW[0] == 'w';
  }

  /** A failing input: the domain of https://t.co?s=20 comes out with the query, not as t.co. */
  lemma {:induction false} QuerySurvivesExample()
    ensures Stripped("https://" + ("t.co" + "?s=20")) == Lower("t.co" + "?s=20") != "t.co"
  {
    ExampleIsPlain();
    QueryAfterHostSurvives(HTTPS, "t.co", "?s=20");
    assert |Lower("t.co" + "?s=20")| == 9;
  }
}
