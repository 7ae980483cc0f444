/** Which requests a token may make (internal/auth/scopes.go). */
module Scopes {
  import opened Text

  datatype Route = Route(name: string, resource: string)

  /** The route table; every prefix is "/api/" and a name. The entry for environments names no resource and is passed
      over, so it is left out. */
  const ROUTES: seq<Route> := [
    Route("me", "account"), Route("teams", "teams"), Route("servers", "servers"), Route("projects", "projects"),
    Route("apps", "apps"), Route("databases", "databases"), Route("operations", "operations"),
    Route("templates", "templates"), Route("events", "events"), Route("settings", "settings"),
    Route("components", "settings"), Route("audit", "teams")]

  const NESTED := {"apps", "databases", "deployments", "backups"}

  const RESOURCES := {"apps", "deployments", "databases", "backups", "projects", "servers", "templates", "operations",
                      "events", "teams", "settings", "account"}

  // ---------- the scan over prefixes ----------

  function TrimSlashes(s: string): (t: string)
    ensures t != "" ==> t[0] != '/' && t[|t| - 1] != '/'
  {
    if s != "" && s[0] == '/' then TrimSlashes(s[1..]) else TrimRight(s, {'/'})
  }

  /** Without one slash at the end. */
  function TrimSuffix(prefix: string): string {
    if prefix != "" && prefix[|prefix| - 1] == '/' then prefix[..|prefix| - 1] else prefix
  }

  predicate IsBoundary(path: string, prefix: string)
    requires prefix <= path
  {
    |path| == |prefix| || path[|prefix|] == '/'
  }

  predicate Hits(path: string, prefix: string) {
    || path == TrimSuffix(prefix)
    || prefix + "/" <= path
    || (prefix <= path && IsBoundary(path, prefix))
  }

  function Scan(routes: seq<Route>, path: string): Option<string> {
    if routes == [] then None
    else if Hits(path, "/api/" + routes[0].name) then Some(routes[0].resource)
    else Scan(routes[1..], path)
  }

  /** The resource of a request path; empty when no scope covers it. */
  function ResourceIn(routes: seq<Route>, raw: string): string {
    var trimmed := TrimSlashes(raw);
    var segments := Split(trimmed, '/');
    if |segments| >= 4 && segments[3] in NESTED then segments[3]
    else
      var path := "/" + trimmed;
      var found := Scan(routes, path);
      if found.Some? then found.value
      else if "/api/environments" <= path then "projects"
      else ""
  }

  function ResourceFor(raw: string): string { ResourceIn(ROUTES, raw) }

  // ---------- the same, by segments ----------

  predicate GoodRoutes(routes: seq<Route>) {
    && (forall i :: 0 <= i < |routes| ==> routes[i].name != "" && '/' !in routes[i].name)
    && forall i, j :: 0 <= i < j < |routes| ==> routes[i].name != routes[j].name
  }

  function Table(routes: seq<Route>): map<string, string> {
    if routes == [] then map[] else Table(routes[1..])[routes[0].name := routes[0].resource]
  }

  /** The fourth segment when it is a nested collection, else the second when the first is "api" and it is in the
      table, else projects when the second starts with "environments". */
  function BySegments(table: map<string, string>, segments: seq<string>): string {
    if |segments| >= 4 && segments[3] in NESTED then segments[3]
    else if |segments| >= 2 && segments[0] == "api" && segments[1] in table then table[segments[1]]
    else if |segments| >= 2 && segments[0] == "api" && "environments" <= segments[1] then "projects"
    else ""
  }

  lemma SplitHead(s: string, c: char, head: string)
    requires c !in head
    ensures |Split(s, c)| >= 2 && Split(s, c)[0] == head <==> head + [c] <= s
    ensures head + [c] <= s ==> Split(s, c)[1..] == Split(s[|head| + 1..], c)
  {
    hide IndexOf;
    var i := IndexOf(s, c);
    if head + [c] <= s {
      assert s == head + [c] + s[|head| + 1..];
      IndexOfAppend(head, c, s[|head| + 1..]);
      assert s[..|head|] == head;
    }
    if i < |s| && s[..i] == head {
      assert s[..i + 1] == head + [c];
    }
  }

  lemma SplitFirst(s: string, c: char, head: string)
    requires c !in head
    ensures Split(s, c)[0] == head <==> s == head || head + [c] <= s
  {
    hide IndexOf;
    SplitHead(s, c, head);
    var i := IndexOf(s, c);
    assert i == |s| <==> c !in s;
    assert s == head ==> Split(s, c)[0] == head;
  }

  /** A route hits a path exactly when the path's first two segments are "api" and its name. */
  lemma HitsBySegments(trimmed: string, name: string)
    requires name != "" && '/' !in name
    ensures var segments := Split(trimmed, '/');
            Hits("/" + trimmed, "/api/" + name) <==> |segments| >= 2 && segments[0] == "api" && segments[1] == name
  {
    hide Split;
    var path, prefix := "/" + trimmed, "/api/" + name;
    var segments := Split(trimmed, '/');
    PlainPrefix(prefix, name);
    assert Hits(path, prefix) <==> path == prefix || prefix + "/" <= path by { Boundary(path, prefix); }
    SplitHead(trimmed, '/', "api");
    assert "api" + ['/'] == "api/";
    if "api/" <= trimmed {
      var rest := trimmed[4..];
      assert trimmed == "api/" + rest;
      assert segments[1..] == Split(rest, '/') && segments[1] == Split(rest, '/')[0];
      SplitFirst(rest, '/', name);
      AfterApi(rest, name);
    } else {
      NotApi(trimmed, name);
    }
  }

  lemma PlainPrefix(prefix: string, name: string)
    requires name != "" && '/' !in name && prefix == "/api/" + name
    ensures TrimSuffix(prefix) == prefix
  {
    assert prefix[|prefix| - 1] == name[|name| - 1];
  }

  lemma Boundary(path: string, prefix: string)
    ensures prefix <= path && IsBoundary(path, prefix) <==> path == prefix || prefix + "/" <= path
  {
  }

  lemma AfterApi(rest: string, name: string)
    ensures "/" + ("api/" + rest) == "/api/" + name <==> rest == name
    ensures "/api/" + name + "/" <= "/" + ("api/" + rest) <==> name + "/" <= rest
  {
    var path := "/" + ("api/" + rest);
    assert path == "/api/" + rest && path[5..] == rest;
    assert ("/api/" + name)[5..] == name;
    assert ("/api/" + name + "/")[5..] == name + "/";
    if "/api/" + name + "/" <= path {
      assert path[5..][..|name| + 1] == name + "/";
    }
  }

  lemma UnderSlash(trimmed: string)
    ensures "/api/" <= "/" + trimmed <==> "api/" <= trimmed
  {
    var path := "/" + trimmed;
    assert path[1..] == trimmed;
    if "/api/" <= path {
      assert path[1..5] == "api/" && trimmed[..4] == path[1..5];
    }
  }

  lemma NotApi(trimmed: string, name: string)
    requires !("api/" <= trimmed)
    ensures "/" + trimmed != "/api/" + name
    ensures !("/api/" + name + "/" <= "/" + trimmed)
  {
    UnderSlash(trimmed);
  }

  lemma {:induction false} ScanIsLookup(routes: seq<Route>, trimmed: string)
    requires GoodRoutes(routes)
    ensures var segments := Split(trimmed, '/');
            Scan(routes, "/" + trimmed) ==
              if |segments| >= 2 && segments[0] == "api" && segments[1] in Table(routes)
              then Some(Table(routes)[segments[1]]) else None
  {
    hide Hits, Split;
    if routes != [] {
      HitsBySegments(trimmed, routes[0].name);
      assert forall i :: 0 <= i < |routes[1..]| ==> routes[1..][i] == routes[i + 1];
      ScanIsLookup(routes[1..], trimmed);
    }
  }

  lemma EnvironmentsBySegments(trimmed: string)
    ensures var segments := Split(trimmed, '/');
            "/api/environments" <= "/" + trimmed <==>
            |segments| >= 2 && segments[0] == "api" && "environments" <= segments[1]
  {
    hide Split;
    var segments := Split(trimmed, '/');
    SplitHead(trimmed, '/', "api");
    assert "api" + ['/'] == "api/";
    if "api/" <= trimmed {
      var rest := trimmed[4..];
      assert trimmed == "api/" + rest && segments[1] == Split(rest, '/')[0];
      FirstPart(rest, "environments");
      assert ("/" + trimmed)[5..] == rest && ("/" + trimmed)[..5] == "/api/";
      assert "/api/environments"[5..] == "environments" && "/api/environments"[..5] == "/api/";
      assert "/api/environments" <= "/" + trimmed <==> "environments" <= rest by { PrefixAfter(trimmed, rest); }
    } else {
      UnderSlash(trimmed);
      assert "/api/" <= "/api/environments";
    }
  }

  lemma PrefixAfter(trimmed: string, rest: string)
    requires trimmed == "api/" + rest
    ensures "/api/environments" <= "/" + trimmed <==> "environments" <= rest
  {
    var path := "/" + trimmed;
    assert path == "/api/" + rest && "/api/environments" == "/api/" + "environments";
    if "/api/environments" <= path {
      assert path[5..][..12] == "environments";
    }
  }

  lemma FirstPart(s: string, prefix: string)
    requires '/' !in prefix
    ensures prefix <= Split(s, '/')[0] <==> prefix <= s
  {
    hide IndexOf;
    var i := IndexOf(s, '/');
    assert s[..|s|] == s;
    assert prefix <= s ==> forall k :: 0 <= k < |prefix| ==> s[k] == prefix[k];
  }

  /** The scan over prefixes is a lookup on path segments, and does not depend on the order of the routes. */
  lemma ResourceBySegments(routes: seq<Route>, raw: string)
    requires GoodRoutes(routes)
    ensures ResourceIn(routes, raw) == BySegments(Table(routes), Split(TrimSlashes(raw), '/'))
  {
    hide Split, Scan, TrimSlashes, Table;
    var trimmed := TrimSlashes(raw);
    ScanIsLookup(routes, trimmed);
    EnvironmentsBySegments(trimmed);
  }

  lemma RouteOrderIsMoot(a: seq<Route>, b: seq<Route>, raw: string)
    requires GoodRoutes(a) && GoodRoutes(b) && forall r :: r in a <==> r in b
    ensures ResourceIn(a, raw) == ResourceIn(b, raw)
  {
    hide ResourceIn;
    ResourceBySegments(a, raw);
    ResourceBySegments(b, raw);
    TableOf(a);
    TableOf(b);
    forall name
      ensures (name in Table(a) <==> name in Table(b)) && (name in Table(a) ==> Table(a)[name] == Table(b)[name])
    {
      if name in Table(a) { assert Route(name, Table(a)[name]) in b; }
      if name in Table(b) { assert Route(name, Table(b)[name]) in a; }
    }
    assert Table(a) == Table(b);
  }

  lemma {:induction false} TableOf(routes: seq<Route>)
    requires GoodRoutes(routes)
    ensures forall r :: r in routes ==> r.name in Table(routes) && Table(routes)[r.name] == r.resource
    ensures forall name :: name in Table(routes) ==> Route(name, Table(routes)[name]) in routes
  {
    if routes != [] {
      var first, rest := routes[0], routes[1..];
      GoodTail(routes);
      hide GoodRoutes;
      TableOf(rest);
      assert routes == [first] + rest;
      assert forall r :: r in routes <==> r == first || r in rest;
    }
  }

  lemma GoodTail(routes: seq<Route>)
    requires GoodRoutes(routes) && routes != []
    ensures GoodRoutes(routes[1..]) && forall r :: r in routes[1..] ==> r.name != routes[0].name
  {
    var rest := routes[1..];
    assert forall i :: 0 <= i < |rest| ==> rest[i] == routes[i + 1];
    forall r | r in rest ensures r.name != routes[0].name {
      var i :| 0 <= i < |rest| && rest[i] == r;
      assert routes[i + 1] == r;
    }
  }

  // ---------- tokens ----------

  predicate ReadOnly(method_: string) { method_ in {"GET", "HEAD", "OPTIONS"} }

  /** One scope, without surrounding space, against a request. */
  predicate Grants(scope: string, method_: string, resource: string) {
    var colon := IndexOf(scope, ':');
    if scope == "" then false
    else if colon == |scope| then scope == "write" || (scope == "read" && ReadOnly(method_))
    else
      var named, action := scope[..colon], scope[colon + 1..];
      resource != "" && named == resource && (action == "write" || (action == "read" && ReadOnly(method_)))
  }

  /** No scopes at all is full access. */
  ghost predicate TokenAllows(scopes: string, method_: string, path: string) {
    TrimSpace(scopes) == "" ||
    exists s :: s in Split(TrimSpace(scopes), ',') && Grants(TrimSpace(s), method_, ResourceFor(path))
  }

  method CheckToken(scopes: string, method_: string, path: string) returns (allowed: bool)
    ensures allowed <==> TokenAllows(scopes, method_, path)
  {
    hide Split, TrimSpace, Grants, ResourceFor;
    var trimmed := TrimSpace(scopes);
    if trimmed == "" {
      return true;
    }
    var resource := ResourceFor(path);
    var list := Split(trimmed, ',');
    for i := 0 to |list|
      invariant forall k :: 0 <= k < i ==> !Grants(TrimSpace(list[k]), method_, resource)
    {
      if Grants(TrimSpace(list[i]), method_, resource) {
        assert list[i] in list;
        return true;
      }
    }
    return false;
  }

  // ---------- white space around scopes ----------

  function Trimmed(list: seq<string>): (r: seq<string>)
    ensures |r| == |list| && forall i :: 0 <= i < |list| ==> r[i] == TrimSpace(list[i])
  {
    seq(|list|, i requires 0 <= i < |list| => TrimSpace(list[i]))
  }

  lemma {:induction false} TrimEndOfSpace(s: string, c: char)
    requires IsSpace(c)
    ensures TrimEnd(s + [c]) == TrimEnd(s)
  {
    assert (s + [c])[..|s|] == s;
  }

  lemma {:induction false} TrimStartBeforeSpace(s: string, c: char)
    requires IsSpace(c)
    ensures TrimEnd(TrimStart(s + [c])) == TrimEnd(TrimStart(s))
  {
    hide IsSpace;
    if s == "" {
      assert s + [c] == [c] && [c][1..] == "";
      assert TrimStart([c]) == TrimStart("") == "";
    } else if IsSpace(s[0]) {
      assert (s + [c])[1..] == s[1..] + [c];
      TrimStartBeforeSpace(s[1..], c);
    } else {
      assert (s + [c])[0] == s[0];
      TrimEndOfSpace(s, c);
    }
  }

  /** A space in front of or behind a list makes no difference to its scopes. */
  lemma SpaceInFront(x: string, c: char)
    requires IsSpace(c)
    ensures Trimmed(Split([c] + x, ',')) == Trimmed(Split(x, ','))
  {
    hide IsSpace, IndexOf;
    assert ',' != c by { CommaIsNoSpace(); }
    var i := IndexOf(x, ',');
    var y := [c] + x;
    FrontShifts(x, c);
    assert y[..i + 1] == [c] + x[..i] && ([c] + x[..i])[1..] == x[..i];
    if i < |x| {
      assert y[i + 2..] == x[i + 1..];
    } else {
      assert y[..i + 1] == y && x[..i] == x;
    }
  }

  lemma CommaIsNoSpace()
    ensures !IsSpace(',')
  {
  }

  lemma FrontShifts(x: string, c: char)
    requires c != ','
    ensures IndexOf([c] + x, ',') == IndexOf(x, ',') + 1
  {
    assert ([c] + x)[1..] == x;
  }

  lemma {:induction false} SpaceBehind(x: string, c: char)
    requires IsSpace(c)
    ensures Trimmed(Split(x + [c], ',')) == Trimmed(Split(x, ','))
    decreases |x|
  {
    hide IsSpace, IndexOf;
    assert ',' != c by { CommaIsNoSpace(); }
    var i := IndexOf(x, ',');
    var y := x + [c];
    if i < |x| {
      assert y == x[..i] + [','] + (x[i + 1..] + [c]);
      IndexOfAppend(x[..i], ',', x[i + 1..] + [c]);
      assert y[..i] == x[..i] && y[i + 1..] == x[i + 1..] + [c];
      SpaceBehind(x[i + 1..], c);
      var a, b := Split(x[i + 1..], ','), Split(x[i + 1..] + [c], ',');
      assert Split(x, ',') == [x[..i]] + a && Split(y, ',') == [x[..i]] + b;
      TrimmedCons(x[..i], a);
      TrimmedCons(x[..i], b);
    } else {
      assert ',' !in y;
      assert Split(y, ',') == [y] && Split(x, ',') == [x];
      TrimStartBeforeSpace(x, c);
    }
  }

  lemma TrimmedCons(s: string, list: seq<string>)
    ensures Trimmed([s] + list) == [TrimSpace(s)] + Trimmed(list)
  {
  }

  lemma {:induction false} StartIsMoot(x: string)
    ensures Trimmed(Split(TrimStart(x), ',')) == Trimmed(Split(x, ','))
  {
    hide Split, Trimmed, IsSpace;
    if x != "" && IsSpace(x[0]) {
      assert x == [x[0]] + x[1..];
      SpaceInFront(x[1..], x[0]);
      StartIsMoot(x[1..]);
    }
  }

  lemma {:induction false} EndIsMoot(x: string)
    ensures Trimmed(Split(TrimEnd(x), ',')) == Trimmed(Split(x, ','))
  {
    hide Split, Trimmed, IsSpace;
    if x != "" && IsSpace(x[|x| - 1]) {
      assert x == x[..|x| - 1] + [x[|x| - 1]];
      SpaceBehind(x[..|x| - 1], x[|x| - 1]);
      EndIsMoot(x[..|x| - 1]);
    }
  }

  /** Splitting a list before or after it is trimmed gives the same scopes. */
  lemma TrimmingIsMoot(x: string)
    ensures Trimmed(Split(TrimSpace(x), ',')) == Trimmed(Split(x, ','))
  {
    hide Split, Trimmed, TrimStart, TrimEnd;
    StartIsMoot(x);
    EndIsMoot(TrimStart(x));
  }

  /** Nothing is left of a text exactly when it is all white space. */
  lemma BlankMeans(x: string)
    ensures TrimSpace(x) == "" <==> forall c :: c in x ==> IsSpace(c)
  {
    hide IsSpace;
    StartOf(x);
    EndOf(TrimStart(x));
  }

  lemma {:induction false} StartOf(x: string)
    ensures forall c :: c in x && !IsSpace(c) ==> c in TrimStart(x)
    ensures forall c :: c in TrimStart(x) ==> c in x
    ensures TrimStart(x) != "" ==> !IsSpace(TrimStart(x)[0])
  {
    hide IsSpace;
    if x != "" && IsSpace(x[0]) {
      assert x == [x[0]] + x[1..];
      StartOf(x[1..]);
    }
  }

  lemma {:induction false} EndOf(x: string)
    ensures forall c :: c in x && !IsSpace(c) ==> c in TrimEnd(x)
    ensures forall c :: c in TrimEnd(x) ==> c in x
  {
    hide IsSpace;
    if x != "" && IsSpace(x[|x| - 1]) {
      assert x == x[..|x| - 1] + [x[|x| - 1]];
      EndOf(x[..|x| - 1]);
    }
  }

  // ---------- lists of scopes ----------

  /** What a list of scopes allows, whatever the request. */
  ghost predicate ListAllows(list: seq<string>, method_: string, path: string) {
    exists s :: s in list && Grants(TrimSpace(s), method_, ResourceFor(path))
  }

  /** What a token is made from: parts without commas, blank ones and white space included. */
  predicate Parts(list: seq<string>) { |list| > 0 && forall s :: s in list ==> ',' !in s }

  /** A single blank part is no list at all, and full access. */
  predicate FullAccess(list: seq<string>) { |list| == 1 && TrimSpace(list[0]) == "" }

  lemma FullAccessIsBlank(list: seq<string>)
    requires Parts(list)
    ensures TrimSpace(Join(list, ",")) == "" <==> FullAccess(list)
  {
    hide TrimSpace;
    if |list| > 1 {
      var j := Join(list, ",");
      assert j[|list[0]|] == ',' && ',' in j;
      BlankMeans(j);
      CommaIsNoSpace();
    }
  }

  /** A token made from a list of parts allows what some part of the list grants, and everything when the list is one
      blank part. */
  lemma TokenIsItsList(list: seq<string>, method_: string, path: string)
    requires Parts(list)
    ensures TokenAllows(Join(list, ","), method_, path) <==> FullAccess(list) || ListAllows(list, method_, path)
  {
    hide Join, Split, TrimSpace, Grants, ResourceFor, FullAccess;
    var x := Join(list, ",");
    FullAccessIsBlank(list);
    SplitJoin(list, ',');
    TrimmingIsMoot(x);
    SameGrants(Split(TrimSpace(x), ','), list, method_, path);
  }

  lemma SameGrants(a: seq<string>, b: seq<string>, method_: string, path: string)
    requires Trimmed(a) == Trimmed(b)
    ensures ListAllows(a, method_, path) <==> ListAllows(b, method_, path)
  {
    hide TrimSpace, Grants, ResourceFor;
    GrantsWithin(a, b, method_, path);
    GrantsWithin(b, a, method_, path);
  }

  lemma GrantsWithin(a: seq<string>, b: seq<string>, method_: string, path: string)
    requires Trimmed(a) == Trimmed(b)
    ensures ListAllows(a, method_, path) ==> ListAllows(b, method_, path)
  {
    hide TrimSpace, Grants, ResourceFor;
    if ListAllows(a, method_, path) {
      var s :| s in a && Grants(TrimSpace(s), method_, ResourceFor(path));
      var i :| 0 <= i < |a| && a[i] == s;
      assert Trimmed(a)[i] == Trimmed(b)[i] && b[i] in b;
    }
  }

  /** Adding to a list that is not full access only widens; reordering changes nothing; and neither does repeating a
      part of a list that is not full access. */
  lemma ScopesOnlyWiden(list: seq<string>, more: seq<string>, method_: string, path: string)
    requires Parts(list) && Parts(more)
    ensures (forall s :: s in list ==> s in more) && !FullAccess(list) ==>
              (TokenAllows(Join(list, ","), method_, path) ==> TokenAllows(Join(more, ","), method_, path))
    ensures multiset(list) == multiset(more) ==>
              (TokenAllows(Join(list, ","), method_, path) <==> TokenAllows(Join(more, ","), method_, path))
  {
    hide TokenAllows, Join, Grants, Parts, FullAccess;
    TokenIsItsList(list, method_, path);
    TokenIsItsList(more, method_, path);
    if multiset(list) == multiset(more) {
      assert forall s :: s in list <==> s in multiset(list);
      assert forall s :: s in more <==> s in multiset(more);
      assert FullAccess(list) <==> FullAccess(more) by { SameAccess(list, more); }
    }
  }

  lemma SameAccess(a: seq<string>, b: seq<string>)
    requires multiset(a) == multiset(b)
    ensures FullAccess(a) <==> FullAccess(b)
  {
    hide TrimSpace;
    assert |multiset(a)| == |a| && |multiset(b)| == |b|;
    if |a| == 1 {
      assert a[0] in multiset(a) && a[0] in multiset(b) && a[0] in b;
    }
  }

  /** A write scope allows everything the read scope of the same resource does. */
  lemma WriteCoversRead(resource: string, method_: string, actual: string)
    requires ':' !in resource
    ensures Grants(resource + ":read", method_, actual) ==> Grants(resource + ":write", method_, actual)
  {
    hide IndexOf;
    IndexOfAppend(resource, ':', "read");
    IndexOfAppend(resource, ':', "write");
    assert resource + ":read" == resource + [':'] + "read" && resource + ":write" == resource + [':'] + "write";
    assert (resource + ":write")[..|resource|] == resource && (resource + ":write")[|resource| + 1..] == "write";
    assert (resource + ":read")[..|resource|] == resource;
  }

  // ---------- what a token may not do ----------

  /** A scope that only reads: "read", or a resource and ":read". */
  ghost predicate ReadScope(scope: string) {
    scope == "read" || exists r :: ':' !in r && scope == r + ":read"
  }

  lemma NamedScope(r: string, action: string)
    requires ':' !in r
    ensures var scope := r + ":" + action;
            IndexOf(scope, ':') == |r| && scope[..|r|] == r && scope[|r| + 1..] == action && scope != ""
  {
    hide IndexOf;
    IndexOfAppend(r, ':', action);
    assert r + ":" + action == r + [':'] + action;
  }

  /** A scope that names a resource grants requests for that resource alone, and only those its action allows. */
  lemma NamedScopeGrants(r: string, action: string, method_: string, resource: string)
    requires ':' !in r
    ensures Grants(r + ":" + action, method_, resource) <==>
            resource == r != "" && (action == "write" || (action == "read" && method_ in {"GET", "HEAD", "OPTIONS"}))
  {
    hide IndexOf;
    NamedScope(r, action);
  }

  /** A scope without a resource is "read" or "write", for every path. */
  lemma PlainScopeGrants(scope: string, method_: string, resource: string)
    requires ':' !in scope
    ensures Grants(scope, method_, resource) <==>
            scope == "write" || (scope == "read" && method_ in {"GET", "HEAD", "OPTIONS"})
  {
    hide IndexOf;
  }

  /** A token whose scopes all read allows no request that writes. */
  lemma ReadersDoNotWrite(scopes: string, method_: string, path: string)
    requires TrimSpace(scopes) != "" && method_ !in {"GET", "HEAD", "OPTIONS"}
    requires forall s :: s in Split(scopes, ',') ==> TrimSpace(s) == "" || ReadScope(TrimSpace(s))
    ensures !TokenAllows(scopes, method_, path)
  {
    hide Split, TrimSpace, Grants, ResourceFor;
    var given, used := Split(scopes, ','), Split(TrimSpace(scopes), ',');
    TrimmingIsMoot(scopes);
    SameGrants(given, used, method_, path);
    forall s | s in given ensures !Grants(TrimSpace(s), method_, ResourceFor(path)) {
      ReaderDoesNotWrite(TrimSpace(s), method_, ResourceFor(path));
    }
  }

  lemma ReaderDoesNotWrite(scope: string, method_: string, resource: string)
    requires scope == "" || ReadScope(scope)
    requires method_ !in {"GET", "HEAD", "OPTIONS"}
    ensures !Grants(scope, method_, resource)
  {
    hide Grants;
    if scope == "" {
      NothingGranted(method_, resource);
    } else if scope == "read" {
      PlainScopeGrants(scope, method_, resource);
    } else {
      var r :| ':' !in r && scope == r + ":read";
      assert r + ":read" == r + ":" + "read";
      NamedScopeGrants(r, "read", method_, resource);
    }
  }

  /** A token whose scopes all name one resource allows requests for that resource alone. */
  lemma ScopesStayInside(r: string, scopes: string, method_: string, path: string)
    requires TrimSpace(scopes) != "" && ':' !in r
    requires forall s :: s in Split(scopes, ',') ==> TrimSpace(s) in {r + ":read", r + ":write"}
    ensures TokenAllows(scopes, method_, path) ==> ResourceFor(path) == r
  {
    hide Split, TrimSpace, Grants, ResourceFor;
    var given, used := Split(scopes, ','), Split(TrimSpace(scopes), ',');
    TrimmingIsMoot(scopes);
    SameGrants(given, used, method_, path);
    assert r + ":read" == r + ":" + "read" && r + ":write" == r + ":" + "write";
    NamedScopeGrants(r, "read", method_, ResourceFor(path));
    NamedScopeGrants(r, "write", method_, ResourceFor(path));
  }

  /** Two routes belong to a resource of another name. */
  lemma RenamedRoutes(rest: seq<string>)
    requires PlainSegments(rest) && (|rest| >= 2 ==> rest[1] !in NESTED)
    ensures ResourceFor("/" + Join(["api", "components"] + rest, "/")) == "settings"
    ensures ResourceFor("/" + Join(["api", "audit"] + rest, "/")) == "teams"
  {
    hide Join, Table, ResourceFor;
    RoutesAreGood();
    TableOf(ROUTES);
    assert ROUTES[10] == Route("components", "settings") && ROUTES[11] == Route("audit", "teams");
    assert ROUTES[10] in ROUTES && ROUTES[11] in ROUTES;
    RouteSegments("components", rest);
    RouteSegments("audit", rest);
  }

  lemma RouteSegments(name: string, rest: seq<string>)
    requires PlainSegments(rest) && name != "" && '/' !in name && name in Table(ROUTES)
    requires |rest| >= 2 ==> rest[1] !in NESTED
    ensures ResourceFor("/" + Join(["api", name] + rest, "/")) == Table(ROUTES)[name]
  {
    hide Join, Table, ResourceFor, BySegments, PlainSegments;
    var segments := ["api", name] + rest;
    PlainBefore(name, rest);
    ResourceOfSegments(segments);
    assert segments[0] == "api" && segments[1] == name && (|rest| >= 2 ==> segments[3] == rest[1]);
    BySecond(Table(ROUTES), segments);
  }

  lemma PlainBefore(name: string, rest: seq<string>)
    requires PlainSegments(rest) && name != "" && '/' !in name
    ensures PlainSegments(["api", name] + rest)
  {
    var segments := ["api", name] + rest;
    forall s | s in segments ensures s != "" && '/' !in s {
      assert s == "api" || s == name || s in rest;
    }
  }

  lemma BySecond(table: map<string, string>, segments: seq<string>)
    requires |segments| >= 2 && segments[0] == "api" && segments[1] in table
    requires |segments| >= 4 ==> segments[3] !in NESTED
    ensures BySegments(table, segments) == table[segments[1]]
  {
  }

  // ---------- making a token ----------

  predicate ValidScope(scope: string) {
    var colon := IndexOf(scope, ':');
    || scope in {"", "read", "write"}
    || (colon < |scope| && scope[colon + 1..] in {"read", "write"} && scope[..colon] in RESOURCES)
  }

  ghost predicate ValidScopes(scopes: string) {
    TrimSpace(scopes) == "" || forall s :: s in Split(scopes, ',') ==> ValidScope(TrimSpace(s))
  }

  method ValidateScopes(scopes: string) returns (valid: bool)
    ensures valid <==> ValidScopes(scopes)
  {
    hide Split, TrimSpace, ValidScope;
    if TrimSpace(scopes) == "" {
      return true;
    }
    var list := Split(scopes, ',');
    for i := 0 to |list|
      invariant forall k :: 0 <= k < i ==> ValidScope(TrimSpace(list[k]))
    {
      if !ValidScope(TrimSpace(list[i])) {
        assert list[i] in list;
        return false;
      }
    }
    return true;
  }

  predicate PlainSegments(segments: seq<string>) {
    |segments| > 0 && forall s :: s in segments ==> s != "" && '/' !in s
  }

  lemma {:induction false} JoinPlain(segments: seq<string>)
    requires PlainSegments(segments)
    ensures var j := Join(segments, "/"); j != "" && j[0] != '/' && j[|j| - 1] != '/'
  {
    assert segments[0] in segments;
    if |segments| > 1 {
      assert forall s :: s in segments[1..] ==> s in segments;
      JoinPlain(segments[1..]);
      var j, rest := Join(segments, "/"), Join(segments[1..], "/");
      assert j[0] == segments[0][0] && j[|j| - 1] == rest[|rest| - 1];
    }
  }

  /** Every path is the resource its segments say. */
  lemma ResourceOfSegments(segments: seq<string>)
    requires PlainSegments(segments)
    ensures ResourceFor("/" + Join(segments, "/")) == BySegments(Table(ROUTES), segments)
  {
    hide Join, Split, Table, ResourceIn, BySegments, GoodRoutes;
    RoutesAreGood();
    var j := Join(segments, "/");
    var raw := "/" + j;
    JoinPlain(segments);
    assert raw[1..] == j;
    assert TrimSlashes(raw) == j;
    SplitJoin(segments, '/');
    assert ['/'] == "/";
    ResourceBySegments(ROUTES, raw);
  }

  /** Where a name stands in the table, told from its length and first letter. */
  function Rank(name: string): nat {
    if |name| == 2 then 0
    else if |name| == 4 then 4
    else if |name| == 5 then if name[0] == 't' then 1 else 11
    else if |name| == 6 then 8
    else if |name| == 7 then 2
    else if |name| == 8 then if name[0] == 'p' then 3 else 9
    else if |name| == 9 then if name[0] == 'd' then 5 else 7
    else if |name| == 10 then if name[0] == 'o' then 6 else 10
    else 12
  }

  lemma RanksAreDistinct(routes: seq<Route>)
    requires forall i :: 0 <= i < |routes| ==> Rank(routes[i].name) == i
    ensures forall i, j :: 0 <= i < j < |routes| ==> routes[i].name != routes[j].name
  {
    hide Rank;
    forall i, j | 0 <= i < j < |routes| ensures routes[i].name != routes[j].name {
      assert Rank(routes[i].name) != Rank(routes[j].name);
    }
  }

  /** The names in the table are plain and differ. */
  lemma RoutesAreGood()
    ensures GoodRoutes(ROUTES)
  {
    hide Rank;
    RoutesRanked();
    RanksAreDistinct(ROUTES);
    RoutesArePlain();
  }

  lemma RoutesRanked()
    ensures forall i :: 0 <= i < |ROUTES| ==> Rank(ROUTES[i].name) == i
  {
  }

  lemma RoutesArePlain()
    ensures forall i :: 0 <= i < |ROUTES| ==> ROUTES[i].name != "" && '/' !in ROUTES[i].name
  {
  }

  lemma RoutesReach(resource: string) returns (name: string)
    requires resource in RESOURCES && resource !in {"deployments", "backups"}
    ensures name in Table(ROUTES) && Table(ROUTES)[name] == resource && name != "" && '/' !in name
  {
    hide Table, GoodRoutes;
    RoutesAreGood();
    TableOf(ROUTES);
    var i := RouteOf(resource);
    name := ROUTES[i].name;
    assert ROUTES[i] in ROUTES;
    RouteIsPlain(ROUTES, i);
  }

  lemma RouteIsPlain(routes: seq<Route>, i: nat)
    requires GoodRoutes(routes) && i < |routes|
    ensures routes[i].name != "" && '/' !in routes[i].name
  {
  }

  function RouteOf(resource: string): (i: nat)
    requires resource in RESOURCES && resource !in {"deployments", "backups"}
    ensures i < |ROUTES| && ROUTES[i].resource == resource
  {
    if resource == "account" then 0
    else if resource == "teams" then 1
    else if resource == "servers" then 2
    else if resource == "projects" then 3
    else if resource == "apps" then 4
    else if resource == "databases" then 5
    else if resource == "operations" then 6
    else if resource == "templates" then 7
    else if resource == "events" then 8
    else 9
  }

  /** Every resource a scope may name is the resource of some path. */
  lemma ResourceIsReached(resource: string) returns (path: string)
    requires resource in RESOURCES
    ensures ResourceFor(path) == resource
  {
    hide Table, ResourceFor, Join;
    if resource in {"deployments", "backups"} {
      var segments := ["api", "apps", "x", resource];
      path := "/" + Join(segments, "/");
      ResourceOfSegments(segments);
    } else {
      var name := RoutesReach(resource);
      var segments := ["api", name];
      path := "/" + Join(segments, "/");
      ResourceOfSegments(segments);
    }
  }

  /** No scope that is accepted is idle: each one grants some request. */
  lemma ValidScopesReach(scope: string) returns (path: string)
    requires ValidScope(scope) && scope != ""
    ensures Grants(scope, "GET", ResourceFor(path))
  {
    hide ResourceFor, IndexOf;
    var colon := IndexOf(scope, ':');
    path := "/";
    if scope !in {"read", "write"} {
      path := ResourceIsReached(scope[..colon]);
    }
  }

  lemma {:induction false} OnlyBlankParts(x: string)
    ensures (forall s :: s in Split(x, ',') ==> TrimSpace(s) == "") <==> forall c :: c in x ==> c == ',' || IsSpace(c)
    decreases |x|
  {
    hide IsSpace, IndexOf, TrimSpace;
    var i := IndexOf(x, ',');
    if i == |x| {
      BlankMeans(x);
    } else {
      var head, tail := x[..i], x[i + 1..];
      assert x == head + [','] + tail;
      assert Split(x, ',') == [head] + Split(tail, ',');
      BlankMeans(head);
      OnlyBlankParts(tail);
      BlankAround(head, tail, Split(tail, ','));
    }
  }

  lemma BlankAround(head: string, tail: string, rest: seq<string>)
    requires TrimSpace(head) == "" <==> forall c :: c in head ==> IsSpace(c)
    requires (forall s :: s in rest ==> TrimSpace(s) == "") <==> forall c :: c in tail ==> c == ',' || IsSpace(c)
    requires ',' !in head
    ensures (forall s :: s in [head] + rest ==> TrimSpace(s) == "") <==>
            forall c :: c in head + [','] + tail ==> c == ',' || IsSpace(c)
  {
    hide TrimSpace, IsSpace;
    assert forall c :: c in head + [','] + tail <==> c in head || c == ',' || c in tail;
    assert forall s :: s in [head] + rest <==> s == head || s in rest;
  }

  /** An accepted list that is not blank makes a token that may do nothing, if and only if it is made of commas and
      white space alone. */
  lemma IdleExactly(scopes: string)
    requires ValidScopes(scopes) && TrimSpace(scopes) != ""
    ensures (forall m, p :: !TokenAllows(scopes, m, p)) <==> forall c :: c in scopes ==> c == ',' || IsSpace(c)
    ensures (forall m, p :: !TokenAllows(scopes, m, p)) <==>
            forall s :: s in Split(TrimSpace(scopes), ',') ==> TrimSpace(s) == ""
  {
    hide Split, TrimSpace, Grants, ResourceFor, IsSpace, ValidScope;
    var given, used := Split(scopes, ','), Split(TrimSpace(scopes), ',');
    TrimmingIsMoot(scopes);
    OnlyBlankParts(scopes);
    SameBlanks(given, used);
    if forall s :: s in used ==> TrimSpace(s) == "" {
      forall m, p ensures !TokenAllows(scopes, m, p) {
        NothingGranted(m, ResourceFor(p));
      }
    } else {
      var s :| s in given && TrimSpace(s) != "";
      var path := ValidScopesReach(TrimSpace(s));
      assert ListAllows(given, "GET", path);
      SameGrants(given, used, "GET", path);
      assert TokenAllows(scopes, "GET", path);
    }
  }

  lemma NothingGranted(method_: string, resource: string)
    ensures !Grants("", method_, resource)
  {
  }

  lemma SameBlanks(a: seq<string>, b: seq<string>)
    requires Trimmed(a) == Trimmed(b)
    ensures (forall s :: s in a ==> TrimSpace(s) == "") <==> forall s :: s in b ==> TrimSpace(s) == ""
  {
    hide TrimSpace;
    assert forall i :: 0 <= i < |a| ==> Trimmed(a)[i] == Trimmed(b)[i];
    if forall s :: s in a ==> TrimSpace(s) == "" {
      forall s | s in b ensures TrimSpace(s) == "" {
        var i :| 0 <= i < |b| && b[i] == s;
        assert a[i] in a;
      }
    }
    if forall s :: s in b ==> TrimSpace(s) == "" {
      forall s | s in a ensures TrimSpace(s) == "" {
        var i :| 0 <= i < |a| && a[i] == s;
        assert b[i] in b;
      }
    }
  }

  /** The shortest such list. */
  lemma CommasReachNothing(method_: string, path: string)
    ensures ValidScopes(",") && !TokenAllows(",", method_, path)
  {
    hide ResourceFor;
    assert Split(",", ',') == ["", ""] by {
      assert IndexOf(",", ',') == 0 && ","[1..] == "";
      assert IndexOf("", ',') == 0;
    }
    assert TrimSpace(",") == "," && TrimSpace("") == "";
  }

  /** Exactly which scopes are accepted: blank, "read", "write", and a known resource with one of these actions. */
  lemma ValidExactly(r: string, action: string, plain: string)
    requires ':' !in r && ':' !in plain
    ensures ValidScope(r + ":" + action) <==> r in RESOURCES && action in {"read", "write"}
    ensures ValidScope(plain) <==> plain in {"", "read", "write"}
  {
    hide IndexOf, RESOURCES;
    NamedScope(r, action);
    var scope := r + ":" + action;
    assert scope[|r|] == ':' && ':' in scope;
    assert ':' !in "" && ':' !in "read" && ':' !in "write";
  }

  /** A collection inside another route belongs to itself, whatever the route. */
  lemma NestedWins(segments: seq<string>)
    requires PlainSegments(segments) && |segments| >= 4 && segments[3] in NESTED
    ensures ResourceFor("/" + Join(segments, "/")) == segments[3]
  {
    hide Join, Table, ResourceFor;
    ResourceOfSegments(segments);
  }

  /** What is left of an environment belongs to its project, and a path outside the table to nothing. */
  lemma OtherRoutes(name: string, rest: seq<string>)
    requires PlainSegments(["api", name] + rest) && name !in Table(ROUTES) && (|rest| >= 2 ==> rest[1] !in NESTED)
    ensures ResourceFor("/" + Join(["api", name] + rest, "/")) == if "environments" <= name then "projects" else ""
  {
    hide Join, Table, ResourceFor;
    var segments := ["api", name] + rest;
    ResourceOfSegments(segments);
    assert segments[0] == "api" && segments[1] == name && (|rest| >= 2 ==> segments[3] == rest[1]);
  }

  /** Slashes around a path make no difference. */
  lemma {:induction false} SlashesAreMoot(raw: string)
    ensures ResourceFor(raw + "/") == ResourceFor(raw) == ResourceFor("/" + raw)
  {
    hide ResourceIn;
    assert ("/" + raw)[1..] == raw;
    TrimSlashesAfter(raw);
    hide TrimSlashes;
    SameResource(raw + "/", raw);
    SameResource("/" + raw, raw);
  }

  lemma SameResource(a: string, b: string)
    requires TrimSlashes(a) == TrimSlashes(b)
    ensures ResourceFor(a) == ResourceFor(b)
  {
    hide Scan, TrimSlashes, Split;
  }

  lemma {:induction false} TrimSlashesAfter(raw: string)
    ensures TrimSlashes(raw + "/") == TrimSlashes(raw)
  {
    if raw == "" {
      assert raw + "/" == "/" && "/"[1..] == "";
    } else if raw[0] == '/' {
      assert (raw + "/")[1..] == raw[1..] + "/";
      TrimSlashesAfter(raw[1..]);
    } else {
      assert (raw + "/")[..|raw|] == raw;
    }
  }
}
