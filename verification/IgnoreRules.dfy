/** Ignore lines, rules and the decision for one path (internal/cli/ignore.go). */
module IgnoreRules {
  import opened Text
  import opened Regexp
  import opened Glob

  // ---------- one line ----------

  /** What a line says. `anchored` ties the glob to the directory of its file; otherwise it matches at any depth. */
  datatype Line = Line(negate: bool, dirOnly: bool, anchored: bool, glob: string)

  datatype Rule = Rule(base: string, pattern: Regex, negate: bool, dirOnly: bool)

  function ReadLine(line: string): Option<Line> {
    var t := TrimRight(line, {' ', '\t', '\r'});
    if t == "" || t[0] == '#' then None
    else
      var negate := t[0] == '!';
      ReadBody(negate, if negate || Escapes(t) then t[1..] else t)
  }

  /** A backslash that only takes the meaning away from what follows it. */
  predicate Escapes(t: string) { |t| >= 2 && t[0] == '\\' && t[1] in {'!', '#'} }

  function ReadBody(negate: bool, body: string): Option<Line> {
    var dirOnly := body != "" && body[|body| - 1] == '/';
    var p := if dirOnly then TrimRight(body, {'/'}) else body;
    if p == "" then None
    else Some(Line(negate, dirOnly, '/' in p, if p[0] == '/' then p[1..] else p))
  }

  /** A line that could have been read from a file. */
  predicate WellFormed(l: Line) {
    && l.glob != "" && l.glob[|l.glob| - 1] != '/'
    && (!l.dirOnly ==> l.glob[|l.glob| - 1] !in {' ', '\t', '\r'})
    && (!l.anchored ==> '/' !in l.glob)
    && (!l.anchored && !l.negate ==> !Escapes(l.glob))
  }

  /** One way to write a line down: always with a leading slash when anchored, and a backslash before a first character
      that would read as something else. */
  function Render(l: Line): string {
    (if l.negate then "!" else if !l.anchored && l.glob != "" && l.glob[0] in {'!', '#'} then "\\" else "") + Body(l)
  }

  function Body(l: Line): string {
    (if l.anchored then "/" else "") + l.glob + (if l.dirOnly then "/" else "")
  }

  /** What is written down reads back. */
  lemma LineRoundTrip(l: Line)
    requires WellFormed(l)
    ensures ReadLine(Render(l)) == Some(l)
  {
    hide TrimRight, WellFormed, ReadBody, Body;
    var t := Render(l);
    BodyOf(l);
    BodyReads(l);
    Untrimmed(t, {' ', '\t', '\r'});
  }

  lemma BodyReads(l: Line)
    requires WellFormed(l)
    ensures ReadBody(l.negate, Body(l)) == Some(l)
  {
    hide TrimRight;
    var p := (if l.anchored then "/" else "") + l.glob;
    assert p[|p| - 1] == l.glob[|l.glob| - 1];
    assert l.anchored ==> p[0] == '/' && p[1..] == l.glob;
    assert !l.anchored ==> p == l.glob && '/' !in p;
    if l.dirOnly {
      assert Body(l) == p + "/";
      OneSlash(p);
    } else {
      assert Body(l) == p;
    }
  }

  lemma Untrimmed(s: string, cut: set<char>)
    requires s != "" && s[|s| - 1] !in cut
    ensures TrimRight(s, cut) == s
  {
  }

  lemma OneSlash(p: string)
    requires p != "" && p[|p| - 1] != '/'
    ensures TrimRight(p + "/", {'/'}) == p
  {
    assert (p + "/")[..|p|] == p;
  }

  lemma BodyOf(l: Line)
    requires WellFormed(l)
    ensures var t := Render(l);
            && t != "" && t[0] != '#' && t[|t| - 1] !in {' ', '\t', '\r'} && (l.negate <==> t[0] == '!')
            && Body(l) == if l.negate || Escapes(t) then t[1..] else t
  {
    var t, body := Render(l), Body(l);
    BodyEnds(l, body);
    hide Body;
    assert t[|t| - 1] == body[|body| - 1];
    if l.negate {
      assert t[1..] == body;
    } else if !l.anchored && l.glob[0] in {'!', '#'} {
      assert t[1..] == body && t[1] == l.glob[0];
    } else {
      assert t == body;
    }
  }

  lemma BodyEnds(l: Line, body: string)
    requires WellFormed(l) && body == Body(l)
    ensures body != "" && body[0] == if l.anchored then '/' else l.glob[0]
    ensures body[|body| - 1] == if l.dirOnly then '/' else l.glob[|l.glob| - 1]
    ensures !l.anchored && !l.negate ==> !Escapes(body)
  {
    if !l.anchored {
      assert body == l.glob + if l.dirOnly then "/" else "";
      assert |l.glob| >= 2 ==> body[1] == l.glob[1];
    }
  }

  /** A line with a slash inside it is tied to its directory with or without a leading one. */
  lemma InnerSlash(line: string)
    requires line != "" && line[0] !in {'/', '!', '#', '\\'}
    requires '/' in TrimRight(TrimRight(line, {' ', '\t', '\r'}), {'/'})
    ensures ReadLine(line) == ReadLine("/" + line)
  {
    hide TrimRight, ReadBody;
    var t := TrimRight(line, {' ', '\t', '\r'});
    assert t != "" && t <= line && t[0] == line[0] by { TrimLeaves(line, {' ', '\t', '\r'}); TrimOfNothing({'/'}); }
    TrimAfter(line, {' ', '\t', '\r'});
    var u := TrimRight("/" + line, {' ', '\t', '\r'});
    assert u == "/" + t && u[0] == '/';
    BodyWithSlash(t);
  }

  lemma TrimOfNothing(cut: set<char>)
    ensures TrimRight("", cut) == ""
  {
  }

  lemma TrimLeaves(s: string, cut: set<char>)
    ensures TrimRight(s, cut) <= s
  {
  }

  lemma {:induction false} TrimAfter(s: string, cut: set<char>)
    requires TrimRight(s, cut) != ""
    ensures TrimRight("/" + s, cut) == "/" + TrimRight(s, cut)
  {
    var t := "/" + s;
    if s != "" && s[|s| - 1] in cut {
      assert t[..|t| - 1] == "/" + s[..|s| - 1];
      TrimAfter(s[..|s| - 1], cut);
    }
  }

  lemma BodyWithSlash(body: string)
    requires body != "" && body[0] != '/' && '/' in TrimRight(body, {'/'})
    ensures ReadBody(false, body) == ReadBody(false, "/" + body)
  {
    hide TrimRight;
    TrimAfter(body, {'/'});
    TrimLeaves(body, {'/'});
    if body[|body| - 1] != '/' {
      Untrimmed(body, {'/'});
    }
    assert ("/" + body)[|body|] == body[|body| - 1];
    WithSlash(TrimRight(body, {'/'}));
  }

  lemma WithSlash(p: string)
    requires '/' in p
    ensures ("/" + p)[0] == '/' && ("/" + p)[1..] == p && '/' in "/" + p
  {
    assert ("/" + p)[0] == '/';
  }

  /** Blank lines and comments say nothing. */
  lemma NothingSaid(line: string)
    ensures ReadLine("#" + line) == None
    ensures (forall c :: c in line ==> c in {' ', '\t', '\r'}) ==> ReadLine(line) == None
  {
    TrimHash(line);
    if forall c :: c in line ==> c in {' ', '\t', '\r'} {
      TrimBlank(line);
    }
  }

  lemma {:induction false} TrimHash(line: string)
    ensures var t := TrimRight("#" + line, {' ', '\t', '\r'}); t != "" && t[0] == '#'
  {
    var t := "#" + line;
    if line != "" && line[|line| - 1] in {' ', '\t', '\r'} {
      assert t[..|t| - 1] == "#" + line[..|line| - 1];
      TrimHash(line[..|line| - 1]);
    }
  }

  lemma {:induction false} TrimBlank(line: string)
    requires forall c :: c in line ==> c in {' ', '\t', '\r'}
    ensures TrimRight(line, {' ', '\t', '\r'}) == ""
  {
    if line != "" {
      var front := line[..|line| - 1];
      assert line[|line| - 1] in line;
      forall c | c in front ensures c in line {
        var i :| 0 <= i < |front| && front[i] == c;
        assert line[i] == c;
      }
      TrimBlank(front);
    }
  }

  /** Only well-formed lines are read. */
  lemma LinesAreWellFormed(line: string)
    ensures ReadLine(line).Some? ==> WellFormed(ReadLine(line).value)
  {
    hide ReadBody, WellFormed;
    var t := TrimRight(line, {' ', '\t', '\r'});
    if t != "" && t[0] != '#' {
      var negate := t[0] == '!';
      var body := if negate || Escapes(t) then t[1..] else t;
      assert body != "" ==> body[|body| - 1] == t[|t| - 1];
      BodiesAreWellFormed(negate, body);
    }
  }

  lemma BodiesAreWellFormed(negate: bool, body: string)
    requires body != "" ==> body[|body| - 1] !in {' ', '\t', '\r'}
    requires !negate ==> !Escapes(body)
    ensures ReadBody(negate, body).Some? ==> WellFormed(ReadBody(negate, body).value)
  {
    var r := ReadBody(negate, body);
    if r.Some? {
      var dirOnly := body[|body| - 1] == '/';
      var p := if dirOnly then TrimRight(body, {'/'}) else body;
      hide TrimRight;
      TrimLeaves(body, {'/'});
      var glob := if p[0] == '/' then p[1..] else p;
      assert p[|p| - 1] != '/' && glob != "" && glob[|glob| - 1] == p[|p| - 1];
      if '/' !in p {
        assert glob == p && p <= body;
        assert Escapes(glob) ==> Escapes(body);
      }
    }
  }

  function Expression(anchored: bool, glob: string): string {
    (if anchored then "^" else "^(?:.*/)?") + RegexpText(glob) + "$"
  }

  /** The rule a line adds, if it adds one. */
  function RuleOf(base: string, line: string): Option<Rule> {
    var l := ReadLine(line);
    if l.None? then None
    else
      var compiled := Compile(Expression(l.value.anchored, l.value.glob));
      if compiled.None? then None else Some(Rule(base, compiled.value, l.value.negate, l.value.dirOnly))
  }

  function RulesOf(base: string, lines: seq<string>): seq<Rule> {
    if lines == [] then []
    else
      var last := RuleOf(base, lines[|lines| - 1]);
      RulesOf(base, lines[..|lines| - 1]) + if last.Some? then [last.value] else []
  }

  /** A glob at any depth: at the top, or after a run of directories. */
  ghost predicate MatchesAtAnyDepth(glob: string, s: string) {
    GlobMatch(glob, s) || exists k :: EndsDirs(s, k) && GlobMatch(glob, s[k + 1..])
  }

  /** A line's expression compiles exactly when no class in it runs backwards, and then accepts exactly the paths its
      glob matches. */
  lemma ExpressionMeans(anchored: bool, glob: string, s: string)
    requires Modelled(glob)
    ensures var r := Compile(Expression(anchored, glob));
            && (r.Some? <==> Valid(glob))
            && (r.Some? ==> (Accepts(r.value, s) <==>
                             if anchored then GlobMatch(glob, s) else MatchesAtAnyDepth(glob, s)))
  {
    hide Accepts, GlobMatch, TokenText, TokenAt, ParseSequence, ParseRepeated;
    var rest := RegexpText(glob) + "$";
    GlobParses(glob);
    if anchored {
      assert Expression(true, glob) == "^" + rest && ("^" + rest)[1..] == rest;
      if Valid(glob) {
        TranslationAgrees(glob, s);
      }
    } else {
      var dirs := "(?:.*/)?" + rest;
      assert Expression(false, glob) == "^" + dirs && ("^" + dirs)[1..] == dirs;
      TextFollows(glob);
      AnyDirsParses(rest);
      SequenceStep(dirs, rest, TokenRegex(AnyDirs));
      if Valid(glob) {
        DirsThen(Translate(glob), s);
        TranslationAgrees(glob, s);
        forall k | EndsDirs(s, k) ensures Accepts(Translate(glob), s[k + 1..]) <==> GlobMatch(glob, s[k + 1..]) {
          TranslationAgrees(glob, s[k + 1..]);
        }
      }
    }
  }

  /** What the compiler makes of the expression for `[]*`: the bracket that closes the empty class is its first member,
      and the class goes on into what was written for the star. */
  const SWALLOWED := Class(false, [(']', ']'), ('[', '['), ('^', '^'), ('/', '/')])

  /** A glob with an empty class is outside what is covered because it means something else: `[]*` matches nothing read
      as a glob, and its expression accepts the empty path and any run of brackets, carets and slashes. */
  lemma EmptyClassSwallows(s: string)
    ensures Compile(Expression(true, "[]*")) == Some(Cat(Star(One(SWALLOWED)), Empty))
    ensures Accepts(Cat(Star(One(SWALLOWED)), Empty), s) <==> forall c :: c in s ==> c in {']', '[', '^', '/'}
    ensures !GlobMatch("[]*", s)
  {
    hide Accepts, Compile, Expression, GlobMatch;
    SwallowCompiles();
    SwallowAccepts(s);
    NoEmptyClass(s);
  }

  lemma SwallowCompiles()
    ensures Compile(Expression(true, "[]*")) == Some(Cat(Star(One(SWALLOWED)), Empty))
  {
    hide ParseRepeated, RegexpText;
    EmptyClassText();
    var text := "[][^/]*$";
    assert Expression(true, "[]*") == "^" + text && ("^" + text)[1..] == text;
    SwallowParses();
    SequenceStep(text, "$", Star(One(SWALLOWED)));
    assert ParseSequence("$") == Parsed(Empty, "$");
  }

  lemma SwallowAccepts(s: string)
    ensures Accepts(Cat(Star(One(SWALLOWED)), Empty), s) <==> forall c :: c in s ==> c in {']', '[', '^', '/'}
  {
    hide Accepts, InSet;
    EmptyEnds(Star(One(SWALLOWED)), s);
    StarOfSet(SWALLOWED, s);
    forall i | 0 <= i < |s| ensures InSet(s[i], SWALLOWED) <==> s[i] in {']', '[', '^', '/'} {
      InSwallowed(s[i]);
    }
    if AllIn(s, SWALLOWED) {
      forall c | c in s ensures c in {']', '[', '^', '/'} {
        var i :| 0 <= i < |s| && s[i] == c;
      }
    } else {
      var i :| 0 <= i < |s| && !InSet(s[i], SWALLOWED);
      assert s[i] in s;
    }
  }

  lemma EmptyClassText()
    ensures RegexpText("[]*") == "[][^/]*"
  {
    assert "[]*"[1..] == "]*" && IndexOf("]*", ']') == 0 && "[]*"[1..1] == "";
    assert TokenAt("[]*") == (OneOf(false, ""), 2) && "[]*"[2..] == "*";
    assert TokenAt("*") == (AnyName, 1) && "*"[1..] == "";
    assert RegexpText("*") == "[^/]*" + RegexpText("") == "[^/]*";
    assert TokenText(OneOf(false, "")) == "[]";
  }

  lemma NoEmptyClass(s: string)
    ensures !GlobMatch("[]*", s)
  {
    assert "[]*"[1..] == "]*" && IndexOf("]*", ']') == 0 && "[]*"[1..1] == "";
    assert TokenAt("[]*") == (OneOf(false, ""), 2);
    assert Ranges("") == Some([]);
  }

  lemma InSwallowed(c: char)
    ensures InSet(c, SWALLOWED) <==> c in {']', '[', '^', '/'}
  {
    var ranges := SWALLOWED.ranges;
    assert InRanges(c, ranges) <==> exists i :: 0 <= i < |ranges| && ranges[i].0 <= c <= ranges[i].1;
    assert ranges[0] == (']', ']') && ranges[1] == ('[', '[') && ranges[2] == ('^', '^') && ranges[3] == ('/', '/');
  }

  lemma SwallowParses()
    ensures ParseRepeated("[][^/]*$") == Parsed(Star(One(SWALLOWED)), "$")
  {
    hide ParseMembers;
    assert "[][^/]*$"[1..] == "][^/]*$" && "*$"[1..] == "$";
    SwallowMembers();
    assert ParseAtom("[][^/]*$") == Parsed(One(SWALLOWED), "*$");
  }

  lemma SwallowMembers()
    ensures ParseMembers("][^/]*$", true) == Parsed(SWALLOWED.ranges, "*$")
  {
    var t := "][^/]*$";
    assert t[1..] == "[^/]*$" && "[^/]*$"[1..] == "^/]*$" && "^/]*$"[1..] == "/]*$" && "/]*$"[1..] == "]*$";
    assert "]*$"[1..] == "*$" && "*$"[1..] == "$";
    assert ParseMembers("]*$", false) == Parsed([], "*$");
    Member("/]*$", '/', []);
    assert [('/', '/')] + [] == [('/', '/')];
    Member("^/]*$", '^', [('/', '/')]);
    assert [('^', '^')] + [('/', '/')] == [('^', '^'), ('/', '/')];
    Member("[^/]*$", '[', [('^', '^'), ('/', '/')]);
    assert [('[', '[')] + [('^', '^'), ('/', '/')] == [('[', '['), ('^', '^'), ('/', '/')];
    assert ParseChar(t) == Parsed(']', "[^/]*$");
    assert [(']', ']')] + [('[', '['), ('^', '^'), ('/', '/')] == SWALLOWED.ranges;
  }

  lemma Member(t: string, c: char, more: seq<(char, char)>)
    requires |t| >= 2 && t[0] == c && c !in {']', '\\'} && t[1] !in {'-', ':'}
    requires ParseMembers(t[1..], false) == Parsed(more, "*$")
    ensures ParseMembers(t, false) == Parsed([(c, c)] + more, "*$")
  {
    SingleMember(t, false);
  }

  lemma SequenceStep(t: string, rest: string, head: Regex)
    requires t != "" && t[0] != ')' && t[0] != '$' && ParseRepeated(t) == Parsed(head, rest)
    ensures var tail := ParseSequence(rest);
            ParseSequence(t) == if tail.Bad? then Bad else Parsed(Cat(head, tail.value), tail.rest)
  {
    hide ParseRepeated;
  }

  // ---------- base names ----------

  /** path.Base, of a path that does not end in a slash. */
  function Base(rel: string): (name: string)
    ensures '/' !in name
    ensures |name| <= |rel| && rel[|rel| - |name|..] == name
    ensures '/' in rel <==> |name| < |rel|
    ensures |name| < |rel| ==> rel[|rel| - |name| - 1] == '/'
    decreases |rel|
  {
    if rel == "" || rel[|rel| - 1] == '/' then ""
    else
      var front, last := rel[..|rel| - 1], rel[|rel| - 1];
      var name := Base(front);
      assert rel == front + [last];
      assert '/' in rel <==> '/' in front;
      assert rel[|rel| - |name| - 1..] == front[|front| - |name|..] + [last];
      name + [last]
  }

  /** A glob of literals other than a slash, `?` and `*`. */
  predicate NameGlob(g: string)
    decreases |g|
  {
    g == "" || (
      var (token, n) := TokenAt(g);
      (token.AnyName? || token.AnyChar? || (token.Literal? && token.c != '/')) && NameGlob(g[n..]))
  }

  lemma {:induction false} NameGlobHasNoSlash(g: string, s: string)
    requires NameGlob(g) && GlobMatch(g, s)
    ensures '/' !in s
    decreases |g|, |s|
  {
    hide TokenAt;
    if g != "" {
      var (token, n) := TokenAt(g);
      if token.AnyName? && GlobMatch(g[n..], s) {
        NameGlobHasNoSlash(g[n..], s);
      } else {
        assert s == [s[0]] + s[1..];
        NameGlobHasNoSlash(if token.AnyName? then g else g[n..], s[1..]);
      }
    }
  }

  /** A pattern of literals, `?` and `*` without a slash decides on the base name alone, unless a directory above it
      has a newline in its name, which the expression cannot step over. */
  lemma NameGlobDecidesOnBase(g: string, rel: string)
    requires NameGlob(g)
    ensures MatchesAtAnyDepth(g, rel) <==>
            GlobMatch(g, Base(rel)) && '\n' !in rel[..|rel| - |Base(rel)|]
  {
    hide GlobMatch, Base, NameGlob;
    var name := Base(rel);
    var cut := |rel| - |name|;
    if GlobMatch(g, rel) {
      NameGlobHasNoSlash(g, rel);
      assert cut == 0 && rel[0..] == rel;
    }
    if k: int :| EndsDirs(rel, k) && GlobMatch(g, rel[k + 1..]) {
      NameGlobHasNoSlash(g, rel[k + 1..]);
      LastSlash(rel, k, cut - 1);
      assert rel[..cut] == rel[..k] + ['/'];
    }
    if GlobMatch(g, name) && '\n' !in rel[..cut] {
      if cut == 0 {
        assert rel[0..] == rel;
      } else {
        assert rel[..cut - 1] == rel[..cut][..cut - 1];
        assert EndsDirs(rel, cut - 1);
      }
    }
  }

  lemma LastSlash(s: string, i: int, j: int)
    requires 0 <= i < |s| && s[i] == '/' && '/' !in s[i + 1..]
    requires 0 <= j < |s| && s[j] == '/' && '/' !in s[j + 1..]
    ensures i == j
  {
  }

  // ---------- the decision ----------

  const ALWAYS_LEFT_OUT := {".git", ".hg", ".svn", "node_modules", ".DS_Store", "Thumbs.db", "skifity.toml"}

  const LEFT_OUT_UNLESS_KEPT: seq<string> := [
    "__pycache__/", "*.pyc", ".venv/", "venv/", ".tox/", ".pytest_cache/", ".mypy_cache/",
    ".next/", ".nuxt/", ".svelte-kit/", ".turbo/", ".cache/", ".parcel-cache/",
    ".vercel/", ".netlify/", ".idea/", ".vscode/", "coverage/", "*.log"]

  /** A .env with real values, as opposed to the template of one. */
  predicate IsSecretsFile(name: string) {
    && (name == ".env" || ".env." <= name)
    && name !in {".env.example", ".env.sample", ".env.template", ".env.dist"}
  }

  predicate LeftOutByName(rel: string, isDir: bool) {
    Base(rel) in ALWAYS_LEFT_OUT || (!isDir && IsSecretsFile(Base(rel)))
  }

  /** A file of secrets is left out by its name and a template is not; nor is a directory of such a name. */
  lemma SecretsByName(rest: string)
    requires '/' !in rest && ".env." + rest !in {".env.example", ".env.sample", ".env.template", ".env.dist"}
    ensures LeftOutByName(".env", false) && LeftOutByName(".env." + rest, false)
    ensures !LeftOutByName(".env", true)
    ensures !LeftOutByName(".env.example", false) && !LeftOutByName(".env.sample", false)
    ensures !LeftOutByName(".env.template", false) && !LeftOutByName(".env.dist", false)
  {
    hide Base;
    BaseOfName(".env." + rest);
    BaseOfName(".env");
    NotAlways(".env");
    Template(".env.example");
    Template(".env.sample");
    Template(".env.template");
    Template(".env.dist");
  }

  lemma Template(name: string)
    requires '/' !in name && |name| >= 2 && name[0] == '.' && name[1] == 'e' && !IsSecretsFile(name)
    ensures !LeftOutByName(name, false)
  {
    hide Base, IsSecretsFile;
    BaseOfName(name);
    NotAlways(name);
  }

  lemma NotAlways(name: string)
    requires |name| >= 2 && name[0] == '.' && name[1] == 'e'
    ensures name !in ALWAYS_LEFT_OUT
  {
    assert ".git"[1] == 'g' && ".hg"[1] == 'h' && ".svn"[1] == 's' && ".DS_Store"[1] == 'D';
    assert "node_modules"[0] == 'n' && "Thumbs.db"[0] == 'T' && "skifity.toml"[0] == 's';
  }

  lemma BaseOfName(name: string)
    requires '/' !in name
    ensures Base(name) == name
  {
    hide Base;
    var base := Base(name);
    assert |base| == |name| && name[|name| - |base|..] == name;
  }

  /** What a directory's paths start with; the root's is empty. */
  function Prefix(dir: string): string { if dir == "" then "" else dir + "/" }

  predicate Applies(rule: Rule, rel: string, isDir: bool) {
    && !(rule.dirOnly && !isDir)
    && Prefix(rule.base) <= rel
    && Accepts(rule.pattern, rel[|Prefix(rule.base)|..])
  }

  /** The last rule that applies decides. */
  predicate Decision(rules: seq<Rule>, rel: string, isDir: bool) {
    if rules == [] then false
    else
      var last := rules[|rules| - 1];
      if Applies(last, rel, isDir) then !last.negate else Decision(rules[..|rules| - 1], rel, isDir)
  }

  predicate Ignored(rules: seq<Rule>, rel: string, isDir: bool) {
    LeftOutByName(rel, isDir) || Decision(rules, rel, isDir)
  }

  /** A path is ignored by the rules exactly when some rule that applies is not negated and no later rule applies. */
  lemma {:induction false} LastRuleDecides(rules: seq<Rule>, rel: string, isDir: bool)
    ensures Decision(rules, rel, isDir) <==>
            exists i :: 0 <= i < |rules| && Applies(rules[i], rel, isDir) && !rules[i].negate
                        && forall j :: i < j < |rules| ==> !Applies(rules[j], rel, isDir)
  {
    hide Applies;
    if rules != [] {
      var front := rules[..|rules| - 1];
      LastRuleDecides(front, rel, isDir);
      var n := |rules| - 1;
      if !Applies(rules[n], rel, isDir) && Decision(front, rel, isDir) {
        var i :| 0 <= i < |front| && Applies(front[i], rel, isDir) && !front[i].negate
                 && forall j :: i < j < |front| ==> !Applies(front[j], rel, isDir);
        assert rules[i] == front[i];
        assert forall j :: i < j < |rules| ==> j == n || rules[j] == front[j];
      }
      if i :| 0 <= i < |rules| && Applies(rules[i], rel, isDir) && !rules[i].negate
              && forall j :: i < j < |rules| ==> !Applies(rules[j], rel, isDir) {
        if i < n {
          assert front[i] == rules[i] && forall j :: i < j < |front| ==> front[j] == rules[j];
        }
      }
    }
  }

  ghost predicate SomeApply(rules: seq<Rule>, rel: string, isDir: bool) {
    exists i :: 0 <= i < |rules| && Applies(rules[i], rel, isDir)
  }

  /** Later rules have the say where they apply, and earlier ones where they do not. */
  lemma {:induction false} LaterRulesFirst(a: seq<Rule>, b: seq<Rule>, rel: string, isDir: bool)
    ensures Decision(a + b, rel, isDir) ==
            if SomeApply(b, rel, isDir) then Decision(b, rel, isDir) else Decision(a, rel, isDir)
  {
    hide Applies;
    if b == [] {
      assert a + b == a;
    } else {
      var front, last := b[..|b| - 1], b[|b| - 1];
      assert (a + b)[..|a + b| - 1] == a + front && (a + b)[|a + b| - 1] == last;
      if !Applies(last, rel, isDir) {
        LaterRulesFirst(a, front, rel, isDir);
        if SomeApply(b, rel, isDir) {
          var i :| 0 <= i < |b| && Applies(b[i], rel, isDir);
          assert front[i] == b[i];
        }
        if SomeApply(front, rel, isDir) {
          var i :| 0 <= i < |front| && Applies(front[i], rel, isDir);
          assert b[i] == front[i];
        }
      }
    }
  }

  /** A line adds a rule, and the rule applies. */
  predicate LineApplies(base: string, line: string, rel: string, isDir: bool) {
    var r := RuleOf(base, line);
    r.Some? && Applies(r.value, rel, isDir)
  }

  predicate Leaves(base: string, line: string, rel: string, isDir: bool) {
    LineApplies(base, line, rel, isDir) && !RuleOf(base, line).value.negate
  }

  ghost predicate SomeLine(base: string, lines: seq<string>, rel: string, isDir: bool) {
    exists i :: 0 <= i < |lines| && LineApplies(base, lines[i], rel, isDir)
  }

  /** The last line that applies is not one with a `!`. */
  ghost predicate LastLeavesOut(base: string, lines: seq<string>, rel: string, isDir: bool) {
    exists i :: 0 <= i < |lines| && Leaves(base, lines[i], rel, isDir)
                && forall j :: i < j < |lines| ==> !LineApplies(base, lines[j], rel, isDir)
  }

  /** Of the lines of a file, the last that applies decides. */
  lemma {:induction false} LastLineDecides(base: string, lines: seq<string>, rel: string, isDir: bool)
    ensures Decision(RulesOf(base, lines), rel, isDir) <==> LastLeavesOut(base, lines, rel, isDir)
    ensures SomeApply(RulesOf(base, lines), rel, isDir) <==> SomeLine(base, lines, rel, isDir)
  {
    hide Applies, RuleOf, LastLeavesOut, SomeLine;
    if lines != [] {
      var n := |lines| - 1;
      var front, last := lines[..n], lines[n];
      LastLineDecides(base, front, rel, isDir);
      var rules, r := RulesOf(base, front), RuleOf(base, last);
      if r.None? {
        assert RulesOf(base, lines) == rules;
      } else {
        OneMoreRule(rules, r.value, rel, isDir);
      }
      LinesSnoc(base, lines, rel, isDir);
    } else {
      NoLines(base, rel, isDir);
    }
  }

  lemma NoLines(base: string, rel: string, isDir: bool)
    ensures !SomeLine(base, [], rel, isDir) && !LastLeavesOut(base, [], rel, isDir)
  {
  }

  lemma OneMoreRule(rules: seq<Rule>, r: Rule, rel: string, isDir: bool)
    ensures Decision(rules + [r], rel, isDir) ==
            if Applies(r, rel, isDir) then !r.negate else Decision(rules, rel, isDir)
    ensures SomeApply(rules + [r], rel, isDir) <==> SomeApply(rules, rel, isDir) || Applies(r, rel, isDir)
  {
    hide Applies;
    var all := rules + [r];
    assert all[..|all| - 1] == rules && all[|all| - 1] == r;
    if SomeApply(rules, rel, isDir) {
      var i :| 0 <= i < |rules| && Applies(rules[i], rel, isDir);
      assert all[i] == rules[i];
    }
  }

  /** How the lines that apply change with one more line. */
  lemma LinesSnoc(base: string, lines: seq<string>, rel: string, isDir: bool)
    requires lines != []
    ensures var n, front := |lines| - 1, lines[..|lines| - 1];
            && (SomeLine(base, lines, rel, isDir) <==>
                  SomeLine(base, front, rel, isDir) || LineApplies(base, lines[n], rel, isDir))
            && (LastLeavesOut(base, lines, rel, isDir) <==>
                  if LineApplies(base, lines[n], rel, isDir) then !RuleOf(base, lines[n]).value.negate
                  else LastLeavesOut(base, front, rel, isDir))
  {
    hide LineApplies, RuleOf;
    var n, front := |lines| - 1, lines[..|lines| - 1];
    assert forall i :: 0 <= i < n ==> front[i] == lines[i];
    if SomeLine(base, front, rel, isDir) {
      var i :| 0 <= i < |front| && LineApplies(base, front[i], rel, isDir);
      assert LineApplies(base, lines[i], rel, isDir);
    }
    if !LineApplies(base, lines[n], rel, isDir) && LastLeavesOut(base, front, rel, isDir) {
      var i :| 0 <= i < |front| && Leaves(base, front[i], rel, isDir)
               && forall j :: i < j < |front| ==> !LineApplies(base, front[j], rel, isDir);
      assert Leaves(base, lines[i], rel, isDir);
      assert forall j :: i < j < |lines| ==> j == n || front[j] == lines[j];
    }
  }

  /** What a line means, from its text to the paths below its directory: it adds a rule exactly when no class in it runs
      backwards, and the rule applies exactly where its glob matches. */
  lemma LineMeans(base: string, line: string, l: Line, sub: string, isDir: bool)
    requires ReadLine(line) == Some(l) && Modelled(l.glob)
    ensures var r := RuleOf(base, line);
            && (r.Some? <==> Valid(l.glob))
            && (r.Some? ==> r.value.negate == l.negate)
            && (r.Some? ==> (Applies(r.value, Prefix(base) + sub, isDir) <==>
                  && (l.dirOnly ==> isDir)
                  && if l.anchored then GlobMatch(l.glob, sub) else MatchesAtAnyDepth(l.glob, sub)))
  {
    hide ReadLine, Compile, Expression, Accepts, GlobMatch, MatchesAtAnyDepth;
    ExpressionMeans(l.anchored, l.glob, sub);
    assert (Prefix(base) + sub)[|Prefix(base)|..] == sub;
  }

  /** The growing list of rules. */
  class Ignorer {
    var rules: seq<Rule>

    constructor ()
      ensures rules == RulesOf("", LEFT_OUT_UNLESS_KEPT)
    {
      rules := [];
      new;
      AddAll("", LEFT_OUT_UNLESS_KEPT);
    }

    method Add(base: string, line: string)
      modifies this
      ensures rules == old(rules) + var r := RuleOf(base, line); if r.Some? then [r.value] else []
    {
      hide ReadLine, Compile, RegexpText;
      var l := ReadLine(line);
      if l.None? {
        return;
      }
      var body := GlobToRegexp(l.value.glob);
      var compiled := Compile((if l.value.anchored then "^" else "^(?:.*/)?") + body + "$");
      if compiled.Some? {
        rules := rules + [Rule(base, compiled.value, l.value.negate, l.value.dirOnly)];
      }
    }

    method AddAll(base: string, lines: seq<string>)
      modifies this
      ensures rules == old(rules) + RulesOf(base, lines)
    {
      hide RuleOf;
      for i := 0 to |lines|
        invariant rules == old(rules) + RulesOf(base, lines[..i])
      {
        assert lines[..i + 1][..i] == lines[..i];
        Add(base, lines[i]);
      }
      assert lines[..|lines|] == lines;
    }

    method Check(rel: string, isDir: bool) returns (result: bool)
      ensures result <==> Ignored(rules, rel, isDir)
    {
      hide Applies, LeftOutByName;
      if LeftOutByName(rel, isDir) {
        return true;
      }
      result := false;
      for i := 0 to |rules|
        invariant result <==> Decision(rules[..i], rel, isDir)
      {
        assert rules[..i + 1][..i] == rules[..i];
        if Applies(rules[i], rel, isDir) {
          result := !rules[i].negate;
        }
      }
      assert rules[..|rules|] == rules;
    }
  }
}
