/** Ignore patterns as globs: the translation to a regular expression (internal/cli/ignore.go, globToRegexp), a direct
    matcher, and the proof that the two agree. */
module Glob {
  import opened Text
  import opened Regexp

  /** What a glob is read as, one piece at a time. */
  datatype Token =
    | AnyDirs                                // **/ : any number of leading directories
    | Below                                  // a final /** : the directory itself and everything under it
    | AnyText                                // **
    | AnyName                                // *
    | AnyChar                                // ?
    | OneOf(negated: bool, members: string)  // [...]
    | Literal(c: char)

  /** The first token of a glob and its length. An unclosed bracket and a final backslash stand for themselves. */
  function TokenAt(g: string): (r: (Token, nat))
    requires g != ""
    ensures 1 <= r.1 <= |g|
    ensures r.0.Below? ==> r.1 == |g|
  {
    if "**/" <= g then (AnyDirs, 3)
    else if g == "/**" then (Below, 3)
    else if "**" <= g then (AnyText, 2)
    else if g[0] == '*' then (AnyName, 1)
    else if g[0] == '?' then (AnyChar, 1)
    else if g[0] == '[' then
      var end := IndexOf(g[1..], ']');
      if end == |g[1..]| then (Literal('['), 1) else (ClassToken(g[1..1 + end]), end + 2)
    else if g[0] == '\\' && |g| >= 2 then (Literal(g[1]), 2)
    else (Literal(g[0]), 1)
  }

  /** Both `!` and, through the regular expression, `^` negate a class. */
  function ClassToken(class_: string): Token {
    if class_ != "" && (class_[0] == '!' || class_[0] == '^') then OneOf(true, class_[1..]) else OneOf(false, class_)
  }

  function Doubled(s: string): string {
    if s == "" then "" else (if s[0] == '\\' then "\\\\" else [s[0]]) + Doubled(s[1..])
  }

  function TokenText(t: Token): string {
    match t
    case AnyDirs => "(?:.*/)?"
    case Below => "(?:/.*)?"
    case AnyText => ".*"
    case AnyName => "[^/]*"
    case AnyChar => "[^/]"
    case OneOf(negated, members) => "[" + (if negated then "^" else "") + Doubled(members) + "]"
    case Literal(c) => Quote(c)
  }

  /** The body of the regular expression a glob becomes. */
  function RegexpText(g: string): string
    decreases |g|
  {
    if g == "" then "" else
      var (token, n) := TokenAt(g);
      TokenText(token) + RegexpText(g[n..])
  }

  lemma DoubledClass(class_: string)
    ensures var negated := class_ != "" && class_[0] == '!';
            Doubled(if negated then "^" + class_[1..] else class_) ==
            (if ClassToken(class_).negated then "^" else "") + Doubled(ClassToken(class_).members)
  {
    if class_ != "" && class_[0] == '!' {
      assert ("^" + class_[1..])[1..] == class_[1..];
    }
  }

  /** One turn of globToRegexp's loop: what it writes for the rest of the glob, and how far it moves. */
  method Piece(rest: string) returns (piece: string, n: nat)
    requires rest != ""
    ensures (piece, n) == (TokenText(TokenAt(rest).0), TokenAt(rest).1)
  {
    hide IndexOf, Doubled;
    if "**/" <= rest {
      return "(?:.*/)?", 3;
    } else if "/**" <= rest && |rest| == 3 {
      return "(?:/.*)?", 3;
    } else if "**" <= rest {
      return ".*", 2;
    } else if rest[0] == '*' {
      return "[^/]*", 1;
    } else if rest[0] == '?' {
      return "[^/]", 1;
    } else if rest[0] == '[' {
      var end := IndexOf(rest[1..], ']');
      if end == |rest[1..]| {
        return "\\[", 1;
      }
      var class_ := rest[1..1 + end];
      DoubledClass(class_);
      Assoc("[", if ClassToken(class_).negated then "^" else "", Doubled(ClassToken(class_).members));
      if class_ != "" && class_[0] == '!' {
        class_ := "^" + class_[1..];
      }
      return "[" + Doubled(class_) + "]", end + 2;
    } else if rest[0] == '\\' && |rest| >= 2 {
      return Quote(rest[1]), 2;
    }
    return Quote(rest[0]), 1;
  }

  method GlobToRegexp(glob: string) returns (text: string)
    ensures text == RegexpText(glob)
  {
    hide TokenText, TokenAt;
    text := "";
    var i := 0;
    while i < |glob|
      invariant 0 <= i <= |glob|
      invariant text + RegexpText(glob[i..]) == RegexpText(glob)
      decreases |glob| - i
    {
      var piece, n := Piece(glob[i..]);
      assert glob[i..][n..] == glob[i + n..];
      text := text + piece;
      i := i + n;
    }
  }

  // ---------- classes ----------

  /** The members of a bracket class as ranges; None for a range that runs backwards. A backslash is a member. */
  function Ranges(members: string): Option<seq<(char, char)>> {
    if members == "" then Some([])
    else if |members| >= 3 && members[1] == '-' then
      var more := Ranges(members[3..]);
      if members[2] < members[0] || more.None? then None else Some([(members[0], members[2])] + more.value)
    else
      var more := Ranges(members[1..]);
      if more.None? then None else Some([(members[0], members[0])] + more.value)
  }

  /** A class the model covers: not empty, closed by the first bracket, and without a POSIX name. */
  predicate Ordinary(members: string) { members != "" && Plain(members) }

  predicate Plain(members: string) {
    && ']' !in members
    && forall i :: 0 <= i < |members| - 1 ==> !(members[i] == '[' && members[i + 1] == ':')
  }

  lemma PlainTail(members: string, k: nat)
    requires Plain(members) && k <= |members|
    ensures Plain(members[k..])
  {
    var rest := members[k..];
    forall i | 0 <= i < |rest| - 1 ensures !(rest[i] == '[' && rest[i + 1] == ':') {
      assert rest[i] == members[k + i] && rest[i + 1] == members[k + i + 1];
    }
  }

  /** A member list reads back as its ranges. */
  ghost predicate ReadsBack(members: string, tail: string, first: bool) {
    var r := ParseMembers(Doubled(members) + ("]" + tail), first);
    if Ranges(members).Some? then r == Parsed(Ranges(members).value, tail) else r.Bad?
  }

  lemma {:induction false} MembersParse(members: string, tail: string, first: bool)
    requires Plain(members) && (first ==> members != "")
    ensures ReadsBack(members, tail, first)
    decreases |members|
  {
    if members == "" {
      assert Doubled("") + ("]" + tail) == "]" + tail && ("]" + tail)[1..] == tail;
    } else if |members| >= 3 && members[1] == '-' {
      PlainTail(members, 3);
      MembersParse(members[3..], tail, false);
      RangeReadsBack(members, tail, first);
    } else {
      PlainTail(members, 1);
      MembersParse(members[1..], tail, false);
      SingleReadsBack(members, tail, first);
    }
  }

  lemma RangeReadsBack(members: string, tail: string, first: bool)
    requires Plain(members) && |members| >= 3 && members[1] == '-' && ReadsBack(members[3..], tail, false)
    ensures ReadsBack(members, tail, first)
  {
    hide Doubled, ParseChar, ParseMembers, Plain;
    var close := "]" + tail;
    DoubledHead(members, close);
    SecondMember(members, tail);
    DoubledHead(members[2..], close);
    assert members[2..][1..] == members[3..];
    RangeMember(Doubled(members) + close, first);
  }

  lemma SingleReadsBack(members: string, tail: string, first: bool)
    requires Plain(members) && members != "" && !(|members| >= 3 && members[1] == '-')
    requires ReadsBack(members[1..], tail, false)
    ensures ReadsBack(members, tail, first)
  {
    hide Doubled, ParseChar, ParseMembers, Plain;
    var close := "]" + tail;
    DoubledHead(members, close);
    SecondMember(members, tail);
    SingleMember(Doubled(members) + close, first);
  }

  /** What comes after the first member: a dash that makes a range only with a member on its right, and never the
      colon of a POSIX name. */
  lemma SecondMember(members: string, tail: string)
    requires members != "" && Plain(members)
    ensures members[0] != ']'
    ensures var t1 := Doubled(members[1..]) + ("]" + tail);
            && t1 != "" && !(members[0] == '[' && t1[0] == ':')
            && (|t1| >= 2 && t1[0] == '-' && t1[1] != ']' <==> |members| >= 3 && members[1] == '-')
            && (|members| >= 3 && members[1] == '-' ==> t1[1..] == Doubled(members[2..]) + ("]" + tail))
  {
    assert Doubled("") == "";
    hide Doubled;
    var close := "]" + tail;
    if |members| > 1 {
      DoubledHead(members[1..], close);
      assert members[1..][1..] == members[2..];
      if |members| > 2 {
        DoubledHead(members[2..], close);
      }
    }
  }

  /** How the doubled text of a non-empty member list starts. */
  lemma DoubledHead(s: string, tail: string)
    requires s != ""
    ensures var t := Doubled(s) + tail;
            && t != "" && t[0] == s[0]
            && ParseChar(t) == Parsed(s[0], Doubled(s[1..]) + tail)
            && (s[0] != '\\' ==> t[1..] == Doubled(s[1..]) + tail)
  {
    var d := Doubled(s[1..]);
    var escape := s[0] == '\\';
    var head := if escape then ['\\', '\\'] else [s[0]];
    assert Doubled(s) == head + d;
    hide Doubled;
    Assoc(head, d, tail);
    var t := Doubled(s) + tail;
    assert t[|head|..] == d + tail;
    assert t[0] == s[0] && (escape ==> t[1] == '\\');
  }

  // ---------- the expression parses ----------

  /** Every class in the glob is one the model covers. */
  predicate Modelled(g: string)
    decreases |g|
  {
    g == "" || (
      var (token, n) := TokenAt(g);
      (token.OneOf? ==> Ordinary(token.members)) && Modelled(g[n..]))
  }

  /** No class in the glob holds a range that runs backwards. */
  predicate Valid(g: string)
    decreases |g|
  {
    g == "" || (
      var (token, n) := TokenAt(g);
      (token.OneOf? ==> Ranges(token.members).Some?) && Valid(g[n..]))
  }

  const SLASH := One(Class(false, [('/', '/')]))
  const NOT_SLASH := One(Class(true, [('/', '/')]))

  function TokenRegex(t: Token): Regex
    requires t.OneOf? ==> Ranges(t.members).Some?
  {
    match t
    case AnyDirs => Opt(Cat(Star(One(Dot)), Cat(SLASH, Empty)))
    case Below => Opt(Cat(SLASH, Cat(Star(One(Dot)), Empty)))
    case AnyText => Star(One(Dot))
    case AnyName => Star(NOT_SLASH)
    case AnyChar => NOT_SLASH
    case OneOf(negated, members) => One(Class(negated, Ranges(members).value))
    case Literal(c) => One(Class(false, [(c, c)]))
  }

  function Translate(g: string): Regex
    requires Valid(g)
    decreases |g|
  {
    if g == "" then Empty else
      var (token, n) := TokenAt(g);
      Cat(TokenRegex(token), Translate(g[n..]))
  }

  /** A text that ends an atom: it does not start with a repetition. */
  predicate Follows(t: string) { !Repeats(t) }

  lemma NotSlashParses(t: string)
    ensures ParseAtom("[^/]" + t) == Parsed(NOT_SLASH, t)
  {
    var s := "[^/]" + t;
    assert s[1..] == "^/]" + t;
    assert ("^/]" + t)[1..] == "/]" + t;
    assert ("/]" + t)[1..] == "]" + t;
    assert ("]" + t)[1..] == t;
    assert ParseMembers("]" + t, false) == Parsed([], t);
    assert ParseMembers("/]" + t, true) == Parsed([('/', '/')] + [], t);
    assert [('/', '/')] + [] == [('/', '/')];
  }

  lemma SlashParses(t: string)
    requires Follows(t)
    ensures ParseRepeated("/" + t) == Parsed(SLASH, t)
  {
    assert ("/" + t)[1..] == t;
  }

  lemma DotStarParses(t: string)
    requires Follows(t)
    ensures ParseRepeated(".*" + t) == Parsed(Star(One(Dot)), t)
  {
    assert (".*" + t)[1..] == "*" + t && ("*" + t)[1..] == t;
  }

  lemma AnyDirsParses(t: string)
    requires Follows(t)
    ensures ParseRepeated("(?:.*/)?" + t) == Parsed(TokenRegex(AnyDirs), t)
  {
    var s := "(?:.*/)?" + t;
    var after := ")?" + t;
    assert s[3..] == ".*" + ("/" + after);
    SlashParses(after);
    DotStarParses("/" + after);
    assert ParseSequence(after) == Parsed(Empty, after);
    assert ParseSequence("/" + after) == Parsed(Cat(SLASH, Empty), after);
    assert ParseSequence(".*" + ("/" + after)) == Parsed(Cat(Star(One(Dot)), Cat(SLASH, Empty)), after);
    assert after[1..] == "?" + t && ("?" + t)[1..] == t;
    assert ParseAtom(s) == Parsed(Cat(Star(One(Dot)), Cat(SLASH, Empty)), "?" + t);
  }

  lemma BelowParses(t: string)
    requires Follows(t)
    ensures ParseRepeated("(?:/.*)?" + t) == Parsed(TokenRegex(Below), t)
  {
    var s := "(?:/.*)?" + t;
    var after := ")?" + t;
    assert s[3..] == "/" + (".*" + after);
    DotStarParses(after);
    SlashParses(".*" + after);
    assert ParseSequence(after) == Parsed(Empty, after);
    assert ParseSequence(".*" + after) == Parsed(Cat(Star(One(Dot)), Empty), after);
    assert ParseSequence("/" + (".*" + after)) == Parsed(Cat(SLASH, Cat(Star(One(Dot)), Empty)), after);
    assert after[1..] == "?" + t && ("?" + t)[1..] == t;
    assert ParseAtom(s) == Parsed(Cat(SLASH, Cat(Star(One(Dot)), Empty)), "?" + t);
  }

  lemma BracketParses(u: string)
    ensures ParseAtom("[" + u) == ParseClass(u)
  {
    assert ("[" + u)[1..] == u;
  }

  lemma ClassParses(negated: bool, members: string, t: string)
    requires Ordinary(members) && (!negated ==> members[0] != '^')
    ensures var r := ParseAtom(TokenText(OneOf(negated, members)) + t);
            if Ranges(members).Some? then r == Parsed(One(Class(negated, Ranges(members).value)), t) else r.Bad?
  {
    hide Doubled, ParseMembers, Plain, Ranges, ParseAtom;
    var body := Doubled(members) + ("]" + t);
    var u := (if negated then "^" else "") + body;
    MembersParse(members, t, true);
    DoubledHead(members, "]" + t);
    assert TokenText(OneOf(negated, members)) + t == "[" + u;
    BracketParses(u);
    assert negated ==> u[1..] == body;
    assert !negated ==> u == body;
  }

  lemma LiteralParses(c: char, t: string)
    requires Follows(t)
    ensures ParseRepeated(Quote(c) + t) == Parsed(TokenRegex(Literal(c)), t)
  {
    if c in META {
      assert (Quote(c) + t)[2..] == t;
    } else {
      assert (Quote(c) + t)[1..] == t;
    }
  }

  lemma TokenParses(g: string, t: string)
    requires g != "" && Follows(t) && (TokenAt(g).0.OneOf? ==> Ordinary(TokenAt(g).0.members))
    ensures var token := TokenAt(g).0;
            var r := ParseRepeated(TokenText(token) + t);
            if token.OneOf? && Ranges(token.members).None? then r.Bad? else r == Parsed(TokenRegex(token), t)
  {
    match TokenAt(g).0
    case AnyDirs => AnyDirsParses(t);
    case Below => BelowParses(t);
    case AnyText => DotStarParses(t);
    case AnyName =>
      NotSlashParses("*" + t);
      assert "[^/]*" + t == "[^/]" + ("*" + t) && ("*" + t)[1..] == t;
    case AnyChar => NotSlashParses(t);
    case OneOf(negated, members) => ClassParses(negated, members, t);
    case Literal(c) => LiteralParses(c, t);
  }

  lemma TokenTextStarts(g: string)
    requires g != ""
    ensures var text := TokenText(TokenAt(g).0); text != "" && text[0] !in {'*', '+', '?', '{', ')', '$'}
  {
  }

  lemma TextFollows(g: string)
    ensures Follows(RegexpText(g) + "$")
    ensures g != "" ==> RegexpText(g) != "" && RegexpText(g)[0] !in {'*', '+', '?', '{', ')', '$'}
  {
    if g != "" {
      TokenTextStarts(g);
    }
  }

  /** A modelled glob's expression parses to its translation, or is refused when a range runs backwards. */
  lemma {:induction false} GlobParses(g: string)
    requires Modelled(g)
    ensures var r := ParseSequence(RegexpText(g) + "$");
            if Valid(g) then r == Parsed(Translate(g), "$") else r.Bad?
    decreases |g|
  {
    hide ParseRepeated, TokenText, TokenRegex, TokenAt;
    if g != "" {
      var (token, n) := TokenAt(g);
      var rest := RegexpText(g[n..]) + "$";
      TextFollows(g);
      TextFollows(g[n..]);
      TokenParses(g, rest);
      GlobParses(g[n..]);
      assert RegexpText(g) + "$" == TokenText(token) + rest;
    }
  }

  // ---------- the direct matcher ----------

  /** Whether a glob matches a whole path, read straight off its tokens. */
  ghost predicate GlobMatch(g: string, s: string)
    decreases |g|, |s|
  {
    if g == "" then s == ""
    else
      var (token, n) := TokenAt(g);
      match token
      case Literal(c) => s != "" && s[0] == c && GlobMatch(g[n..], s[1..])
      case AnyChar => s != "" && s[0] != '/' && GlobMatch(g[n..], s[1..])
      case OneOf(negated, members) =>
        && s != "" && Ranges(members).Some?
        && InRanges(s[0], Ranges(members).value) != negated
        && GlobMatch(g[n..], s[1..])
      case AnyName => GlobMatch(g[n..], s) || (s != "" && s[0] != '/' && GlobMatch(g, s[1..]))
      case AnyText => GlobMatch(g[n..], s) || (s != "" && s[0] != '\n' && GlobMatch(g, s[1..]))
      case AnyDirs => GlobMatch(g[n..], s) || exists k :: EndsDirs(s, k) && GlobMatch(g[n..], s[k + 1..])
      case Below => s == "" || (s[0] == '/' && '\n' !in s[1..])
  }

  /** The slash at `k` ends a run of directories; no directory name in it holds a newline. */
  predicate EndsDirs(s: string, k: int) { 0 <= k < |s| && s[k] == '/' && '\n' !in s[..k] }

  /** A token that stands for one character. */
  lemma OneThen(chars: CharSet, second: Regex, s: string)
    ensures Accepts(Cat(One(chars), second), s) <==> s != "" && InSet(s[0], chars) && Accepts(second, s[1..])
  {
    var r := Cat(One(chars), second);
    if Accepts(r, s) {
      var k :| 0 <= k <= |s| && Accepts(One(chars), s[..k]) && Accepts(second, s[k..]);
      assert k == 1;
    }
    if s != "" && InSet(s[0], chars) && Accepts(second, s[1..]) {
      assert Accepts(One(chars), s[..1]);
    }
  }

  /** A token that stands for a run of characters: take none, or take one and go on. */
  lemma RunThen(chars: CharSet, second: Regex, s: string)
    ensures Accepts(Cat(Star(One(chars)), second), s) <==>
            Accepts(second, s)
            || (s != "" && InSet(s[0], chars) && Accepts(Cat(Star(One(chars)), second), s[1..]))
  {
    hide Accepts;
    if Accepts(Cat(Star(One(chars)), second), s) {
      RunForward(chars, second, s);
    }
    if Accepts(second, s) {
      RunEmpty(chars, second, s);
    }
    if s != "" && InSet(s[0], chars) && Accepts(Cat(Star(One(chars)), second), s[1..]) {
      RunBackward(chars, second, s);
    }
  }

  lemma RunForward(chars: CharSet, second: Regex, s: string)
    requires Accepts(Cat(Star(One(chars)), second), s)
    ensures Accepts(second, s)
         || (s != "" && InSet(s[0], chars) && Accepts(Cat(Star(One(chars)), second), s[1..]))
  {
    hide Accepts;
    var k := CatParts(Star(One(chars)), second, s);
    if k == 0 {
      assert s[0..] == s;
    } else {
      RunGrows(chars, s, k);
      DropDrop(s, 1, k - 1);
      CatSplits(Star(One(chars)), second, s[1..], k - 1);
    }
  }

  lemma RunEmpty(chars: CharSet, second: Regex, s: string)
    requires Accepts(second, s)
    ensures Accepts(Cat(Star(One(chars)), second), s)
  {
    hide Accepts;
    assert s[..0] == "" && s[0..] == s;
    StarOfNothing(One(chars));
    CatSplits(Star(One(chars)), second, s, 0);
  }

  lemma RunBackward(chars: CharSet, second: Regex, s: string)
    requires s != "" && InSet(s[0], chars) && Accepts(Cat(Star(One(chars)), second), s[1..])
    ensures Accepts(Cat(Star(One(chars)), second), s)
  {
    hide Accepts;
    var k := CatParts(Star(One(chars)), second, s[1..]);
    RunGrows(chars, s, k + 1);
    DropDrop(s, 1, k);
    CatSplits(Star(One(chars)), second, s, k + 1);
  }

  lemma OptThen(body: Regex, second: Regex, s: string)
    ensures Accepts(Cat(Opt(body), second), s) <==> Accepts(second, s) || Accepts(Cat(body, second), s)
  {
    var r := Cat(Opt(body), second);
    if Accepts(r, s) {
      var k :| 0 <= k <= |s| && Accepts(Opt(body), s[..k]) && Accepts(second, s[k..]);
      if Accepts(body, s[..k]) {
        CatSplits(body, second, s, k);
      } else {
        assert k == 0 && s[0..] == s;
      }
    }
    if Accepts(second, s) {
      assert s[..0] == "" && s[0..] == s;
      CatSplits(Opt(body), second, s, 0);
    }
    if Accepts(Cat(body, second), s) {
      var k :| 0 <= k <= |s| && Accepts(body, s[..k]) && Accepts(second, s[k..]);
      CatSplits(Opt(body), second, s, k);
    }
  }

  /** `.*` and a slash: a run of directories. */
  lemma DirsAccept(s: string)
    ensures Accepts(Cat(Star(One(Dot)), Cat(SLASH, Empty)), s) <==> s != "" && EndsDirs(s, |s| - 1)
  {
    var run, slash := Star(One(Dot)), Cat(SLASH, Empty);
    forall k | 0 <= k <= |s|
      ensures Accepts(slash, s[k..]) <==> k == |s| - 1 && s[k] == '/'
      ensures Accepts(run, s[..k]) <==> '\n' !in s[..k]
    {
      OneThen(SLASH.chars, Empty, s[k..]);
      StarOfSet(Dot, s[..k]);
      if k < |s| { SingleRange(s[k], '/'); }
    }
    if s != "" && EndsDirs(s, |s| - 1) {
      CatSplits(run, slash, s, |s| - 1);
    }
  }

  const DIRS := Cat(Star(One(Dot)), Cat(SLASH, Empty))

  lemma DirsForward(second: Regex, s: string) returns (k: int)
    requires Accepts(Cat(DIRS, second), s)
    ensures EndsDirs(s, k) && Accepts(second, s[k + 1..])
  {
    var n := CatParts(DIRS, second, s);
    hide Accepts, EndsDirs;
    DirsAccept(s[..n]);
    PrefixEndsDirs(s, n);
    k := n - 1;
    assert s[k + 1..] == s[n..];
  }

  lemma DirsBackward(second: Regex, s: string, k: int)
    requires EndsDirs(s, k) && Accepts(second, s[k + 1..])
    ensures Accepts(Cat(DIRS, second), s)
  {
    hide Accepts;
    DirsAccept(s[..k + 1]);
    PrefixEndsDirs(s, k + 1);
    CatSplits(DIRS, second, s, k + 1);
  }

  lemma PrefixEndsDirs(s: string, n: nat)
    requires n <= |s|
    ensures s[..n] != "" && EndsDirs(s[..n], |s[..n]| - 1) <==> EndsDirs(s, n - 1)
  {
    if n > 0 {
      assert s[..n][..n - 1] == s[..n - 1];
    }
  }

  lemma DirsThen(second: Regex, s: string)
    ensures Accepts(Cat(TokenRegex(AnyDirs), second), s) <==>
            Accepts(second, s) || exists k :: EndsDirs(s, k) && Accepts(second, s[k + 1..])
  {
    hide Accepts;
    OptThen(DIRS, second, s);
    if Accepts(Cat(DIRS, second), s) {
      var k := DirsForward(second, s);
    }
    if k: int :| EndsDirs(s, k) && Accepts(second, s[k + 1..]) {
      DirsBackward(second, s, k);
    }
  }

  lemma BelowThenEnd(s: string)
    ensures Accepts(Cat(TokenRegex(Below), Empty), s) <==> s == "" || (s[0] == '/' && '\n' !in s[1..])
  {
    var body := Cat(SLASH, Cat(Star(One(Dot)), Empty));
    OptThen(body, Empty, s);
    EmptyEnds(body, s);
    OneThen(SLASH.chars, Cat(Star(One(Dot)), Empty), s);
    if s != "" {
      SingleRange(s[0], '/');
      EmptyEnds(Star(One(Dot)), s[1..]);
      StarOfSet(Dot, s[1..]);
    }
  }

  lemma EmptyEnds(first: Regex, s: string)
    ensures Accepts(Cat(first, Empty), s) <==> Accepts(first, s)
  {
    assert s[..|s|] == s;
    if Accepts(first, s) {
      CatSplits(first, Empty, s, |s|);
    }
  }

  /** The regular expression accepts exactly the paths the direct matcher accepts. */
  lemma {:induction false} TranslationAgrees(g: string, s: string)
    requires Valid(g)
    ensures Accepts(Translate(g), s) <==> GlobMatch(g, s)
    decreases |g|, |s|
  {
    hide Accepts, TokenAt, Ranges;
    if g == "" {
      EmptyMeans(s);
    } else {
      var (token, n) := TokenAt(g);
      var rest := Translate(g[n..]);
      match token
      case Literal(c) =>
        OneThen(Class(false, [(c, c)]), rest, s);
        if s != "" { SingleRange(s[0], c); TranslationAgrees(g[n..], s[1..]); }
      case AnyChar =>
        OneThen(NOT_SLASH.chars, rest, s);
        if s != "" { SingleRange(s[0], '/'); TranslationAgrees(g[n..], s[1..]); }
      case OneOf(negated, members) =>
        OneThen(Class(negated, Ranges(members).value), rest, s);
        if s != "" { TranslationAgrees(g[n..], s[1..]); }
      case AnyName =>
        RunThen(NOT_SLASH.chars, rest, s);
        TranslationAgrees(g[n..], s);
        if s != "" { SingleRange(s[0], '/'); TranslationAgrees(g, s[1..]); }
      case AnyText =>
        RunThen(Dot, rest, s);
        TranslationAgrees(g[n..], s);
        if s != "" { TranslationAgrees(g, s[1..]); }
      case AnyDirs =>
        DirsThen(rest, s);
        TranslationAgrees(g[n..], s);
        forall k | EndsDirs(s, k) ensures Accepts(rest, s[k + 1..]) <==> GlobMatch(g[n..], s[k + 1..]) {
          TranslationAgrees(g[n..], s[k + 1..]);
        }
      case Below =>
        BelowThenEnd(s);
    }
  }

  lemma EmptyMeans(s: string)
    ensures Accepts(Empty, s) <==> s == ""
  {
  }

  lemma SingleRange(x: char, c: char)
    ensures InRanges(x, [(c, c)]) <==> x == c
  {
    assert [(c, c)][0] == (c, c);
  }
}
