/** What the characters of a glob mean, by its text alone (internal/cli/ignore.go, globToRegexp). */
module GlobMeaning {
  import opened Text
  import opened Regexp
  import opened Glob

  /** `?` is one character that is not a slash. */
  lemma ByQuestion(g: string, s: string)
    ensures GlobMatch("?" + g, s) <==> s != "" && s[0] != '/' && GlobMatch(g, s[1..])
  {
    var glob := "?" + g;
    assert glob[0] == '?' && glob[1..] == g;
    assert TokenAt(glob) == (AnyChar, 1);
  }

  /** A character with no meaning of its own is itself. */
  lemma ByLiteral(c: char, g: string, s: string)
    requires c !in {'*', '?', '[', '\\'} && [c] + g != "/**"
    ensures GlobMatch([c] + g, s) <==> s != "" && s[0] == c && GlobMatch(g, s[1..])
  {
    var glob := [c] + g;
    assert glob[0] == c && glob[1..] == g;
    assert TokenAt(glob) == (Literal(c), 1);
  }

  /** A backslash takes the meaning from what follows it. */
  lemma ByEscape(c: char, g: string, s: string)
    ensures GlobMatch(['\\', c] + g, s) <==> s != "" && s[0] == c && GlobMatch(g, s[1..])
  {
    var glob := ['\\', c] + g;
    assert glob[0] == '\\' && glob[1] == c && glob[2..] == g;
    assert TokenAt(glob) == (Literal(c), 2);
  }

  /** A backslash at the end is itself, and so is a bracket that nothing closes. */
  lemma ByItself(g: string, s: string)
    requires ']' !in g
    ensures GlobMatch("\\", s) <==> s == "\\"
    ensures GlobMatch("[" + g, s) <==> s != "" && s[0] == '[' && GlobMatch(g, s[1..])
  {
    var glob := "[" + g;
    assert glob[0] == '[' && glob[1..] == g;
    assert TokenAt(glob) == (Literal('['), 1);
    assert TokenAt("\\") == (Literal('\\'), 1) && "\\"[1..] == "";
    assert s != "" && s[1..] == "" ==> s == [s[0]];
  }

  /** `*` is any run of characters without a slash. */
  lemma {:induction false} ByStar(g: string, s: string)
    requires g == "" || g[0] != '*'
    ensures GlobMatch("*" + g, s) <==> exists k :: 0 <= k <= |s| && '/' !in s[..k] && GlobMatch(g, s[k..])
    decreases |s|
  {
    var glob := "*" + g;
    assert glob[0] == '*' && glob[1..] == g;
    StarToken(g);
    RunStep(g, s, '/');
    if s != "" {
      ByStar(g, s[1..]);
    }
    hide GlobMatch, TokenAt;
  }

  lemma StarToken(g: string)
    requires g == "" || g[0] != '*'
    ensures TokenAt("*" + g) == (AnyName, 1)
  {
    var glob := "*" + g;
    assert glob[0] == '*' && (g != "" ==> glob[1] == g[0]);
  }

  /** A run without a character is empty, or starts with another and goes on. */
  lemma RunStep(g: string, s: string, stop: char)
    ensures (exists k :: 0 <= k <= |s| && stop !in s[..k] && GlobMatch(g, s[k..])) <==>
            || GlobMatch(g, s)
            || (s != "" && s[0] != stop
                && exists k :: 0 <= k <= |s[1..]| && stop !in s[1..][..k] && GlobMatch(g, s[1..][k..]))
  {
    hide GlobMatch;
    assert s[0..] == s && s[..0] == "";
    if k :| 0 <= k <= |s| && stop !in s[..k] && GlobMatch(g, s[k..]) {
      if k > 0 {
        assert s[1..][k - 1..] == s[k..];
        TakeCons(s, k);
        assert s[..k][0] == s[0];
        assert stop !in s[1..][..k - 1];
      }
    }
    if s != "" && s[0] != stop {
      if k :| 0 <= k <= |s[1..]| && stop !in s[1..][..k] && GlobMatch(g, s[1..][k..]) {
        assert s[1..][k..] == s[k + 1..];
        TakeCons(s, k + 1);
        assert stop !in s[..k + 1];
      }
    }
  }

  /** `**` is any run of characters on one line. */
  lemma {:induction false} ByStars(g: string, s: string)
    requires g == "" || g[0] != '/'
    ensures GlobMatch("**" + g, s) <==> exists k :: 0 <= k <= |s| && '\n' !in s[..k] && GlobMatch(g, s[k..])
    decreases |s|
  {
    var glob := "**" + g;
    StarsToken(g);
    assert glob[2..] == g;
    RunStep(g, s, '\n');
    if s != "" {
      ByStars(g, s[1..]);
    }
    hide GlobMatch, TokenAt;
  }

  lemma StarsToken(g: string)
    requires g == "" || g[0] != '/'
    ensures TokenAt("**" + g) == (AnyText, 2)
  {
    var glob := "**" + g;
    assert glob[0] == '*' && glob[1] == '*' && (g != "" ==> glob[2] == g[0]);
  }

  /** A leading doubled star and slash is nothing, or any directories. */
  lemma ByDirs(g: string, s: string)
    ensures GlobMatch("**/" + g, s) <==>
            GlobMatch(g, s) || exists k :: 0 <= k < |s| && s[k] == '/' && '\n' !in s[..k] && GlobMatch(g, s[k + 1..])
  {
    var glob := "**/" + g;
    assert glob[3..] == g && "**/" <= glob;
    assert TokenAt(glob) == (AnyDirs, 3);
    forall k ensures EndsDirs(s, k) <==> 0 <= k < |s| && s[k] == '/' && '\n' !in s[..k] {}
  }

  /** A slash and a doubled star at the end is the directory itself and everything below it. */
  lemma ByBelow(s: string)
    ensures GlobMatch("/**", s) <==> s == "" || (s[0] == '/' && '\n' !in s[1..])
  {
    assert "/**"[0] == '/';
    assert !("**/" <= "/**");
    assert TokenAt("/**") == (Below, 3);
  }

  /** A bracket class is one character, which may be a slash, of those it names, or with `!` or `^` of the others. */
  lemma ByClass(negated: bool, mark: char, members: string, g: string, s: string)
    requires ']' !in members && mark in {'!', '^'} && Ranges(members).Some?
    requires !negated && members != "" ==> members[0] !in {'!', '^'}
    ensures GlobMatch("[" + (if negated then [mark] else "") + members + "]" + g, s) <==>
            s != "" && InRanges(s[0], Ranges(members).value) != negated && GlobMatch(g, s[1..])
  {
    var class_ := (if negated then [mark] else "") + members;
    var glob := "[" + class_ + "]" + g;
    assert "[" + (if negated then [mark] else "") + members + "]" + g == glob;
    ClassIs(class_, g);
    assert negated ==> class_[0] == mark && class_[1..] == members;
    assert !negated ==> class_ == members;
    assert ClassToken(class_) == OneOf(negated, members);
    assert glob[|class_| + 2..] == g;
  }

  lemma ClassIs(class_: string, g: string)
    requires ']' !in class_
    ensures TokenAt("[" + class_ + "]" + g) == (ClassToken(class_), |class_| + 2)
  {
    hide ClassToken, IndexOf;
    var glob := "[" + class_ + "]" + g;
    assert glob[0] == '[' && glob[1..] == class_ + [']'] + g;
    IndexOfAppend(class_, ']', g);
    assert glob[1..1 + |class_|] == class_;
  }

  /** Members without a dash are themselves. */
  lemma {:induction false} PlainMembers(members: string, c: char)
    requires '-' !in members
    ensures Ranges(members).Some? && (InRanges(c, Ranges(members).value) <==> c in members)
  {
    if members != "" {
      var rest := members[1..];
      assert |members| > 1 ==> members[1] != '-';
      PlainMembers(rest, c);
      var r := Ranges(rest).value;
      assert Ranges(members).value == [(members[0], members[0])] + r;
      OneMoreRange(c, (members[0], members[0]), r);
      assert members == [members[0]] + rest;
    }
  }

  /** Two members around a dash are everything from one to the other, and refused when they run backwards. */
  lemma RangeMembers(a: char, b: char, rest: string, c: char)
    requires Ranges(rest).Some?
    ensures Ranges([a, '-', b] + rest).Some? <==> a <= b
    ensures a <= b ==>
      (InRanges(c, Ranges([a, '-', b] + rest).value) <==> a <= c <= b || InRanges(c, Ranges(rest).value))
  {
    var members := [a, '-', b] + rest;
    assert members[0] == a && members[1] == '-' && members[2] == b && members[3..] == rest;
    if a <= b {
      assert Ranges(members).value == [(a, b)] + Ranges(rest).value;
      OneMoreRange(c, (a, b), Ranges(rest).value);
    }
  }

  lemma OneMoreRange(c: char, first: (char, char), rest: seq<(char, char)>)
    ensures InRanges(c, [first] + rest) <==> first.0 <= c <= first.1 || InRanges(c, rest)
  {
    var all := [first] + rest;
    if InRanges(c, rest) {
      var i :| 0 <= i < |rest| && rest[i].0 <= c <= rest[i].1;
      assert all[i + 1] == rest[i];
    }
    assert all[0] == first;
  }
}
