/** The fragment of Go's regular expressions that ignore patterns compile to: single characters, classes, `.`, `*`, `?`
    and non-capturing groups, between `^` and `$`. */
module Regexp {
  import opened Text

  datatype CharSet = Dot | Class(negated: bool, ranges: seq<(char, char)>)

  datatype Regex =
    | Empty
    | One(chars: CharSet)
    | Opt(body: Regex)
    | Star(body: Regex)
    | Cat(first: Regex, second: Regex)

  // ---------- meaning ----------

  predicate InRanges(c: char, ranges: seq<(char, char)>) {
    exists i :: 0 <= i < |ranges| && ranges[i].0 <= c <= ranges[i].1
  }

  /** `.` does not match a newline; a class does unless it says otherwise. */
  predicate InSet(c: char, chars: CharSet) {
    match chars
    case Dot => c != '\n'
    case Class(negated, ranges) => InRanges(c, ranges) != negated
  }

  predicate Accepts(r: Regex, s: string)
    decreases r, |s|
  {
    match r
    case Empty => s == ""
    case One(chars) => |s| == 1 && InSet(s[0], chars)
    case Opt(body) => s == "" || Accepts(body, s)
    case Star(body) => s == "" || exists k :: 0 < k <= |s| && Accepts(body, s[..k]) && Accepts(r, s[k..])
    case Cat(first, second) => exists k :: 0 <= k <= |s| && Accepts(first, s[..k]) && Accepts(second, s[k..])
  }

  // ---------- syntax ----------

  datatype Parse<+T> = Parsed(value: T, rest: string) | Bad

  const META := {'\\', '.', '+', '*', '?', '(', ')', '|', '[', ']', '{', '}', '^', '$'}

  /** regexp.QuoteMeta, on one character. */
  function Quote(c: char): string { if c in META then ['\\', c] else [c] }

  predicate IsAlnum(c: char) { '0' <= c <= '9' || 'a' <= c <= 'z' || 'A' <= c <= 'Z' }

  /** One character, possibly escaped. An escaped letter or digit is outside the fragment. */
  function ParseChar(t: string): (r: Parse<char>)
    ensures r.Parsed? ==> |r.rest| < |t|
  {
    if t == "" then Bad
    else if t[0] != '\\' then Parsed(t[0], t[1..])
    else if |t| >= 2 && !IsAlnum(t[1]) then Parsed(t[1], t[2..])
    else Bad
  }

  /** The members of a class, up to its closing bracket; a bracket that comes first is an ordinary member. */
  function ParseMembers(t: string, first: bool): (r: Parse<seq<(char, char)>>)
    ensures r.Parsed? ==> |r.rest| < |t|
    decreases |t|
  {
    if t == "" then Bad
    else if t[0] == ']' && !first then Parsed([], t[1..])
    else if |t| > 2 && t[0] == '[' && t[1] == ':' then Bad
    else
      var lo := ParseChar(t);
      if lo.Bad? then Bad
      else if |lo.rest| >= 2 && lo.rest[0] == '-' && lo.rest[1] != ']' then
        var hi := ParseChar(lo.rest[1..]);
        if hi.Bad? || hi.value < lo.value then Bad
        else
          var more := ParseMembers(hi.rest, false);
          if more.Bad? then Bad else Parsed([(lo.value, hi.value)] + more.value, more.rest)
      else
        var more := ParseMembers(lo.rest, false);
        if more.Bad? then Bad else Parsed([(lo.value, lo.value)] + more.value, more.rest)
  }

  predicate StartsMember(t: string) {
    t != "" && t[0] != ']' && !(|t| > 2 && t[0] == '[' && t[1] == ':')
  }

  predicate RangeDash(t: string) { |t| >= 2 && t[0] == '-' && t[1] != ']' }

  lemma SingleMember(t: string, first: bool)
    requires StartsMember(t) && ParseChar(t).Parsed? && !RangeDash(ParseChar(t).rest)
    ensures var lo := ParseChar(t);
            var more := ParseMembers(lo.rest, false);
            ParseMembers(t, first) ==
              if more.Bad? then Bad else Parsed([(lo.value, lo.value)] + more.value, more.rest)
  {
    hide ParseChar;
  }

  lemma RangeMember(t: string, first: bool)
    requires StartsMember(t) && ParseChar(t).Parsed? && RangeDash(ParseChar(t).rest)
    requires ParseChar(ParseChar(t).rest[1..]).Parsed?
    ensures var lo := ParseChar(t);
            var hi := ParseChar(lo.rest[1..]);
            var more := ParseMembers(hi.rest, false);
            ParseMembers(t, first) ==
              if hi.value < lo.value || more.Bad? then Bad else Parsed([(lo.value, hi.value)] + more.value, more.rest)
  {
    hide ParseChar;
  }

  function ParseClass(t: string): (r: Parse<Regex>)
    ensures r.Parsed? ==> |r.rest| < |t|
  {
    var negated := t != "" && t[0] == '^';
    var members := ParseMembers(if negated then t[1..] else t, true);
    if members.Bad? then Bad else Parsed(One(Class(negated, members.value)), members.rest)
  }

  function ParseAtom(t: string): (r: Parse<Regex>)
    requires t != ""
    ensures r.Parsed? ==> |r.rest| < |t|
    decreases |t|, 0
  {
    if t[0] == '.' then Parsed(One(Dot), t[1..])
    else if t[0] == '[' then ParseClass(t[1..])
    else if "(?:" <= t then
      var inner := ParseSequence(t[3..]);
      if inner.Bad? || inner.rest == "" || inner.rest[0] != ')' then Bad else Parsed(inner.value, inner.rest[1..])
    else if t[0] in META && t[0] != '\\' then Bad
    else
      var c := ParseChar(t);
      if c.Bad? then Bad else Parsed(One(Class(false, [(c.value, c.value)])), c.rest)
  }

  predicate Repeats(t: string) { t != "" && t[0] in {'*', '+', '?', '{'} }

  /** An atom and at most one repetition; `a**` and `a*?` are outside the fragment. */
  function ParseRepeated(t: string): (r: Parse<Regex>)
    requires t != ""
    ensures r.Parsed? ==> |r.rest| < |t|
    decreases |t|, 1
  {
    var atom := ParseAtom(t);
    if atom.Bad? || !Repeats(atom.rest) then atom
    else if Repeats(atom.rest[1..]) then Bad
    else if atom.rest[0] == '*' then Parsed(Star(atom.value), atom.rest[1..])
    else if atom.rest[0] == '?' then Parsed(Opt(atom.value), atom.rest[1..])
    else Bad
  }

  function ParseSequence(t: string): (r: Parse<Regex>)
    ensures r.Parsed? ==> |r.rest| <= |t|
    decreases |t|, 2
  {
    if t == "" || t[0] == ')' || t[0] == '$' then Parsed(Empty, t)
    else
      var head := ParseRepeated(t);
      if head.Bad? then Bad
      else
        var tail := ParseSequence(head.rest);
        if tail.Bad? then Bad else Parsed(Cat(head.value, tail.value), tail.rest)
  }

  /** regexp.Compile of an anchored expression. */
  function Compile(t: string): Option<Regex> {
    if t == "" || t[0] != '^' then None
    else
      var r := ParseSequence(t[1..]);
      if r.Parsed? && r.rest == "$" then Some(r.value) else None
  }

  // ---------- facts about meaning ----------

  lemma CatSplits(first: Regex, second: Regex, s: string, k: nat)
    requires k <= |s| && Accepts(first, s[..k]) && Accepts(second, s[k..])
    ensures Accepts(Cat(first, second), s)
  {
  }

  lemma CatParts(first: Regex, second: Regex, s: string) returns (k: nat)
    requires Accepts(Cat(first, second), s)
    ensures k <= |s| && Accepts(first, s[..k]) && Accepts(second, s[k..])
  {
    k :| 0 <= k <= |s| && Accepts(first, s[..k]) && Accepts(second, s[k..]);
  }

  ghost predicate AllIn(s: string, chars: CharSet) { forall i :: 0 <= i < |s| ==> InSet(s[i], chars) }

  /** A starred character set accepts exactly the strings made of its characters. */
  lemma {:induction false} StarOfSet(chars: CharSet, s: string)
    ensures Accepts(Star(One(chars)), s) <==> AllIn(s, chars)
    decreases |s|
  {
    var r := Star(One(chars));
    if s != "" {
      StarOfSet(chars, s[1..]);
      if Accepts(r, s) {
        var k :| 0 < k <= |s| && Accepts(One(chars), s[..k]) && Accepts(r, s[k..]);
        assert k == 1;
        assert s == [s[0]] + s[1..];
      }
      if AllIn(s, chars) {
        assert Accepts(One(chars), s[..1]) && Accepts(r, s[1..]);
      }
    }
  }

  lemma RunGrows(chars: CharSet, s: string, k: nat)
    requires 0 < k <= |s|
    ensures Accepts(Star(One(chars)), s[..k]) <==>
            InSet(s[0], chars) && Accepts(Star(One(chars)), s[1..][..k - 1])
  {
    hide Accepts;
    StarOfSet(chars, s[..k]);
    StarOfSet(chars, s[1..][..k - 1]);
    TakeCons(s, k);
    var rest := s[1..][..k - 1];
    assert forall i :: 0 <= i < |rest| ==> rest[i] == ([s[0]] + rest)[i + 1];
  }

  lemma StarOfNothing(body: Regex)
    ensures Accepts(Star(body), "")
  {
  }
}
