/**
 * The regex that lists backend candidates (src/config_probe.rs:206-232), read back by
 * a parser for the regex subset it uses and given its usual search semantics.
 */
module CandidateRegex {
  import opened Wrappers

  // ---------------------------------------------------------------- the printer

  /** The characters `regex_escape` puts a backslash before. */
  predicate IsMeta(c: char) {
    || c == '\\' || c == '.' || c == '+' || c == '*' || c == '?' || c == '^' || c == '$'
    || c == '(' || c == ')' || c == '[' || c == ']' || c == '{' || c == '}' || c == '|'
  }

  function EscapeChar(c: char): string {
    if IsMeta(c) then ['\\', c] else [c]
  }

  function Escape(value: string): string {
    if value == "" then "" else EscapeChar(value[0]) + Escape(value[1..])
  }

  lemma EscapeNext(before: string, value: string, i: nat)
    requires i < |value| && before + Escape(value[i..]) == Escape(value)
    ensures before + EscapeChar(value[i]) + Escape(value[i + 1..]) == Escape(value)
  {
    var rest := Escape(value[i + 1..]);
    assert value[i..][1..] == value[i + 1..];
    assert before + (EscapeChar(value[i]) + rest) == before + EscapeChar(value[i]) + rest;
  }

  /** Escapes a value character by character. */
  method RegexEscape(value: string) returns (escaped: string)
    ensures escaped == Escape(value)
  {
    escaped := "";
    for i := 0 to |value|
      invariant escaped + Escape(value[i..]) == Escape(value)
    {
      var character := value[i];
      ghost var before := escaped;
      EscapeNext(before, value, i);
      if IsMeta(character) {
        escaped := escaped + ['\\'];
      }
      escaped := escaped + [character];
      assert escaped == before + EscapeChar(character);
    }
    assert escaped + Escape("") == escaped;
  }

  /** The escaped values separated by bars. */
  function JoinEscaped(values: seq<string>): string
    requires values != []
  {
    if |values| == 1 then Escape(values[0]) else Escape(values[0]) + ("|" + JoinEscaped(values[1..]))
  }

  function Pattern(values: seq<string>): string {
    if values == [] then "(?!)" else "^(?:" + (JoinEscaped(values) + ")$")
  }

  // ---------------------------------------------------------------- regexes and what they match

  datatype Re =
    | Empty
    | Never
    | Lit(c: char)
    | Any
    | Start
    | End
    | Cat(first: Re, second: Re)
    | Or(left: Re, right: Re)

  /** Does `re` match exactly the stretch of `text` from `i` to `j`? */
  ghost predicate Matches(re: Re, text: string, i: nat, j: nat)
    requires i <= j <= |text|
    decreases re
  {
    match re
    case Empty => i == j
    case Never => false
    case Lit(c) => j == i + 1 && text[i] == c
    case Any => j == i + 1
    case Start => i == j == 0
    case End => i == j == |text|
    case Cat(first, second) => exists k :: i <= k <= j && Matches(first, text, i, k) && Matches(second, text, k, j)
    case Or(left, right) => Matches(left, text, i, j) || Matches(right, text, i, j)
  }

  /** Does `re` match anywhere in `text`? */
  ghost predicate Search(re: Re, text: string) {
    exists i, j :: 0 <= i <= j <= |text| && Matches(re, text, i, j)
  }

  // ---------------------------------------------------------------- the parser

  type Parsed = Option<(Re, string)>

  /** Alternatives separated by bars, up to the end or a closing parenthesis. */
  function ParseAlternatives(p: string): (r: Parsed)
    ensures r.Some? ==> |r.value.1| <= |p|
    decreases |p|, 2
  {
    var (branch, rest) :- ParseBranch(p);
    if rest != "" && rest[0] == '|' then
      var (others, rest') :- ParseAlternatives(rest[1..]);
      Some((Or(branch, others), rest'))
    else Some((branch, rest))
  }

  /** A run of atoms, up to the end, a bar or a closing parenthesis. */
  function ParseBranch(p: string): (r: Parsed)
    ensures r.Some? ==> |r.value.1| <= |p|
    decreases |p|, 1
  {
    if p == "" || p[0] == '|' || p[0] == ')' then Some((Empty, p))
    else
      var (atom, rest) :- ParseAtom(p);
      var (more, rest') :- ParseBranch(rest);
      Some((Cat(atom, more), rest'))
  }

  /** The characters with a meaning of their own in a pattern. */
  const SYNTAX := "^$\\.*+?()[]{}|"

  /**
   * An escaped syntax character, a group, an anchor, a dot, which is any one character, or a
   * literal.  Repetitions, classes and other escapes are outside the subset.
   */
  function ParseAtom(p: string): (r: Parsed)
    requires p != ""
    ensures r.Some? ==> |r.value.1| < |p|
    decreases |p|, 0
  {
    if p[0] == '\\' then
      if |p| > 1 && p[1] in SYNTAX then Some((Lit(p[1]), p[2..])) else None
    else if "(?!)" <= p then Some((Never, p[4..]))
    else if "(?:" <= p then
      var (inner, rest) :- ParseAlternatives(p[3..]);
      if rest != "" && rest[0] == ')' then Some((inner, rest[1..])) else None
    else if p[0] == '^' then Some((Start, p[1..]))
    else if p[0] == '$' then Some((End, p[1..]))
    else if p[0] == '.' then Some((Any, p[1..]))
    else if p[0] in SYNTAX then None
    else Some((Lit(p[0]), p[1..]))
  }

  /** Reads a whole pattern. */
  function ParsePattern(p: string): Option<Re> {
    var (re, rest) :- ParseAlternatives(p);
    if rest == "" then Some(re) else None
  }

  // ---------------------------------------------------------------- parsing inverts printing

  /** The regex that matches exactly `value`. */
  ghost function Word(value: string): Re {
    if value == "" then Empty else Cat(Lit(value[0]), Word(value[1..]))
  }

  ghost function OneOf(values: seq<string>): Re
    requires values != []
  {
    if |values| == 1 then Word(values[0]) else Or(Word(values[0]), OneOf(values[1..]))
  }

  ghost predicate EndsBranch(rest: string) {
    rest != "" && (rest[0] == '|' || rest[0] == ')')
  }

  /** The printer escapes just the characters the reader gives a meaning to. */
  lemma MetaIsSyntax(c: char)
    ensures IsMeta(c) <==> c in SYNTAX
  {
  }

  lemma ParseEscapedChar(c: char, rest: string)
    ensures ParseAtom(EscapeChar(c) + rest) == Some((Lit(c), rest))
    ensures (EscapeChar(c) + rest)[0] != '|' && (EscapeChar(c) + rest)[0] != ')'
  {
    var p := EscapeChar(c) + rest;
    MetaIsSyntax(c);
    if IsMeta(c) {
      assert p[0] == '\\' && p[1] == c && p[2..] == rest;
    } else {
      assert p[0] == c && p[1..] == rest;
    }
  }

  /** An escaped value reads back as itself, up to the next bar or closing parenthesis. */
  lemma {:induction false} ParseEscaped(value: string, rest: string)
    requires EndsBranch(rest)
    ensures ParseBranch(Escape(value) + rest) == Some((Word(value), rest))
  {
    if value == "" {
      assert Escape(value) + rest == rest;
    } else {
      var tail := Escape(value[1..]) + rest;
      assert Escape(value) + rest == EscapeChar(value[0]) + tail;
      ParseEscapedChar(value[0], tail);
      ParseEscaped(value[1..], rest);
    }
  }

  /** Splitting at unescaped bars and unescaping inverts escaping and joining. */
  lemma {:induction false} ParseJoined(values: seq<string>, rest: string)
    requires values != [] && rest != "" && rest[0] == ')'
    ensures ParseAlternatives(JoinEscaped(values) + rest) == Some((OneOf(values), rest))
  {
    if |values| == 1 {
      ParseEscaped(values[0], rest);
    } else {
      var tail := JoinEscaped(values[1..]) + rest;
      assert JoinEscaped(values) + rest == Escape(values[0]) + ("|" + tail);
      ParseEscaped(values[0], "|" + tail);
      assert ("|" + tail)[1..] == tail;
      ParseJoined(values[1..], rest);
    }
  }

  lemma ParseEndAnchor()
    ensures ParseBranch("$") == Some((Cat(End, Empty), ""))
  {
    assert "$"[1..] == "";
    assert ParseAtom("$") == Some((End, ""));
    assert ParseBranch("") == Some((Empty, ""));
  }

  lemma ParseGroup(values: seq<string>)
    requires values != []
    ensures var group := "(?:" + (JoinEscaped(values) + ")$");
            ParseBranch(group) == Some((Cat(OneOf(values), Cat(End, Empty)), ""))
  {
    var body := JoinEscaped(values) + ")$";
    var group := "(?:" + body;
    assert group[3..] == body && group[0] == '(' && group[2] == ':';
    ParseJoined(values, ")$");
    assert ")$"[1..] == "$";
    assert ParseAtom(group) == Some((OneOf(values), "$"));
    ParseEndAnchor();
  }

  /** The printed pattern parses as its alternatives between two anchors. */
  lemma ParsePrinted(values: seq<string>)
    requires values != []
    ensures ParsePattern(Pattern(values)) == Some(Cat(Start, Cat(OneOf(values), Cat(End, Empty))))
  {
    var group := "(?:" + (JoinEscaped(values) + ")$");
    var pattern := Pattern(values);
    assert pattern == "^" + group && pattern[1..] == group && pattern[0] == '^';
    ParseGroup(values);
    StartThen(pattern, group, Cat(OneOf(values), Cat(End, Empty)));
  }

  lemma StartThen(pattern: string, rest: string, re: Re)
    requires pattern != "" && pattern[0] == '^' && pattern[1..] == rest
    requires ParseBranch(rest) == Some((re, ""))
    ensures ParsePattern(pattern) == Some(Cat(Start, re))
  {
    assert ParseAtom(pattern) == Some((Start, rest));
    assert ParseBranch(pattern) == Some((Cat(Start, re), ""));
  }

  lemma ParseNever()
    ensures ParsePattern("(?!)") == Some(Cat(Never, Empty))
  {
    var p := "(?!)";
    assert p[4..] == "";
    assert ParseAtom(p) == Some((Never, ""));
    assert ParseBranch("") == Some((Empty, ""));
    assert ParseBranch(p) == Some((Cat(Never, Empty), ""));
  }

  // ---------------------------------------------------------------- what the parsed pattern matches

  lemma {:induction false} WordMatches(value: string, text: string, i: nat, j: nat)
    requires i <= j <= |text|
    ensures Matches(Word(value), text, i, j) <==> text[i..j] == value
  {
    if value == "" {
    } else {
      var rest := value[1..];
      if i < j {
        WordMatches(rest, text, i + 1, j);
        assert text[i..j] == [text[i]] + text[i + 1..j];
        assert value == [value[0]] + rest;
        if text[i..j] == value {
          assert text[i..j][0] == text[i] && text[i..j][1..] == text[i + 1..j];
          assert Matches(Lit(value[0]), text, i, i + 1);
        }
      }
    }
  }

  lemma InHeadOrTail(word: string, values: seq<string>)
    requires values != []
    ensures word in values <==> word == values[0] || word in values[1..]
  {
    assert values == [values[0]] + values[1..];
  }

  lemma {:induction false} OneOfMatches(values: seq<string>, text: string, i: nat, j: nat)
    requires values != [] && i <= j <= |text|
    ensures Matches(OneOf(values), text, i, j) <==> text[i..j] in values
  {
    WordMatches(values[0], text, i, j);
    InHeadOrTail(text[i..j], values);
    if |values| > 1 {
      OneOfMatches(values[1..], text, i, j);
    }
  }

  /** Where a concatenation's two halves meet. */
  lemma SplitCat(first: Re, second: Re, text: string, i: nat, j: nat) returns (k: nat)
    requires i <= j <= |text| && Matches(Cat(first, second), text, i, j)
    ensures i <= k <= j && Matches(first, text, i, k) && Matches(second, text, k, j)
  {
    k :| i <= k <= j && Matches(first, text, i, k) && Matches(second, text, k, j);
  }

  lemma AnchoredMatches(re: Re, text: string)
    ensures Search(Cat(Start, Cat(re, Cat(End, Empty))), text) <==> Matches(re, text, 0, |text|)
  {
    var n := |text|;
    if Matches(re, text, 0, n) {
      assert Matches(End, text, n, n) && Matches(Empty, text, n, n);
      assert Matches(Cat(End, Empty), text, n, n);
      assert Matches(Cat(re, Cat(End, Empty)), text, 0, n);
      assert Matches(Start, text, 0, 0);
      assert Matches(Cat(Start, Cat(re, Cat(End, Empty))), text, 0, n);
    }
    if Search(Cat(Start, Cat(re, Cat(End, Empty))), text) {
      var i, j :| 0 <= i <= j <= n && Matches(Cat(Start, Cat(re, Cat(End, Empty))), text, i, j);
      var k := SplitCat(Start, Cat(re, Cat(End, Empty)), text, i, j);
      var m := SplitCat(re, Cat(End, Empty), text, k, j);
      var e := SplitCat(End, Empty, text, m, j);
    }
  }

  /**
   * The regex means the list: for every list of names, including the empty list and
   * lists with the empty name, the printed pattern is readable and matches a text
   * iff the text is one of the names.
   */
  lemma RegexMeansList(values: seq<string>, text: string)
    ensures ParsePattern(Pattern(values)).Some?
    ensures Search(ParsePattern(Pattern(values)).value, text) <==> text in values
  {
    if values == [] {
      ParseNever();
    } else {
      ParsePrinted(values);
      AnchoredMatches(OneOf(values), text);
      OneOfMatches(values, text, 0, |text|);
      assert text[0..|text|] == text;
    }
  }
}
