/**
 The parameter section of a template: the Sprache grammar

     Line   = AnyChar.Except(LineEnd).AtLeastOnce().Token().Text()
     Parser = from sections in Line.Many() select new ParameterSection(sections)

 written out character by character, one function per combinator, together
 with a line-oriented reference reading of the same text and the proofs that
 the two agree.
 */
module TemplateParser {
  import opened Text

  /** What a Sprache parser returns: a value and the unread input, or a failure. */
  datatype Reply<+T> = Success(value: T, rest: string) | Failure

  /** The section value: the declared parameter names in source order. */
  datatype ParameterSection = ParameterSection(parameterNames: seq<string>)

  // ---------------------------------------------------------------------------
  // The combinators

  /** A line end starts the text: "\n" or "\r\n". */
  predicate AtLineEnd(s: string) {
    || (|s| > 0 && s[0] == '\n')
    || (|s| > 1 && s[0] == '\r' && s[1] == '\n')
  }

  /** `Parse.LineEnd`: an optional '\r' and then a mandatory '\n'.  Once the
      optional '\r' has been read it is not given back, so "\r\r\n" fails at
      its first character. */
  function LineEnd(s: string): (r: Reply<string>)
    ensures r.Success? <==> AtLineEnd(s)
    ensures r.Success? ==> r.value == (if s[0] == '\r' then "\r\n" else "\n")
    ensures r.Success? ==> r.value + r.rest == s
  {
    var afterCr := if |s| > 0 && s[0] == '\r' then s[1..] else s;
    if |afterCr| > 0 && afterCr[0] == '\n' then
      Success(s[..|s| - |afterCr| + 1], afterCr[1..])
    else
      Failure
  }

  /** `Parse.AnyChar.Except(Parse.LineEnd)`: one character, unless a line end
      starts here. */
  function NameChar(s: string): (r: Reply<char>)
    ensures r.Success? <==> s != [] && !AtLineEnd(s)
    ensures r.Success? ==> r.value == s[0] && r.rest == s[1..]
  {
    if LineEnd(s).Success? then Failure
    else if s == [] then Failure
    else Success(s[0], s[1..])
  }

  /** No line end starts at any of the first `n` positions of `s`. */
  predicate NoLineEndBefore(s: string, n: nat)
    requires n <= |s|
  {
    forall i :: 0 <= i < n ==> !AtLineEnd(s[i..])
  }

  /** `NameChar.Many()`: the longest run of characters up to the next line end. */
  function NameChars(s: string): (r: Reply<string>)
    ensures r.Success? && r.value + r.rest == s
    ensures NoLineEndBefore(s, |r.value|)
    ensures r.rest == [] || AtLineEnd(r.rest)
    decreases |s|
  {
    match NameChar(s)
    case Failure => Success([], s)
    case Success(c, rest) =>
      var tail := NameChars(rest);
      assert forall i :: 1 <= i <= |tail.value| ==> s[i..] == rest[i - 1..];
      Success([c] + tail.value, tail.rest)
  }

  /** `NameChar.AtLeastOnce()`: as `NameChars`, but an empty run is a failure. */
  function NameCharsAtLeastOnce(s: string): (r: Reply<string>)
    ensures r.Success? <==> s != [] && !AtLineEnd(s)
    ensures r.Success? ==> r.value + r.rest == s && |r.value| > 0
    ensures r.Success? ==> NoLineEndBefore(s, |r.value|)
    ensures r.Success? ==> r.rest == [] || AtLineEnd(r.rest)
  {
    match NameChar(s)
    case Failure => Failure
    case Success(c, rest) =>
      var tail := NameChars(rest);
      assert forall i :: 1 <= i <= |tail.value| ==> s[i..] == rest[i - 1..];
      Success([c] + tail.value, tail.rest)
  }

  /** `Parse.WhiteSpace.Many()`: the longest run of white space. */
  function WhiteSpaces(s: string): (r: Reply<string>)
    ensures r.Success? && r.value + r.rest == s
    ensures AllWhiteSpace(r.value)
    ensures r.rest == [] || !IsWhiteSpace(r.rest[0])
    decreases |s|
  {
    if s != [] && IsWhiteSpace(s[0]) then
      var tail := WhiteSpaces(s[1..]);
      Success([s[0]] + tail.value, tail.rest)
    else
      Success([], s)
  }

  /** A well-formed parameter name: not empty, not starting with white space,
      and free of line feeds. */
  predicate ValidName(name: string) {
    && |name| > 0
    && !IsWhiteSpace(name[0])
    && forall i :: 0 <= i < |name| ==> name[i] != '\n'
  }

  /** `Line`: `NameCharsAtLeastOnce` wrapped in `Token()` (white space skipped
      before and after the run) and turned into a string by `Text()`.  The
      trailing skip consumes the line end, any blank lines and the next
      line's indentation; white space inside the run, including at its end,
      stays in the name. */
  function Line(s: string): (r: Reply<string>)
    ensures r.Success? <==> !AllWhiteSpace(s)
    ensures r.Success? ==> ValidName(r.value) && |r.rest| < |s|
    ensures r.Success? ==> r.rest == [] || !IsWhiteSpace(r.rest[0])
  {
    var leading := WhiteSpaces(s);
    match NameCharsAtLeastOnce(leading.rest)
    case Failure =>
      assert leading.rest == [];
      Failure
    case Success(name, afterName) =>
      assert !AllWhiteSpace(s) by {
        assert s[|leading.value|] == name[0];
      }
      assert forall i :: 0 <= i < |name| ==> name[i] != '\n' by {
        forall i | 0 <= i < |name|
          ensures name[i] != '\n'
        {
          assert leading.rest[i..][0] == name[i];
        }
      }
      var trailing := WhiteSpaces(afterName);
      Success(name, trailing.rest)
  }

  lemma ValidNamesCons(name: string, names: seq<string>)
    requires ValidName(name)
    requires forall i :: 0 <= i < |names| ==> ValidName(names[i])
    ensures forall i :: 0 <= i < |[name] + names| ==> ValidName(([name] + names)[i])
  {
    forall i | 0 <= i < |[name] + names|
      ensures ValidName(([name] + names)[i])
    {
      if i > 0 {
        assert ([name] + names)[i] == names[i - 1];
      }
    }
  }

  /** `Line.Many()`: names until `Line` fails, which it does only on a
      remainder that is all white space. */
  function Lines(s: string): (r: Reply<seq<string>>)
    ensures r.Success?
    ensures forall i :: 0 <= i < |r.value| ==> ValidName(r.value[i])
    ensures AllWhiteSpace(r.rest)
    decreases |s|
  {
    match Line(s)
    case Failure => Success([], s)
    case Success(name, rest) =>
      var more := Lines(rest);
      ValidNamesCons(name, more.value);
      Success([name] + more.value, more.rest)
  }

  /** `ParameterSection.Parser`. */
  function Parse(text: string): (r: Reply<ParameterSection>)
    ensures r.Success?
    ensures forall i :: 0 <= i < |r.value.parameterNames| ==> ValidName(r.value.parameterNames[i])
    ensures AllWhiteSpace(r.rest)
  {
    var lines := Lines(text);
    Success(ParameterSection(lines.value), lines.rest)
  }

  // ---------------------------------------------------------------------------
  // The reference reading: one name per line that holds anything but white space

  /** The text cut at every line end ("\n" or "\r\n"), line ends dropped. */
  function SplitLines(s: string): (lines: seq<string>)
    ensures |lines| > 0
    decreases |s|
  {
    if s == [] then [[]]
    else if s[0] == '\n' then [[]] + SplitLines(s[1..])
    else if |s| > 1 && s[0] == '\r' && s[1] == '\n' then [[]] + SplitLines(s[2..])
    else
      var tail := SplitLines(s[1..]);
      [[s[0]] + tail[0]] + tail[1..]
  }

  /** Each line with its indentation removed; lines left empty are dropped. */
  function DeclaredNames(lines: seq<string>): seq<string> {
    if lines == [] then []
    else
      var name := TrimStart(lines[0]);
      (if name == [] then [] else [name]) + DeclaredNames(lines[1..])
  }

  /** `String.Join("\n", names)`. */
  function JoinLines(names: seq<string>): string {
    if names == [] then []
    else if |names| == 1 then names[0]
    else names[0] + "\n" + JoinLines(names[1..])
  }

  // ---------------------------------------------------------------------------
  // Agreement of the grammar with the reference reading

  /** One white-space character in front of the text changes no declared name. */
  lemma SkipOneWhiteSpace(c: char, t: string)
    requires IsWhiteSpace(c)
    ensures DeclaredNames(SplitLines([c] + t)) == DeclaredNames(SplitLines(t))
  {
    var s := [c] + t;
    if c == '\n' {
      assert s[1..] == t;
    } else if c == '\r' && t != [] && t[0] == '\n' {
      assert s[2..] == t[1..];
    } else {
      assert s[1..] == t;
      var tail := SplitLines(t);
      assert SplitLines(s) == [[c] + tail[0]] + tail[1..];
      assert TrimStart([c] + tail[0]) == TrimStart(tail[0]) by {
        assert ([c] + tail[0])[1..] == tail[0];
      }
      assert tail == [tail[0]] + tail[1..];
    }
  }

  /** White space in front of the text, across any number of lines, changes no
      declared name. */
  lemma {:induction false} SkipWhiteSpace(w: string, t: string)
    requires AllWhiteSpace(w)
    ensures DeclaredNames(SplitLines(w + t)) == DeclaredNames(SplitLines(t))
    decreases |w|
  {
    if w == [] {
      assert w + t == t;
    } else {
      assert AllWhiteSpace(w[1..]) by {
        forall i | 0 <= i < |w[1..]|
          ensures IsWhiteSpace(w[1..][i])
        {
          assert w[1..][i] == w[i + 1];
        }
      }
      var u := w[1..] + t;
      assert w + t == [w[0]] + u;
      SkipWhiteSpace(w[1..], t);
      SkipOneWhiteSpace(w[0], u);
    }
  }

  /** Text with no line end inside `p` continues the first line of `t`. */
  lemma {:induction false} SplitWithoutLineEnd(p: string, t: string)
    requires NoLineEndBefore(p + t, |p|)
    ensures SplitLines(p + t) == [p + SplitLines(t)[0]] + SplitLines(t)[1..]
    decreases |p|
  {
    if p == [] {
      assert p + t == t;
      var tail := SplitLines(t);
      assert [] + tail[0] == tail[0];
      assert tail == [tail[0]] + tail[1..];
    } else {
      var s := p + t;
      assert !AtLineEnd(s[0..]);
      assert s[1..] == p[1..] + t;
      assert NoLineEndBefore(p[1..] + t, |p[1..]|) by {
        forall i | 0 <= i < |p[1..]|
          ensures !AtLineEnd((p[1..] + t)[i..])
        {
          assert (p[1..] + t)[i..] == s[i + 1..];
        }
      }
      SplitWithoutLineEnd(p[1..], t);
      assert [p[0]] + (p[1..] + SplitLines(t)[0]) == p + SplitLines(t)[0];
    }
  }

  /** A name read up to a line end (or the end of the text) is the one name
      its line declares. */
  lemma ReadName(name: string, t: string)
    requires |name| > 0 && !IsWhiteSpace(name[0])
    requires NoLineEndBefore(name + t, |name|)
    requires t == [] || AtLineEnd(t)
    ensures DeclaredNames(SplitLines(name + t)) == [name] + DeclaredNames(SplitLines(t))
  {
    SplitWithoutLineEnd(name, t);
    var tail := SplitLines(t);
    assert tail[0] == [] by {
      if t != [] && t[0] == '\n' {
        assert tail == [[]] + SplitLines(t[1..]);
      } else if t != [] {
        assert tail == [[]] + SplitLines(t[2..]);
      }
    }
    var lines := SplitLines(name + t);
    assert name + [] == name;
    assert lines == [name] + tail[1..];
    assert TrimStart(name) == name;
    assert DeclaredNames(lines) == [name] + DeclaredNames(tail[1..]);
    assert DeclaredNames(tail) == DeclaredNames(tail[1..]);
  }

  /** Text that is all white space (where `Line` fails) declares no name. */
  lemma BlankDeclaresNothing(s: string)
    requires AllWhiteSpace(s)
    ensures DeclaredNames(SplitLines(s)) == []
  {
    SkipWhiteSpace(s, []);
    assert s + [] == s;
    assert SplitLines([]) == [[]];
  }

  /** Where `Line` reads a name, that name is the first one the text
      declares and the rest declares the others. */
  lemma LineReadsFirstName(s: string)
    requires Line(s).Success?
    ensures DeclaredNames(SplitLines(s)) == [Line(s).value] + DeclaredNames(SplitLines(Line(s).rest))
  {
    var leading := WhiteSpaces(s);
    var read := NameCharsAtLeastOnce(leading.rest);
    var trailing := WhiteSpaces(read.rest);
    assert read.value == Line(s).value && trailing.rest == Line(s).rest;
    SkipWhiteSpace(leading.value, leading.rest);
    ReadName(read.value, read.rest);
    SkipWhiteSpace(trailing.value, trailing.rest);
  }

  /** `Line.Many()` yields exactly the reference names. */
  lemma {:induction false} LinesAreDeclaredNames(s: string)
    ensures Lines(s).value == DeclaredNames(SplitLines(s))
    decreases |s|
  {
    if Line(s).Failure? {
      BlankDeclaresNothing(s);
    } else {
      LineReadsFirstName(s);
      LinesAreDeclaredNames(Line(s).rest);
    }
  }

  /** The parser agrees with the line-oriented reading: every line holding a
      non-white-space character contributes exactly one name, its text from
      the first non-white-space character to the line end, in source order
      and with duplicates kept. */
  lemma ParseIsLineByLine(text: string)
    ensures Parse(text).value.parameterNames == DeclaredNames(SplitLines(text))
  {
    LinesAreDeclaredNames(text);
  }

  // ---------------------------------------------------------------------------
  // Consequences

  /** Text that is empty or all white space declares no parameter, and the
      parser still succeeds. */
  lemma WhiteSpaceDeclaresNothing(text: string)
    requires AllWhiteSpace(text)
    ensures Parse(text) == Success(ParameterSection([]), text)
  {
  }

  /** Names that can be written one per line. */
  predicate Writable(name: string) {
    ValidName(name) && name[|name| - 1] != '\r'
  }

  lemma {:induction false} SplitJoin(names: seq<string>)
    requires |names| > 0
    requires forall i :: 0 <= i < |names| ==> Writable(names[i])
    ensures SplitLines(JoinLines(names)) == names
    decreases |names|
  {
    var n := names[0];
    var t: string := if |names| == 1 then [] else "\n" + JoinLines(names[1..]);
    assert JoinLines(names) == n + t;
    assert NoLineEndBefore(n + t, |n|) by {
      forall i | 0 <= i < |n|
        ensures !AtLineEnd((n + t)[i..])
      {
        assert (n + t)[i] == n[i];
        if i + 1 < |n| {
          assert (n + t)[i + 1] == n[i + 1];
        }
      }
    }
    SplitWithoutLineEnd(n, t);
    if |names| == 1 {
      assert n + [] == n;
    } else {
      assert t[1..] == JoinLines(names[1..]);
      SplitJoin(names[1..]);
      assert n + [] == n;
      assert names == [n] + names[1..];
    }
  }

  lemma {:induction false} DeclaredNamesOfNames(names: seq<string>)
    requires forall i :: 0 <= i < |names| ==> ValidName(names[i])
    ensures DeclaredNames(names) == names
    decreases |names|
  {
    if names != [] {
      assert TrimStart(names[0]) == names[0];
      DeclaredNamesOfNames(names[1..]);
      assert names == [names[0]] + names[1..];
    }
  }

  /** Round trip: names that are not empty, do not start with white space,
      contain no line feed and do not end in '\r' come back unchanged, in
      order and with duplicates, from their line-feed-separated text. */
  lemma ParseJoinRoundTrip(names: seq<string>)
    requires forall i :: 0 <= i < |names| ==> Writable(names[i])
    ensures Parse(JoinLines(names)).value.parameterNames == names
  {
    ParseIsLineByLine(JoinLines(names));
    if names != [] {
      SplitJoin(names);
      DeclaredNamesOfNames(names);
    }
  }

  /** White space at the end of a line stays in the name: nothing trims it. */
  lemma TrailingWhiteSpaceKept(name: string, w: string, next: string)
    requires Writable(name) && Writable(next)
    requires forall i :: 0 <= i < |w| ==> w[i] == ' ' || w[i] == '\t'
    ensures Parse(name + w + "\n" + next).value.parameterNames == [name + w, next]
  {
    var padded := name + w;
    assert Writable(padded) by {
      assert padded[0] == name[0];
      if w != [] {
        assert padded[|padded| - 1] == w[|w| - 1];
      } else {
        assert padded == name;
      }
    }
    assert JoinLines([padded, next]) == name + w + "\n" + next;
    ParseJoinRoundTrip([padded, next]);
  }

  /** Indentation and blank lines before a name contribute nothing; the name
      runs from its first non-white-space character to the line end. */
  lemma IndentedName(w: string, name: string, t: string)
    requires AllWhiteSpace(w)
    requires |name| > 0 && !IsWhiteSpace(name[0])
    requires NoLineEndBefore(name + t, |name|)
    requires t == [] || AtLineEnd(t)
    ensures Parse(w + name + t).value.parameterNames == [name] + Parse(t).value.parameterNames
  {
    IndentedDeclaredName(w, name, t);
    ParseIsLineByLine(w + name + t);
    ParseIsLineByLine(t);
  }

  lemma IndentedDeclaredName(w: string, name: string, t: string)
    requires AllWhiteSpace(w)
    requires |name| > 0 && !IsWhiteSpace(name[0])
    requires NoLineEndBefore(name + t, |name|)
    requires t == [] || AtLineEnd(t)
    ensures DeclaredNames(SplitLines(w + name + t)) == [name] + DeclaredNames(SplitLines(t))
  {
    assert w + name + t == w + (name + t);
    SkipWhiteSpace(w, name + t);
    ReadName(name, t);
  }
}
