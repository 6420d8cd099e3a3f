/** Removing line and block comments from JSON text before it is parsed. */
module Jsonc {
  // ---- what is left of a text, by where the reader is in it

  /** Outside strings and comments. */
  function Strip(t: string): string
    decreases |t|
  {
    if t == [] then []
    else if t[0] == '"' then [t[0]] + StripString(t[1..], false)
    else if t[0] == '/' && |t| > 1 && t[1] == '/' then StripLine(t[2..])
    else if t[0] == '/' && |t| > 1 && t[1] == '*' then StripBlock(t[2..], '\0')
    else [t[0]] + Strip(t[1..])
  }

  /** Inside a string literal; `escaped` after a backslash. */
  function StripString(t: string, escaped: bool): string
    decreases |t|
  {
    if t == [] then []
    else if escaped then [t[0]] + StripString(t[1..], false)
    else if t[0] == '\\' then [t[0]] + StripString(t[1..], true)
    else if t[0] == '"' then [t[0]] + Strip(t[1..])
    else [t[0]] + StripString(t[1..], false)
  }

  /** Inside a line comment. */
  function StripLine(t: string): string
    decreases |t|
  {
    if t == [] then []
    else if t[0] == '\n' then ['\n'] + Strip(t[1..])
    else StripLine(t[1..])
  }

  /** Inside a block comment, after the character `prev`. */
  function StripBlock(t: string, prev: char): string
    decreases |t|
  {
    if t == [] then []
    else if t[0] == '\n' then ['\n'] + StripBlock(t[1..], t[0])
    else if prev == '*' && t[0] == '/' then Strip(t[1..])
    else StripBlock(t[1..], t[0])
  }

  // ---- text without comments

  /** No comment opens outside the string literals. */
  predicate Clean(t: string)
    decreases |t|
  {
    t == []
    || (if t[0] == '"' then CleanString(t[1..], false)
        else !(t[0] == '/' && |t| > 1 && (t[1] == '/' || t[1] == '*')) && Clean(t[1..]))
  }

  predicate CleanString(t: string, escaped: bool)
    decreases |t|
  {
    t == []
    || (if escaped then CleanString(t[1..], false)
        else if t[0] == '\\' then CleanString(t[1..], true)
        else if t[0] == '"' then Clean(t[1..])
        else CleanString(t[1..], false))
  }

  lemma Head(c: char, t: string)
    ensures ([c] + t)[0] == c && ([c] + t)[1..] == t
  {
  }

  /** What is kept is clean. The first character kept is not one that could turn a preceding slash
      into an opener, unless it was there in the text. */
  lemma {:induction false} StripClean(t: string)
    ensures Clean(Strip(t))
    decreases |t|
  {
    if t != [] {
      var rest := t[1..];
      if t[0] == '"' {
        StringClean(rest, false);
        Head(t[0], StripString(rest, false));
      } else if t[0] == '/' && |t| > 1 && t[1] == '/' {
        LineClean(t[2..]);
      } else if t[0] == '/' && |t| > 1 && t[1] == '*' {
        BlockClean(t[2..], '\0');
      } else {
        StripClean(rest);
        Head(t[0], Strip(rest));
        if t[0] == '/' && rest != [] { FirstKept(rest); }
      }
    }
  }

  /** A text that does not start with a slash or a star keeps its first character. */
  lemma FirstKept(t: string)
    requires t != [] && t[0] != '/' && t[0] != '*'
    ensures Strip(t) != [] && Strip(t)[0] == t[0]
  {
  }

  lemma {:induction false} StringClean(t: string, escaped: bool)
    ensures CleanString(StripString(t, escaped), escaped)
    decreases |t|
  {
    if t != [] {
      var rest := t[1..];
      if escaped {
        StringClean(rest, false);
        Head(t[0], StripString(rest, false));
      } else if t[0] == '\\' {
        StringClean(rest, true);
        Head(t[0], StripString(rest, true));
      } else if t[0] == '"' {
        StripClean(rest);
        Head(t[0], Strip(rest));
      } else {
        StringClean(rest, false);
        Head(t[0], StripString(rest, false));
      }
    }
  }

  lemma {:induction false} LineClean(t: string)
    ensures Clean(StripLine(t))
    decreases |t|
  {
    if t != [] {
      if t[0] == '\n' {
        StripClean(t[1..]);
        Head('\n', Strip(t[1..]));
      } else {
        LineClean(t[1..]);
      }
    }
  }

  lemma {:induction false} BlockClean(t: string, prev: char)
    ensures Clean(StripBlock(t, prev))
    decreases |t|
  {
    if t != [] {
      if t[0] == '\n' {
        BlockClean(t[1..], t[0]);
        Head('\n', StripBlock(t[1..], t[0]));
      } else if prev == '*' && t[0] == '/' {
        StripClean(t[1..]);
      } else {
        BlockClean(t[1..], t[0]);
      }
    }
  }

  lemma {:induction false} CleanKept(t: string)
    requires Clean(t)
    ensures Strip(t) == t
    decreases |t|
  {
    if t != [] {
      if t[0] == '"' { CleanStringKept(t[1..], false); } else { CleanKept(t[1..]); }
    }
  }

  lemma {:induction false} CleanStringKept(t: string, escaped: bool)
    requires CleanString(t, escaped)
    ensures StripString(t, escaped) == t
    decreases |t|
  {
    if t != [] {
      if escaped { CleanStringKept(t[1..], false); }
      else if t[0] == '\\' { CleanStringKept(t[1..], true); }
      else if t[0] == '"' { CleanKept(t[1..]); }
      else { CleanStringKept(t[1..], false); }
    }
  }

  /** The fixed points are exactly the texts without comments. */
  lemma UnchangedExactly(t: string)
    ensures Strip(t) == t <==> Clean(t)
  {
    StripClean(t);
    if Clean(t) { CleanKept(t); }
  }

  /** A second pass finds nothing. */
  lemma Idempotent(t: string)
    ensures Strip(Strip(t)) == Strip(t)
  {
    StripClean(t);
    CleanKept(Strip(t));
  }

  // ---- lines

  function Newlines(t: string): nat {
    if t == [] then 0 else (if t[0] == '\n' then 1 else 0) + Newlines(t[1..])
  }

  /** Line numbers in a parse error stay right. */
  lemma {:induction false} SameLines(t: string)
    ensures Newlines(Strip(t)) == Newlines(t)
    decreases |t|
  {
    if t != [] {
      var rest := t[1..];
      if t[0] == '"' {
        StringLines(rest, false);
        Head(t[0], StripString(rest, false));
      } else if t[0] == '/' && |t| > 1 && (t[1] == '/' || t[1] == '*') {
        assert rest[0] == t[1] && rest[1..] == t[2..];
        if t[1] == '/' { LineLines(t[2..]); } else { BlockLines(t[2..], '\0'); }
      } else {
        SameLines(rest);
        Head(t[0], Strip(rest));
      }
    }
  }

  lemma {:induction false} StringLines(t: string, escaped: bool)
    ensures Newlines(StripString(t, escaped)) == Newlines(t)
    decreases |t|
  {
    if t != [] {
      var rest := t[1..];
      if !escaped && t[0] == '"' {
        SameLines(rest);
        Head(t[0], Strip(rest));
      } else {
        var next := !escaped && t[0] == '\\';
        StringLines(rest, next);
        Head(t[0], StripString(rest, next));
      }
    }
  }

  lemma {:induction false} LineLines(t: string)
    ensures Newlines(StripLine(t)) == Newlines(t)
    decreases |t|
  {
    if t != [] {
      if t[0] == '\n' {
        SameLines(t[1..]);
        Head('\n', Strip(t[1..]));
      } else {
        LineLines(t[1..]);
      }
    }
  }

  lemma {:induction false} BlockLines(t: string, prev: char)
    ensures Newlines(StripBlock(t, prev)) == Newlines(t)
    decreases |t|
  {
    if t != [] {
      if t[0] == '\n' {
        BlockLines(t[1..], t[0]);
        Head('\n', StripBlock(t[1..], t[0]));
      } else if prev == '*' && t[0] == '/' {
        SameLines(t[1..]);
      } else {
        BlockLines(t[1..], t[0]);
      }
    }
  }

  // ---- commented documents

  /** A document as its author wrote it: text, comments to the end of a line, and block comments. */
  datatype Piece = Text(text: string) | Line(body: string) | Block(body: string)

  /** Clean text that ends outside any string literal, and not in a slash. */
  predicate Whole(t: string)
    decreases |t|
  {
    t == []
    || (if t[0] == '"' then WholeString(t[1..], false)
        else !(t[0] == '/' && (|t| == 1 || t[1] == '/' || t[1] == '*')) && Whole(t[1..]))
  }

  predicate WholeString(t: string, escaped: bool)
    decreases |t|
  {
    t != []
    && (if escaped then WholeString(t[1..], false)
        else if t[0] == '\\' then WholeString(t[1..], true)
        else if t[0] == '"' then Whole(t[1..])
        else WholeString(t[1..], false))
  }

  /** The body of a block comment is not closed before its end; `prev` is the character before it. */
  predicate Unclosed(body: string, prev: char) {
    body == [] || (!(prev == '*' && body[0] == '/') && Unclosed(body[1..], body[0]))
  }

  predicate WellWritten(p: Piece) {
    match p
    case Text(t) => Whole(t)
    case Line(b) => '\n' !in b
    case Block(b) => Unclosed(b, '\0')
  }

  function Render(ps: seq<Piece>): string {
    if ps == [] then [] else
    (match ps[0]
     case Text(t) => t
     case Line(b) => "//" + b + "\n"
     case Block(b) => "/*" + b + "*/") + Render(ps[1..])
  }

  function OnlyNewlines(t: string): string {
    if t == [] then [] else (if t[0] == '\n' then ['\n'] else []) + OnlyNewlines(t[1..])
  }

  /** The document without its comments: all text as it was, and of each comment only its line ends. */
  function Uncommented(ps: seq<Piece>): string {
    if ps == [] then [] else
    (match ps[0]
     case Text(t) => t
     case Line(b) => "\n"
     case Block(b) => OnlyNewlines(b)) + Uncommented(ps[1..])
  }

  lemma {:induction false} WholeKept(t: string, rest: string)
    requires Whole(t)
    ensures Strip(t + rest) == t + Strip(rest)
    decreases |t|
  {
    if t == [] {
      assert t + rest == rest;
    } else {
      var u := t + rest;
      assert u[0] == t[0] && u[1..] == t[1..] + rest;
      if t[0] == '"' {
        WholeStringKept(t[1..], false, rest);
      } else {
        assert |t| > 1 ==> u[1] == t[1];
        WholeKept(t[1..], rest);
      }
      assert [t[0]] + (t[1..] + Strip(rest)) == t + Strip(rest);
    }
  }

  lemma {:induction false} WholeStringKept(t: string, escaped: bool, rest: string)
    requires WholeString(t, escaped)
    ensures StripString(t + rest, escaped) == t + Strip(rest)
    decreases |t|
  {
    hide Strip, Whole;
    var u := t + rest;
    assert u[0] == t[0] && u[1..] == t[1..] + rest;
    if !escaped && t[0] == '"' {
      WholeKept(t[1..], rest);
    } else {
      WholeStringKept(t[1..], !escaped && t[0] == '\\', rest);
    }
    assert [t[0]] + (t[1..] + Strip(rest)) == t + Strip(rest);
  }

  lemma {:induction false} LineDropped(b: string, rest: string)
    requires '\n' !in b
    ensures StripLine(b + "\n" + rest) == "\n" + Strip(rest)
  {
    var u := b + "\n" + rest;
    if b == [] {
      assert u[0] == '\n' && u[1..] == rest;
    } else {
      assert u[0] == b[0] && u[1..] == b[1..] + "\n" + rest;
      LineDropped(b[1..], rest);
    }
  }

  lemma {:induction false} BlockDropped(b: string, prev: char, rest: string)
    requires Unclosed(b, prev)
    ensures StripBlock(b + "*/" + rest, prev) == OnlyNewlines(b) + Strip(rest)
  {
    var u := b + "*/" + rest;
    if b == [] {
      assert u[0] == '*' && u[1..][0] == '/' && u[1..][1..] == rest;
      assert OnlyNewlines(b) + Strip(rest) == Strip(rest);
    } else {
      assert u[0] == b[0] && u[1..] == b[1..] + "*/" + rest;
      BlockDropped(b[1..], b[0], rest);
      assert ['\n'] + (OnlyNewlines(b[1..]) + Strip(rest)) == ['\n'] + OnlyNewlines(b[1..]) + Strip(rest);
      assert [] + OnlyNewlines(b[1..]) == OnlyNewlines(b[1..]);
    }
  }

  /** Stripping a commented document gives the document without its comments. */
  lemma {:induction false} CommentsErased(ps: seq<Piece>)
    requires forall i :: 0 <= i < |ps| ==> WellWritten(ps[i])
    ensures Strip(Render(ps)) == Uncommented(ps)
  {
    if ps != [] {
      CommentsErased(ps[1..]);
      var rest := Render(ps[1..]);
      hide Strip, Whole, Unclosed, OnlyNewlines;
      match ps[0]
      case Text(t) => WholeKept(t, rest);
      case Line(b) => LineErased(b, rest);
      case Block(b) => BlockErased(b, rest);
    }
  }

  lemma LineErased(b: string, rest: string)
    requires '\n' !in b
    ensures Strip("//" + b + "\n" + rest) == "\n" + Strip(rest)
  {
    var u := "//" + b + "\n" + rest;
    assert u[0] == '/' && u[1] == '/' && u[2..] == b + "\n" + rest;
    LineDropped(b, rest);
  }

  lemma BlockErased(b: string, rest: string)
    requires Unclosed(b, '\0')
    ensures Strip("/*" + b + "*/" + rest) == OnlyNewlines(b) + Strip(rest)
  {
    var u := "/*" + b + "*/" + rest;
    assert u[0] == '/' && u[1] == '*' && u[2..] == b + "*/" + rest;
    BlockDropped(b, '\0', rest);
  }

  // ---- the loop

  method StripJsonComments(text: string) returns (output: string)
    ensures output == Strip(text)
  {
    output := [];
    var i := 0;
    var inString, escaped := false, false;
    assert text[0..] == text;
    while i < |text|
      invariant i <= |text| && (escaped ==> inString)
      invariant Strip(text) == output + (if inString then StripString(text[i..], escaped) else Strip(text[i..]))
      decreases |text| - i
    {
      var ch := text[i];
      ghost var before := output;
      assert text[i..][0] == ch && text[i..][1..] == text[i + 1..];
      i := i + 1;
      if inString {
        output := output + [ch];
        if escaped {
          escaped := false;
        } else if ch == '\\' {
          escaped := true;
        } else if ch == '"' {
          inString := false;
        }
        Shift(before, ch, if inString then StripString(text[i..], escaped) else Strip(text[i..]));
      } else if ch == '"' {
        inString := true;
        output := output + [ch];
        Shift(before, ch, StripString(text[i..], false));
      } else if ch == '/' && i < |text| && text[i] == '/' {
        assert text[i - 1..][1] == '/' && text[i - 1..][2..] == text[i + 1..];
        output, i := SkipLine(text, i + 1, output);
      } else if ch == '/' && i < |text| && text[i] == '*' {
        assert text[i - 1..][1] == '*' && text[i - 1..][2..] == text[i + 1..];
        output, i := SkipBlock(text, i + 1, output);
      } else {
        assert |text[i - 1..]| > 1 ==> text[i - 1..][1] == text[i];
        output := output + [ch];
        Shift(before, ch, Strip(text[i..]));
      }
    }
    assert text[i..] == [] && output + [] == output;
  }

  lemma Shift(a: string, c: char, b: string)
    ensures a + [c] + b == a + ([c] + b)
  {
  }

  /** Goes past the end of the line. */
  method SkipLine(text: string, start: nat, before: string) returns (output: string, i: nat)
    requires start <= |text|
    ensures start <= i <= |text| && before + StripLine(text[start..]) == output + Strip(text[i..])
  {
    output, i := before, start;
    while i < |text|
      invariant start <= i <= |text| && output == before && StripLine(text[start..]) == StripLine(text[i..])
    {
      var next := text[i];
      assert text[i..][0] == next && text[i..][1..] == text[i + 1..];
      i := i + 1;
      if next == '\n' {
        output := output + ['\n'];
        Shift(before, '\n', Strip(text[i..]));
        return;
      }
    }
    assert text[i..] == [];
  }

  /** Goes past the end of the block, keeping the line ends in it. */
  method SkipBlock(text: string, start: nat, before: string) returns (output: string, i: nat)
    requires start <= |text|
    ensures start <= i <= |text| && before + StripBlock(text[start..], '\0') == output + Strip(text[i..])
  {
    output, i := before, start;
    var prev := '\0';
    while i < |text|
      invariant start <= i <= |text|
      invariant before + StripBlock(text[start..], '\0') == output + StripBlock(text[i..], prev)
    {
      var next := text[i];
      assert text[i..][0] == next && text[i..][1..] == text[i + 1..];
      i := i + 1;
      if next == '\n' {
        Shift(output, '\n', StripBlock(text[i..], next));
        output := output + ['\n'];
      }
      if prev == '*' && next == '/' { return; }
      prev := next;
    }
    assert text[i..] == [];
  }
}
