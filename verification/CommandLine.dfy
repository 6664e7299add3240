// Quoting one argument of a command line, and the two parsers that take such
// a line apart again: CommandLineToArgvW's rules for the arguments after the
// program name, and the quoting of section 2.2 of the POSIX.1-2017 Shell
// Command Language.

module WindowsQuoting {
  function Slashes(n: nat): (s: string)
    ensures |s| == n
  {
    if n == 0 then "" else ['\\'] + Slashes(n - 1)
  }

  lemma SlashesNone()
    ensures Slashes(0) == ""
  {}

  lemma {:induction false} SlashesEnd(n: nat)
    ensures Slashes(n + 1) == Slashes(n) + ['\\']
  {
    if n > 0 { SlashesEnd(n - 1); }
  }

  // The text between the quotes, with `held` backslashes not yet written.
  function Body(text: string, held: nat): string
    decreases |text|
  {
    if text == "" then Slashes(2 * held)
    else if text[0] == '\\' then Body(text[1..], held + 1)
    else if text[0] == '"' then Slashes(2 * held + 1) + ['"'] + Body(text[1..], 0)
    else Slashes(held) + [text[0]] + Body(text[1..], 0)
  }

  function Quoted(text: string): string { ['"'] + Body(text, 0) + ['"'] }

  // CommandLineToArgvW: current argument, whether it has begun, whether a
  // quoted part is open, and the backslashes seen last.
  function Split(s: string, cur: string, begun: bool, inQuotes: bool, held: nat): seq<string>
    decreases |s|
  {
    if s == "" then (if begun then [cur + Slashes(held)] else [])
    else if s[0] == '\\' then Split(s[1..], cur, true, inQuotes, held + 1)
    else if s[0] == '"' then
      if held % 2 == 1 then Split(s[1..], cur + Slashes(held / 2) + ['"'], true, inQuotes, 0)
      else Split(s[1..], cur + Slashes(held / 2), true, !inQuotes, 0)
    else if (s[0] == ' ' || s[0] == '\t') && !inQuotes then
      if begun then [cur + Slashes(held)] + Split(s[1..], "", false, false, 0)
      else Split(s[1..], "", false, false, 0)
    else Split(s[1..], cur + Slashes(held) + [s[0]], true, inQuotes, 0)
  }

  lemma {:induction false} SplitSlashes(n: nat, s: string, cur: string, inQuotes: bool, held: nat)
    ensures Split(Slashes(n) + s, cur, true, inQuotes, held) == Split(s, cur, true, inQuotes, held + n)
  {
    if n == 0 {
      assert Slashes(0) + s == s;
    } else {
      assert (Slashes(n) + s)[0] == '\\' && (Slashes(n) + s)[1..] == Slashes(n - 1) + s;
      SplitSlashes(n - 1, s, cur, inQuotes, held + 1);
    }
  }

  // One step of the parser at a character that is no backslash, in quotes.
  lemma SplitAtQuote(more: string, cur: string, held: nat)
    ensures Split(['"'] + more, cur, true, true, held) ==
      if held % 2 == 1 then Split(more, cur + Slashes(held / 2) + ['"'], true, true, 0)
      else Split(more, cur + Slashes(held / 2), true, false, 0)
  {
    hide Slashes;
    assert (['"'] + more)[1..] == more;
  }

  lemma SplitAtPlain(c: char, more: string, cur: string, held: nat)
    requires c != '\\' && c != '"'
    ensures Split([c] + more, cur, true, true, held) == Split(more, cur + Slashes(held) + [c], true, true, 0)
  {
    hide Slashes;
    assert ([c] + more)[1..] == more;
  }

  // Inside the quotes the parser reads back exactly the text.
  lemma {:induction false} SplitBody(text: string, held: nat, tail: string, cur: string)
    ensures Split(Body(text, held) + (['"'] + tail), cur, true, true, 0)
         == Split(tail, cur + Slashes(held) + text, true, false, 0)
    decreases |text|
  {
    hide Split;
    hide Slashes;
    var rest := ['"'] + tail;
    if text == "" {
      SplitSlashes(2 * held, rest, cur, true, 0);
      SplitAtQuote(tail, cur, 2 * held);
      assert cur + Slashes(held) + "" == cur + Slashes(held);
    } else if text[0] == '\\' {
      SplitBody(text[1..], held + 1, tail, cur);
      SlashesEnd(held);
      assert cur + (Slashes(held) + ['\\']) + text[1..] == cur + Slashes(held) + text;
    } else {
      var cut := cur + Slashes(held) + [text[0]];
      SplitHead(text, held, rest, cur);
      SplitBody(text[1..], 0, tail, cut);
      SlashesNone();
      assert cut + Slashes(0) + text[1..] == cur + Slashes(held) + text;
    }
  }

  // One character that is no backslash, with the backslashes held before it.
  lemma SplitHead(text: string, held: nat, rest: string, cur: string)
    requires text != "" && text[0] != '\\'
    ensures Split(Body(text, held) + rest, cur, true, true, 0)
         == Split(Body(text[1..], 0) + rest, cur + Slashes(held) + [text[0]], true, true, 0)
  {
    hide Split;
    hide Slashes;
    var more := Body(text[1..], 0) + rest;
    if text[0] == '"' {
      SlashesFirst(Slashes(2 * held + 1), text[0], Body(text[1..], 0), rest);
      SplitSlashes(2 * held + 1, [text[0]] + more, cur, true, 0);
      SplitAtQuote(more, cur, 2 * held + 1);
    } else {
      SlashesFirst(Slashes(held), text[0], Body(text[1..], 0), rest);
      SplitSlashes(held, [text[0]] + more, cur, true, 0);
      SplitAtPlain(text[0], more, cur, held);
    }
  }

  lemma SlashesFirst(slashes: string, c: char, body: string, rest: string)
    ensures slashes + [c] + body + rest == slashes + ([c] + (body + rest))
  {}

  function Line(args: seq<string>): string {
    if args == [] then "" else if |args| == 1 then Quoted(args[0]) else Quoted(args[0]) + [' '] + Line(args[1..])
  }

  lemma SplitQuoted(text: string, tail: string)
    ensures Split(Quoted(text) + tail, "", false, false, 0) == Split(tail, text, true, false, 0)
  {
    var s := Quoted(text) + tail;
    assert s[0] == '"' && s[1..] == Body(text, 0) + (['"'] + tail);
    SplitBody(text, 0, tail, "");
    assert "" + Slashes(0) + text == text;
  }

  // Splitting a line of quoted arguments gives the arguments back.
  lemma {:induction false} SplitUndoesQuote(args: seq<string>)
    ensures Split(Line(args), "", false, false, 0) == args
  {
    if |args| == 1 {
      SplitQuoted(args[0], "");
      assert Quoted(args[0]) + "" == Quoted(args[0]);
      assert args[0] + Slashes(0) == args[0];
    } else if |args| > 1 {
      var tail := [' '] + Line(args[1..]);
      assert Line(args) == Quoted(args[0]) + tail;
      SplitQuoted(args[0], tail);
      assert tail[1..] == Line(args[1..]);
      SplitUndoesQuote(args[1..]);
      assert args[0] + Slashes(0) == args[0];
    }
  }

  method Quote(text: string) returns (result: string)
    ensures result == Quoted(text)
  {
    result := ['"'];
    var backslashes := 0;
    var i := 0;
    while i < |text|
      invariant 0 <= i <= |text|
      invariant result + Body(text[i..], backslashes) == ['"'] + Body(text, 0)
    {
      var c := text[i];
      assert text[i..][0] == c && text[i..][1..] == text[i + 1..];
      ghost var before := result;
      i := i + 1;
      if c == '\\' {
        backslashes := backslashes + 1;
        continue;
      }
      if c == '"' {
        result := result + Slashes(2 * backslashes + 1) + ['"'];
      } else {
        result := result + Slashes(backslashes) + [c];
      }
      assert result + Body(text[i..], 0) == before + Body(text[i - 1..], backslashes);
      backslashes := 0;
    }
    result := result + Slashes(2 * backslashes) + ['"'];
  }
}

module PosixQuoting {
  import opened Wrappers

  function Encoded(c: char): string { if c == '\'' then "'\\''" else [c] }

  function Body(text: string): string { if text == "" then "" else Encoded(text[0]) + Body(text[1..]) }

  function Quoted(text: string): string { ['\''] + Body(text) + ['\''] }

  // Characters that mean something when they stand unquoted.
  predicate Special(c: char) { c in "|&;<>()$`\"*?[#~=%!{}" }

  function Cons(word: string, rest: Option<seq<string>>): Option<seq<string>> {
    if rest.None? then None else Some([word] + rest.value)
  }

  // Field splitting of one simple command. None: something other than plain
  // words was found.
  function Split(s: string, cur: string, begun: bool, inQuotes: bool): Option<seq<string>>
    decreases |s|
  {
    if s == "" then (if inQuotes then None else if begun then Some([cur]) else Some([]))
    else if inQuotes then
      if s[0] == '\'' then Split(s[1..], cur, true, false) else Split(s[1..], cur + [s[0]], true, true)
    else if s[0] == '\'' then Split(s[1..], cur, true, true)
    else if s[0] == '\\' then
      if |s| == 1 then None
      else if s[1] == '\n' then Split(s[2..], cur, begun, false)
      else Split(s[2..], cur + [s[1]], true, false)
    else if s[0] == ' ' || s[0] == '\t' then
      if begun then Cons(cur, Split(s[1..], "", false, false)) else Split(s[1..], "", false, false)
    else if s[0] == '\n' || Special(s[0]) then None
    else Split(s[1..], cur + [s[0]], true, false)
  }

  // Closing, an escaped quote, and opening again.
  lemma SplitEscapedQuote(s: string, cur: string)
    ensures Split("'\\''" + s, cur, true, true) == Split(s, cur + ['\''], true, true)
  {
    var a, b, c := "'\\''" + s, "\\''" + s, "'" + s;
    assert Split(a, cur, true, true) == Split(b, cur, true, false) by { assert a[0] == '\'' && a[1..] == b; }
    assert Split(b, cur, true, false) == Split(c, cur + ['\''], true, false) by {
      assert b[0] == '\\' && b[1] == '\'' && b[2..] == c;
    }
    assert c[0] == '\'' && c[1..] == s;
  }

  lemma SplitEncoded(c: char, s: string, cur: string)
    ensures Split(Encoded(c) + s, cur, true, true) == Split(s, cur + [c], true, true)
  {
    if c == '\'' { SplitEscapedQuote(s, cur); } else { assert ([c] + s)[1..] == s; }
  }

  lemma {:induction false} SplitBody(text: string, tail: string, cur: string)
    ensures Split(Body(text) + (['\''] + tail), cur, true, true) == Split(tail, cur + text, true, false)
  {
    var rest := ['\''] + tail;
    if text == "" {
      assert Body(text) + rest == rest && rest[1..] == tail && cur + "" == cur;
    } else {
      assert Body(text) + rest == Encoded(text[0]) + (Body(text[1..]) + rest);
      SplitEncoded(text[0], Body(text[1..]) + rest, cur);
      SplitBody(text[1..], tail, cur + [text[0]]);
      assert cur + [text[0]] + text[1..] == cur + text;
    }
  }

  function Line(args: seq<string>): string {
    if args == [] then "" else if |args| == 1 then Quoted(args[0]) else Quoted(args[0]) + [' '] + Line(args[1..])
  }

  lemma SplitQuoted(text: string, tail: string)
    ensures Split(Quoted(text) + tail, "", false, false) == Split(tail, text, true, false)
  {
    var s := Quoted(text) + tail;
    assert s[0] == '\'' && s[1..] == Body(text) + (['\''] + tail);
    SplitBody(text, tail, "");
    assert "" + text == text;
  }

  // The shell sees plain words only, and they are the arguments.
  lemma {:induction false} SplitUndoesQuote(args: seq<string>)
    ensures Split(Line(args), "", false, false) == Some(args)
  {
    if |args| == 1 {
      SplitQuoted(args[0], "");
      assert Quoted(args[0]) + "" == Quoted(args[0]) && [args[0]] == args;
    } else if |args| > 1 {
      var tail := [' '] + Line(args[1..]);
      assert Line(args) == Quoted(args[0]) + tail;
      SplitQuoted(args[0], tail);
      assert tail[0] == ' ' && tail[1..] == Line(args[1..]);
      assert Split(tail, args[0], true, false) == Cons(args[0], Split(Line(args[1..]), "", false, false));
      SplitUndoesQuote(args[1..]);
      assert [args[0]] + args[1..] == args;
    }
  }

  method Quote(text: string) returns (result: string)
    ensures result == Quoted(text)
  {
    result := ['\''];
    var i := 0;
    while i < |text|
      invariant 0 <= i <= |text|
      invariant result + Body(text[i..]) == ['\''] + Body(text)
    {
      assert text[i..][0] == text[i] && text[i..][1..] == text[i + 1..];
      result := result + Encoded(text[i]);
      i := i + 1;
    }
    result := result + ['\''];
  }
}
