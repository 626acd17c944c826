// Arguments of a desktop entry's Exec line (crates/arod/src/main.rs), against a reader of the
// Desktop Entry Specification: the string escapes of "Possible value types", then quoting, then the
// field codes of "The Exec key".
module DesktopArg {
  import opened Bytes

  // ---------- the writer ----------

  // `str::replace` of one character.
  function Replace(s: string, c: char, put: string): (r: string)
  {
    if s == [] then [] else (if s[0] == c then put else [s[0]]) + Replace(s[1..], c, put)
  }

  function Quoted(s: string): string
  {
    Replace(Replace(Replace(Replace(Replace(s, '%', "%%"), '\\', "\\\\"), '"', "\\\""), '`', "\\`"), '$', "\\$")
  }

  function Escaped(s: string): string
  {
    Replace(Replace(Replace(s, '\\', "\\\\"), '\n', "\\n"), '\r', "\\r")
  }

  // `desktop_arg`
  function DesktopArg(s: string): string
  {
    "\"" + Escaped(Quoted(s)) + "\""
  }

  // ---------- the chains of replacements are maps on characters ----------

  // s with every character spelled out.
  function Spell(s: string, f: char -> string): string
  {
    if s == [] then [] else f(s[0]) + Spell(s[1..], f)
  }

  function Percent(c: char): string
  {
    if c == '%' then "%%" else [c]
  }

  function QuotedChar(c: char): string
  {
    if c == '%' then "%%"
    else if c == '\\' then "\\\\"
    else if c == '"' then "\\\""
    else if c == '`' then "\\`"
    else if c == '$' then "\\$"
    else [c]
  }

  function EscapedChar(c: char): string
  {
    if c == '\\' then "\\\\" else if c == '\n' then "\\n" else if c == '\r' then "\\r" else [c]
  }

  lemma Regroup(a: string, b: string, c: string)
    ensures (a + b) + c == a + (b + c)
  {
  }

  lemma {:induction false} ReplaceAppend(a: string, b: string, c: char, put: string)
    ensures Replace(a + b, c, put) == Replace(a, c, put) + Replace(b, c, put)
  {
    if a == [] {
      assert a + b == b;
    } else {
      ReplaceAppend(a[1..], b, c, put);
      assert (a + b)[1..] == a[1..] + b;
      var first := if a[0] == c then put else [a[0]];
      assert Replace(a + b, c, put) == first + Replace(a[1..] + b, c, put);
      Regroup(first, Replace(a[1..], c, put), Replace(b, c, put));
    }
  }

  lemma {:induction false} Misses(s: string, c: char, put: string)
    requires c !in s
    ensures Replace(s, c, put) == s
  {
    if s != [] {
      Misses(s[1..], c, put);
    }
  }

  // One replacement on the spelling of one character.
  lemma Step(s: string, c: char, put: string)
    requires s == [c] || c !in s
    ensures Replace(s, c, put) == if s == [c] then put else s
  {
    if s == [c] {
      assert Replace(s[1..], c, put) == [];
    } else {
      Misses(s, c, put);
    }
  }

  lemma QuotedAppend(a: string, b: string)
    ensures Quoted(a + b) == Quoted(a) + Quoted(b)
  {
    hide Replace;
    var a1, b1 := Replace(a, '%', "%%"), Replace(b, '%', "%%");
    var a2, b2 := Replace(a1, '\\', "\\\\"), Replace(b1, '\\', "\\\\");
    var a3, b3 := Replace(a2, '"', "\\\""), Replace(b2, '"', "\\\"");
    var a4, b4 := Replace(a3, '`', "\\`"), Replace(b3, '`', "\\`");
    ReplaceAppend(a, b, '%', "%%");
    ReplaceAppend(a1, b1, '\\', "\\\\");
    ReplaceAppend(a2, b2, '"', "\\\"");
    ReplaceAppend(a3, b3, '`', "\\`");
    ReplaceAppend(a4, b4, '$', "\\$");
  }

  lemma EscapedAppend(a: string, b: string)
    ensures Escaped(a + b) == Escaped(a) + Escaped(b)
  {
    hide Replace;
    var a1, b1 := Replace(a, '\\', "\\\\"), Replace(b, '\\', "\\\\");
    var a2, b2 := Replace(a1, '\n', "\\n"), Replace(b1, '\n', "\\n");
    ReplaceAppend(a, b, '\\', "\\\\");
    ReplaceAppend(a1, b1, '\n', "\\n");
    ReplaceAppend(a2, b2, '\r', "\\r");
  }

  // No replacement meets what an earlier one put in.
  lemma QuotedOne(c: char)
    ensures Quoted([c]) == QuotedChar(c)
  {
    hide Replace;
    var s1 := Replace([c], '%', "%%");
    var s2 := Replace(s1, '\\', "\\\\");
    var s3 := Replace(s2, '"', "\\\"");
    var s4 := Replace(s3, '`', "\\`");
    Step([c], '%', "%%");
    Step(s1, '\\', "\\\\");
    Step(s2, '"', "\\\"");
    Step(s3, '`', "\\`");
    Step(s4, '$', "\\$");
  }

  lemma EscapedOne(c: char)
    ensures Escaped([c]) == EscapedChar(c)
  {
    hide Replace;
    var s1 := Replace([c], '\\', "\\\\");
    var s2 := Replace(s1, '\n', "\\n");
    Step([c], '\\', "\\\\");
    Step(s1, '\n', "\\n");
    Step(s2, '\r', "\\r");
  }

  // Five replacements in a row are one map on characters.
  lemma {:induction false} QuotedIs(s: string)
    ensures Quoted(s) == Spell(s, QuotedChar)
  {
    if s != [] {
      hide Quoted, QuotedChar;
      QuotedIs(s[1..]);
      QuotedOne(s[0]);
      QuotedAppend([s[0]], s[1..]);
      assert [s[0]] + s[1..] == s;
    }
  }

  // So are the three of the outer layer.
  lemma {:induction false} EscapedIs(s: string)
    ensures Escaped(s) == Spell(s, EscapedChar)
  {
    if s != [] {
      hide Escaped, EscapedChar;
      EscapedIs(s[1..]);
      EscapedOne(s[0]);
      EscapedAppend([s[0]], s[1..]);
      assert [s[0]] + s[1..] == s;
    }
  }

  // What one character becomes through both layers.
  function WrittenChar(c: char): string
  {
    if c == '%' then "%%"
    else if c == '\\' then "\\\\\\\\"
    else if c == '"' then "\\\\\""
    else if c == '`' then "\\\\`"
    else if c == '$' then "\\\\$"
    else if c == '\n' then "\\n"
    else if c == '\r' then "\\r"
    else [c]
  }

  lemma WrittenOne(c: char)
    ensures Escaped(QuotedChar(c)) == WrittenChar(c)
  {
    hide Escaped;
    var q := QuotedChar(c);
    EscapedOne(q[0]);
    if |q| == 1 {
      assert q == [q[0]];
    } else {
      EscapedOne(q[1]);
      EscapedAppend([q[0]], [q[1]]);
      assert q == [q[0]] + [q[1]];
    }
  }

  // All eight replacements are one map on characters.
  lemma {:induction false} WrittenIs(s: string)
    ensures DesktopArg(s) == "\"" + Spell(s, WrittenChar) + "\""
    ensures Escaped(Quoted(s)) == Spell(s, WrittenChar)
  {
    hide Escaped, Quoted, QuotedChar, WrittenChar;
    QuotedIs(s);
    if s != [] {
      QuotedIs(s[1..]);
      WrittenIs(s[1..]);
      EscapedAppend(QuotedChar(s[0]), Quoted(s[1..]));
      WrittenOne(s[0]);
    } else {
      EscapedIs([]);
    }
  }

  // ---------- a reader ----------

  // String escapes; any other escape is an error.
  function Unescape(s: string): Option<string>
  {
    if s == [] then Some([])
    else if s[0] != '\\' then Before(s[0], Unescape(s[1..]))
    else if |s| == 1 then None
    else match s[1]
      case 's' => Before(' ', Unescape(s[2..]))
      case 'n' => Before('\n', Unescape(s[2..]))
      case 't' => Before('\t', Unescape(s[2..]))
      case 'r' => Before('\r', Unescape(s[2..]))
      case '\\' => Before('\\', Unescape(s[2..]))
      case _ => None
  }

  function Before(c: char, rest: Option<string>): Option<string>
  {
    if rest.Some? then Some([c] + rest.value) else None
  }

  // Characters that must be escaped between double quotes.
  predicate Special(c: char)
  {
    c == '"' || c == '`' || c == '$' || c == '\\'
  }

  // Characters that must not stand outside double quotes.
  predicate Reserved(c: char)
  {
    || c == ' ' || c == '\t' || c == '\n' || c == '"' || c == '\'' || c == '\\' || c == '>' || c == '<'
    || c == '~' || c == '|' || c == '&' || c == ';' || c == '$' || c == '*' || c == '?' || c == '#'
    || c == '(' || c == ')' || c == '`'
  }

  // The argument after an opening double quote, and what follows the closing one.
  function ReadQuoted(s: string): (r: Option<(string, string)>)
    ensures r.Some? ==> |r.value.1| < |s|
  {
    if s == [] then None
    else if s[0] == '"' then Some(([], s[1..]))
    else if s[0] == '\\' then
      if |s| > 1 && Special(s[1]) then InFront(s[1], ReadQuoted(s[2..])) else None
    else if Special(s[0]) then None
    else InFront(s[0], ReadQuoted(s[1..]))
  }

  function InFront(c: char, r: Option<(string, string)>): (r': Option<(string, string)>)
    ensures r.None? ==> r'.None?
    ensures r.Some? ==> r'.Some? && r'.value.1 == r.value.1
  {
    if r.Some? then Some(([c] + r.value.0, r.value.1)) else None
  }

  // An unquoted argument, up to a space.
  function ReadBare(s: string): (r: Option<(string, string)>)
    ensures r.Some? ==> |r.value.1| <= |s|
    ensures r.Some? && s != [] && s[0] != ' ' ==> |r.value.1| < |s|
  {
    if s == [] || s[0] == ' ' then Some(([], s))
    else if Reserved(s[0]) then None
    else InFront(s[0], ReadBare(s[1..]))
  }

  // Arguments are separated by spaces and quoted in whole or not at all.
  function Arguments(s: string): Option<seq<string>>
    decreases |s|
  {
    if s == [] then Some([])
    else if s[0] == ' ' then Arguments(s[1..])
    else
      var r := if s[0] == '"' then ReadQuoted(s[1..]) else ReadBare(s);
      if r.None? || (r.value.1 != [] && r.value.1[0] != ' ') then None
      else
        var rest := Arguments(r.value.1);
        if rest.Some? then Some([r.value.0] + rest.value) else None
  }

  // The field codes %% and %u of one argument.
  function Expand(s: string, uri: string): Option<string>
  {
    if s == [] then Some([])
    else if s[0] != '%' then Before(s[0], Expand(s[1..], uri))
    else if |s| > 1 && s[1] == '%' then Before('%', Expand(s[2..], uri))
    else if |s| > 1 && s[1] == 'u' then
      var rest := Expand(s[2..], uri);
      if rest.Some? then Some(uri + rest.value) else None
    else None
  }

  function ExpandAll(args: seq<string>, uri: string): Option<seq<string>>
  {
    if args == [] then Some([])
    else
      var first, rest := Expand(args[0], uri), ExpandAll(args[1..], uri);
      if first.Some? && rest.Some? then Some([first.value] + rest.value) else None
  }

  // What a launcher runs for the value of an Exec key.
  function Launched(exec: string, uri: string): Option<seq<string>>
  {
    var line := Unescape(exec);
    if line.None? then None
    else
      var args := Arguments(line.value);
      if args.None? then None else ExpandAll(args.value, uri)
  }

  // ---------- every layer undone ----------

  function Then(s: string, rest: Option<string>): Option<string>
  {
    if rest.Some? then Some(s + rest.value) else None
  }

  lemma UnescapeOne(c: char, tail: string)
    ensures Unescape(EscapedChar(c) + tail) == Before(c, Unescape(tail))
  {
    var e := EscapedChar(c);
    var all := e + tail;
    assert all[|e|..] == tail;
    assert all[0] == e[0] && (|e| == 2 ==> all[1] == e[1]);
    if |e| == 2 {
      assert e[0] == '\\' && all[1] in "nr\\";
      assert all[2..] == tail;
    } else {
      assert e == [c] && all[1..] == tail;
    }
  }

  lemma ThenBefore(s: string, rest: Option<string>)
    ensures s == [] ==> Then(s, rest) == rest
    ensures s != [] ==> Before(s[0], Then(s[1..], rest)) == Then(s, rest)
  {
    if s != [] && rest.Some? {
      assert [s[0]] + (s[1..] + rest.value) == s + rest.value;
    } else if rest.Some? {
      assert s + rest.value == rest.value;
    }
  }

  lemma {:induction false} UnescapeBack(s: string, rest: string)
    ensures Unescape(Escaped(s) + rest) == Then(s, Unescape(rest))
  {
    EscapedIs(s);
    ThenBefore(s, Unescape(rest));
    if s == [] {
      assert Escaped(s) + rest == rest;
    } else {
      hide EscapedChar, Escaped, Unescape;
      EscapedIs(s[1..]);
      UnescapeBack(s[1..], rest);
      var tail := Escaped(s[1..]) + rest;
      Regroup(EscapedChar(s[0]), Escaped(s[1..]), rest);
      UnescapeOne(s[0], tail);
    }
  }

  // Text without a backslash stands for itself.
  lemma {:induction false} PlainUnescape(s: string, rest: string)
    requires '\\' !in s
    ensures Unescape(s + rest) == Then(s, Unescape(rest))
  {
    ThenBefore(s, Unescape(rest));
    if s == [] {
      assert s + rest == rest;
    } else {
      hide Then;
      PlainUnescape(s[1..], rest);
      assert (s + rest)[1..] == s[1..] + rest;
    }
  }

  lemma ReadOne(c: char, tail: string)
    ensures ReadQuoted(QuotedChar(c) + tail) ==
            if c == '%' then InFront('%', InFront('%', ReadQuoted(tail))) else InFront(c, ReadQuoted(tail))
  {
    var all := QuotedChar(c) + tail;
    if c == '%' {
      assert all[1..] == "%" + tail && ("%" + tail)[1..] == tail;
      assert ReadQuoted("%" + tail) == InFront('%', ReadQuoted(tail));
    } else if |QuotedChar(c)| == 1 {
      assert all[1..] == tail;
    } else {
      assert all[2..] == tail;
    }
  }

  lemma {:induction false} QuotedBack(s: string, rest: string)
    ensures ReadQuoted(Quoted(s) + ("\"" + rest)) == Some((Spell(s, Percent), rest))
  {
    QuotedIs(s);
    var close := "\"" + rest;
    if s == [] {
      assert Quoted(s) + close == close && close[1..] == rest;
    } else {
      hide Quoted, QuotedChar, ReadQuoted;
      QuotedIs(s[1..]);
      QuotedBack(s[1..], rest);
      var tail := Quoted(s[1..]) + close;
      Regroup(QuotedChar(s[0]), Quoted(s[1..]), close);
      ReadOne(s[0], tail);
      var inner := Spell(s[1..], Percent);
      assert ['%'] + (['%'] + inner) == "%%" + inner;
    }
  }

  lemma {:induction false} PercentBack(s: string, uri: string)
    ensures Expand(Spell(s, Percent), uri) == Some(s)
  {
    if s != [] {
      PercentBack(s[1..], uri);
      var all, tail := Spell(s, Percent), Spell(s[1..], Percent);
      if s[0] == '%' {
        assert all[2..] == tail;
      } else {
        assert all[1..] == tail;
      }
      assert s == [s[0]] + s[1..];
    }
  }

  // An escaped argument at the head of an Exec line, whatever follows it.
  lemma ArgumentBack(s: string, rest: string, line: string)
    requires Unescape(rest) == Some(line) && (line == [] || line[0] == ' ') && Arguments(line).Some?
    ensures var whole := Unescape(DesktopArg(s) + rest);
            && whole.Some? && Arguments(whole.value) == Some([Spell(s, Percent)] + Arguments(line).value)
  {
    hide Escaped, Quoted, Spell, ReadQuoted, ReadBare;
    var close := "\"" + rest;
    PlainUnescape("\"", rest);
    UnescapeBack(Quoted(s), close);
    var body := Escaped(Quoted(s)) + close;
    PlainUnescape("\"", body);
    assert DesktopArg(s) + rest == "\"" + body;
    var whole := Quoted(s) + ("\"" + line);
    assert Unescape("\"" + body) == Some("\"" + whole);
    QuotedBack(s, line);
    assert ("\"" + whole)[1..] == whole;
  }

  // Both layers undone give back the argument, for every string.
  lemma DesktopArgBack(s: string, uri: string)
    ensures Launched(DesktopArg(s), uri) == Some([s])
  {
    hide DesktopArg, Arguments, Expand;
    ArgumentsOfNothing();
    ArgumentBack(s, [], []);
    assert DesktopArg(s) + [] == DesktopArg(s);
    PercentBack(s, uri);
    ExpandOne(Spell(s, Percent), [], uri);
    assert [Spell(s, Percent)] + [] == [Spell(s, Percent)] && [s] + [] == [s];
  }

  lemma ArgumentsOfNothing()
    ensures Arguments([]) == Some([])
  {
  }

  lemma NothingLeft(uri: string)
    ensures ExpandAll([], uri) == Some([])
  {
  }

  lemma ExpandOne(arg: string, args: seq<string>, uri: string)
    requires Expand(arg, uri).Some? && ExpandAll(args, uri).Some?
    ensures ExpandAll([arg] + args, uri) == Some([Expand(arg, uri).value] + ExpandAll(args, uri).value)
  {
    assert ([arg] + args)[1..] == args;
  }

  lemma {:induction false} ReadWord(word: string, tail: string)
    requires forall c :: c in word ==> !Reserved(c)
    requires tail == [] || tail[0] == ' '
    ensures ReadBare(word + tail) == Some((word, tail))
  {
    if word == [] {
      assert word + tail == tail;
    } else {
      ReadWord(word[1..], tail);
      assert (word + tail)[1..] == word[1..] + tail;
      assert word[0] in word && [word[0]] + word[1..] == word;
    }
  }

  // An unquoted word between spaces.
  lemma WordArgument(word: string, line: string)
    requires word != [] && (forall c :: c in word ==> !Reserved(c))
    requires (line == [] || line[0] == ' ') && Arguments(line).Some?
    ensures Arguments(" " + word + line) == Some([word] + Arguments(line).value)
  {
    hide ReadBare, ReadQuoted;
    ReadWord(word, line);
    assert (" " + word + line)[1..] == word + line;
    assert word[0] in word;
  }

  lemma WordBack(word: string, rest: string, line: string)
    requires word != [] && (forall c :: c in word ==> !Reserved(c)) && Unescape(rest) == Some(line)
    requires (line == [] || line[0] == ' ') && Arguments(line).Some?
    ensures Unescape(" " + word + rest) == Some(" " + word + line)
    ensures Arguments(" " + word + line) == Some([word] + Arguments(line).value)
  {
    hide Unescape, Arguments;
    assert Reserved('\\');
    PlainUnescape(" " + word, rest);
    WordArgument(word, line);
  }

  // A space in front of a quoted argument.
  lemma SpaceBack(rest: string, line: string)
    requires Unescape(rest) == Some(line)
    ensures Unescape(" " + rest) == Some(" " + line) && Arguments(" " + line) == Arguments(line)
  {
    PlainUnescape(" ", rest);
    assert (" " + line)[1..] == line;
  }

  lemma {:induction false} PlainExpand(s: string, uri: string)
    requires '%' !in s
    ensures Expand(s, uri) == Some(s)
  {
    if s != [] {
      PlainExpand(s[1..], uri);
      assert s == [s[0]] + s[1..];
    }
  }

  // The Exec line of an app's launcher.
  function LauncherExec(arod: string, apk: string): string
  {
    DesktopArg(arod) + (" app" + (" " + DesktopArg(apk)))
  }

  // The Exec line of its scheme handler.
  function HandlerExec(arod: string, apk: string): string
  {
    DesktopArg(arod) + (" app" + (" " + (DesktopArg(apk) + " --url %u")))
  }

  // The words of `<arod> app <apk> <rest>`.
  lemma CommandBack(arod: string, apk: string, rest: string, line: string)
    requires Unescape(rest) == Some(line) && (line == [] || line[0] == ' ') && Arguments(line).Some?
    ensures var whole := Unescape(DesktopArg(arod) + (" app" + (" " + (DesktopArg(apk) + rest))));
            && whole.Some?
            && Arguments(whole.value) == Some([Spell(arod, Percent), "app", Spell(apk, Percent)] + Arguments(line).value)
  {
    hide DesktopArg, Unescape, Arguments, Spell;
    ArgumentBack(apk, rest, line);
    var raw2 := DesktopArg(apk) + rest;
    var line2 := Unescape(raw2).value;
    SpaceBack(raw2, line2);
    WordBack("app", " " + raw2, " " + line2);
    assert " app" + (" " + raw2) == " " + "app" + (" " + raw2);
    ArgumentBack(arod, " app" + (" " + raw2), " " + "app" + (" " + line2));
    var args := Arguments(line).value;
    assert [Spell(arod, Percent), "app", Spell(apk, Percent)] + args
        == [Spell(arod, Percent)] + (["app"] + ([Spell(apk, Percent)] + args));
  }

  // The launcher runs exactly the three words it was written from, whatever is in the paths.
  lemma LauncherRuns(arod: string, apk: string, uri: string)
    ensures Launched(LauncherExec(arod, apk), uri) == Some([arod, "app", apk])
  {
    hide DesktopArg, Arguments, Expand, Spell, ExpandAll;
    ArgumentsOfNothing();
    CommandBack(arod, apk, [], []);
    assert DesktopArg(apk) + [] == DesktopArg(apk);
    NothingLeft(uri);
    ExpandCommand(arod, apk, [], uri);
    assert [Spell(arod, Percent), "app", Spell(apk, Percent)] + [] == [Spell(arod, Percent), "app", Spell(apk, Percent)];
    assert [arod, "app", apk] + [] == [arod, "app", apk];
  }

  lemma ExpandCommand(arod: string, apk: string, args: seq<string>, uri: string)
    requires ExpandAll(args, uri).Some?
    ensures ExpandAll([Spell(arod, Percent), "app", Spell(apk, Percent)] + args, uri) ==
            Some([arod, "app", apk] + ExpandAll(args, uri).value)
  {
    hide Expand, Spell;
    PercentBack(arod, uri);
    PercentBack(apk, uri);
    PlainExpand("app", uri);
    ExpandOne(Spell(apk, Percent), args, uri);
    ExpandOne("app", [Spell(apk, Percent)] + args, uri);
    ExpandOne(Spell(arod, Percent), ["app"] + ([Spell(apk, Percent)] + args), uri);
    assert [Spell(arod, Percent), "app", Spell(apk, Percent)] + args
        == [Spell(arod, Percent)] + (["app"] + ([Spell(apk, Percent)] + args));
    var rest := ExpandAll(args, uri).value;
    assert [arod, "app", apk] + rest == [arod] + (["app"] + ([apk] + rest));
  }

  lemma UrlWords()
    ensures Unescape(" --url %u") == Some(" --url %u")
    ensures Arguments(" --url %u") == Some(["--url", "%u"])
  {
    hide Unescape, Arguments;
    var url, code := "--url", "%u";
    PlainUnescape(" --url %u", []);
    assert Unescape([]) == Some([]) by {
      UnescapeOfNothing();
    }
    assert " --url %u" + [] == " --url %u";
    assert " %u" == " " + code + [] && " --url %u" == " " + url + " %u";
    ArgumentsOfNothing();
    WordArgument(code, []);
    WordArgument(url, " %u");
    assert [code] + [] == [code] && [url] + [code] == [url, code];
  }

  lemma UnescapeOfNothing()
    ensures Unescape([]) == Some([])
  {
  }

  lemma UrlExpands(uri: string)
    ensures ExpandAll(["--url", "%u"], uri) == Some(["--url", uri])
  {
    hide ExpandAll;
    PlainExpand("--url", uri);
    assert Expand("%u", uri) == Some(uri) by {
      assert "%u"[2..] == [] && uri + [] == uri;
    }
    NothingLeft(uri);
    ExpandOne("%u", [], uri);
    assert ["%u"] + [] == ["%u"] && [uri] + [] == [uri];
    ExpandOne("--url", ["%u"], uri);
    assert ["--url"] + ["%u"] == ["--url", "%u"] && ["--url"] + [uri] == ["--url", uri];
  }

  // The handler passes the link on as one argument.
  lemma HandlerRuns(arod: string, apk: string, uri: string)
    ensures Launched(HandlerExec(arod, apk), uri) == Some([arod, "app", apk, "--url", uri])
  {
    hide DesktopArg, Arguments, Unescape, Expand, Spell, ExpandAll;
    UrlWords();
    UrlExpands(uri);
    CommandBack(arod, apk, " --url %u", " --url %u");
    ExpandCommand(arod, apk, ["--url", "%u"], uri);
    assert [arod, "app", apk] + ["--url", uri] == [arod, "app", apk, "--url", uri];
  }

  // An argument never breaks the line it is on.
  lemma OneLine(s: string)
    ensures '\n' !in DesktopArg(s) && '\r' !in DesktopArg(s)
  {
    EscapedIs(Quoted(s));
    SpellOneLine(Quoted(s));
  }

  lemma {:induction false} SpellOneLine(s: string)
    ensures '\n' !in Spell(s, EscapedChar) && '\r' !in Spell(s, EscapedChar)
  {
    if s != [] {
      SpellOneLine(s[1..]);
    }
  }
}
