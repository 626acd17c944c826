// SQL selections of the media provider (crates/arod/src/services/media.rs): the tokenizer, the
// interpreter that fills a row filter, and the filter.
module MediaSelection {
  import opened Bytes

  // Columns a selection can filter on; None means no restriction.
  datatype Filter = Filter(id: Option<int>, idMin: Option<int>, idMax: Option<int>, bucketId: Option<int>, mediaType: Option<int>)

  datatype Item = Item(id: I64, bucketId: I32, mediaType: I32)

  const ANY: Filter := Filter(None, None, None, None, None)

  // ---------- characters, words, numbers ----------

  // `char::is_whitespace`
  predicate IsSpace(c: char)
  {
    var n := c as int;
    9 <= n <= 13 || n == 32 || n == 0x85 || n == 0xA0 || n == 0x1680 || 0x2000 <= n <= 0x200A
    || n == 0x2028 || n == 0x2029 || n == 0x202F || n == 0x205F || n == 0x3000
  }

  predicate IsBlank(c: char)
  {
    IsSpace(c) || c == '(' || c == ')'
  }

  function Lower(c: char): char
  {
    if 'A' <= c <= 'Z' then (c as int + 32) as char else c
  }

  // `eq_ignore_ascii_case`
  predicate SameWord(a: string, b: string)
  {
    |a| == |b| && forall i :: 0 <= i < |a| ==> Lower(a[i]) == Lower(b[i])
  }

  function DigitOf(c: char): (d: nat)
    requires '0' <= c <= '9'
    ensures d < 10
  {
    c as int - 48
  }

  function Digits(s: string, acc: nat): (r: Option<nat>)
  {
    if s == "" then Some(acc)
    else if '0' <= s[0] <= '9' then Digits(s[1..], acc * 10 + DigitOf(s[0]))
    else None
  }

  // The integer, of any size, that a text writes in decimal.
  function Denoted(s: string): (r: Option<int>)
  {
    var digits := if s != "" && (s[0] == '-' || s[0] == '+') then s[1..] else s;
    if digits == "" || Digits(digits, 0).None? then None
    else
      var n: int := Digits(digits, 0).value;
      Some(if s[0] == '-' then -n else n)
  }

  // `str::parse` to a signed integer with values from -limit up to limit.
  function ParseInt(s: string, limit: nat): (r: Option<int>)
    ensures r.Some? ==> -(limit as int) <= r.value < limit as int
  {
    var v := Denoted(s);
    if v.Some? && -(limit as int) <= v.value < limit as int then v else None
  }

  const I32_LIMIT: nat := 0x8000_0000
  const I64_LIMIT: nat := 0x8000_0000_0000_0000

  // `trim_matches(q)`
  function TrimStart(s: string, q: char): (t: string)
    ensures |t| <= |s|
  {
    if s != "" && s[0] == q then TrimStart(s[1..], q) else s
  }

  function TrimEnd(s: string, q: char): (t: string)
    ensures |t| <= |s|
  {
    if s != "" && s[|s| - 1] == q then TrimEnd(s[..|s| - 1], q) else s
  }

  function Unquoted(s: string): string
  {
    var t := TrimEnd(TrimStart(s, '\''), '\'');
    TrimEnd(TrimStart(t, '\"'), '\"')
  }

  // ---------- tokenizer ----------

  function Flush(cur: string): (out: seq<string>)
  {
    if cur == "" then [] else [cur]
  }

  // Tokens of sql when the characters cur of a word are pending.
  function Tokens(sql: string, cur: string): (out: seq<string>)
    decreases |sql|
  {
    if sql == "" then Flush(cur)
    else if IsBlank(sql[0]) then Flush(cur) + Tokens(sql[1..], "")
    else if sql[0] == '=' then Flush(cur) + (["="] + Tokens(sql[1..], ""))
    else Tokens(sql[1..], cur + [sql[0]])
  }

  method TokenizeSql(sql: string) returns (out: seq<string>)
    ensures out == Tokens(sql, "")
  {
    out := [];
    var cur := "";
    for i := 0 to |sql|
      invariant Tokens(sql, "") == out + Tokens(sql[i..], cur)
    {
      var c := sql[i];
      assert sql[i..][1..] == sql[i + 1..];
      ghost var rest := Tokens(sql[i + 1..], "");
      if IsSpace(c) {
        assert out + (Flush(cur) + rest) == out + Flush(cur) + rest;
        if cur != "" {
          out := out + [cur];
          cur := "";
        }
      } else if c == '=' {
        assert out + (Flush(cur) + (["="] + rest)) == out + Flush(cur) + ["="] + rest;
        if cur != "" {
          out := out + [cur];
          cur := "";
        }
        out := out + ["="];
      } else if c == '(' || c == ')' {
        assert out + (Flush(cur) + rest) == out + Flush(cur) + rest;
        if cur != "" {
          out := out + [cur];
          cur := "";
        }
      } else {
        cur := cur + [c];
      }
    }
    assert sql[|sql|..] == "";
    if cur != "" {
      out := out + [cur];
    }
  }

  // ---------- interpreter ----------

  // resolve_num: the operand's text, and the arguments left. Tokens hold no white space, so the trim
  // before it changes nothing.
  function Resolve(rhs: string, args: seq<string>): (Option<string>, seq<string>)
  {
    if rhs == "?" then (if args == [] then None else Some(args[0]), if args == [] then [] else args[1..])
    else (Some(Unquoted(rhs)), args)
  }

  function Number(s: Option<string>, limit: nat): Option<int>
  {
    match s case None => None case Some(t) => ParseInt(t, limit)
  }

  function SetEq(f: Filter, col: string, val: Option<string>): Filter
  {
    if SameWord(col, "bucket_id") then f.(bucketId := Number(val, I32_LIMIT))
    else if SameWord(col, "_id") then f.(id := Number(val, I64_LIMIT))
    else if SameWord(col, "media_type") then f.(mediaType := Number(val, I32_LIMIT))
    else f
  }

  // apply_selection on the tokens and arguments left.
  function Apply(f: Filter, toks: seq<string>, args: seq<string>): (g: Filter)
    decreases |toks|
  {
    if toks == [] then f
    else if SameWord(toks[0], "and") then Apply(f, toks[1..], args)
    else if |toks| > 2 && SameWord(toks[1], "between") then
      var full := |toks| > 4 && SameWord(toks[3], "and");
      var rest := if full then toks[5..] else toks[3..];
      if SameWord(toks[0], "_id") then
        var (lo, args1) := Resolve(toks[2], args);
        var (hi, args2) := Resolve(if full then toks[4] else "?", args1);
        Apply(f.(idMin := Number(lo, I64_LIMIT), idMax := Number(hi, I64_LIMIT)), rest, args2)
      else Apply(f, rest, args)
    else if |toks| > 2 && toks[1] == "=" then
      var (val, args1) := Resolve(toks[2], args);
      Apply(SetEq(f, toks[0], val), toks[3..], args1)
    else Apply(f, toks[1..], args)
  }

  // The tail of args from position i on; past the end nothing is left.
  function From(args: seq<string>, i: nat): seq<string>
  {
    if i < |args| then args[i..] else []
  }

  method ResolveNum(rhs: string, args: seq<string>, argI: nat) returns (val: Option<string>, argI': nat)
    ensures Resolve(rhs, From(args, argI)) == (val, From(args, argI'))
  {
    if rhs == "?" {
      val := if argI < |args| then Some(args[argI]) else None;
      argI' := argI + 1;
    } else {
      val := Some(Unquoted(rhs));
      argI' := argI;
    }
  }

  method ApplySelection(f0: Filter, sql: string, args: seq<string>) returns (f: Filter)
    ensures f == Apply(f0, Tokens(sql, ""), args)
  {
    f := f0;
    if sql == "" {
      return;
    }
    var argI := 0;
    var tokens := TokenizeSql(sql);
    var i := 0;
    assert tokens[0..] == tokens && From(args, 0) == args;
    while i < |tokens|
      invariant i <= |tokens|
      invariant Apply(f0, tokens, args) == Apply(f, tokens[i..], From(args, argI))
    {
      ghost var toks := tokens[i..];
      assert forall k :: 0 <= k < |toks| ==> toks[k] == tokens[i + k] && toks[k..] == tokens[i + k..];
      if SameWord(tokens[i], "and") {
        i := i + 1;
        continue;
      }
      if i + 2 < |tokens| && SameWord(tokens[i + 1], "between") {
        var col, lo := tokens[i], tokens[i + 2];
        var hi := "?";
        var next := i + 3;
        if i + 4 < |tokens| && SameWord(tokens[i + 3], "and") {
          hi := tokens[i + 4];
          next := i + 5;
        }
        assert toks[next - i..] == tokens[next..];
        if SameWord(col, "_id") {
          var v: Option<string>;
          v, argI := ResolveNum(lo, args, argI);
          f := f.(idMin := Number(v, I64_LIMIT));
          v, argI := ResolveNum(hi, args, argI);
          f := f.(idMax := Number(v, I64_LIMIT));
        }
        i := next;
        continue;
      }
      if i + 2 < |tokens| && tokens[i + 1] == "=" {
        var val: Option<string>;
        val, argI := ResolveNum(tokens[i + 2], args, argI);
        f := SetEq(f, tokens[i], val);
        assert toks[3..] == tokens[i + 3..];
        i := i + 3;
        continue;
      }
      i := i + 1;
    }
    assert tokens[i..] == [];
  }

  // matches_visual
  predicate Matches(item: Item, f: Filter, typeRestrict: Option<int>)
  {
    var t := if typeRestrict.Some? then typeRestrict else f.mediaType;
    && (t.Some? ==> item.mediaType == t.value)
    && (f.id.Some? ==> item.id == f.id.value)
    && (f.idMin.Some? ==> item.id >= f.idMin.value)
    && (f.idMax.Some? ==> item.id <= f.idMax.value)
    && (f.bucketId.Some? ==> item.bucketId == f.bucketId.value)
  }

  // ---------- selections as conditions ----------

  // An operand: a placeholder, or the text of a literal.
  datatype Operand = Arg | Lit(text: string)

  datatype Cond = Eq(col: string, rhs: Operand) | Between(col: string, lo: Operand, hi: Operand)

  // A word the tokenizer keeps whole.
  predicate IsWord(w: string)
  {
    w != "" && forall i :: 0 <= i < |w| ==> !IsBlank(w[i]) && w[i] != '='
  }

  predicate OperandOk(o: Operand)
  {
    o.Lit? ==> IsWord(o.text) && o.text != "?"
  }

  predicate CondOk(c: Cond)
  {
    && IsWord(c.col) && !SameWord(c.col, "and")
    && match c case Eq(_, rhs) => OperandOk(rhs) case Between(_, lo, hi) => OperandOk(lo) && OperandOk(hi)
  }

  predicate CondsOk(cs: seq<Cond>)
  {
    forall i :: 0 <= i < |cs| ==> CondOk(cs[i])
  }

  function Text(o: Operand): string
  {
    match o case Arg => "?" case Lit(text) => text
  }

  // Spellings of the two keywords, in any case.
  datatype Words = Words(and_: string, between: string)

  predicate WordsOk(k: Words)
  {
    SameWord(k.and_, "and") && SameWord(k.between, "between")
  }

  function CondTokens(c: Cond, k: Words): (toks: seq<string>)
  {
    match c
    case Eq(col, rhs) => [col, "=", Text(rhs)]
    case Between(col, lo, hi) => [col, k.between, Text(lo), k.and_, Text(hi)]
  }

  // The tokens of c1 AND c2 AND ...
  function SelectionTokens(cs: seq<Cond>, k: Words): (toks: seq<string>)
  {
    if cs == [] then []
    else if |cs| == 1 then CondTokens(cs[0], k)
    else CondTokens(cs[0], k) + [k.and_] + SelectionTokens(cs[1..], k)
  }

  // What an operand stands for, and the arguments left: placeholders take them in order.
  function Meaning(o: Operand, args: seq<string>): (Option<string>, seq<string>)
  {
    match o
    case Arg => (if args == [] then None else Some(args[0]), if args == [] then [] else args[1..])
    case Lit(text) => (Some(Unquoted(text)), args)
  }

  // The filter and the arguments left after one condition, as the code has it: BETWEEN on a column
  // other than _id takes no arguments.
  function ApplyCond(f: Filter, c: Cond, args: seq<string>): (Filter, seq<string>)
  {
    match c
    case Eq(col, rhs) =>
      var (val, rest) := Meaning(rhs, args);
      (SetEq(f, col, val), rest)
    case Between(col, lo, hi) =>
      if SameWord(col, "_id") then
        var (l, args1) := Meaning(lo, args);
        var (h, args2) := Meaning(hi, args1);
        (f.(idMin := Number(l, I64_LIMIT), idMax := Number(h, I64_LIMIT)), args2)
      else (f, args)
  }

  function ApplyConds(f: Filter, cs: seq<Cond>, args: seq<string>): Filter
    decreases cs
  {
    if cs == [] then f
    else
      var (g, rest) := ApplyCond(f, cs[0], args);
      ApplyConds(g, cs[1..], rest)
  }

  lemma ResolveText(o: Operand, args: seq<string>)
    requires OperandOk(o)
    ensures Resolve(Text(o), args) == Meaning(o, args)
  {
  }

  // One condition at the front of the tokens.
  lemma ApplyOne(f: Filter, c: Cond, k: Words, rest: seq<string>, args: seq<string>)
    requires CondOk(c) && WordsOk(k)
    ensures var (g, left) := ApplyCond(f, c, args);
            Apply(f, CondTokens(c, k) + rest, args) == Apply(g, rest, left)
  {
    hide Number, SameWord, Unquoted;
    var toks := CondTokens(c, k) + rest;
    match c
    case Eq(col, rhs) =>
      ResolveText(rhs, args);
      EqualsIsNoKeyword();
      assert toks[0] == col && toks[1] == "=" && toks[2] == Text(rhs) && toks[3..] == rest;
    case Between(col, lo, hi) =>
      ResolveText(lo, args);
      ResolveText(hi, Meaning(lo, args).1);
      assert toks[0] == col && toks[1] == k.between && toks[2] == Text(lo) && toks[3] == k.and_ && toks[4] == Text(hi);
      assert toks[5..] == rest;
  }

  lemma EqualsIsNoKeyword()
    ensures !SameWord("=", "between") && !SameWord("=", "and")
  {
  }

  // A BETWEEN without its AND takes the upper bound from the next argument.
  lemma ApplyOpen(f: Filter, col: string, lo: Operand, k: Words, rest: seq<string>, args: seq<string>)
    requires CondOk(Between(col, lo, Arg)) && WordsOk(k)
    requires |rest| < 2 || !SameWord(rest[0], "and")
    ensures var (g, left) := ApplyCond(f, Between(col, lo, Arg), args);
            Apply(f, [col, k.between, Text(lo)] + rest, args) == Apply(g, rest, left)
  {
    hide Number, SameWord, Unquoted;
    var toks := [col, k.between, Text(lo)] + rest;
    ResolveText(lo, args);
    assert toks[0] == col && toks[1] == k.between && toks[2] == Text(lo) && toks[3..] == rest;
    assert |rest| > 0 ==> toks[3] == rest[0];
  }

  // A token that begins no condition is skipped.
  lemma StrayToken(f: Filter, t: string, rest: seq<string>, args: seq<string>)
    requires |rest| < 2 || SameWord(t, "and") || (!SameWord(rest[0], "between") && rest[0] != "=")
    ensures Apply(f, [t] + rest, args) == Apply(f, rest, args)
  {
    hide SameWord;
    var toks := [t] + rest;
    assert toks[1..] == rest && (|rest| > 0 ==> toks[1] == rest[0]);
  }

  lemma {:induction false} ApplyMeans(f: Filter, cs: seq<Cond>, k: Words, args: seq<string>)
    requires CondsOk(cs) && WordsOk(k)
    ensures Apply(f, SelectionTokens(cs, k), args) == ApplyConds(f, cs, args)
    decreases cs
  {
    hide CondOk, CondTokens, ApplyCond, SameWord, Resolve;
    if |cs| == 1 {
      ApplyOne(f, cs[0], k, [], args);
      assert CondTokens(cs[0], k) + [] == CondTokens(cs[0], k);
      var (g, left) := ApplyCond(f, cs[0], args);
      assert ApplyConds(g, cs[1..], left) == g;
    } else if |cs| > 1 {
      var more := SelectionTokens(cs[1..], k);
      ApplyOne(f, cs[0], k, [k.and_] + more, args);
      assert CondTokens(cs[0], k) + [k.and_] + more == CondTokens(cs[0], k) + ([k.and_] + more);
      var (g, left) := ApplyCond(f, cs[0], args);
      assert ([k.and_] + more)[1..] == more;
      ApplyMeans(g, cs[1..], k, left);
    }
  }

  // ---------- printed text ----------

  predicate AllBlank(s: string)
  {
    forall i :: 0 <= i < |s| ==> IsBlank(s[i])
  }

  predicate IsToken(t: string)
  {
    t == "=" || IsWord(t)
  }

  // toks with blanks and parentheses around them: seps[i] stands before toks[i].
  function Print(toks: seq<string>, seps: seq<string>): (sql: string)
    requires |seps| == |toks| + 1
    decreases toks
  {
    if toks == [] then seps[0] else seps[0] + (toks[0] + Print(toks[1..], seps[1..]))
  }

  // A legal layout: separators are blank, and two words never touch.
  ghost predicate Legal(toks: seq<string>, seps: seq<string>)
  {
    && |seps| == |toks| + 1
    && (forall i :: 0 <= i < |seps| ==> AllBlank(seps[i]))
    && (forall i :: 0 <= i < |toks| ==> IsToken(toks[i]))
    && (forall i :: 0 < i < |toks| ==> toks[i - 1] == "=" || toks[i] == "=" || seps[i] != "")
  }

  lemma {:induction false} SkipBlank(sep: string, rest: string, cur: string)
    requires AllBlank(sep)
    ensures Tokens(sep + rest, cur) == if sep == "" then Tokens(rest, cur) else Flush(cur) + Tokens(rest, "")
    decreases sep
  {
    if sep == "" {
      assert sep + rest == rest;
    } else {
      assert (sep + rest)[0] == sep[0] && (sep + rest)[1..] == sep[1..] + rest;
      SkipBlank(sep[1..], rest, "");
      assert Flush("") + Tokens(rest, "") == Tokens(rest, "");
    }
  }

  lemma {:induction false} TakeWord(w: string, rest: string, cur: string)
    requires forall i :: 0 <= i < |w| ==> !IsBlank(w[i]) && w[i] != '='
    ensures Tokens(w + rest, cur) == Tokens(rest, cur + w)
    decreases w
  {
    if w == "" {
      assert w + rest == rest && cur + w == cur;
    } else {
      assert (w + rest)[0] == w[0] && (w + rest)[1..] == w[1..] + rest;
      TakeWord(w[1..], rest, cur + [w[0]]);
      assert cur + [w[0]] + w[1..] == cur + w;
    }
  }

  // Tokens of a printed tail, when the word cur before it is still pending.
  lemma {:induction false} PrintTokens(toks: seq<string>, seps: seq<string>, cur: string)
    requires Legal(toks, seps)
    requires cur != "" && toks != [] && toks[0] != "=" ==> seps[0] != ""
    ensures Tokens(Print(toks, seps), cur) == Flush(cur) + toks
    decreases toks
  {
    hide AllBlank, IsWord;
    if toks == [] {
      SkipBlank(seps[0], "", cur);
      assert seps[0] + "" == seps[0];
      assert Flush(cur) + Tokens("", "") == Flush(cur);
    } else {
      var t, tail := toks[0], Print(toks[1..], seps[1..]);
      TailLegal(toks, seps);
      SkipBlank(seps[0], t + tail, cur);
      if t == "=" {
        PrintTokens(toks[1..], seps[1..], "");
        EqualsToken(tail, cur);
        EqualsToken(tail, "");
        assert Flush("") + toks[1..] == toks[1..];
        assert ["="] + toks[1..] == toks;
        assert Flush("") + toks == toks;
      } else {
        WordChars(t);
        PrintTokens(toks[1..], seps[1..], t);
        TakeWord(t, tail, "");
        assert "" + t == t;
        assert [t] + toks[1..] == toks;
      }
    }
  }

  lemma WordChars(t: string)
    requires IsToken(t) && t != "="
    ensures t != "" && forall i :: 0 <= i < |t| ==> !IsBlank(t[i]) && t[i] != '='
  {
  }

  lemma EqualsToken(tail: string, cur: string)
    ensures Tokens("=" + tail, cur) == Flush(cur) + (["="] + Tokens(tail, ""))
  {
    assert ("=" + tail)[0] == '=' && ("=" + tail)[1..] == tail;
  }

  lemma TailLegal(toks: seq<string>, seps: seq<string>)
    requires Legal(toks, seps) && toks != []
    ensures Legal(toks[1..], seps[1..]) && AllBlank(seps[0]) && IsToken(toks[0])
    ensures toks[1..] != [] && toks[0] != "=" && toks[1] != "=" ==> seps[1..][0] != ""
  {
  }

  lemma {:induction false} TokensAreTokens(cs: seq<Cond>, k: Words)
    requires CondsOk(cs) && WordsOk(k)
    ensures forall i :: 0 <= i < |SelectionTokens(cs, k)| ==> IsToken(SelectionTokens(cs, k)[i])
    decreases cs
  {
    KeywordsAreWords(k);
    if cs != [] {
      TokensAreTokens(cs[1..], k);
      assert CondOk(cs[0]);
    }
  }

  lemma KeywordsAreWords(k: Words)
    requires WordsOk(k)
    ensures IsWord(k.and_) && IsWord(k.between) && IsWord("?")
  {
    LetterWord(k.and_, "and");
    LetterWord(k.between, "between");
  }

  lemma LetterWord(w: string, key: string)
    requires SameWord(w, key) && key != "" && forall i :: 0 <= i < |key| ==> 'a' <= key[i] <= 'z'
    ensures IsWord(w)
  {
    forall i | 0 <= i < |w|
      ensures !IsBlank(w[i]) && w[i] != '='
    {
      assert Lower(w[i]) == Lower(key[i]) == key[i];
    }
  }

  // ---------- printed numbers ----------

  function Digit(d: nat): char
    requires d < 10
  {
    (48 + d) as char
  }

  function Decimal(n: nat): (s: string)
    ensures s != "" && '0' <= s[0] <= '9'
  {
    if n < 10 then [Digit(n)] else Decimal(n / 10) + [Digit(n % 10)]
  }

  function Printed(n: int): string
  {
    if n < 0 then ['-'] + Decimal(-n) else Decimal(n)
  }

  lemma {:induction false} DigitsSnoc(s: string, c: char, acc: nat)
    requires '0' <= c <= '9' && Digits(s, acc).Some?
    ensures Digits(s + [c], acc) == Some(Digits(s, acc).value * 10 + DigitOf(c))
    decreases s
  {
    if s == "" {
      assert s + [c] == [c] && [c][1..] == "";
    } else {
      assert (s + [c])[0] == s[0] && (s + [c])[1..] == s[1..] + [c];
      DigitsSnoc(s[1..], c, acc * 10 + DigitOf(s[0]));
    }
  }

  lemma {:induction false} DecimalReads(n: nat)
    ensures Digits(Decimal(n), 0) == Some(n)
  {
    if n < 10 {
      assert [Digit(n)][1..] == "";
    } else {
      DecimalReads(n / 10);
      DigitsSnoc(Decimal(n / 10), Digit(n % 10), 0);
    }
  }

  // A printed number denotes itself; one of the right width parses back, one outside does not parse.
  lemma PrintedReads(n: int, limit: nat)
    ensures Denoted(Printed(n)) == Some(n)
    ensures ParseInt(Printed(n), limit) == if -(limit as int) <= n < limit as int then Some(n) else None
  {
    if n < 0 {
      DecimalReads(-n);
      assert (['-'] + Decimal(-n))[1..] == Decimal(-n);
    } else {
      DecimalReads(n);
    }
  }
}
