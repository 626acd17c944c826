// The texts of a selection: keywords and columns in any case, numbers as they may be written, quotes.
module SqlText {
  import opened Bytes
  import opened MediaSelection

  // ---------- words ----------

  // u and l are one letter, in upper and in lower case.
  predicate CasesOf(u: char, l: char, k: nat)
  {
    k < 26 && u as int == 'A' as int + k && l as int == 'a' as int + k
  }

  ghost predicate SameLetter(a: char, b: char)
  {
    a == b || exists k :: CasesOf(a, b, k) || CasesOf(b, a, k)
  }

  lemma LowerIff(a: char, b: char)
    ensures Lower(a) == Lower(b) <==> SameLetter(a, b)
  {
    if Lower(a) == Lower(b) && a != b {
      var k: nat := Lower(a) as int - 'a' as int;
      assert CasesOf(a, b, k) || CasesOf(b, a, k);
    }
  }

  // Words are compared letter by letter, the case of A to Z apart.
  lemma SameWordIff(a: string, b: string)
    ensures SameWord(a, b) <==> |a| == |b| && forall i :: 0 <= i < |a| ==> SameLetter(a[i], b[i])
  {
    hide Lower, SameLetter;
    if |a| == |b| {
      forall i | 0 <= i < |a|
        ensures Lower(a[i]) == Lower(b[i]) <==> SameLetter(a[i], b[i])
      {
        LowerIff(a[i], b[i]);
      }
    }
  }

  // The characters of the Unicode property White_Space, and parentheses, separate words.
  lemma BlanksAre(c: char)
    ensures IsBlank(c) <==>
            || c in "() \t\n\r"
            || c as int in {11, 12, 133, 160, 5760, 8192, 8193, 8194, 8195, 8196, 8197, 8198, 8199, 8200, 8201, 8202,
                            8232, 8233, 8239, 8287, 12288}
  {
    var all := "() \t\n\r";
    assert all[0] == '(' && all[1] == ')' && all[2] == ' ' && all[3] == '\t' && all[4] == '\n' && all[5] == '\r';
  }

  // ---------- numbers ----------

  function Repeated(c: char, k: nat): (s: string)
    ensures |s| == k && forall i :: 0 <= i < k ==> s[i] == c
  {
    seq(k, _ => c)
  }

  // The decimal digits of n behind k zeros.
  function Padded0(k: nat, n: nat): (s: string)
  {
    Repeated('0', k) + Decimal(n)
  }

  lemma {:induction false} ZerosRead(k: nat, rest: string)
    ensures Digits(Repeated('0', k) + rest, 0) == Digits(rest, 0)
  {
    var s := Repeated('0', k) + rest;
    if k > 0 {
      assert s[0] == '0' && s[1..] == Repeated('0', k - 1) + rest;
      ZerosRead(k - 1, rest);
    } else {
      assert s == rest;
    }
  }

  lemma {:induction false} DigitsInit(s: string, acc: nat)
    requires s != "" && Digits(s, acc).Some?
    ensures var n := |s| - 1;
            && '0' <= s[n] <= '9' && Digits(s[..n], acc).Some?
            && Digits(s, acc).value == Digits(s[..n], acc).value * 10 + DigitOf(s[n])
    decreases s
  {
    var n := |s| - 1;
    if n == 0 {
      assert s[..0] == "" && s[1..] == "";
    } else {
      DigitsInit(s[1..], acc * 10 + DigitOf(s[0]));
      assert s[..n][1..] == s[1..][..n - 1] && s[..n][0] == s[0];
    }
  }

  // s is the decimal notation of n, with zeros in front or not.
  ghost predicate WritesNat(s: string, n: nat)
  {
    exists k :: s == Padded0(k, n)
  }

  lemma {:induction false} ZerosInFront(s: string, n: nat) returns (k: nat)
    requires s != "" && Digits(s, 0) == Some(n)
    ensures s == Padded0(k, n)
    decreases s
  {
    var last := |s| - 1;
    DigitsInit(s, 0);
    var m := Digits(s[..last], 0).value;
    assert s == s[..last] + [s[last]];
    assert [Digit(DigitOf(s[last]))] == [s[last]];
    if last == 0 {
      assert s[..0] == "" && m == 0;
      k := 0;
    } else {
      k := ZerosInFront(s[..last], m);
      if m == 0 {
        assert Decimal(0) == "0";
        assert Repeated('0', k) + "0" == Repeated('0', k + 1);
        k := k + 1;
      } else {
        assert n / 10 == m && n % 10 == DigitOf(s[last]);
      }
    }
  }

  // A text of digits reads as the number it writes.
  lemma DigitsIff(s: string, n: nat)
    ensures s != "" && Digits(s, 0) == Some(n) <==> WritesNat(s, n)
  {
    if s != "" && Digits(s, 0) == Some(n) {
      var k := ZerosInFront(s, n);
    }
    if k :| s == Padded0(k, n) {
      ZerosRead(k, Decimal(n));
      DecimalReads(n);
    }
  }

  // How an integer may be written: a sign that fits or none, then the digits.
  ghost predicate Writes(s: string, n: int)
  {
    && s != ""
    && if s[0] == '-' then n <= 0 && WritesNat(s[1..], -n)
       else n >= 0 && WritesNat(if s[0] == '+' then s[1..] else s, n)
  }

  // A text denotes n exactly when it writes n.
  lemma DenotedIff(s: string, n: int)
    ensures Denoted(s) == Some(n) <==> Writes(s, n)
  {
    hide Digits, WritesNat;
    if s != "" {
      var digits := if s[0] == '-' || s[0] == '+' then s[1..] else s;
      DigitsIff(digits, if n < 0 then -n else n);
      if Denoted(s) == Some(n) && s[0] == '-' {
        DigitsIff(digits, -n);
      }
    }
  }

  // ---------- quotes ----------

  // Exactly the quotes at the start go.
  lemma {:induction false} TrimStartIs(s: string, q: char)
    ensures var t := TrimStart(s, q);
            && s == Repeated(q, |s| - |t|) + t
            && (t == "" || t[0] != q)
    decreases s
  {
    if s != "" && s[0] == q {
      TrimStartIs(s[1..], q);
      assert s == [q] + s[1..];
    }
  }

  // And exactly those at the end.
  lemma {:induction false} TrimEndIs(s: string, q: char)
    ensures var t := TrimEnd(s, q);
            && s == t + Repeated(q, |s| - |t|)
            && (t == "" || t[|t| - 1] != q)
    decreases |s|
  {
    if s != "" && s[|s| - 1] == q {
      TrimEndIs(s[..|s| - 1], q);
      assert s == s[..|s| - 1] + [q];
    }
  }

  lemma {:induction false} DecimalChars(n: nat)
    ensures forall i :: 0 <= i < |Decimal(n)| ==> '0' <= Decimal(n)[i] <= '9'
  {
    if n >= 10 {
      DecimalChars(n / 10);
      assert Decimal(n) == Decimal(n / 10) + [Digit(n % 10)];
    }
  }

  lemma PrintedChars(n: int)
    ensures forall i :: 0 <= i < |Printed(n)| ==> Printed(n)[i] == '-' || '0' <= Printed(n)[i] <= '9'
    ensures Printed(n) != ""
  {
    hide Decimal;
    var size: nat := if n < 0 then -n else n;
    var digits := Decimal(size);
    DecimalChars(size);
    assert Printed(n) == (if n < 0 then ['-'] else []) + digits;
    assert forall i :: 0 <= i < |digits| ==> '0' <= digits[i] <= '9';
  }

  lemma NothingTrimmed(s: string)
    requires forall i :: 0 <= i < |s| ==> s[i] != '\'' && s[i] != '\"'
    ensures Unquoted(s) == s
  {
    assert TrimStart(s, '\'') == s && TrimEnd(s, '\'') == s && TrimStart(s, '\"') == s && TrimEnd(s, '\"') == s;
  }

  // How a number may stand in a selection.
  datatype Quote = Bare | Single | Double

  function Quoted(text: string, q: Quote): string
  {
    match q case Bare => text case Single => "'" + text + "'" case Double => "\"" + text + "\""
  }

  lemma TrimBoth(text: string, q: char)
    requires text != "" && text[0] != q && text[|text| - 1] != q
    ensures TrimEnd(TrimStart([q] + text + [q], q), q) == text
  {
    var s := [q] + text + [q];
    assert s[1..] == text + [q] && (text + [q])[0] == text[0];
    assert TrimStart(s, q) == TrimStart(s[1..], q) == text + [q];
    var t := text + [q];
    assert t[..|t| - 1] == text;
    assert TrimEnd(t, q) == TrimEnd(text, q) == text;
  }

  // Quotes around a text without quotes are taken off.
  lemma QuotesOff(text: string, q: Quote)
    requires text != "" && forall i :: 0 <= i < |text| ==> text[i] != '\'' && text[i] != '\"'
    ensures Unquoted(Quoted(text, q)) == text
  {
    match q
    case Bare => NothingTrimmed(text);
    case Single =>
      TrimBoth(text, '\'');
      assert ['\''] + text + ['\''] == "'" + text + "'";
      assert TrimStart(text, '\"') == text && TrimEnd(text, '\"') == text;
    case Double =>
      var s := "\"" + text + "\"";
      TrimBoth(text, '\"');
      assert ['\"'] + text + ['\"'] == s;
      assert TrimStart(s, '\'') == s && TrimEnd(s, '\'') == s;
  }

  // A number, quoted or not, is a literal the tokenizer keeps whole, and denotes itself.
  lemma QuotedLiteral(n: int, q: Quote)
    ensures OperandOk(Lit(Quoted(Printed(n), q)))
    ensures forall args :: Meaning(Lit(Quoted(Printed(n), q)), args) == (Some(Printed(n)), args)
  {
    hide Printed, Denoted, Unquoted;
    PrintedChars(n);
    QuotesOff(Printed(n), q);
    var s := Quoted(Printed(n), q);
    forall i | 0 <= i < |s|
      ensures !IsBlank(s[i]) && s[i] != '=' && s[i] != '?'
    {
      if q != Bare && 0 < i < |s| - 1 {
        assert s[i] == Printed(n)[i - 1];
      }
    }
    assert s != "?" by {
      assert s[0] != '?';
    }
  }

  // Without quotes in particular.
  lemma PrintedLiteral(n: int)
    ensures OperandOk(Lit(Printed(n))) && Unquoted(Printed(n)) == Printed(n)
    ensures forall args :: Meaning(Lit(Printed(n)), args) == (Some(Printed(n)), args)
    ensures Denoted(Printed(n)) == Some(n)
    ensures forall limit: nat :: Number(Some(Printed(n)), limit) == if -(limit as int) <= n < limit as int then Some(n) else None
  {
    hide Printed, Denoted, Unquoted, ParseInt;
    forall limit: nat
      ensures ParseInt(Printed(n), limit) == if -(limit as int) <= n < limit as int then Some(n) else None
    {
      PrintedReads(n, limit);
    }
    PrintedReads(n, 0);
    PrintedChars(n);
    NothingTrimmed(Printed(n));
    assert |Printed(n)| == 1 ==> Printed(n)[0] != '?';
  }
}
