// What a media selection accepts (crates/arod/src/services/media.rs), against the meaning SQL gives the
// same conditions, and exactly when the two agree.
module SelectionMeaning {
  import opened Bytes
  import opened MediaSelection
  import opened SqlText

  // ---------- the meaning of a condition in SQL ----------

  datatype Column = CId | CBucket | CType

  function ColumnOf(col: string): (c: Option<Column>)
  {
    if SameWord(col, "bucket_id") then Some(CBucket)
    else if SameWord(col, "_id") then Some(CId)
    else if SameWord(col, "media_type") then Some(CType)
    else None
  }

  function Value(item: Item, c: Column): int
  {
    match c case CId => item.id case CBucket => item.bucketId case CType => item.mediaType
  }

  function WithValue(item: Item, c: Column, v: int): (r: Item)
    requires -(Limit(c) as int) <= v < Limit(c)
  {
    match c case CId => item.(id := v) case CBucket => item.(bucketId := v) case CType => item.(mediaType := v)
  }

  // Values of a column run from -Limit up to Limit.
  function Limit(c: Column): nat
  {
    if c.CId? then I64_LIMIT else I32_LIMIT
  }

  // A row: the columns a filter knows, and the conditions on other columns that hold of it.
  datatype Row = Row(item: Item, others: set<(string, seq<Option<string>>)>)

  // The integer an operand denotes; a missing argument or other text denotes none.
  function IntOf(val: Option<string>): Option<int>
  {
    match val case None => None case Some(text) => Denoted(text)
  }

  // A comparison with an operand that denotes no number is not satisfied.
  predicate Sat(c: Cond, args: seq<string>, row: Row)
  {
    match c
    case Eq(col, rhs) =>
      var val := Meaning(rhs, args).0;
      (match ColumnOf(col)
       case Some(k) => IntOf(val) == Some(Value(row.item, k))
       case None => (col, [val]) in row.others)
    case Between(col, lo, hi) =>
      var (l, rest) := Meaning(lo, args);
      var h := Meaning(hi, rest).0;
      match ColumnOf(col)
      case Some(k) => IntOf(l).Some? && IntOf(h).Some? && IntOf(l).value <= Value(row.item, k) <= IntOf(h).value
      case None => (col, [l, h]) in row.others
  }

  // ---------- what the filter makes of it ----------

  // The filter fields a condition sets.
  datatype Field = FId | FRange | FBucket | FType

  function FieldOf(c: Cond): (r: Option<Field>)
  {
    if c.Between? then (if SameWord(c.col, "_id") then Some(FRange) else None)
    else if SameWord(c.col, "bucket_id") then Some(FBucket)
    else if SameWord(c.col, "_id") then Some(FId)
    else if SameWord(c.col, "media_type") then Some(FType)
    else None
  }

  predicate Allows(n: Option<int>, v: int)
  {
    n.Some? ==> n.value == v
  }

  // The restriction the filter gets from c: none from a column it does not know, none from an operand
  // that does not parse at the column's width.
  predicate Holds(c: Cond, args: seq<string>, item: Item)
  {
    match c
    case Eq(col, rhs) =>
      var val := Meaning(rhs, args).0;
      (match ColumnOf(col)
       case Some(k) => Allows(Number(val, Limit(k)), Value(item, k))
       case None => true)
    case Between(col, lo, hi) =>
      var (l, rest) := Meaning(lo, args);
      var h := Meaning(hi, rest).0;
      ColumnOf(col) == Some(CId) ==>
        && (Number(l, I64_LIMIT).Some? ==> Number(l, I64_LIMIT).value <= item.id)
        && (Number(h, I64_LIMIT).Some? ==> item.id <= Number(h, I64_LIMIT).value)
  }

  // Operands the filter can enforce: a number of the column's width; for a range on _id, numbers that
  // are not beyond the far end of the width; a range on another column only when it excludes nothing.
  predicate Enforced(c: Cond, args: seq<string>)
  {
    && ColumnOf(c.col).Some?
    && var limit := Limit(ColumnOf(c.col).value) as int;
    match c
    case Eq(_, rhs) =>
      var n := IntOf(Meaning(rhs, args).0);
      n.Some? && -limit <= n.value < limit
    case Between(col, lo, hi) =>
      var (l, rest) := Meaning(lo, args);
      var a, b := IntOf(l), IntOf(Meaning(hi, rest).0);
      && a.Some? && b.Some?
      && if ColumnOf(col) == Some(CId) then a.value < limit && b.value >= -limit
         else a.value <= -limit && b.value >= limit - 1
  }

  // The filter and SQL agree on a condition, for every row, exactly when its operands are enforced.
  lemma EnforcedIff(c: Cond, args: seq<string>)
    ensures (forall row: Row :: Holds(c, args, row.item) <==> Sat(c, args, row)) <==> Enforced(c, args)
  {
    hide SameWord, Denoted, Meaning;
    if !Enforced(c, args) {
      var item := Disagreement(c, args, Item(0, 0, 0));
      var row := Row(item, {});
      assert Holds(c, args, row.item) && !Sat(c, args, row);
    }
  }

  // A row that the filter's restriction allows and SQL does not, like base on every other column.
  lemma Disagreement(c: Cond, args: seq<string>, base: Item) returns (item: Item)
    requires !Enforced(c, args)
    ensures Holds(c, args, item)
    ensures forall row: Row :: row.item == item && row.others == {} ==> !Sat(c, args, row)
    ensures forall k :: ColumnOf(c.col) != Some(k) ==> Value(item, k) == Value(base, k)
  {
    hide SameWord, Denoted, Meaning;
    item := base;
    if ColumnOf(c.col).Some? && c.Between? {
      var k := ColumnOf(c.col).value;
      var (l, rest) := Meaning(c.lo, args);
      var a, limit := IntOf(l), Limit(k) as int;
      var low := a.None? || if k == CId then a.value >= limit else a.value > -limit;
      item := WithValue(item, k, if low then -limit else limit - 1);
    }
  }

  // ---------- one filter field after the other ----------

  // Number of placeholders of a condition.
  function Arity(c: Cond): nat
  {
    match c
    case Eq(_, rhs) => if rhs.Arg? then 1 else 0
    case Between(_, lo, hi) => (if lo.Arg? then 1 else 0) + (if hi.Arg? then 1 else 0)
  }

  predicate Sets(cs: seq<Cond>, f: Field)
    decreases cs
  {
    cs != [] && (FieldOf(cs[0]) == Some(f) || Sets(cs[1..], f))
  }

  // A later condition sets the field of c again.
  predicate Superseded(c: Cond, later: seq<Cond>)
  {
    FieldOf(c).Some? && Sets(later, FieldOf(c).value)
  }

  // The arguments left for the conditions after c.
  function Left(c: Cond, args: seq<string>): seq<string>
  {
    ApplyCond(ANY, c, args).1
  }

  // Every condition that is the last of its field restricts the row.
  predicate LastHold(cs: seq<Cond>, args: seq<string>, item: Item)
    decreases cs
  {
    cs != [] ==> (Superseded(cs[0], cs[1..]) || Holds(cs[0], args, item)) && LastHold(cs[1..], Left(cs[0], args), item)
  }

  // f without the fields cs will set.
  function Masked(f: Filter, cs: seq<Cond>): Filter
  {
    Filter(if Sets(cs, FId) then None else f.id,
           if Sets(cs, FRange) then None else f.idMin,
           if Sets(cs, FRange) then None else f.idMax,
           if Sets(cs, FBucket) then None else f.bucketId,
           if Sets(cs, FType) then None else f.mediaType)
  }

  // Setting one field of a filter that leaves it open adds exactly the condition.
  lemma OneCondition(f: Filter, c: Cond, later: seq<Cond>, args: seq<string>, item: Item)
    ensures ApplyCond(f, c, args).1 == Left(c, args)
    ensures Matches(item, Masked(ApplyCond(f, c, args).0, later), None) <==>
            Matches(item, Masked(f, [c] + later), None) && (Superseded(c, later) || Holds(c, args, item))
  {
    hide Number, SameWord;
    var all := [c] + later;
    assert all[0] == c && all[1..] == later;
    ColumnsDiffer(c.col);
  }

  lemma ColumnsDiffer(col: string)
    ensures SameWord(col, "bucket_id") ==> !SameWord(col, "_id") && !SameWord(col, "media_type")
    ensures SameWord(col, "_id") ==> !SameWord(col, "media_type")
  {
  }

  lemma {:induction false} MatchesMeans(f: Filter, cs: seq<Cond>, args: seq<string>, item: Item)
    ensures Matches(item, ApplyConds(f, cs, args), None) <==>
            Matches(item, Masked(f, cs), None) && LastHold(cs, args, item)
    decreases cs
  {
    hide Matches, Masked, Holds, ApplyCond, Left;
    if cs == [] {
      MaskedNothing(f);
    } else {
      var (g, left) := ApplyCond(f, cs[0], args);
      assert cs == [cs[0]] + cs[1..];
      OneCondition(f, cs[0], cs[1..], args, item);
      MatchesMeans(g, cs[1..], left, item);
    }
  }

  lemma MaskedNothing(f: Filter)
    ensures Masked(f, []) == f
  {
  }

  lemma AnyMatches(cs: seq<Cond>, item: Item)
    ensures Matches(item, Masked(ANY, cs), None)
  {
  }

  // The filter made from a conjunction, with no restriction of the type, accepts the row.
  predicate Accepts(cs: seq<Cond>, args: seq<string>, item: Item)
  {
    Matches(item, ApplyConds(ANY, cs, args), None)
  }

  // ---------- which argument a placeholder gets ----------

  // A BETWEEN on a column other than _id, whose placeholders the code skips.
  predicate Shifts(c: Cond)
  {
    c.Between? && !SameWord(c.col, "_id") && Arity(c) > 0
  }

  // Arguments the code takes for a condition.
  function Taken(c: Cond): nat
  {
    if Shifts(c) then 0 else Arity(c)
  }

  // Placeholders of the first i conditions, and the arguments the code takes for them.
  function ArityTo(cs: seq<Cond>, i: nat): nat
    requires i <= |cs|
  {
    if i == 0 then 0 else ArityTo(cs, i - 1) + Arity(cs[i - 1])
  }

  function TakenTo(cs: seq<Cond>, i: nat): nat
    requires i <= |cs|
  {
    if i == 0 then 0 else TakenTo(cs, i - 1) + Taken(cs[i - 1])
  }

  // The arguments that reach condition i in the interpreter.
  function Reaching(cs: seq<Cond>, args: seq<string>, i: nat): seq<string>
    requires i <= |cs|
  {
    if i == 0 then args else Left(cs[i - 1], Reaching(cs, args, i - 1))
  }

  lemma FromTwice(args: seq<string>, i: nat, j: nat)
    ensures From(From(args, i), j) == From(args, i + j)
  {
  }

  lemma FromNothing(args: seq<string>)
    ensures From(args, 0) == args
  {
  }

  lemma LeftIs(c: Cond, args: seq<string>)
    ensures Left(c, args) == From(args, Taken(c))
  {
    hide SameWord, Number, SetEq, Unquoted;
    FromTwice(args, 1, 1);
  }

  lemma {:induction false} ReachingIs(cs: seq<Cond>, args: seq<string>, i: nat)
    requires i <= |cs|
    ensures Reaching(cs, args, i) == From(args, TakenTo(cs, i))
  {
    hide Left, From, Taken;
    if i > 0 {
      ReachingIs(cs, args, i - 1);
      LeftIs(cs[i - 1], Reaching(cs, args, i - 1));
      FromTwice(args, TakenTo(cs, i - 1), Taken(cs[i - 1]));
    } else {
      FromNothing(args);
    }
  }

  // None of the first i conditions shifts the arguments.
  predicate Aligned(cs: seq<Cond>, i: nat)
    requires i <= |cs|
  {
    forall k :: 0 <= k < i ==> !Shifts(cs[k])
  }

  lemma {:induction false} TakenIff(cs: seq<Cond>, i: nat)
    requires i <= |cs|
    ensures TakenTo(cs, i) <= ArityTo(cs, i)
    ensures TakenTo(cs, i) == ArityTo(cs, i) <==> Aligned(cs, i)
  {
    hide Arity, SameWord;
    if i > 0 {
      TakenIff(cs, i - 1);
    }
  }

  // Condition i gets the arguments of its own placeholders, whatever the arguments are, exactly when
  // no condition before it shifts them.
  lemma AlignedIff(cs: seq<Cond>, i: nat)
    requires i <= |cs|
    ensures (forall args :: Reaching(cs, args, i) == From(args, ArityTo(cs, i))) <==> Aligned(cs, i)
  {
    hide Aligned, Reaching, TakenTo, ArityTo;
    TakenIff(cs, i);
    forall args
      ensures Reaching(cs, args, i) == From(args, TakenTo(cs, i))
    {
      ReachingIs(cs, args, i);
    }
    if !Aligned(cs, i) {
      var args := seq(ArityTo(cs, i), _ => "0");
      assert |From(args, TakenTo(cs, i))| == ArityTo(cs, i) - TakenTo(cs, i);
      assert Reaching(cs, args, i) != From(args, ArityTo(cs, i));
    }
  }

  // Condition j restricts the row, or is superseded.
  predicate HoldsAt(cs: seq<Cond>, args: seq<string>, item: Item, j: nat)
    requires j < |cs|
  {
    Superseded(cs[j], cs[j + 1..]) || Holds(cs[j], From(args, TakenTo(cs, j)), item)
  }

  lemma {:induction false} LastHoldFrom(cs: seq<Cond>, args: seq<string>, item: Item, i: nat)
    requires i <= |cs|
    ensures LastHold(cs[i..], From(args, TakenTo(cs, i)), item) <==>
            forall j :: i <= j < |cs| ==> HoldsAt(cs, args, item, j)
    decreases |cs| - i
  {
    hide Superseded, Holds, Left, Taken;
    if i < |cs| {
      LastHoldFrom(cs, args, item, i + 1);
      var rest := From(args, TakenTo(cs, i));
      assert cs[i..][0] == cs[i] && cs[i..][1..] == cs[i + 1..];
      LeftIs(cs[i], rest);
      FromTwice(args, TakenTo(cs, i), Taken(cs[i]));
      assert LastHold(cs[i..], rest, item) <==>
             HoldsAt(cs, args, item, i) && LastHold(cs[i + 1..], From(args, TakenTo(cs, i + 1)), item);
    }
  }

  // For every conjunction: the filter accepts the rows that every last condition of a field restricts
  // to, each condition reading the arguments the code takes for it.
  lemma AcceptsIff(cs: seq<Cond>, args: seq<string>, item: Item)
    ensures Accepts(cs, args, item) <==> forall j :: 0 <= j < |cs| ==> HoldsAt(cs, args, item, j)
  {
    hide Matches, LastHold, HoldsAt, Masked;
    MatchesMeans(ANY, cs, args, item);
    AnyMatches(cs, item);
    LastHoldFrom(cs, args, item, 0);
    assert cs[0..] == cs && From(args, 0) == args;
  }

  // The endpoint's own restriction to a type acts as one more condition behind all others, so that it
  // goes before a media_type in the selection.
  lemma RestrictedIs(cs: seq<Cond>, args: seq<string>, item: Item, t: I32)
    ensures Matches(item, ApplyConds(ANY, cs, args), Some(t)) <==>
            Accepts(cs + [Eq("media_type", Lit(Printed(t)))], args, item)
  {
    hide Printed, Matches;
    var last := Eq("media_type", Lit(Printed(t)));
    PrintedLiteral(t);
    var f := ApplyConds(ANY, cs, args);
    OneMore(ANY, cs, last, args);
    TypeSet(f, t, item);
  }

  lemma {:induction false} OneMore(f: Filter, cs: seq<Cond>, c: Cond, args: seq<string>)
    ensures ApplyConds(f, cs + [c], args) == ApplyCond(ApplyConds(f, cs, args), c, Reaching(cs, args, |cs|)).0
    decreases |cs|
  {
    if cs == [] {
      assert cs + [c] == [c] && [c][1..] == [];
    } else {
      var (g, rest) := ApplyCond(f, cs[0], args);
      assert (cs + [c])[0] == cs[0] && (cs + [c])[1..] == cs[1..] + [c];
      OneMore(g, cs[1..], c, rest);
      ReachingTail(f, cs, args, |cs|);
    }
  }

  lemma {:induction false} ReachingTail(f: Filter, cs: seq<Cond>, args: seq<string>, i: nat)
    requires cs != [] && 0 < i <= |cs|
    ensures Reaching(cs, args, i) == Reaching(cs[1..], ApplyCond(f, cs[0], args).1, i - 1)
  {
    hide SetEq;
    if i > 1 {
      ReachingTail(f, cs, args, i - 1);
    }
  }

  lemma TypeSet(f: Filter, t: I32, item: Item)
    ensures Matches(item, f, Some(t)) <==> Matches(item, SetEq(f, "media_type", Some(Printed(t))), None)
  {
    hide Printed;
    PrintedReads(t, I32_LIMIT);
    assert |"media_type"| == 10 && |"_id"| == 3 && |"bucket_id"| == 9;
    assert SameWord("media_type", "media_type");
  }

  // ---------- a conjunction in SQL ----------

  // Condition j is satisfied, its placeholders taking the arguments from left to right.
  predicate SatAt(cs: seq<Cond>, args: seq<string>, row: Row, j: nat)
    requires j < |cs|
  {
    Sat(cs[j], From(args, ArityTo(cs, j)), row)
  }

  predicate EnforcedAt(cs: seq<Cond>, args: seq<string>, j: nat)
    requires j < |cs|
  {
    Enforced(cs[j], From(args, ArityTo(cs, j)))
  }

  predicate AllSat(cs: seq<Cond>, args: seq<string>, row: Row)
  {
    forall j :: 0 <= j < |cs| ==> SatAt(cs, args, row, j)
  }

  predicate AllEnforced(cs: seq<Cond>, args: seq<string>)
  {
    forall j :: 0 <= j < |cs| ==> EnforcedAt(cs, args, j)
  }

  // The filter has a field for c.
  predicate Kept(c: Cond)
  {
    FieldOf(c).Some?
  }

  predicate KeptSat(cs: seq<Cond>, args: seq<string>, item: Item)
  {
    forall j :: 0 <= j < |cs| && Kept(cs[j]) ==> SatAt(cs, args, Row(item, {}), j)
  }

  predicate KeptEnforced(cs: seq<Cond>, args: seq<string>)
  {
    forall j :: 0 <= j < |cs| && Kept(cs[j]) ==> EnforcedAt(cs, args, j)
  }

  // Each field is set at most once.
  predicate SetOnce(cs: seq<Cond>)
  {
    forall i, j :: 0 <= i < j < |cs| && Kept(cs[i]) ==> FieldOf(cs[j]) != FieldOf(cs[i])
  }

  // A placeholder whose argument the filter uses.
  predicate Takes(c: Cond)
  {
    Kept(c) && Arity(c) > 0
  }

  // No condition shifts the arguments before a placeholder that the filter uses.
  predicate UsedAligned(cs: seq<Cond>)
  {
    forall i, j :: 0 <= i < j < |cs| && Shifts(cs[i]) ==> !Takes(cs[j])
  }

  lemma {:induction false} SetsSomewhere(cs: seq<Cond>, f: Field)
    ensures Sets(cs, f) ==> exists i :: 0 <= i < |cs| && FieldOf(cs[i]) == Some(f)
    decreases cs
  {
    hide FieldOf;
    if cs != [] {
      SetsSomewhere(cs[1..], f);
      assert forall i :: 0 <= i < |cs[1..]| ==> cs[1..][i] == cs[i + 1];
    }
  }

  lemma NotSuperseded(cs: seq<Cond>, j: nat)
    requires SetOnce(cs) && j < |cs|
    ensures !Superseded(cs[j], cs[j + 1..])
  {
    hide FieldOf;
    if Kept(cs[j]) {
      var later := cs[j + 1..];
      SetsSomewhere(later, FieldOf(cs[j]).value);
      assert forall i :: 0 <= i < |later| ==> later[i] == cs[j + 1 + i];
    }
  }

  lemma NoPlaceholder(c: Cond, a: seq<string>, b: seq<string>, item: Item)
    requires Arity(c) == 0
    ensures Holds(c, a, item) == Holds(c, b, item)
  {
    hide SameWord, Number, Unquoted;
  }

  // What the filter makes of an enforced condition is its meaning, other columns apart.
  lemma EnforcedMeans(c: Cond, args: seq<string>, row: Row)
    requires Enforced(c, args)
    ensures Holds(c, args, row.item) <==> Sat(c, args, row)
    ensures Sat(c, args, row) == Sat(c, args, Row(row.item, {}))
    ensures !Kept(c) ==> Sat(c, args, row)
  {
    EnforcedIff(c, args);
  }

  lemma KeptAt(cs: seq<Cond>, args: seq<string>, item: Item, j: nat)
    requires SetOnce(cs) && UsedAligned(cs) && KeptEnforced(cs, args) && j < |cs|
    ensures HoldsAt(cs, args, item, j) <==> (Kept(cs[j]) ==> SatAt(cs, args, Row(item, {}), j))
  {
    NotSuperseded(cs, j);
    if Kept(cs[j]) {
      hide Holds, Sat, Enforced, Kept, Superseded, SetOnce;
      var a, b := From(args, TakenTo(cs, j)), From(args, ArityTo(cs, j));
      assert EnforcedAt(cs, args, j);
      EnforcedMeans(cs[j], b, Row(item, {}));
      if Arity(cs[j]) == 0 {
        NoPlaceholder(cs[j], a, b, item);
      } else {
        TakenIff(cs, j);
      }
    }
  }

  // When each field is set once and the arguments stay aligned where they are used, the filter accepts
  // exactly the rows that satisfy the conditions it has a field for.
  lemma KeptMeans(cs: seq<Cond>, args: seq<string>, item: Item)
    requires SetOnce(cs) && UsedAligned(cs) && KeptEnforced(cs, args)
    ensures Accepts(cs, args, item) <==> KeptSat(cs, args, item)
  {
    hide Accepts, HoldsAt, SatAt, SetOnce, UsedAligned, Kept, KeptEnforced;
    AcceptsIff(cs, args, item);
    forall j | 0 <= j < |cs|
      ensures HoldsAt(cs, args, item, j) <==> (Kept(cs[j]) ==> SatAt(cs, args, Row(item, {}), j))
    {
      KeptAt(cs, args, item, j);
    }
  }

  // For every conjunction in every legal layout, with each field set once, arguments aligned where they
  // are used, and operands the filter can enforce: the rows accepted are those that satisfy it in SQL.
  lemma ConjunctionMeans(cs: seq<Cond>, k: Words, seps: seq<string>, args: seq<string>, row: Row)
    requires CondsOk(cs) && WordsOk(k) && Legal(SelectionTokens(cs, k), seps)
    requires SetOnce(cs) && UsedAligned(cs) && AllEnforced(cs, args)
    ensures var sql := Print(SelectionTokens(cs, k), seps);
            Matches(row.item, Apply(ANY, Tokens(sql, ""), args), None) <==> AllSat(cs, args, row)
  {
    hide CondsOk, WordsOk, Legal, SetOnce, UsedAligned, AllSat, AllEnforced, Matches, Print, SelectionTokens;
    SelectionMeans(cs, k, seps, args, row.item);
    EnforcedConjunction(cs, args, row);
  }

  // For every conjunction in every legal layout: the text has the effect of its conditions.
  lemma SelectionMeans(cs: seq<Cond>, k: Words, seps: seq<string>, args: seq<string>, item: Item)
    requires CondsOk(cs) && WordsOk(k) && Legal(SelectionTokens(cs, k), seps)
    ensures var sql := Print(SelectionTokens(cs, k), seps);
            && Tokens(sql, "") == SelectionTokens(cs, k)
            && (Matches(item, Apply(ANY, Tokens(sql, ""), args), None) <==> Accepts(cs, args, item))
  {
    hide Matches, CondOk, SelectionTokens, Print;
    var toks := SelectionTokens(cs, k);
    PrintTokens(toks, seps, "");
    assert Flush("") + toks == toks;
    ApplyMeans(ANY, cs, k, args);
  }

  // ---------- arguments that shift ----------

  // No two conditions the filter has a field for are on the same column.
  predicate ColumnsOnce(cs: seq<Cond>)
  {
    forall i, j :: 0 <= i < j < |cs| && Kept(cs[i]) && Kept(cs[j]) ==> ColumnOf(cs[j].col) != ColumnOf(cs[i].col)
  }

  // The first condition that shifts the arguments, and the first after it that uses one.
  lemma FirstShift(cs: seq<Cond>) returns (m: nat, j: nat)
    requires !UsedAligned(cs)
    ensures m < j < |cs| && Shifts(cs[m]) && Takes(cs[j])
    ensures forall k :: 0 <= k < m ==> !Shifts(cs[k])
    ensures forall k :: m <= k < j ==> !Takes(cs[k])
  {
    hide SameWord, Arity;
    var m0, j0 :| 0 <= m0 < j0 < |cs| && Shifts(cs[m0]) && Takes(cs[j0]);
    m := 0;
    while !Shifts(cs[m])
      invariant m <= m0 && forall k :: 0 <= k < m ==> !Shifts(cs[k])
      decreases m0 - m
    {
      m := m + 1;
    }
    j := m + 1;
    while !Takes(cs[j])
      invariant m < j <= j0 && forall k :: m <= k < j ==> !Takes(cs[k])
      decreases j0 - j
    {
      j := j + 1;
    }
  }

  lemma {:induction false} ArityGrows(cs: seq<Cond>, i: nat, j: nat)
    requires i <= j <= |cs|
    ensures ArityTo(cs, i) <= ArityTo(cs, j) && TakenTo(cs, i) <= TakenTo(cs, j)
  {
    if i < j {
      ArityGrows(cs, i, j - 1);
    }
  }

  // An argument the code reads, the one SQL reads, and a value the second allows and the first excludes.
  function Apart(c: Cond): (r: (int, int, int))
  {
    if c.Eq? then (1, 0, 0)
    else if c.lo.Arg? then (I64_LIMIT - 1, -(I64_LIMIT as int), -(I64_LIMIT as int))
    else (-(I64_LIMIT as int), I64_LIMIT - 1, I64_LIMIT - 1)
  }

  lemma ApartWorks(c: Cond, sql: seq<string>, code: seq<string>, item: Item)
    requires Takes(c) && sql != [] && code != [] && Enforced(c, sql)
    requires code[0] == Printed(Apart(c).0) && Value(item, ColumnOf(c.col).value) == Apart(c).2
    ensures var sql' := sql[0 := Printed(Apart(c).1)];
            Enforced(c, sql') && Sat(c, sql', Row(item, {})) && !Holds(c, code, item)
  {
    hide SameWord, Printed, Denoted, Unquoted;
    var sql' := sql[0 := Printed(Apart(c).1)];
    var limit := Limit(ColumnOf(c.col).value);
    PrintedReads(Apart(c).0, limit);
    PrintedReads(Apart(c).1, limit);
    assert sql'[1..] == sql[1..];
  }

  // The n-th argument is the same, or missing in both.
  predicate SameAt(a: seq<string>, b: seq<string>, n: nat)
  {
    (n < |a| <==> n < |b|) && (n < |a| ==> a[n] == b[n])
  }

  lemma SameOperands(c: Cond, a: seq<string>, b: seq<string>, i: Item, j: Item)
    requires forall n :: 0 <= n < Arity(c) ==> SameAt(a, b, n)
    requires ColumnOf(c.col).Some? && Value(i, ColumnOf(c.col).value) == Value(j, ColumnOf(c.col).value)
    ensures Enforced(c, a) == Enforced(c, b)
    ensures Sat(c, a, Row(i, {})) == Sat(c, b, Row(j, {}))
  {
    hide SameWord, Denoted, Unquoted;
    assert Arity(c) > 0 ==> SameAt(a, b, 0);
    assert Arity(c) > 1 ==> SameAt(a, b, 1);
    match c
    case Eq(_, rhs) =>
      assert Meaning(rhs, a).0 == Meaning(rhs, b).0 by {
        assert rhs.Arg? ==> Arity(c) == 1;
      }
    case Between(_, lo, hi) =>
      var (l, ra) := Meaning(lo, a);
      var (l', rb) := Meaning(lo, b);
      assert l == l' by {
        assert lo.Arg? ==> Arity(c) >= 1;
      }
      assert Meaning(hi, ra).0 == Meaning(hi, rb).0 by {
        assert hi.Arg? ==> Arity(c) == if lo.Arg? then 2 else 1;
        assert lo.Arg? && a != [] ==> ra == a[1..] && rb == b[1..];
      }
  }

  lemma FromAt(args: seq<string>, i: nat, n: nat)
    ensures n < |From(args, i)| <==> i + n < |args|
    ensures i + n < |args| ==> From(args, i)[n] == args[i + n]
  {
  }

  // An enforced placeholder has an argument.
  lemma TakesOne(c: Cond, args: seq<string>)
    requires Takes(c) && Enforced(c, args)
    ensures args != []
  {
    hide SameWord, Denoted, Unquoted;
  }

  // A conjunction that some arguments and some row satisfy, but whose arguments shift before a
  // placeholder in use: there are arguments and a row that satisfy it and that the filter refuses.
  lemma ShiftedDiffers(cs: seq<Cond>, args0: seq<string>, item0: Item) returns (args: seq<string>, item: Item)
    requires ColumnsOnce(cs) && !UsedAligned(cs) && KeptEnforced(cs, args0) && KeptSat(cs, args0, item0)
    ensures KeptEnforced(cs, args) && KeptSat(cs, args, item) && !Accepts(cs, args, item)
  {
    hide Shifts, FieldOf, ColumnOf, Sat, Enforced, Holds, Accepts, Arity, Apart, Printed, UsedAligned;
    var m, j := FirstShift(cs);
    var t, a := TakenTo(cs, j), ArityTo(cs, j);
    TakenIff(cs, m);
    TakenIff(cs, j);
    ArityGrows(cs, m, j);
    assert EnforcedAt(cs, args0, j);
    TakesOne(cs[j], From(args0, a));
    args := args0[a := Printed(Apart(cs[j]).1)][t := Printed(Apart(cs[j]).0)];
    TakesKnown(cs[j]);
    item := WithValue(item0, ColumnOf(cs[j].col).value, Apart(cs[j]).2);
    FromAt(args, t, 0);
    assert From(args, a) == From(args0, a)[0 := Printed(Apart(cs[j]).1)];
    ApartWorks(cs[j], From(args0, a), From(args, t), item);
    forall k | 0 <= k < |cs| && Kept(cs[k])
      ensures EnforcedAt(cs, args, k) && SatAt(cs, args, Row(item, {}), k)
    {
      if k != j {
        OtherUntouched(cs, args0, args, item0, item, m, j, k);
      }
    }
    AcceptsIff(cs, args, item);
    SetOnceOf(cs);
    NotSuperseded(cs, j);
    assert !HoldsAt(cs, args, item, j);
  }

  lemma TakesKnown(c: Cond)
    requires Kept(c)
    ensures ColumnOf(c.col).Some?
    ensures -(Limit(ColumnOf(c.col).value) as int) <= Apart(c).2 < Limit(ColumnOf(c.col).value)
  {
    hide SameWord;
    ColumnsDiffer(c.col);
  }

  lemma SetOnceOf(cs: seq<Cond>)
    requires ColumnsOnce(cs)
    ensures SetOnce(cs)
  {
    hide SameWord;
    forall i, j | 0 <= i < j < |cs| && Kept(cs[i])
      ensures FieldOf(cs[j]) != FieldOf(cs[i])
    {
      ColumnsDiffer(cs[i].col);
      ColumnsDiffer(cs[j].col);
      assert Kept(cs[j]) ==> ColumnOf(cs[j].col) != ColumnOf(cs[i].col);
    }
  }

  // A condition on another column reads none of the two arguments and not the value changed.
  lemma OtherUntouched(cs: seq<Cond>, args0: seq<string>, args: seq<string>, item0: Item, item: Item, m: nat, j: nat, k: nat)
    requires ColumnsOnce(cs) && m < j < |cs| && k < |cs| && k != j && Kept(cs[k]) && Kept(cs[j])
    requires forall i :: m <= i < j ==> !Takes(cs[i])
    requires ArityTo(cs, m) <= TakenTo(cs, j) < ArityTo(cs, j) < |args0| == |args| && Arity(cs[j]) > 0
    requires forall p :: 0 <= p < |args| && p != TakenTo(cs, j) && p != ArityTo(cs, j) ==> args[p] == args0[p]
    requires ColumnOf(cs[j].col).Some?
    requires forall c :: c != ColumnOf(cs[j].col).value ==> Value(item, c) == Value(item0, c)
    requires EnforcedAt(cs, args0, k) && SatAt(cs, args0, Row(item0, {}), k)
    ensures EnforcedAt(cs, args, k) && SatAt(cs, args, Row(item, {}), k)
  {
    hide FieldOf, ColumnOf, Sat, Enforced, Arity, Shifts, From;
    TakesKnown(cs[k]);
    var p := ArityTo(cs, k);
    assert ColumnOf(cs[k].col) != ColumnOf(cs[j].col);
    forall n | 0 <= n < Arity(cs[k])
      ensures SameAt(From(args, p), From(args0, p), n)
    {
      OtherPositions(cs, m, j, k, n);
      FromAt(args, p, n);
      FromAt(args0, p, n);
    }
    assert Value(item, ColumnOf(cs[k].col).value) == Value(item0, ColumnOf(cs[k].col).value);
    SameOperands(cs[k], From(args, p), From(args0, p), item, item0);
  }

  // Its placeholders are neither the one that SQL fills for condition j nor the one the code reads.
  lemma OtherPositions(cs: seq<Cond>, m: nat, j: nat, k: nat, n: nat)
    requires m < j < |cs| && k < |cs| && k != j && Kept(cs[k]) && n < Arity(cs[k]) && Arity(cs[j]) > 0
    requires forall i :: m <= i < j ==> !Takes(cs[i])
    requires ArityTo(cs, m) <= TakenTo(cs, j) < ArityTo(cs, j)
    ensures ArityTo(cs, k) + n != TakenTo(cs, j) && ArityTo(cs, k) + n != ArityTo(cs, j)
  {
    hide FieldOf, Arity, Shifts;
    assert Takes(cs[k]) && !(m <= k < j);
    if k < m {
      ArityGrows(cs, k + 1, m);
      assert ArityTo(cs, k + 1) == ArityTo(cs, k) + Arity(cs[k]);
    } else {
      ArityGrows(cs, j + 1, k);
      assert ArityTo(cs, j + 1) == ArityTo(cs, j) + Arity(cs[j]);
    }
  }

  // For a conjunction of conditions on different columns that some arguments and row satisfy: the filter
  // agrees with it for all enforced arguments and all rows exactly when no condition shifts the
  // arguments before a placeholder in use.
  lemma AgreesIffAligned(cs: seq<Cond>, args0: seq<string>, item0: Item)
    requires ColumnsOnce(cs) && KeptEnforced(cs, args0) && KeptSat(cs, args0, item0)
    ensures (forall args, item :: KeptEnforced(cs, args) ==> (Accepts(cs, args, item) <==> KeptSat(cs, args, item)))
            <==> UsedAligned(cs)
  {
    hide Accepts, KeptSat, UsedAligned, KeptEnforced;
    if UsedAligned(cs) {
      SetOnceOf(cs);
      forall args, item | KeptEnforced(cs, args)
        ensures Accepts(cs, args, item) <==> KeptSat(cs, args, item)
      {
        KeptMeans(cs, args, item);
      }
    } else {
      var args, item := ShiftedDiffers(cs, args0, item0);
    }
  }

  // A row that satisfies the conjunction is needed for the arguments to matter: a literal range that is
  // empty refuses every row, whatever shifts.
  lemma EmptyAnyway(args: seq<string>, item: Item)
    ensures var cs := [Between("date", Arg, Arg), Between("_id", Lit(Printed(5)), Lit(Printed(3))), Eq("bucket_id", Arg)];
            && ColumnsOnce(cs) && !UsedAligned(cs)
            && !Accepts(cs, args, item) && !KeptSat(cs, args, item)
  {
    hide Printed, Denoted, Unquoted, ParseInt;
    var cs := [Between("date", Arg, Arg), Between("_id", Lit(Printed(5)), Lit(Printed(3))), Eq("bucket_id", Arg)];
    KnownColumns();
    PrintedLiteral(5);
    PrintedLiteral(3);
    assert Shifts(cs[0]) && Takes(cs[2]) && Kept(cs[1]);
    SetOnceOf(cs);
    NotSuperseded(cs, 1);
    AcceptsIff(cs, args, item);
    assert !HoldsAt(cs, args, item, 1);
    assert !SatAt(cs, args, Row(item, {}), 1);
  }

  // So are different columns: an equation with the greatest _id leaves no choice to a shifted bound.
  lemma SameColumnAnyway(args: seq<string>, item: Item)
    ensures var top := Lit(Printed(I64_LIMIT - 1));
            var cs := [Between("date", Arg, Arg), Between("_id", Arg, top), Eq("_id", top)];
            && SetOnce(cs) && !UsedAligned(cs)
            && (KeptEnforced(cs, args) ==> (Accepts(cs, args, item) <==> KeptSat(cs, args, item)))
  {
    hide Printed, Denoted, Unquoted;
    var top := Lit(Printed(I64_LIMIT - 1));
    var cs := [Between("date", Arg, Arg), Between("_id", Arg, top), Eq("_id", top)];
    KnownColumns();
    PrintedLiteral(I64_LIMIT - 1);
    assert Shifts(cs[0]) && Takes(cs[1]);
    assert FieldOf(cs[0]) == None && FieldOf(cs[1]) == Some(FRange) && FieldOf(cs[2]) == Some(FId);
    NotSuperseded(cs, 1);
    NotSuperseded(cs, 2);
    AcceptsIff(cs, args, item);
    assert HoldsAt(cs, args, item, 2) <==> item.id == I64_LIMIT - 1;
    assert SatAt(cs, args, Row(item, {}), 2) <==> item.id == I64_LIMIT - 1;
    if item.id == I64_LIMIT - 1 {
      assert HoldsAt(cs, args, item, 0) && HoldsAt(cs, args, item, 1);
      if KeptEnforced(cs, args) {
        assert EnforcedAt(cs, args, 1) && SatAt(cs, args, Row(item, {}), 1);
      }
    }
  }

  lemma KnownColumns()
    ensures ColumnOf("_id") == Some(CId) && ColumnOf("bucket_id") == Some(CBucket) && ColumnOf("date") == None
    ensures SameWord("_id", "_id") && !SameWord("date", "_id")
  {
    assert |"date"| == 4 && |"_id"| == 3 && |"bucket_id"| == 9 && |"media_type"| == 10;
    ColumnsDiffer("_id");
  }

  // ---------- operands that are not enforced ----------

  // No two conditions are on the same column of the filter.
  predicate ColumnsApart(cs: seq<Cond>)
  {
    forall i, j :: 0 <= i < j < |cs| && ColumnOf(cs[i].col).Some? ==> ColumnOf(cs[j].col) != ColumnOf(cs[i].col)
  }

  lemma HoldsOnColumn(c: Cond, args: seq<string>, i: Item, j: Item)
    requires ColumnOf(c.col).Some? ==> Value(i, ColumnOf(c.col).value) == Value(j, ColumnOf(c.col).value)
    ensures Holds(c, args, i) == Holds(c, args, j)
  {
    hide SameWord, Number, Meaning;
  }

  // In an aligned conjunction, condition j restricts rows as its own arguments say.
  lemma HoldsByOwn(cs: seq<Cond>, args: seq<string>, item: Item, j: nat)
    requires UsedAligned(cs) && j < |cs|
    ensures Holds(cs[j], From(args, TakenTo(cs, j)), item) == Holds(cs[j], From(args, ArityTo(cs, j)), item)
  {
    var a, b := From(args, TakenTo(cs, j)), From(args, ArityTo(cs, j));
    if !Kept(cs[j]) {
      IgnoredHolds(cs[j], a, item);
      IgnoredHolds(cs[j], b, item);
    } else if Arity(cs[j]) == 0 {
      NoPlaceholder(cs[j], a, b, item);
    } else {
      hide Holds, Kept, Arity;
      TakenIff(cs, j);
    }
  }

  lemma IgnoredHolds(c: Cond, args: seq<string>, item: Item)
    requires !Kept(c)
    ensures Holds(c, args, item)
  {
    hide Number, Meaning;
    ColumnsDiffer(c.col);
  }

  lemma ApartIsOnce(cs: seq<Cond>)
    requires ColumnsApart(cs)
    ensures SetOnce(cs)
  {
    hide ColumnOf, FieldOf;
    forall i, j | 0 <= i < j < |cs| && Kept(cs[i]) && Kept(cs[j])
      ensures ColumnOf(cs[j].col) != ColumnOf(cs[i].col)
    {
      TakesKnown(cs[i]);
    }
    SetOnceOf(cs);
  }

  // For a conjunction of conditions on different columns, aligned where arguments are used, of which the
  // filter accepts some row: it agrees with SQL on every row exactly when every operand is enforced.
  lemma AgreesIffEnforced(cs: seq<Cond>, args: seq<string>, item0: Item)
    requires ColumnsApart(cs) && UsedAligned(cs) && Accepts(cs, args, item0)
    ensures (forall row: Row :: Accepts(cs, args, row.item) <==> AllSat(cs, args, row)) <==> AllEnforced(cs, args)
  {
    hide Accepts, UsedAligned, ColumnOf, Sat, Enforced, Holds, SetOnce, Value;
    ApartIsOnce(cs);
    if AllEnforced(cs, args) {
      forall row: Row
        ensures Accepts(cs, args, row.item) <==> AllSat(cs, args, row)
      {
        EnforcedConjunction(cs, args, row);
      }
    } else {
      var j :| 0 <= j < |cs| && !EnforcedAt(cs, args, j);
      var item := Disagreement(cs[j], From(args, ArityTo(cs, j)), item0);
      var row := Row(item, {});
      assert !SatAt(cs, args, row, j);
      AcceptsIff(cs, args, item0);
      AcceptsIff(cs, args, item);
      forall k | 0 <= k < |cs|
        ensures HoldsAt(cs, args, item, k)
      {
        assert HoldsAt(cs, args, item0, k);
        NotSuperseded(cs, k);
        if k == j {
          HoldsByOwn(cs, args, item, j);
        } else {
          HoldsOnColumn(cs[k], From(args, TakenTo(cs, k)), item0, item);
        }
      }
    }
  }

  lemma EnforcedConjunction(cs: seq<Cond>, args: seq<string>, row: Row)
    requires SetOnce(cs) && UsedAligned(cs) && AllEnforced(cs, args)
    ensures Accepts(cs, args, row.item) <==> AllSat(cs, args, row)
  {
    hide Accepts, SetOnce, UsedAligned, Sat, Enforced, Kept;
    KeptMeans(cs, args, row.item);
    forall j | 0 <= j < |cs|
      ensures SatAt(cs, args, row, j) <==> (Kept(cs[j]) ==> SatAt(cs, args, Row(row.item, {}), j))
    {
      assert EnforcedAt(cs, args, j);
      EnforcedMeans(cs[j], From(args, ArityTo(cs, j)), row);
    }
  }

  // ---------- fields set twice ----------

  lemma AcceptsOne(c: Cond, args: seq<string>, item: Item)
    ensures Accepts([c], args, item) <==> Holds(c, args, item)
    ensures forall row: Row :: AllSat([c], args, row) <==> Sat(c, args, row)
  {
    hide Holds, Accepts, Sat;
    AcceptsIff([c], args, item);
    assert [c][1..] == [] && From(args, 0) == args;
    assert HoldsAt([c], args, item, 0) <==> Holds(c, args, item);
    forall row: Row
      ensures AllSat([c], args, row) <==> Sat(c, args, row)
    {
      assert SatAt([c], args, row, 0) <==> Sat(c, args, row);
    }
  }

  // The later of two conditions on one field is the one that counts; SQL wants both.
  lemma RepeatedPair(c: Cond, d: Cond, args: seq<string>, item: Item)
    requires Kept(c) && FieldOf(c) == FieldOf(d) && KeptEnforced([c, d], args)
    ensures Accepts([c, d], args, item) <==> Sat(d, From(args, Arity(c)), Row(item, {}))
    ensures KeptSat([c, d], args, item) <==>
            Sat(c, args, Row(item, {})) && Sat(d, From(args, Arity(c)), Row(item, {}))
    ensures Enforced(c, args) && Enforced(d, From(args, Arity(c)))
  {
    hide Holds, Accepts, Sat, Enforced, SameWord, Arity;
    var cs := [c, d];
    AcceptsIff(cs, args, item);
    assert ArityTo(cs, 1) == Arity(c) && TakenTo(cs, 1) == Taken(c) == Arity(c) && From(args, 0) == args;
    assert cs[1..] == [d] && cs[2..] == [];
    assert Superseded(c, [d]) && !Superseded(d, []);
    assert HoldsAt(cs, args, item, 0) && EnforcedAt(cs, args, 0) && EnforcedAt(cs, args, 1);
    assert SatAt(cs, args, Row(item, {}), 0) <==> Sat(c, args, Row(item, {}));
    assert SatAt(cs, args, Row(item, {}), 1) <==> Sat(d, From(args, Arity(c)), Row(item, {}));
    assert HoldsAt(cs, args, item, 1) <==> Holds(d, From(args, Arity(c)), item);
    EnforcedMeans(d, From(args, Arity(c)), Row(item, {}));
  }

  // Two equations on one field: the filter agrees with SQL exactly when their operands denote the same.
  lemma RepeatedEqIff(c: Cond, d: Cond, args: seq<string>)
    requires c.Eq? && d.Eq? && Kept(c) && FieldOf(c) == FieldOf(d) && KeptEnforced([c, d], args)
    ensures (forall item :: Accepts([c, d], args, item) <==> KeptSat([c, d], args, item))
            <==> IntOf(Meaning(c.rhs, args).0) == IntOf(Meaning(d.rhs, From(args, Arity(c))).0)
  {
    hide Accepts, KeptSat, KeptEnforced, SameWord, Denoted, Meaning, Arity;
    forall item
      ensures Accepts([c, d], args, item) <==> Sat(d, From(args, Arity(c)), Row(item, {}))
      ensures KeptSat([c, d], args, item) <==>
              Sat(c, args, Row(item, {})) && Sat(d, From(args, Arity(c)), Row(item, {}))
      ensures Enforced(c, args) && Enforced(d, From(args, Arity(c)))
    {
      RepeatedPair(c, d, args, item);
    }
    var w := Item(0, 0, 0);
    assert Accepts([c, d], args, w) <==> Sat(d, From(args, Arity(c)), Row(w, {}));
    var v := IntOf(Meaning(d.rhs, From(args, Arity(c))).0).value;
    var item := WithValue(w, ColumnOf(d.col).value, v);
    assert Sat(d, From(args, Arity(c)), Row(item, {})) && Accepts([c, d], args, item);
  }

  function Max(a: int, b: int): int
  {
    if a < b then b else a
  }

  function Min(a: int, b: int): int
  {
    if a < b then a else b
  }

  // Two ranges on _id: exactly when the later one is empty or lies within the earlier one.
  lemma RepeatedRangeIff(c: Cond, d: Cond, args: seq<string>)
    requires c.Between? && d.Between? && Kept(c) && Kept(d) && KeptEnforced([c, d], args)
    ensures Enforced(c, args) && Enforced(d, From(args, Arity(c)))
    ensures var (l, rest) := Meaning(c.lo, args);
            var (m, more) := Meaning(d.lo, From(args, Arity(c)));
            var a, b := IntOf(l).value, IntOf(Meaning(c.hi, rest).0).value;
            var lo, hi := Max(IntOf(m).value, -(I64_LIMIT as int)), Min(IntOf(Meaning(d.hi, more).0).value, I64_LIMIT - 1);
            (forall item :: Accepts([c, d], args, item) <==> KeptSat([c, d], args, item))
            <==> lo > hi || (a <= lo && hi <= b)
  {
    hide Accepts, KeptSat, KeptEnforced, SameWord, Denoted, Meaning, Arity;
    forall item
      ensures Accepts([c, d], args, item) <==> Sat(d, From(args, Arity(c)), Row(item, {}))
      ensures KeptSat([c, d], args, item) <==>
              Sat(c, args, Row(item, {})) && Sat(d, From(args, Arity(c)), Row(item, {}))
      ensures Enforced(c, args) && Enforced(d, From(args, Arity(c)))
    {
      RepeatedPair(c, d, args, item);
    }
    var zero := Item(0, 0, 0);
    assert Accepts([c, d], args, zero) <==> Sat(d, From(args, Arity(c)), Row(zero, {}));
    ColumnsDiffer(c.col);
    ColumnsDiffer(d.col);
    var m, more := Meaning(d.lo, From(args, Arity(c))).0, Meaning(d.lo, From(args, Arity(c))).1;
    var lo, hi := Max(IntOf(m).value, -(I64_LIMIT as int)), Min(IntOf(Meaning(d.hi, more).0).value, I64_LIMIT - 1);
    if lo <= hi {
      var low, high := zero.(id := lo), zero.(id := hi);
      assert Accepts([c, d], args, low) && Accepts([c, d], args, high);
    }
  }

  // ---------- one input for each way to fail ----------

  // `bucket_id = 3000000000`, beyond 32 bits, accepts every row; SQL accepts none.
  lemma OverWideExample(row: Row)
    ensures var c := Eq("bucket_id", Lit(Printed(3_000_000_000)));
            !Enforced(c, []) && Accepts([c], [], row.item) && !AllSat([c], [], row)
  {
    hide Printed, Denoted, Unquoted, ParseInt, Decimal;
    PrintedLiteral(3_000_000_000);
    AcceptsOne(Eq("bucket_id", Lit(Printed(3_000_000_000))), [], row.item);
    assert SameWord("bucket_id", "bucket_id");
  }

  lemma NotANumber()
    ensures Unquoted("x") == "x" && Denoted("x") == None
  {
    assert Digits("x", 0) == None;
  }

  // So does `_id = x`.
  lemma NotANumberExample(row: Row)
    ensures var c := Eq("_id", Lit("x"));
            !Enforced(c, []) && Accepts([c], [], row.item) && !AllSat([c], [], row)
  {
    NotANumber();
    hide Unquoted, Denoted;
    AcceptsOne(Eq("_id", Lit("x")), [], row.item);
    assert SameWord("_id", "_id");
    ColumnsDiffer("_id");
  }

  // And `_id = ?` without an argument.
  lemma MissingArgumentExample(row: Row)
    ensures var c := Eq("_id", Arg);
            !Enforced(c, []) && Accepts([c], [], row.item) && !AllSat([c], [], row)
  {
    AcceptsOne(Eq("_id", Arg), [], row.item);
    assert SameWord("_id", "_id");
    ColumnsDiffer("_id");
  }

  // A range that starts beyond 64 bits has no lower bound.
  lemma BeyondRangeExample(row: Row)
    ensures var c := Between("_id", Lit(Printed(I64_LIMIT)), Lit(Printed(I64_LIMIT)));
            !Enforced(c, []) && Accepts([c], [], row.item) && !AllSat([c], [], row)
  {
    var c := Between("_id", Lit(Printed(I64_LIMIT)), Lit(Printed(I64_LIMIT)));
    hide Printed, Denoted, Unquoted, ParseInt, Decimal;
    PrintedLiteral(I64_LIMIT);
    AcceptsOne(c, [], row.item);
    assert SameWord("_id", "_id");
    ColumnsDiffer("_id");
  }

  // A range on a column other than _id restricts nothing.
  lemma OtherRangeExample()
    ensures var c, row := Between("bucket_id", Lit(Printed(1)), Lit(Printed(2))), Row(Item(0, 0, 0), {});
            !Enforced(c, []) && Accepts([c], [], row.item) && !AllSat([c], [], row)
  {
    var c, row := Between("bucket_id", Lit(Printed(1)), Lit(Printed(2))), Row(Item(0, 0, 0), {});
    hide Printed, Denoted, Unquoted, ParseInt, Decimal;
    PrintedLiteral(1);
    PrintedLiteral(2);
    AcceptsOne(c, [], row.item);
    assert SameWord("bucket_id", "bucket_id");
    ColumnsDiffer("bucket_id");
  }

  // Nor does a condition on a column the filter does not know.
  lemma OtherColumnExample(item: Item)
    ensures var c, row := Eq("title", Lit("'x'")), Row(item, {});
            !Enforced(c, []) && Accepts([c], [], row.item) && !AllSat([c], [], row)
  {
    AcceptsOne(Eq("title", Lit("'x'")), [], item);
    assert |"title"| == 5 && |"_id"| == 3 && |"bucket_id"| == 9 && |"media_type"| == 10;
  }

  // A foreign BETWEEN shifts the arguments: `date BETWEEN ? AND ? AND _id = ?` compares _id with the
  // first argument.
  lemma MisalignedExample()
    ensures var cs := [Between("date", Arg, Arg), Eq("_id", Arg)];
            var args := [Printed(1), Printed(2), Printed(3)];
            && ColumnsOnce(cs) && KeptEnforced(cs, args) && !UsedAligned(cs)
            && KeptSat(cs, args, Item(3, 0, 0)) && !Accepts(cs, args, Item(3, 0, 0))
  {
    hide Printed, Denoted, Unquoted;
    var cs := [Between("date", Arg, Arg), Eq("_id", Arg)];
    var args := [Printed(1), Printed(2), Printed(3)];
    var item := Item(3, 0, 0);
    assert |"date"| == 4 && |"_id"| == 3 && |"bucket_id"| == 9 && |"media_type"| == 10;
    assert SameWord("_id", "_id");
    PrintedReads(1, I64_LIMIT);
    PrintedReads(3, I64_LIMIT);
    assert Shifts(cs[0]) && Takes(cs[1]);
    assert ArityTo(cs, 1) == 2 && From(args, 2) == [Printed(3)];
    assert TakenTo(cs, 1) == 0 && From(args, 0) == args;
    assert cs[2..] == [];
    AcceptsIff(cs, args, item);
    assert !HoldsAt(cs, args, item, 1);
  }

  // Setting a field twice keeps the last condition only: `_id = 1 AND _id = 2` accepts row 2.
  lemma SetTwiceExample()
    ensures var cs := [Eq("_id", Lit(Printed(1))), Eq("_id", Lit(Printed(2)))];
            && !SetOnce(cs) && AllEnforced(cs, [])
            && Accepts(cs, [], Item(2, 0, 0)) && !KeptSat(cs, [], Item(2, 0, 0))
  {
    var c, d := Eq("_id", Lit(Printed(1))), Eq("_id", Lit(Printed(2)));
    hide Printed, Denoted, Unquoted, ParseInt, Decimal;
    PrintedLiteral(1);
    PrintedLiteral(2);
    assert SameWord("_id", "_id");
    ColumnsDiffer("_id");
    assert FieldOf([c, d][0]) == FieldOf([c, d][1]) == Some(FId);
    RepeatedPair(c, d, [], Item(2, 0, 0));
  }

  // ---------- conjunctions of numbers ----------

  // A number is passed as an argument or written out, in quotes or not.
  datatype How = Passed | Written(q: Quote)

  // What a caller wants: a column of the filter equal to a number, or _id in a range.
  datatype Wish =
    | Is(col: string, n: int, how: How)
    | In(col: string, lo: int, hi: int, loHow: How, hiHow: How)

  predicate Fits(n: int, c: Column)
  {
    -(Limit(c) as int) <= n < Limit(c)
  }

  predicate WishOk(w: Wish)
  {
    && ColumnOf(w.col).Some?
    && match w
       case Is(_, n, _) => Fits(n, ColumnOf(w.col).value)
       case In(_, lo, hi, _, _) => ColumnOf(w.col) == Some(CId) && Fits(lo, CId) && Fits(hi, CId)
  }

  predicate Met(w: Wish, item: Item)
    requires WishOk(w)
  {
    match w
    case Is(col, n, _) => Value(item, ColumnOf(col).value) == n
    case In(_, lo, hi, _, _) => lo <= item.id <= hi
  }

  function OperandOf(n: int, how: How): Operand
  {
    match how case Passed => Arg case Written(q) => Lit(Quoted(Printed(n), q))
  }

  function CondOf(w: Wish): Cond
  {
    match w
    case Is(col, n, how) => Eq(col, OperandOf(n, how))
    case In(col, lo, hi, loHow, hiHow) => Between(col, OperandOf(lo, loHow), OperandOf(hi, hiHow))
  }

  function ArgOf(n: int, how: How): seq<string>
  {
    if how == Passed then [Printed(n)] else []
  }

  function ArgsOf(w: Wish): (args: seq<string>)
  {
    match w
    case Is(_, n, how) => ArgOf(n, how)
    case In(_, lo, hi, loHow, hiHow) => ArgOf(lo, loHow) + ArgOf(hi, hiHow)
  }

  function Conds(ws: seq<Wish>): (cs: seq<Cond>)
    ensures |cs| == |ws|
  {
    seq(|ws|, i requires 0 <= i < |ws| => CondOf(ws[i]))
  }

  // The arguments of the first i wishes.
  function ArgsTo(ws: seq<Wish>, i: nat): seq<string>
    requires i <= |ws|
  {
    if i == 0 then [] else ArgsTo(ws, i - 1) + ArgsOf(ws[i - 1])
  }

  lemma ArgsCount(w: Wish)
    ensures |ArgsOf(w)| == Arity(CondOf(w))
  {
    hide Printed;
  }

  lemma {:induction false} ArgsLength(ws: seq<Wish>, i: nat)
    requires i <= |ws|
    ensures |ArgsTo(ws, i)| == ArityTo(Conds(ws), i)
  {
    hide ArgsOf, CondOf, Arity;
    if i > 0 {
      ArgsLength(ws, i - 1);
      ArgsCount(ws[i - 1]);
    }
  }

  // Behind the arguments of the wishes before it come the arguments of wish i.
  lemma {:induction false} ArgsAt(ws: seq<Wish>, i: nat, n: nat)
    requires i < n <= |ws|
    ensures |ArgsTo(ws, i)| <= |ArgsTo(ws, n)|
    ensures ArgsOf(ws[i]) <= ArgsTo(ws, n)[|ArgsTo(ws, i)|..]
  {
    hide ArgsOf;
    if i + 1 < n {
      ArgsAt(ws, i, n - 1);
      var before, k := ArgsTo(ws, n - 1), |ArgsTo(ws, i)|;
      assert ArgsTo(ws, n)[k..] == before[k..] + ArgsOf(ws[n - 1]);
    } else {
      assert ArgsTo(ws, n)[|ArgsTo(ws, i)|..] == ArgsOf(ws[i]);
    }
  }

  lemma OperandMeans(n: int, how: How, args: seq<string>)
    requires ArgOf(n, how) <= args
    ensures Meaning(OperandOf(n, how), args) == (Some(Printed(n)), args[|ArgOf(n, how)|..])
    ensures IntOf(Some(Printed(n))) == Some(n)
  {
    hide Printed, Unquoted, Denoted, Quoted;
    PrintedReads(n, 0);
    if how.Written? {
      QuotedLiteral(n, how.q);
    }
  }

  // A wish, printed, is enforced and means what was wished.
  lemma WishMeans(w: Wish, args: seq<string>, row: Row)
    requires WishOk(w) && ArgsOf(w) <= args
    ensures Enforced(CondOf(w), args) && (Sat(CondOf(w), args, row) <==> Met(w, row.item))
    ensures !Shifts(CondOf(w)) && CondOk(CondOf(w))
  {
    hide Printed, Unquoted, Denoted, Meaning, OperandOf, ArgOf, OperandOk, SameWord, IsWord;
    match w
    case Is(col, n, how) =>
      OperandMeans(n, how, args);
      PrintedOk(n, how);
      ColumnIsWord(col);
    case In(col, lo, hi, loHow, hiHow) =>
      var a, b := ArgOf(lo, loHow), ArgOf(hi, hiHow);
      assert a <= a + b <= args && (a + b)[|a|..] == b;
      OperandMeans(lo, loHow, args);
      OperandMeans(hi, hiHow, args[|a|..]);
      PrintedOk(lo, loHow);
      PrintedOk(hi, hiHow);
      ColumnIsWord(col);
  }

  lemma PrintedOk(n: int, how: How)
    ensures OperandOk(OperandOf(n, how))
  {
    hide Printed, Quoted, OperandOk;
    if how.Written? {
      QuotedLiteral(n, how.q);
    } else {
      ArgOk();
    }
  }

  lemma ArgOk()
    ensures OperandOk(Arg)
  {
  }

  lemma ColumnIsWord(col: string)
    requires ColumnOf(col).Some?
    ensures IsWord(col) && !SameWord(col, "and")
  {
    var key := match ColumnOf(col).value case CId => "_id" case CBucket => "bucket_id" case CType => "media_type";
    assert SameWord(col, key);
    assert forall i :: 0 <= i < |key| ==> key[i] == '_' || 'a' <= key[i] <= 'z';
    forall i | 0 <= i < |col|
      ensures !IsBlank(col[i]) && col[i] != '='
    {
      assert Lower(col[i]) == Lower(key[i]) == key[i];
    }
    assert |"and"| == 3 && Lower("and"[0]) == 'a' && Lower("_id"[0]) == '_';
  }

  // For any conjunction of bucket_id =, media_type =, _id = and _id BETWEEN, each field wished for at
  // most once, in any legal layout and any mix of literals, quoted or not, and arguments: the rows accepted are exactly
  // those that meet every wish.
  lemma WishesMean(ws: seq<Wish>, k: Words, seps: seq<string>, item: Item)
    requires (forall w :: w in ws ==> WishOk(w)) && SetOnce(Conds(ws))
    requires WordsOk(k) && Legal(SelectionTokens(Conds(ws), k), seps)
    ensures var sql := Print(SelectionTokens(Conds(ws), k), seps);
            Matches(item, Apply(ANY, Tokens(sql, ""), ArgsTo(ws, |ws|)), None) <==> forall w :: w in ws ==> Met(w, item)
  {
    hide WishOk, CondOf, ArgsOf, Enforced, Sat, Matches, Print, SelectionTokens, SetOnce, Legal, WordsOk, CondOk, Shifts, Met;
    var cs, args, row := Conds(ws), ArgsTo(ws, |ws|), Row(item, {});
    forall j | 0 <= j < |ws|
      ensures EnforcedAt(cs, args, j) && (SatAt(cs, args, row, j) <==> Met(ws[j], item))
      ensures !Shifts(cs[j]) && CondOk(cs[j])
    {
      ArgsLength(ws, j);
      ArgsAt(ws, j, |ws|);
      FromTail(args, ArityTo(cs, j));
      WishMeans(ws[j], From(args, ArityTo(cs, j)), row);
    }
    ConjunctionMeans(cs, k, seps, args, row);
    assert AllSat(cs, args, row) <==> forall j :: 0 <= j < |ws| ==> Met(ws[j], item);
  }

  lemma FromTail(args: seq<string>, i: nat)
    requires i <= |args|
    ensures From(args, i) == args[i..]
  {
  }
}
