// The widget that reads the shade's log (companion/omarchy/aro.notifications/Panel.qml): it keeps its
// rows newest first.
module ShadePanel {
  import opened NotificationShade

  // The first row of that id becomes n.
  function SetRow(rows: seq<Shown>, n: Shown): (r: seq<Shown>)
  {
    if rows == [] then [] else if rows[0].id == n.id then [n] + rows[1..] else [rows[0]] + SetRow(rows[1..], n)
  }

  // The first row of that id goes.
  function RemoveRow(rows: seq<Shown>, id: nat): (r: seq<Shown>)
  {
    if rows == [] then [] else if rows[0].id == id then rows[1..] else [rows[0]] + RemoveRow(rows[1..], id)
  }

  // A known row is set where it is, a new one is put on top.
  function Upsert(rows: seq<Shown>, n: Shown): (r: seq<Shown>)
  {
    if Has(rows, n.id) then SetRow(rows, n) else [n] + rows
  }

  // The rows cleared and the notes put in one after the other.
  function Rebuilt(notes: seq<Shown>): (rows: seq<Shown>)
  {
    if notes == [] then [] else Upsert(Rebuilt(notes[..|notes| - 1]), notes[|notes| - 1])
  }

  function OnLine(rows: seq<Shown>, e: Event): seq<Shown>
  {
    match e
    case Snapshot(notes) => Rebuilt(notes)
    case Posted(n) => Upsert(rows, n)
    case Removed(id) => RemoveRow(rows, id)
  }

  function Rows(log: seq<Event>): (rows: seq<Shown>)
  {
    if log == [] then [] else OnLine(Rows(log[..|log| - 1]), log[|log| - 1])
  }

  function Reversed(s: seq<Shown>): (r: seq<Shown>)
  {
    if s == [] then [] else Reversed(s[1..]) + [s[0]]
  }

  lemma {:induction false} HasAppend(a: seq<Shown>, b: seq<Shown>, id: nat)
    ensures Has(a + b, id) <==> Has(a, id) || Has(b, id)
  {
    if a == [] {
      assert a + b == b;
    } else {
      HasAppend(a[1..], b, id);
      assert (a + b)[1..] == a[1..] + b;
    }
  }

  lemma {:induction false} HasReversed(s: seq<Shown>, id: nat)
    ensures Has(Reversed(s), id) <==> Has(s, id)
  {
    if s != [] {
      HasReversed(s[1..], id);
      HasAppend(Reversed(s[1..]), [s[0]], id);
    }
  }

  lemma Regroup(a: seq<Shown>, b: seq<Shown>, c: seq<Shown>)
    ensures (a + b) + c == a + (b + c)
  {
  }

  lemma {:induction false} SetAppend(a: seq<Shown>, b: seq<Shown>, n: Shown)
    ensures SetRow(a + b, n) == if Has(a, n.id) then SetRow(a, n) + b else a + SetRow(b, n)
  {
    if a == [] {
      assert a + b == b;
    } else {
      SetAppend(a[1..], b, n);
      assert (a + b)[1..] == a[1..] + b && (a + b)[0] == a[0];
      Regroup([n], a[1..], b);
      Regroup([a[0]], SetRow(a[1..], n), b);
      Regroup([a[0]], a[1..], SetRow(b, n));
      assert a == [a[0]] + a[1..];
    }
  }

  lemma {:induction false} RemoveAppend(a: seq<Shown>, b: seq<Shown>, id: nat)
    ensures RemoveRow(a + b, id) == if Has(a, id) then RemoveRow(a, id) + b else a + RemoveRow(b, id)
  {
    if a == [] {
      assert a + b == b;
    } else {
      RemoveAppend(a[1..], b, id);
      assert (a + b)[1..] == a[1..] + b && (a + b)[0] == a[0];
      Regroup([a[0]], RemoveRow(a[1..], id), b);
      Regroup([a[0]], a[1..], RemoveRow(b, id));
      assert a == [a[0]] + a[1..];
    }
  }

  lemma {:induction false} PutHas(list: seq<Shown>, n: Shown, id: nat)
    ensures Has(Put(list, n), id) <==> id == n.id || Has(list, id)
  {
    if list != [] && list[0].id != n.id {
      PutHas(list[1..], n, id);
      assert ([list[0]] + Put(list[1..], n))[1..] == Put(list[1..], n);
    } else if list != [] {
      assert ([n] + list[1..])[1..] == list[1..];
    } else {
      assert [n][1..] == [];
    }
  }

  lemma {:induction false} WithoutHas(list: seq<Shown>, gone: nat, id: nat)
    ensures Has(Without(list, gone), id) <==> id != gone && Has(list, id)
  {
    if list != [] {
      WithoutHas(list[1..], gone, id);
      assert ([list[0]] + Without(list[1..], gone))[1..] == Without(list[1..], gone);
    }
  }

  // Posting keeps ids distinct, and the widget's row is that of the list, from the other end.
  lemma {:induction false} Posting(list: seq<Shown>, n: Shown)
    requires Distinct(list)
    ensures Distinct(Put(list, n)) && Upsert(Reversed(list), n) == Reversed(Put(list, n))
  {
    if list == [] {
      assert [n][1..] == [];
    } else {
      var x, r := list[0], list[1..];
      HasReversed(r, n.id);
      HasAppend(Reversed(r), [x], n.id);
      SetAppend(Reversed(r), [x], n);
      assert [x][1..] == [];
      if x.id == n.id {
        assert ([n] + r)[1..] == r;
      } else {
        Posting(r, n);
        PutHas(r, n, x.id);
        assert ([x] + Put(r, n))[1..] == Put(r, n);
        assert [n] + (Reversed(r) + [x]) == ([n] + Reversed(r)) + [x];
      }
    }
  }

  lemma {:induction false} Removing(list: seq<Shown>, id: nat)
    requires Distinct(list)
    ensures Distinct(Without(list, id)) && RemoveRow(Reversed(list), id) == Reversed(Without(list, id))
  {
    if list != [] {
      var x, r := list[0], list[1..];
      Removing(r, id);
      HasReversed(r, id);
      RemoveAppend(Reversed(r), [x], id);
      assert [x][1..] == [];
      if x.id == id {
        AbsentStays(r, id);
        assert Reversed(r) + [] == Reversed(r);
      } else {
        WithoutHas(r, id, x.id);
        assert ([x] + Without(r, id))[1..] == Without(r, id);
        if !Has(r, id) {
          AbsentRow(Reversed(r), id);
        }
      }
    }
  }

  lemma {:induction false} AbsentStays(list: seq<Shown>, id: nat)
    requires !Has(list, id)
    ensures Without(list, id) == list
  {
    if list != [] {
      AbsentStays(list[1..], id);
      assert list == [list[0]] + list[1..];
    }
  }

  lemma {:induction false} AbsentRow(rows: seq<Shown>, id: nat)
    requires !Has(rows, id)
    ensures RemoveRow(rows, id) == rows
  {
    if rows != [] {
      AbsentRow(rows[1..], id);
      assert rows == [rows[0]] + rows[1..];
    }
  }

  lemma {:induction false} PutAbsent(list: seq<Shown>, n: Shown)
    requires !Has(list, n.id)
    ensures Put(list, n) == list + [n]
  {
    if list != [] {
      PutAbsent(list[1..], n);
      assert list + [n] == [list[0]] + (list[1..] + [n]);
    }
  }

  lemma {:induction false} DistinctInit(list: seq<Shown>)
    requires Distinct(list) && list != []
    ensures var n := |list| - 1; Distinct(list[..n]) && !Has(list[..n], list[n].id)
  {
    var n := |list| - 1;
    if n > 0 {
      DistinctInit(list[1..]);
      assert list[..n][1..] == list[1..][..n - 1];
      assert list[1..] == list[1..][..n - 1] + [list[n]];
      HasAppend(list[1..][..n - 1], [list[n]], list[0].id);
      assert [list[n]][1..] == [];
    }
  }

  lemma {:induction false} Rebuilding(list: seq<Shown>)
    requires Distinct(list)
    ensures Rebuilt(list) == Reversed(list)
    decreases |list|
  {
    if list != [] {
      var n := |list| - 1;
      DistinctInit(list);
      Rebuilding(list[..n]);
      Posting(list[..n], list[n]);
      PutAbsent(list[..n], list[n]);
      assert list[..n] + [list[n]] == list;
    }
  }

  // Whatever the log, the widget shows the list its reader arrives at, newest first.
  lemma {:induction false} ShowsReversed(log: seq<Event>)
    requires SnapshotsDistinct(log)
    ensures Distinct(Replay(log)) && Rows(log) == Reversed(Replay(log))
    decreases |log|
  {
    if log != [] {
      var before, last := log[..|log| - 1], log[|log| - 1];
      ShowsReversed(before);
      match last
      case Snapshot(notes) => Rebuilding(notes);
      case Posted(n) => Posting(Replay(before), n);
      case Removed(id) => Removing(Replay(before), id);
    }
  }

  lemma {:induction false} ReversedAt(s: seq<Shown>, k: nat)
    requires k < |s|
    ensures |Reversed(s)| == |s| && Reversed(s)[k] == s[|s| - 1 - k]
  {
    if k < |s| - 1 {
      ReversedAt(s[1..], k);
    } else if k > 0 {
      ReversedAt(s[1..], k - 1);
    } else {
      assert Reversed(s[1..]) == [];
    }
  }

  // Every widget that can be reached shows the current notes, the newest on top.
  lemma WidgetsShow(shade: Shade)
    requires shade.Valid()
    ensures forall c :: c in shade.clients && c.alive ==>
              && |Rows(c.log)| == |shade.notes|
              && forall i :: 0 <= i < |shade.notes| ==> Rows(c.log)[i] == Show(shade.notes[|shade.notes| - 1 - i])
  {
    hide Rows, Replay, Reversed, Distinct, Show;
    forall c | c in shade.clients && c.alive
      ensures |Rows(c.log)| == |shade.notes|
      ensures forall i :: 0 <= i < |shade.notes| ==> Rows(c.log)[i] == Show(shade.notes[|shade.notes| - 1 - i])
    {
      ShowsReversed(c.log);
      var list := ShowAll(shade.notes);
      if list == [] {
        ReversedNothing();
      } else {
        ReversedAt(list, 0);
      }
      forall i | 0 <= i < |list|
        ensures Reversed(list)[i] == list[|list| - 1 - i]
      {
        ReversedAt(list, i);
      }
      assert Rows(c.log) == Reversed(list);
    }
  }

  lemma ReversedNothing()
    ensures Reversed([]) == []
  {
  }
}
