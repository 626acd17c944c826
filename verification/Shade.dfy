// The notification shade (crates/arod/src/shade.rs): the list of notifications and the event log
// each connected widget receives. Every method runs under one lock.
module NotificationShade {
  import opened Bytes
  import opened Picks

  // Package, tag and number: what an app knows a notification by.
  type Key = (string, Option<string>, int)

  // What a widget shows of a notification, beside its id.
  datatype Content = Content(app: string, appName: string, title: string, body: string, ongoing: bool, ts: int, icon: string)

  datatype Note = Note(id: nat, content: Content, key: Key, target: Option<string>)

  // A notification as sent: key and target stay behind.
  datatype Shown = Shown(id: nat, content: Content)

  datatype Event = Snapshot(notes: seq<Shown>) | Posted(note: Shown) | Removed(id: nat)

  // A connection: the lines written to it so far, and whether it still takes more. Once a write
  // fails, every later one does.
  datatype Client = Client(log: seq<Event>, alive: bool)

  function Show(n: Note): Shown
  {
    Shown(n.id, n.content)
  }

  function ShowAll(notes: seq<Note>): (s: seq<Shown>)
    ensures |s| == |notes| && forall i :: 0 <= i < |notes| ==> s[i] == Show(notes[i])
  {
    seq(|notes|, i requires 0 <= i < |notes| => Show(notes[i]))
  }

  // ---------- reading the log ----------

  // The entry of that id, updated in place; a new one goes to the end.
  function Put(list: seq<Shown>, n: Shown): (r: seq<Shown>)
  {
    if list == [] then [n]
    else if list[0].id == n.id then [n] + list[1..]
    else [list[0]] + Put(list[1..], n)
  }

  function Without(list: seq<Shown>, id: nat): (r: seq<Shown>)
  {
    if list == [] then []
    else if list[0].id == id then Without(list[1..], id)
    else [list[0]] + Without(list[1..], id)
  }

  function Update(list: seq<Shown>, e: Event): seq<Shown>
  {
    match e
    case Snapshot(notes) => notes
    case Posted(n) => Put(list, n)
    case Removed(id) => Without(list, id)
  }

  // The list that a reader of this log arrives at, oldest first.
  function Replay(log: seq<Event>): (list: seq<Shown>)
  {
    if log == [] then [] else Update(Replay(log[..|log| - 1]), log[|log| - 1])
  }

  lemma ReplaySnoc(log: seq<Event>, e: Event)
    ensures Replay(log + [e]) == Update(Replay(log), e)
  {
    assert (log + [e])[..|log|] == log;
  }

  predicate Has(list: seq<Shown>, id: nat)
  {
    list != [] && (list[0].id == id || Has(list[1..], id))
  }

  // No id twice.
  predicate Distinct(list: seq<Shown>)
  {
    list == [] || (!Has(list[1..], list[0].id) && Distinct(list[1..]))
  }

  predicate SnapshotsDistinct(log: seq<Event>)
  {
    forall e :: e in log && e.Snapshot? ==> Distinct(e.notes)
  }

  lemma {:induction false} HasIs(notes: seq<Note>, id: nat)
    ensures Has(ShowAll(notes), id) <==> exists i :: 0 <= i < |notes| && notes[i].id == id
    decreases notes
  {
    if notes != [] {
      HasIs(notes[1..], id);
      assert ShowAll(notes)[1..] == ShowAll(notes[1..]);
      assert forall i :: 0 < i < |notes| ==> notes[i] == notes[1..][i - 1];
    }
  }

  lemma {:induction false} NotesDistinct(notes: seq<Note>)
    requires DistinctIds(notes)
    ensures Distinct(ShowAll(notes))
    decreases notes
  {
    if notes != [] {
      NotesDistinct(notes[1..]);
      HasIs(notes[1..], notes[0].id);
      assert ShowAll(notes)[1..] == ShowAll(notes[1..]);
    }
  }

  // ---------- the list ----------

  ghost predicate DistinctIds(notes: seq<Note>)
  {
    forall i, j :: 0 <= i < j < |notes| ==> notes[i].id != notes[j].id
  }

  ghost predicate DistinctKeys(notes: seq<Note>)
  {
    forall i, j :: 0 <= i < j < |notes| ==> notes[i].key != notes[j].key
  }

  // `iter().position`
  function Position(notes: seq<Note>, p: Note -> bool): (r: Option<nat>)
    ensures r.Some? ==> r.value < |notes| && p(notes[r.value]) && forall i :: 0 <= i < r.value ==> !p(notes[i])
    ensures r.None? ==> forall i :: 0 <= i < |notes| ==> !p(notes[i])
  {
    if notes == [] then None
    else if p(notes[0]) then Some(0)
    else
      match Position(notes[1..], p)
      case None =>
        assert forall i :: 0 < i < |notes| ==> notes[i] == notes[1..][i - 1];
        None
      case Some(k) =>
        assert forall i :: 0 < i <= k ==> notes[i] == notes[1..][i - 1];
        Some(k + 1)
  }

  function IndexOfKey(notes: seq<Note>, key: Key): (r: Option<nat>)
    ensures r.Some? ==> r.value < |notes| && notes[r.value].key == key
    ensures r.None? ==> forall i :: 0 <= i < |notes| ==> notes[i].key != key
  {
    Position(notes, (n: Note) => n.key == key)
  }

  function IndexOfId(notes: seq<Note>, id: nat): (r: Option<nat>)
    ensures r.Some? ==> r.value < |notes| && notes[r.value].id == id
    ensures r.None? ==> forall i :: 0 <= i < |notes| ==> notes[i].id != id
  {
    Position(notes, (n: Note) => n.id == id)
  }

  function Cut(notes: seq<Note>, i: nat): seq<Note>
    requires i < |notes|
  {
    notes[..i] + notes[i + 1..]
  }

  // `retain(|n| n.key.0 != app)`
  function KeepOthers(notes: seq<Note>, app: string): (r: seq<Note>)
  {
    if notes == [] then []
    else if notes[0].key.0 == app then KeepOthers(notes[1..], app)
    else [notes[0]] + KeepOthers(notes[1..], app)
  }

  function IdsOf(notes: seq<Note>, app: string): (r: seq<nat>)
  {
    if notes == [] then []
    else if notes[0].key.0 == app then [notes[0].id] + IdsOf(notes[1..], app)
    else IdsOf(notes[1..], app)
  }

  // ---------- updates seen by a widget ----------

  lemma ShowCons(n: Note, rest: seq<Note>)
    ensures ShowAll([n] + rest) == [Show(n)] + ShowAll(rest)
  {
    assert ([n] + rest)[1..] == rest;
  }

  lemma {:induction false} PutAt(notes: seq<Note>, i: nat, n: Note)
    requires DistinctIds(notes) && i < |notes| && notes[i].id == n.id
    ensures Put(ShowAll(notes), Show(n)) == ShowAll(notes[i := n])
    decreases i
  {
    hide ShowAll;
    var s := ShowAll(notes);
    assert s[1..] == ShowAll(notes[1..]);
    if i > 0 {
      PutAt(notes[1..], i - 1, n);
      var rest := notes[1..][i - 1 := n];
      assert notes[i := n] == [notes[0]] + rest;
      ShowCons(notes[0], rest);
      assert notes[0].id != n.id;
    } else {
      assert ShowAll(notes[0 := n]) == [Show(n)] + s[1..];
    }
  }

  lemma {:induction false} PutNew(notes: seq<Note>, n: Note)
    requires forall i :: 0 <= i < |notes| ==> notes[i].id != n.id
    ensures Put(ShowAll(notes), Show(n)) == ShowAll(notes + [n])
    decreases notes
  {
    var s := ShowAll(notes);
    if notes == [] {
      assert ShowAll([n]) == [Show(n)];
      assert notes + [n] == [n];
    } else {
      assert s[1..] == ShowAll(notes[1..]);
      PutNew(notes[1..], n);
      assert notes + [n] == [notes[0]] + (notes[1..] + [n]);
      assert ShowAll(notes + [n]) == [Show(notes[0])] + ShowAll(notes[1..] + [n]);
    }
  }

  lemma {:induction false} WithoutAbsent(notes: seq<Note>, id: nat)
    requires forall i :: 0 <= i < |notes| ==> notes[i].id != id
    ensures Without(ShowAll(notes), id) == ShowAll(notes)
    decreases notes
  {
    if notes != [] {
      var s := ShowAll(notes);
      assert s[1..] == ShowAll(notes[1..]);
      WithoutAbsent(notes[1..], id);
      assert s == [s[0]] + s[1..];
    }
  }

  lemma {:induction false} WithoutAt(notes: seq<Note>, i: nat)
    requires DistinctIds(notes) && i < |notes|
    ensures Without(ShowAll(notes), notes[i].id) == ShowAll(Cut(notes, i))
    decreases i
  {
    var s := ShowAll(notes);
    assert s[1..] == ShowAll(notes[1..]);
    if i == 0 {
      WithoutAbsent(notes[1..], notes[0].id);
      assert Cut(notes, 0) == notes[1..];
    } else {
      WithoutAt(notes[1..], i - 1);
      assert Cut(notes, i) == [notes[0]] + Cut(notes[1..], i - 1);
      assert ShowAll(Cut(notes, i)) == [s[0]] + ShowAll(Cut(notes[1..], i - 1));
    }
  }

  function WithoutIds(list: seq<Shown>, ids: seq<nat>): seq<Shown>
    decreases ids
  {
    if ids == [] then list else WithoutIds(Without(list, ids[0]), ids[1..])
  }

  lemma {:induction false} WithoutIdsCons(x: Shown, list: seq<Shown>, ids: seq<nat>)
    requires x.id !in ids
    ensures WithoutIds([x] + list, ids) == [x] + WithoutIds(list, ids)
    decreases ids
  {
    if ids != [] {
      assert ([x] + list)[1..] == list;
      WithoutIdsCons(x, Without(list, ids[0]), ids[1..]);
    }
  }

  // Removing one package's ids one after the other leaves the notes of the others.
  lemma {:induction false} WithoutPackage(notes: seq<Note>, app: string)
    requires DistinctIds(notes)
    ensures WithoutIds(ShowAll(notes), IdsOf(notes, app)) == ShowAll(KeepOthers(notes, app))
    decreases notes
  {
    if notes != [] {
      var s := ShowAll(notes);
      assert s[1..] == ShowAll(notes[1..]) && s == [s[0]] + s[1..];
      WithoutPackage(notes[1..], app);
      if notes[0].key.0 == app {
        WithoutAbsent(notes[1..], notes[0].id);
        assert IdsOf(notes, app)[1..] == IdsOf(notes[1..], app);
      } else {
        IdsWithin(notes[1..], app);
        assert notes[0].id !in IdsOf(notes[1..], app);
        WithoutIdsCons(s[0], s[1..], IdsOf(notes[1..], app));
        assert ShowAll([notes[0]] + KeepOthers(notes[1..], app)) == [s[0]] + ShowAll(KeepOthers(notes[1..], app));
      }
    }
  }

  lemma {:induction false} IdsWithin(notes: seq<Note>, app: string)
    ensures forall id :: id in IdsOf(notes, app) ==> exists i :: 0 <= i < |notes| && notes[i].id == id
    decreases notes
  {
    if notes != [] {
      IdsWithin(notes[1..], app);
      forall id | id in IdsOf(notes, app)
        ensures exists i :: 0 <= i < |notes| && notes[i].id == id
      {
        if id in IdsOf(notes[1..], app) {
          var i :| 0 <= i < |notes[1..]| && notes[1..][i].id == id;
          assert notes[i + 1].id == id;
        } else {
          assert notes[0].id == id;
        }
      }
    }
  }

  function AllIds(notes: seq<Note>): (ids: seq<nat>)
    ensures |ids| == |notes| && forall i :: 0 <= i < |notes| ==> ids[i] == notes[i].id
  {
    seq(|notes|, i requires 0 <= i < |notes| => notes[i].id)
  }

  lemma {:induction false} WithoutAll(notes: seq<Note>)
    requires DistinctIds(notes)
    ensures WithoutIds(ShowAll(notes), AllIds(notes)) == []
    decreases notes
  {
    if notes != [] {
      WithoutAt(notes, 0);
      assert Cut(notes, 0) == notes[1..] && AllIds(notes)[1..] == AllIds(notes[1..]);
      WithoutAll(notes[1..]);
    }
  }

  // Notes kept from a list keep their places in it.
  lemma {:induction false} KeptWithin(notes: seq<Note>, app: string)
    requires DistinctIds(notes) && DistinctKeys(notes)
    ensures DistinctIds(KeepOthers(notes, app)) && DistinctKeys(KeepOthers(notes, app))
    ensures forall n :: n in KeepOthers(notes, app) <==> n in notes && n.key.0 != app
    decreases notes
  {
    if notes != [] {
      KeptWithin(notes[1..], app);
      assert notes == [notes[0]] + notes[1..];
      var r := KeepOthers(notes[1..], app);
      forall n | n in r
        ensures n.id != notes[0].id && n.key != notes[0].key
      {
        var i :| 0 <= i < |notes[1..]| && notes[1..][i] == n;
        assert notes[i + 1] == n;
      }
      if notes[0].key.0 != app {
        var k := KeepOthers(notes, app);
        assert forall i :: 0 < i < |k| ==> k[i] == r[i - 1] && r[i - 1] in r;
      }
    }
  }

  // ---------- what the clients get ----------

  // After these lines were sent: without any line nothing changes; otherwise the clients that can be
  // reached, in their order, each with all the lines at the end of its log, and no other.
  ghost predicate Told(before: seq<Client>, after: seq<Client>, lines: seq<Event>)
  {
    if lines == [] then after == before
    else Picked(before, (c: Client) => c.alive, (c: Client) => Client(c.log + lines, true), after)
  }

  function Removals(ids: seq<nat>): (lines: seq<Event>)
    ensures |lines| == |ids| && forall i :: 0 <= i < |ids| ==> lines[i] == Removed(ids[i])
  {
    seq(|ids|, i requires 0 <= i < |ids| => Removed(ids[i]))
  }

  lemma ToldNothing(clients: seq<Client>, lines: seq<Event>)
    ensures Told(clients, clients, lines[..0])
  {
  }

  lemma ToldAlive(before: seq<Client>, after: seq<Client>, lines: seq<Event>)
    requires Told(before, after, lines) && lines != []
    ensures forall c :: c in after ==> c.alive
  {
    var keep := (c: Client) => c.alive;
    forall k | 0 <= k < |after|
      ensures after[k].alive
    {
      var i := AtRank(before, keep, k, |before|);
    }
  }

  lemma ToldMore(before: seq<Client>, middle: seq<Client>, after: seq<Client>, lines: seq<Event>, e: Event)
    requires Told(before, middle, lines) && Told(middle, after, [e])
    ensures Told(before, after, lines + [e])
  {
    if lines == [] {
      assert [] + [e] == [e];
    } else {
      ToldAlive(before, middle, lines);
      var keep := (c: Client) => c.alive;
      RankOfAll(middle, keep, |middle|);
      forall i | 0 <= i < |before| && before[i].alive
        ensures Rank(before, keep, i) < |after|
        ensures after[Rank(before, keep, i)] == Client(before[i].log + (lines + [e]), true)
      {
        var k := Rank(before, keep, i);
        RankOfAll(middle, keep, k);
        assert middle[k] == Client(before[i].log + lines, true);
        assert before[i].log + lines + [e] == before[i].log + (lines + [e]);
      }
    }
  }

  // The notes of all other packages, in their order.
  ghost predicate OthersOf(notes: seq<Note>, app: string, left: seq<Note>)
  {
    Picked(notes, (n: Note) => n.key.0 != app, (n: Note) => n, left)
  }

  // The ids of the package's notes, in their order.
  ghost predicate OwnIds(notes: seq<Note>, app: string, ids: seq<nat>)
  {
    Picked(notes, (n: Note) => n.key.0 == app, (n: Note) => n.id, ids)
  }

  lemma {:induction false} KeepPicked(notes: seq<Note>, app: string)
    ensures OthersOf(notes, app, KeepOthers(notes, app)) && OwnIds(notes, app, IdsOf(notes, app))
    decreases notes
  {
    var other, own := (n: Note) => n.key.0 != app, (n: Note) => n.key.0 == app;
    var self, id := (n: Note) => n, (n: Note) => n.id;
    if notes == [] {
      NonePicked(other, self);
      NonePicked(own, id);
    } else {
      KeepPicked(notes[1..], app);
      PickedCons(notes[0], notes[1..], other, self, KeepOthers(notes[1..], app));
      PickedCons(notes[0], notes[1..], own, id, IdsOf(notes[1..], app));
      assert [notes[0]] + notes[1..] == notes;
    }
  }

  // ---------- the shade ----------

  class Shade {
    var nextId: nat
    var notes: seq<Note>
    var clients: seq<Client>
    // Ids that left the list.
    ghost var retired: set<nat>

    ghost predicate Consistent()
      reads this
    {
      && DistinctIds(notes) && DistinctKeys(notes)
      && (forall i :: 0 <= i < |notes| ==> notes[i].id < nextId && notes[i].id !in retired)
      && (forall id :: id in retired ==> id < nextId)
    }

    // Whoever reads the log of a client that can still be reached arrives at list.
    ghost predicate AllShow(list: seq<Shown>)
      reads this`clients
    {
      forall c :: c in clients && c.alive ==> Replay(c.log) == list && SnapshotsDistinct(c.log)
    }

    ghost predicate Valid()
      reads this
    {
      Consistent() && AllShow(ShowAll(notes))
    }

    constructor ()
      ensures Valid() && notes == [] && clients == [] && nextId == 1
    {
      nextId, notes, clients, retired := 1, [], [], {};
    }

    // Each reachable client's log grows by the event; the others leave the list.
    method Broadcast(e: Event, ghost list: seq<Shown>)
      requires AllShow(list) && !e.Snapshot?
      modifies this`clients
      ensures AllShow(Update(list, e))
      ensures Told(old(clients), clients, [e])
    {
      hide Replay, Update, Picked;
      var connected := clients;
      var kept: seq<Client> := [];
      ghost var keep, grow := (c: Client) => c.alive, (c: Client) => Client(c.log + [e], true);
      NonePicked(keep, grow);
      for i := 0 to |connected|
        invariant Picked(connected[..i], keep, grow, kept)
        invariant forall c :: c in kept ==> c.alive && Replay(c.log) == Update(list, e) && SnapshotsDistinct(c.log)
      {
        var c := connected[i];
        PickedSnoc(connected[..i], keep, grow, kept, c);
        if c.alive {
          ReplaySnoc(c.log, e);
          kept := kept + [Client(c.log + [e], true)];
        }
        assert connected[..i + 1] == connected[..i] + [c];
      }
      assert connected[..|connected|] == connected;
      clients := kept;
    }

    // A widget connects: it gets the current list, then every later event.
    method OnConnect(cloned: bool, alive: bool)
      requires Valid()
      modifies this`clients
      ensures Valid()
      ensures clients == if cloned then old(clients) + [Client(if alive then [Snapshot(ShowAll(notes))] else [], alive)]
                         else old(clients)
    {
      if !cloned {
        return;
      }
      var line := Snapshot(ShowAll(notes));
      ReplaySnoc([], line);
      NotesDistinct(notes);
      assert [] + [line] == [line];
      clients := clients + [Client(if alive then [line] else [], alive)];
    }

    // A connection breaks, at any time.
    method Hangup(i: nat)
      requires Valid() && i < |clients|
      modifies this`clients
      ensures Valid() && clients == old(clients)[i := old(clients)[i].(alive := false)]
    {
      clients := clients[i := clients[i].(alive := false)];
    }

    method Post(key: Key, content: Content, target: Option<string>) returns (id: nat)
      requires Valid()
      modifies this
      ensures Valid() && retired == old(retired)
      ensures var at := IndexOfKey(old(notes), key);
              match at
              case Some(i) =>
                // An update keeps its id and its place.
                && id == old(notes)[i].id && nextId == old(nextId)
                && notes == old(notes)[i := Note(id, content, key, target)]
              case None =>
                && id == old(nextId) && nextId == old(nextId) + 1
                && notes == old(notes) + [Note(id, content, key, target)]
      ensures Told(old(clients), clients, [Posted(Shown(id, content))])
    {
      hide AllShow, ShowAll, Replay, Told, Put;
      ghost var list := ShowAll(notes);
      var at := IndexOfKey(notes, key);
      if at.Some? {
        id := notes[at.value].id;
      } else {
        id := nextId;
        nextId := nextId + 1;
      }
      var note := Note(id, content, key, target);
      if at.Some? {
        PutAt(notes, at.value, note);
        notes := notes[at.value := note];
      } else {
        PutNew(notes, note);
        notes := notes + [note];
      }
      Broadcast(Posted(Show(note)), list);
    }

    // Drop the note at i and tell every widget.
    method Drop(i: nat)
      requires Valid() && i < |notes|
      modifies this
      ensures Valid() && nextId == old(nextId)
      ensures notes == Cut(old(notes), i) && retired == old(retired) + {old(notes)[i].id}
      ensures Told(old(clients), clients, [Removed(old(notes)[i].id)])
    {
      hide AllShow, ShowAll, Replay, Told, Put, Without;
      ghost var list := ShowAll(notes);
      WithoutAt(notes, i);
      var id := notes[i].id;
      notes := notes[..i] + notes[i + 1..];
      retired := retired + {id};
      Broadcast(Removed(id), list);
    }

    // The app cancelled one notification.
    method Remove(key: Key)
      requires Valid()
      modifies this
      ensures Valid() && nextId == old(nextId)
      ensures match IndexOfKey(old(notes), key)
              case Some(i) =>
                && notes == Cut(old(notes), i) && Told(old(clients), clients, [Removed(old(notes)[i].id)])
                && retired == old(retired) + {old(notes)[i].id}
              case None => unchanged(this)
    {
      var at := IndexOfKey(notes, key);
      if at.Some? {
        Drop(at.value);
      }
    }

    method BroadcastRemovals(ids: seq<nat>, ghost list: seq<Shown>)
      requires AllShow(list)
      modifies this`clients
      ensures AllShow(WithoutIds(list, ids)) && Told(old(clients), clients, Removals(ids))
    {
      hide Told;
      ghost var now := list;
      ToldNothing(clients, Removals(ids));
      for i := 0 to |ids|
        invariant AllShow(now) && WithoutIds(list, ids) == WithoutIds(now, ids[i..])
        invariant Told(old(clients), clients, Removals(ids)[..i])
      {
        ghost var middle := clients;
        Broadcast(Removed(ids[i]), now);
        ToldMore(old(clients), middle, clients, Removals(ids)[..i], Removed(ids[i]));
        assert Removals(ids)[..i + 1] == Removals(ids)[..i] + [Removed(ids[i])];
        assert ids[i..][1..] == ids[i + 1..];
        now := Without(now, ids[i]);
      }
      assert Removals(ids)[..|ids|] == Removals(ids);
    }

    // The notes of one package go, in one call; the others keep their order.
    method RemoveAll(app: string)
      requires Valid()
      modifies this
      ensures Valid() && nextId == old(nextId)
      ensures OthersOf(old(notes), app, notes) && OwnIds(old(notes), app, IdsOf(old(notes), app))
      ensures Told(old(clients), clients, Removals(IdsOf(old(notes), app)))
      ensures retired == old(retired) + set n | n in old(notes) && n.key.0 == app :: n.id
    {
      hide OthersOf, OwnIds, Told, ShowAll, KeepOthers, IdsOf, Removals, WithoutIds, AllShow;
      ghost var list := ShowAll(notes);
      var ids := IdsOf(notes, app);
      WithoutPackage(notes, app);
      KeptWithin(notes, app);
      KeepPicked(notes, app);
      ghost var gone := set n | n in notes && n.key.0 == app :: n.id;
      KeptAreNotGone(notes, app, gone);
      notes := KeepOthers(notes, app);
      retired := retired + gone;
      BroadcastRemovals(ids, list);
    }

    // The user dismissed one from the shade; its host copy is to be closed.
    method Dismiss(id: nat) returns (closed: Option<Key>)
      requires Valid()
      modifies this
      ensures Valid() && nextId == old(nextId)
      ensures match IndexOfId(old(notes), id)
              case Some(i) =>
                && notes == Cut(old(notes), i) && Told(old(clients), clients, [Removed(id)])
                && retired == old(retired) + {id} && closed == Some(old(notes)[i].key)
              case None => unchanged(this) && closed == None
    {
      var at := IndexOfId(notes, id);
      if at.None? {
        return None;
      }
      closed := Some(notes[at.value].key);
      Drop(at.value);
    }

    method DismissAll() returns (closed: seq<Key>)
      requires Valid()
      modifies this
      ensures Valid() && nextId == old(nextId) && notes == []
      ensures Told(old(clients), clients, Removals(AllIds(old(notes))))
      ensures |closed| == |old(notes)| && forall i :: 0 <= i < |closed| ==> closed[i] == old(notes)[i].key
      ensures retired == old(retired) + set n | n in old(notes) :: n.id
    {
      ghost var list := ShowAll(notes);
      var taken := notes;
      notes := [];
      retired := retired + set n | n in taken :: n.id;
      WithoutAll(taken);
      BroadcastRemovals(AllIds(taken), list);
      assert ShowAll([]) == [];
      closed := seq(|taken|, i requires 0 <= i < |taken| => taken[i].key);
    }

    // The target a tap on id launches.
    method Invoke(id: nat) returns (target: Option<string>)
      requires Valid()
      ensures match IndexOfId(notes, id) case Some(i) => target == notes[i].target case None => target == None
    {
      var at := IndexOfId(notes, id);
      if at.None? {
        return None;
      }
      return notes[at.value].target;
    }
  }

  lemma KeptAreNotGone(notes: seq<Note>, app: string, gone: set<nat>)
    requires DistinctIds(notes) && DistinctKeys(notes) && gone == set n | n in notes && n.key.0 == app :: n.id
    ensures forall n :: n in KeepOthers(notes, app) ==> n.id !in gone
    ensures forall n :: n in KeepOthers(notes, app) ==> n in notes
  {
    KeptWithin(notes, app);
  }
}
