// The property trie: how a reader walks the arena, and the shape every reachable arena keeps.
module Trie {
  import opened Bytes
  import opened Names
  import opened Records

  // ---------- the reader ----------

  // The name of the node at bt, if it lies in the arena.
  function NameAt(d: seq<Byte>, bt: nat): (r: Option<Seg>)
    ensures r.Some? ==> bt + BT_SIZE <= |d|
  {
    if bt + BT_SIZE > |d| || bt + BT_SIZE + U32At(d, bt) > |d| then None
    else Some(d[bt + BT_SIZE..bt + BT_SIZE + U32At(d, bt)])
  }

  // A link of the node at bt; one that does not point forward is not followed.
  function LinkAt(d: seq<Byte>, bt: nat, l: Link): (n: nat)
    requires bt + BT_SIZE <= |d|
    ensures n == 0 || bt < n
  {
    var n := U32At(d, bt + Offset(l));
    if n <= bt then 0 else n
  }

  // Search the sibling tree at bt.
  function Find(d: seq<Byte>, bt: nat, seg: Seg): (r: Option<nat>)
    ensures r.Some? ==> bt <= r.value && r.value + BT_SIZE <= |d|
    decreases |d| - bt
  {
    match NameAt(d, bt)
    case None => None
    case Some(name) =>
      if seg == name then Some(bt)
      else
        var next := LinkAt(d, bt, if Less(seg, name) then Left else Right);
        if next == 0 then None else Find(d, next, seg)
  }

  // The trie node one segment below cur.
  function Child(d: seq<Byte>, cur: nat, seg: Seg): (r: Option<nat>)
    ensures r.Some? ==> cur < r.value && r.value + BT_SIZE <= |d|
  {
    if cur + BT_SIZE > |d| || LinkAt(d, cur, Children) == 0 then None
    else Find(d, LinkAt(d, cur, Children), seg)
  }

  function Walk(d: seq<Byte>, cur: nat, segs: seq<Seg>): (r: Option<nat>)
    ensures r.Some? ==> cur <= r.value
    decreases |segs|
  {
    if segs == [] then Some(cur)
    else
      match Child(d, cur, segs[0])
      case None => None
      case Some(n) => Walk(d, n, segs[1..])
  }

  // What a reader of the arena finds under a name.
  function Get(d: seq<Byte>, name: seq<Byte>): (r: Option<Found>)
  {
    match Walk(d, 0, Split(name))
    case None => None
    case Some(n) =>
      if n + BT_SIZE > |d| || LinkAt(d, n, Prop) == 0 then None
      else Some(ReadInfo(d, LinkAt(d, n, Prop)))
  }

  // ---------- the shape ----------

  // Where a node hangs: its segments from the root, the open interval its sibling-tree position
  // leaves for names, and the node whose link leads to it.
  datatype Place = Place(path: seq<Seg>, lo: Option<Seg>, hi: Option<Seg>, up: nat)

  type Places = map<nat, Place>

  function Init(path: seq<Seg>): seq<Seg>
  {
    if path == [] then [] else path[..|path| - 1]
  }

  // The place of a node called child behind link l of the node `name` at o, itself at place p.
  function Down(p: Place, name: Seg, o: nat, l: Link, child: Seg): Place
  {
    match l
    case Left => Place(Init(p.path) + [child], p.lo, Some(name), o)
    case Right => Place(Init(p.path) + [child], Some(name), p.hi, o)
    case _ => Place(p.path + [child], None, None, o)
  }

  predicate Inside(p: Place, seg: Seg)
  {
    (p.lo.Some? ==> Less(p.lo.value, seg)) && (p.hi.Some? ==> Less(seg, p.hi.value))
  }

  predicate LinkOk(h: Heap, pl: Places, o: nat, l: Link)
    requires o in h && h[o].Bt? && o in pl
  {
    var c := Follow(h[o], l);
    c != 0 ==>
      && o < c && c in h && h[c].Bt? && c in pl
      && pl[c] == Down(pl[o], h[o].name, o, l, h[c].name)
  }

  // A property record at i, complete with its out-of-line value.
  predicate InfoOk(h: Heap, i: nat)
  {
    && i in h && IsInfo(h[i])
    && (h[i].Long? ==>
      var t := i + h[i].rel;
      t in h && h[t].Text? && |h[t].value| >= VALUE_MAX)
  }

  predicate PropOk(h: Heap, pl: Places, o: nat)
    requires o in h && h[o].Bt? && o in pl
  {
    var i := h[o].prop;
    i != 0 ==> o < i && InfoOk(h, i) && h[i].name == Join(pl[o].path)
  }

  // Some sibling or child link of the node above leads to o.
  predicate UpOk(h: Heap, pl: Places, o: nat)
    requires o in pl
  {
    var u := pl[o].up;
    && u < o && u in pl && u in h && h[u].Bt?
    && (Follow(h[u], Left) == o || Follow(h[u], Right) == o || Follow(h[u], Children) == o)
  }

  predicate NodeOk(h: Heap, pl: Places, o: nat)
  {
    && o in pl && o in h && h[o].Bt?
    && LinkOk(h, pl, o, Left) && LinkOk(h, pl, o, Right) && LinkOk(h, pl, o, Children)
    && PropOk(h, pl, o)
    && (if o == 0 then pl[0].path == [] && h[0] == Bt([], 0, 0, 0, h[0].children)
        else
          && pl[o].path != [] && pl[o].path[|pl[o].path| - 1] == h[o].name
          && [] !in pl[o].path
          && Inside(pl[o], h[o].name)
          && UpOk(h, pl, o))
  }

  ghost predicate Wf(h: Heap, pl: Places)
  {
    && 0 in pl && NodeOk(h, pl, 0)
    && (forall o :: o in pl ==> o in h && h[o].Bt?)
    && (forall o {:trigger NodeOk(h, pl, o)} :: o in pl ==> NodeOk(h, pl, o))
    && (forall o {:trigger o in pl} :: o in h && h[o].Bt? ==> o in pl)
  }

  function ValueOf(h: Heap, i: nat): (v: seq<Byte>)
    requires InfoOk(h, i)
  {
    if h[i].Short? then h[i].value else h[i + h[i].rel].value
  }

  lemma ReadProp(d: seq<Byte>, h: Heap, i: nat)
    requires Holds(d, h) && InfoOk(h, i)
    ensures ReadInfo(d, i) == Reading(h[i].name, ValueOf(h, i))
  {
    assert At(d, i, h[i]);
    if h[i].Short? {
      ReadShort(d, i, h[i]);
    } else {
      assert At(d, i + h[i].rel, h[i + h[i].rel]);
      ReadLong(d, i, h[i], h[i + h[i].rel]);
    }
  }

  lemma LinkIs(h: Heap, pl: Places, o: nat, l: Link)
    requires Wf(h, pl) && o in pl && l != Prop
    ensures LinkOk(h, pl, o, l)
  {
    assert NodeOk(h, pl, o);
  }

  // ---------- a search finds the node it names ----------

  // The reader sees the node's record.
  lemma NodeView(d: seq<Byte>, h: Heap, pl: Places, bt: nat)
    requires Reads(d, h) && Wf(h, pl) && bt in pl
    ensures NameAt(d, bt) == Some(h[bt].name)
    ensures LinkAt(d, bt, Prop) == h[bt].prop
    ensures LinkAt(d, bt, Left) == h[bt].left
    ensures LinkAt(d, bt, Right) == h[bt].right
    ensures LinkAt(d, bt, Children) == h[bt].children
  {
    assert NodeAt(d, bt, h[bt]);
    assert NodeOk(h, pl, bt);
  }

  // One step of Find, in terms of the records.
  lemma FindStep(d: seq<Byte>, h: Heap, pl: Places, bt: nat, seg: Seg)
    requires Reads(d, h) && Wf(h, pl) && bt in pl
    ensures bt + BT_SIZE <= |d|
    ensures Find(d, bt, seg) ==
            if seg == h[bt].name then Some(bt)
            else
              var next := Follow(h[bt], if Less(seg, h[bt].name) then Left else Right);
              if next == 0 then None else Find(d, next, seg)
  {
    NodeView(d, h, pl, bt);
  }

  lemma {:induction false} FindSound(d: seq<Byte>, h: Heap, pl: Places, bt: nat, seg: Seg)
    requires Reads(d, h) && Wf(h, pl) && bt in pl && bt != 0
    ensures var r := Find(d, bt, seg);
            r.Some? ==> r.value != 0 && r.value in pl && h[r.value].name == seg
                        && pl[r.value].path == Init(pl[bt].path) + [seg]
    decreases |d| - bt
  {
    FindStep(d, h, pl, bt, seg);
    assert NodeOk(h, pl, bt);
    if seg != h[bt].name {
      var next := Follow(h[bt], if Less(seg, h[bt].name) then Left else Right);
      if next != 0 {
        NodeView(d, h, pl, next);
        FindSound(d, h, pl, next, seg);
      }
    }
  }

  lemma ChildStep(d: seq<Byte>, h: Heap, pl: Places, cur: nat, seg: Seg)
    requires Reads(d, h) && Wf(h, pl) && cur in pl
    ensures cur + BT_SIZE <= |d|
    ensures Child(d, cur, seg) == if h[cur].children == 0 then None else Find(d, h[cur].children, seg)
    ensures var r := Child(d, cur, seg);
            r.Some? ==> r.value in pl && pl[r.value].path == pl[cur].path + [seg]
  {
    NodeView(d, h, pl, cur);
    LinkIs(h, pl, cur, Children);
    if h[cur].children != 0 {
      FindSound(d, h, pl, h[cur].children, seg);
    }
  }

  lemma {:induction false} WalkSound(d: seq<Byte>, h: Heap, pl: Places, cur: nat, segs: seq<Seg>)
    requires Reads(d, h) && Wf(h, pl) && cur in pl
    ensures var r := Walk(d, cur, segs);
            r.Some? ==> r.value in pl && pl[r.value].path == pl[cur].path + segs
    decreases |segs|
  {
    if segs == [] {
      assert pl[cur].path + segs == pl[cur].path;
    } else {
      ChildStep(d, h, pl, cur, segs[0]);
      var c := Child(d, cur, segs[0]);
      if c.Some? {
        WalkSound(d, h, pl, c.value, segs[1..]);
        assert pl[cur].path + [segs[0]] + segs[1..] == pl[cur].path + segs;
      }
    }
  }

  lemma {:induction false} WalkAppend(d: seq<Byte>, cur: nat, a: seq<Seg>, b: seq<Seg>)
    ensures var r := Walk(d, cur, a);
            Walk(d, cur, a + b) == if r.None? then None else Walk(d, r.value, b)
    decreases |a|
  {
    if a == [] {
      assert a + b == b;
    } else {
      assert (a + b)[1..] == a[1..] + b;
      var c := Child(d, cur, a[0]);
      if c.Some? {
        WalkAppend(d, c.value, a[1..], b);
      }
    }
  }

  // ---------- every node is found by its path ----------

  // The root of the sibling tree holding m.
  function Top(h: Heap, pl: Places, m: nat): (t: nat)
    decreases m
  {
    if m in pl && pl[m].up in h && pl[m].up < m && h[pl[m].up].Bt? && h[pl[m].up].children != m
    then Top(h, pl, pl[m].up)
    else m
  }

  // A search for any name in m's interval passes through m.
  lemma {:induction false} FindThrough(d: seq<Byte>, h: Heap, pl: Places, m: nat, seg: Seg)
    requires Reads(d, h) && Wf(h, pl) && m in pl && m != 0 && Inside(pl[m], seg)
    ensures var t := Top(h, pl, m);
            && t in pl && t != 0 && pl[t].up in pl && pl[t].up in h && h[pl[t].up].Bt? && pl[t].up < m
            && h[pl[t].up].children == t
            && pl[pl[t].up].path == Init(pl[m].path)
            && Find(d, t, seg) == Find(d, m, seg)
    decreases m
  {
    assert NodeOk(h, pl, m);
    var u := pl[m].up;
    assert NodeOk(h, pl, u);
    if h[u].children != m {
      FindStep(d, h, pl, u, seg);
      LessIrreflexive(seg);
      if h[u].left == m {
        assert LinkOk(h, pl, u, Left);
        if pl[u].hi.Some? {
          LessTrans(seg, h[u].name, pl[u].hi.value);
        }
      } else {
        assert LinkOk(h, pl, u, Right);
        if pl[u].lo.Some? {
          LessTrans(pl[u].lo.value, h[u].name, seg);
        }
        if Less(seg, h[u].name) {
          LessTrans(seg, h[u].name, seg);
        }
      }
      FindThrough(d, h, pl, u, seg);
    } else {
      assert Init(pl[u].path + [h[m].name]) == pl[u].path;
    }
  }

  lemma {:induction false} WalkComplete(d: seq<Byte>, h: Heap, pl: Places, m: nat)
    requires Reads(d, h) && Wf(h, pl) && m in pl
    ensures Walk(d, 0, pl[m].path) == Some(m)
    decreases m
  {
    if m != 0 {
      assert NodeOk(h, pl, m);
      var path, name := pl[m].path, h[m].name;
      FindThrough(d, h, pl, m, name);
      FindStep(d, h, pl, m, name);
      var u := pl[Top(h, pl, m)].up;
      WalkComplete(d, h, pl, u);
      ChildStep(d, h, pl, u, name);
      assert path == Init(path) + [name];
      WalkAppend(d, 0, Init(path), [name]);
      var below: seq<Seg> := [name];
      assert below[1..] == [];
      assert Walk(d, u, [name]) == Walk(d, m, []);
    }
  }

  // Two nodes never share a path, so two links never share a node.
  lemma PathsDistinct(d: seq<Byte>, h: Heap, pl: Places, a: nat, b: nat)
    requires Reads(d, h) && Wf(h, pl) && a in pl && b in pl && pl[a].path == pl[b].path
    ensures a == b
  {
    WalkComplete(d, h, pl, a);
    WalkComplete(d, h, pl, b);
  }

  lemma NoSharing(h: Heap, pl: Places, a: nat, la: Link, b: nat, lb: Link)
    requires Wf(h, pl) && a in pl && b in pl && la != Prop && lb != Prop
    requires Follow(h[a], la) == Follow(h[b], lb) != 0
    ensures a == b && la == lb
  {
    assert NodeOk(h, pl, a) && NodeOk(h, pl, b);
    assert LinkOk(h, pl, a, la) && LinkOk(h, pl, b, lb);
    LessIrreflexive(h[a].name);
    assert NodeOk(h, pl, Follow(h[a], la));
    var c := h[Follow(h[a], la)].name;
    if Less(h[a].name, c) && Less(c, h[a].name) {
      LessTrans(h[a].name, c, h[a].name);
    }
  }

  // ---------- sibling trees are search trees ----------

  // The names of a sibling tree, left to right.
  function InOrder(d: seq<Byte>, bt: nat): (names: seq<Seg>)
    decreases |d| - bt
  {
    match NameAt(d, bt)
    case None => []
    case Some(name) =>
      var l, r := LinkAt(d, bt, Left), LinkAt(d, bt, Right);
      (if l == 0 then [] else InOrder(d, l)) + [name] + (if r == 0 then [] else InOrder(d, r))
  }

  ghost predicate Ascending(names: seq<Seg>)
  {
    forall i, j :: 0 <= i < j < |names| ==> Less(names[i], names[j])
  }

  lemma InOrderStep(d: seq<Byte>, h: Heap, pl: Places, bt: nat)
    requires Reads(d, h) && Wf(h, pl) && bt in pl
    ensures InOrder(d, bt) ==
            (if h[bt].left == 0 then [] else InOrder(d, h[bt].left))
            + [h[bt].name]
            + (if h[bt].right == 0 then [] else InOrder(d, h[bt].right))
  {
    NodeView(d, h, pl, bt);
  }

  // An in-order walk of a sibling tree stays within the interval of its place.
  lemma {:induction false} SiblingsAscend(d: seq<Byte>, h: Heap, pl: Places, bt: nat)
    requires Reads(d, h) && Wf(h, pl) && bt in pl && bt != 0
    ensures Ascending(InOrder(d, bt))
    ensures forall s :: s in InOrder(d, bt) ==> Inside(pl[bt], s)
    decreases |d| - bt
  {
    InOrderStep(d, h, pl, bt);
    FindStep(d, h, pl, bt, h[bt].name);
    assert NodeOk(h, pl, bt);
    var name := h[bt].name;
    var ls := if h[bt].left == 0 then [] else InOrder(d, h[bt].left);
    var rs := if h[bt].right == 0 then [] else InOrder(d, h[bt].right);
    if h[bt].left != 0 {
      SiblingsAscend(d, h, pl, h[bt].left);
    }
    if h[bt].right != 0 {
      SiblingsAscend(d, h, pl, h[bt].right);
    }
    forall s | s in ls
      ensures Less(s, name) && Inside(pl[bt], s)
    {
      if pl[bt].hi.Some? {
        LessTrans(s, name, pl[bt].hi.value);
      }
    }
    forall s | s in rs
      ensures Less(name, s) && Inside(pl[bt], s)
    {
      if pl[bt].lo.Some? {
        LessTrans(pl[bt].lo.value, name, s);
      }
    }
    AscendingConcat(ls, name, rs);
  }

  lemma AscendingConcat(ls: seq<Seg>, name: Seg, rs: seq<Seg>)
    requires Ascending(ls) && Ascending(rs)
    requires forall s :: s in ls ==> Less(s, name)
    requires forall s :: s in rs ==> Less(name, s)
    ensures Ascending(ls + [name] + rs)
  {
    var all := ls + [name] + rs;
    forall i, j | 0 <= i < j < |all|
      ensures Less(all[i], all[j])
    {
      if i < |ls| < j {
        assert all[i] in ls && all[j] in rs;
        LessTrans(all[i], name, all[j]);
      }
    }
  }

  // Left to right a sibling tree lists its names in strictly increasing order.
  lemma SiblingsSorted(d: seq<Byte>, h: Heap, pl: Places, bt: nat)
    requires Reads(d, h) && Wf(h, pl) && bt in pl && bt != 0
    ensures var names := InOrder(d, bt);
            forall i, j :: 0 <= i < j < |names| ==> Before(names[i], names[j])
  {
    var names := InOrder(d, bt);
    SiblingsAscend(d, h, pl, bt);
    forall i, j | 0 <= i < j < |names|
      ensures Before(names[i], names[j])
    {
      LessIff(names[i], names[j]);
    }
  }

  // The search finds exactly the names an in-order walk meets.
  lemma {:induction false} FindIffListed(d: seq<Byte>, h: Heap, pl: Places, bt: nat, s: Seg)
    requires Reads(d, h) && Wf(h, pl) && bt in pl && bt != 0
    ensures s in InOrder(d, bt) <==> Find(d, bt, s).Some?
    decreases |d| - bt
  {
    InOrderStep(d, h, pl, bt);
    FindStep(d, h, pl, bt, s);
    LessIrreflexive(s);
    LessTotal(s, h[bt].name);
    if h[bt].left != 0 {
      LinkIs(h, pl, bt, Left);
      SiblingsAscend(d, h, pl, h[bt].left);
      FindIffListed(d, h, pl, h[bt].left, s);
    }
    if h[bt].right != 0 {
      LinkIs(h, pl, bt, Right);
      SiblingsAscend(d, h, pl, h[bt].right);
      FindIffListed(d, h, pl, h[bt].right, s);
    }
    if Less(s, h[bt].name) && Less(h[bt].name, s) {
      LessTrans(s, h[bt].name, s);
    }
  }
}
