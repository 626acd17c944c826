// How the arena changes: nodes are appended and linked, properties are attached. What each change
// does to every lookup.
module Growth {
  import opened Bytes
  import opened Names
  import opened Records
  import opened Trie

  // A record is kept when its bytes stay, except that empty links of a node may be pointed at
  // records from base on.
  predicate LinkKept(n: nat, n': nat, base: nat)
  {
    n' == n || (n == 0 && n' >= base)
  }

  predicate Kept(r: Rec, r': Rec, base: nat)
  {
    r == r' || (r.Bt? && r'.Bt? && r'.name == r.name && r'.prop == r.prop
                && LinkKept(r.left, r'.left, base) && LinkKept(r.right, r'.right, base)
                && LinkKept(r.children, r'.children, base))
  }

  // h' keeps h; the new records lie from base on, and new nodes carry no property.
  ghost predicate Grows(h: Heap, h': Heap, base: nat)
  {
    && (forall o {:trigger o in h} :: o in h ==> o < base && o in h' && Kept(h[o], h'[o], base))
    && (forall o {:trigger o in h'} :: o in h' && o !in h ==> o >= base && (h'[o].Bt? ==> h'[o].prop == 0))
  }

  // An arena and its records, as one argument of the lemmas below.
  datatype Arena = Arena(d: seq<Byte>, h: Heap, pl: Places)
  {
    ghost predicate Ok()
    {
      Reads(d, h) && Wf(h, pl)
    }
  }

  // ---------- growth changes no lookup ----------

  lemma {:induction false} FindGrows(a: Arena, b: Arena, base: nat, bt: nat, seg: Seg)
    requires a.Ok() && b.Ok() && Grows(a.h, b.h, base) && bt in a.pl
    ensures var r, r' := Find(a.d, bt, seg), Find(b.d, bt, seg);
            if r.Some? then r' == r else r'.Some? ==> r'.value >= base
    decreases |a.d| - bt
  {
    assert bt in a.h && bt in b.pl;
    FindStep(a.d, a.h, a.pl, bt, seg);
    FindStep(b.d, b.h, b.pl, bt, seg);
    if seg != a.h[bt].name {
      var l := if Less(seg, a.h[bt].name) then Left else Right;
      LinkIs(a.h, a.pl, bt, l);
      if Follow(a.h[bt], l) != 0 {
        FindGrows(a, b, base, Follow(a.h[bt], l), seg);
      }
    }
  }

  lemma ChildGrows(a: Arena, b: Arena, base: nat, cur: nat, seg: Seg)
    requires a.Ok() && b.Ok() && Grows(a.h, b.h, base) && cur in a.pl
    ensures var r, r' := Child(a.d, cur, seg), Child(b.d, cur, seg);
            if r.Some? then r' == r && r.value in a.pl else r'.Some? ==> r'.value >= base
  {
    assert cur in a.h && cur in b.pl;
    ChildStep(a.d, a.h, a.pl, cur, seg);
    ChildStep(b.d, b.h, b.pl, cur, seg);
    LinkIs(a.h, a.pl, cur, Children);
    if a.h[cur].children != 0 {
      FindGrows(a, b, base, a.h[cur].children, seg);
    }
  }

  lemma {:induction false} WalkGrows(a: Arena, b: Arena, base: nat, cur: nat, segs: seq<Seg>)
    requires a.Ok() && b.Ok() && Grows(a.h, b.h, base) && cur in a.pl
    ensures var r, r' := Walk(a.d, cur, segs), Walk(b.d, cur, segs);
            if r.Some? then r' == r && r.value in a.pl else r'.Some? ==> r'.value >= base
    decreases |segs|
  {
    if segs != [] {
      ChildGrows(a, b, base, cur, segs[0]);
      var c := Child(a.d, cur, segs[0]);
      if c.Some? {
        WalkGrows(a, b, base, c.value, segs[1..]);
      }
    }
  }

  // What a reader that walked to w sees there.
  function Seen(h: Heap, w: Option<nat>): (r: Option<Found>)
  {
    if w.None? || w.value !in h || !h[w.value].Bt? || !InfoOk(h, h[w.value].prop) then None
    else Some(Reading(h[h[w.value].prop].name, ValueOf(h, h[w.value].prop)))
  }

  lemma GetIs(a: Arena, name: seq<Byte>)
    requires Holds(a.d, a.h) && a.Ok()
    ensures 0 in a.pl
    ensures Get(a.d, name) == Seen(a.h, Walk(a.d, 0, Split(name)))
  {
    assert NodeOk(a.h, a.pl, 0);
    WalkSound(a.d, a.h, a.pl, 0, Split(name));
    var w := Walk(a.d, 0, Split(name));
    if w.Some? {
      assert NodeOk(a.h, a.pl, w.value);
      NodeView(a.d, a.h, a.pl, w.value);
      if a.h[w.value].prop != 0 {
        ReadProp(a.d, a.h, a.h[w.value].prop);
      }
    }
  }

  lemma SeenGrows(h: Heap, h': Heap, base: nat, w: nat)
    requires Grows(h, h', base) && w in h && h[w].Bt?
    requires h[w].prop == 0 || InfoOk(h, h[w].prop)
    requires 0 in h && !IsInfo(h[0])
    ensures Seen(h', Some(w)) == Seen(h, Some(w))
  {
    assert w in h' && Kept(h[w], h'[w], base);
    assert 0 in h' && Kept(h[0], h'[0], base);
    if h[w].prop != 0 {
      var i := h[w].prop;
      assert i in h' && Kept(h[i], h'[i], base);
      if h[i].Long? {
        var t := i + h[i].rel;
        assert t in h' && Kept(h[t], h'[t], base);
      }
    }
  }

  lemma GetGrows(a: Arena, b: Arena, base: nat, name: seq<Byte>)
    requires Holds(a.d, a.h) && a.Ok() && Holds(b.d, b.h) && b.Ok() && Grows(a.h, b.h, base)
    ensures Get(b.d, name) == Get(a.d, name)
  {
    hide Holds, Get, Walk, Split, LinkOk, UpOk, Inside;
    GetIs(a, name);
    GetIs(b, name);
    assert NodeOk(a.h, a.pl, 0) && NodeOk(b.h, b.pl, 0);
    WalkGrows(a, b, base, 0, Split(name));
    var w, w' := Walk(a.d, 0, Split(name)), Walk(b.d, 0, Split(name));
    if w.Some? {
      assert NodeOk(a.h, a.pl, w.value);
      SeenGrows(a.h, b.h, base, w.value);
    } else if w'.Some? {
      WalkSound(b.d, b.h, b.pl, 0, Split(name));
      assert w'.value in b.h && w'.value !in a.h;
      assert !InfoOk(b.h, 0);
    }
  }

  // ---------- invariants under extension ----------

  predicate Stays(r: Rec, r': Rec)
  {
    r == r' || (r.Bt? && r'.Bt? && r'.name == r.name
                && (r.prop == 0 || r'.prop == r.prop) && (r.left == 0 || r'.left == r.left)
                && (r.right == 0 || r'.right == r.right) && (r.children == 0 || r'.children == r.children))
  }

  // Every node keeps its place and every record its contents; empty links may be filled.
  ghost predicate Extends(h: Heap, pl: Places, h': Heap, pl': Places)
  {
    && (forall o {:trigger o in pl} :: o in pl ==> o in pl' && pl'[o] == pl[o])
    && (forall o {:trigger o in h} :: o in h ==> o in h' && Stays(h[o], h'[o]))
  }

  lemma LinkStays(h: Heap, pl: Places, h': Heap, pl': Places, o: nat, l: Link)
    requires Extends(h, pl, h', pl') && o in pl && o in h && h[o].Bt? && LinkOk(h, pl, o, l)
    requires Follow(h'[o], l) == Follow(h[o], l)
    ensures LinkOk(h', pl', o, l)
  {
  }

  lemma PropStays(h: Heap, pl: Places, h': Heap, pl': Places, o: nat)
    requires Extends(h, pl, h', pl') && o in pl && o in h && h[o].Bt? && PropOk(h, pl, o)
    requires h'[o].prop == h[o].prop
    ensures PropOk(h', pl', o)
  {
  }

  lemma UpStays(h: Heap, pl: Places, h': Heap, pl': Places, o: nat)
    requires Extends(h, pl, h', pl') && o in pl && o in h && h[o].Bt? && UpOk(h, pl, o) && o != 0
    ensures UpOk(h', pl', o)
  {
    assert pl[o].up in h && pl[o].up in pl;
  }

  // A node stays well-formed when its changed links are.
  lemma NodeStays(h: Heap, pl: Places, h': Heap, pl': Places, o: nat)
    requires Extends(h, pl, h', pl') && NodeOk(h, pl, o)
    requires Follow(h'[o], Left) == Follow(h[o], Left) || LinkOk(h', pl', o, Left)
    requires Follow(h'[o], Right) == Follow(h[o], Right) || LinkOk(h', pl', o, Right)
    requires Follow(h'[o], Children) == Follow(h[o], Children) || LinkOk(h', pl', o, Children)
    requires Follow(h'[o], Prop) == Follow(h[o], Prop) || PropOk(h', pl', o)
    requires o == 0 ==> h'[0] == Bt([], 0, 0, 0, h'[0].children)
    ensures NodeOk(h', pl', o)
  {
    if Follow(h'[o], Left) == Follow(h[o], Left) {
      LinkStays(h, pl, h', pl', o, Left);
    }
    if Follow(h'[o], Right) == Follow(h[o], Right) {
      LinkStays(h, pl, h', pl', o, Right);
    }
    if Follow(h'[o], Children) == Follow(h[o], Children) {
      LinkStays(h, pl, h', pl', o, Children);
    }
    if Follow(h'[o], Prop) == Follow(h[o], Prop) {
      PropStays(h, pl, h', pl', o);
    }
    if o != 0 {
      UpStays(h, pl, h', pl', o);
    }
  }

  // ---------- appending a node ----------

  function NewNode(seg: Seg): Rec
  {
    Bt(seg, 0, 0, 0, 0)
  }

  // The arena with a node for seg appended and hung behind the empty link l of o.
  function Hang(a: Arena, o: nat, l: Link, seg: Seg): Arena
    requires |seg| < U32_LIMIT && o in a.h && a.h[o].Bt? && o in a.pl && o + Offset(l) + 4 <= |a.d|
  {
    var h1 := a.h[|a.d| := NewNode(seg)];
    Arena(Put32(a.d + Enc(NewNode(seg)), o + Offset(l), |a.d|),
          h1[o := Relink(a.h[o], l, |a.d|)],
          a.pl[|a.d| := Down(a.pl[o], a.h[o].name, o, l, seg)])
  }

  predicate CanHang(a: Arena, o: nat, l: Link, seg: Seg)
  {
    && |a.d| % 4 == 0 && 0 < |a.d| < U32_LIMIT && seg != [] && |seg| < U32_LIMIT
    && o in a.pl && o in a.h && a.h[o].Bt? && l != Prop && Follow(a.h[o], l) == 0
    && (o == 0 ==> l == Children)
    && Inside(Down(a.pl[o], a.h[o].name, o, l, seg), seg)
  }

  lemma HangHolds(a: Arena, o: nat, l: Link, seg: Seg)
    requires Holds(a.d, a.h) && CanHang(a, o, l, seg)
    ensures o + Offset(l) + 4 <= |a.d|
    ensures |a.d| !in a.h && o < |a.d|
    ensures Holds(Hang(a, o, l, seg).d, Hang(a, o, l, seg).h)
  {
    hide Holds, At, Enc, Put32, Relink, Inside;
    InRange(a.d, a.h, o);
    var r := NewNode(seg);
    HoldsAppend(a.d, a.h, r);
    HoldsPut(a.d + Enc(r), a.h[|a.d| := r], o, l, |a.d|);
  }

  lemma InRange(d: seq<Byte>, h: Heap, o: nat)
    requires Holds(d, h) && o in h && h[o].Bt?
    ensures o + BT_SIZE <= |d|
  {
    assert At(d, o, h[o]);
  }

  lemma HangGrows(a: Arena, o: nat, l: Link, seg: Seg)
    requires Holds(a.d, a.h) && CanHang(a, o, l, seg) && o + Offset(l) + 4 <= |a.d|
    ensures Grows(a.h, Hang(a, o, l, seg).h, |a.d|)
  {
    var h' := Hang(a, o, l, seg).h;
    forall p | p in a.h
      ensures p < |a.d| && p in h' && Kept(a.h[p], h'[p], |a.d|)
    {
      assert At(a.d, p, a.h[p]);
    }
  }

  lemma HangExtends(a: Arena, o: nat, l: Link, seg: Seg)
    requires Wf(a.h, a.pl) && CanHang(a, o, l, seg) && o + Offset(l) + 4 <= |a.d| && |a.d| !in a.h
    ensures Extends(a.h, a.pl, Hang(a, o, l, seg).h, Hang(a, o, l, seg).pl)
  {
  }

  lemma HangWf(a: Arena, o: nat, l: Link, seg: Seg)
    requires Wf(a.h, a.pl) && CanHang(a, o, l, seg) && o + Offset(l) + 4 <= |a.d|
    requires |a.d| !in a.h && o < |a.d|
    ensures Wf(Hang(a, o, l, seg).h, Hang(a, o, l, seg).pl)
  {
    hide LinkOk, PropOk, UpOk, NodeOk, Down;
    var b := Hang(a, o, l, seg);
    HangExtends(a, o, l, seg);
    assert NodeOk(a.h, a.pl, o) && NodeOk(a.h, a.pl, 0);
    HangNewOk(a, o, l, seg);
    forall p | p in a.pl
      ensures NodeOk(b.h, b.pl, p)
    {
      assert NodeOk(a.h, a.pl, p);
      HangOldOk(a, b, o, l, seg, p);
    }
    forall p | p in b.h && b.h[p].Bt?
      ensures p in b.pl
    {
      assert p == |a.d| || p in a.pl;
    }
    assert NodeOk(b.h, b.pl, 0);
  }

  lemma HangOldOk(a: Arena, b: Arena, o: nat, l: Link, seg: Seg, p: nat)
    requires CanHang(a, o, l, seg) && o + Offset(l) + 4 <= |a.d| && |a.d| !in a.h && o < |a.d|
    requires b == Hang(a, o, l, seg) && Extends(a.h, a.pl, b.h, b.pl)
    requires o in b.h && b.h[o].Bt? && o in b.pl && LinkOk(b.h, b.pl, o, l)
    requires NodeOk(a.h, a.pl, p)
    ensures NodeOk(b.h, b.pl, p)
  {
    NodeStays(a.h, a.pl, b.h, b.pl, p);
  }

  lemma HangNewOk(a: Arena, o: nat, l: Link, seg: Seg)
    requires CanHang(a, o, l, seg) && o + Offset(l) + 4 <= |a.d| && |a.d| !in a.h && o < |a.d|
    requires NodeOk(a.h, a.pl, o)
    ensures var b := Hang(a, o, l, seg);
            NodeOk(b.h, b.pl, |a.d|) && o in b.h && b.h[o].Bt? && o in b.pl && LinkOk(b.h, b.pl, o, l)
  {
  }

  // ---------- appending records no node refers to yet ----------

  lemma WfAppend(h: Heap, pl: Places, o: nat, r: Rec)
    requires Wf(h, pl) && o !in h && !r.Bt?
    ensures Wf(h[o := r], pl)
  {
    hide PropOk, UpOk, LinkOk, Inside;
    var h' := h[o := r];
    assert Extends(h, pl, h', pl);
    assert NodeOk(h, pl, 0);
    forall p | p in pl
      ensures NodeOk(h', pl, p)
    {
      assert NodeOk(h, pl, p);
      NodeStays(h, pl, h', pl, p);
    }
    assert NodeOk(h', pl, 0);
  }

  // ---------- attaching a property ----------

  function Attach(h: Heap, cur: nat, i: nat): Heap
    requires cur in h && h[cur].Bt?
  {
    h[cur := Relink(h[cur], Prop, i)]
  }

  lemma AttachWf(h: Heap, pl: Places, cur: nat, i: nat)
    requires Wf(h, pl) && cur in pl && cur != 0 && h[cur].prop == 0
    requires cur < i && InfoOk(h, i) && h[i].name == Join(pl[cur].path)
    ensures Wf(Attach(h, cur, i), pl)
  {
    var h' := Attach(h, cur, i);
    assert Extends(h, pl, h', pl);
    assert NodeOk(h, pl, 0);
    assert InfoOk(h', i) && PropOk(h', pl, cur);
    forall p | p in pl
      ensures NodeOk(h', pl, p)
    {
      assert NodeOk(h, pl, p);
      NodeStays(h, pl, h', pl, p);
    }
    assert NodeOk(h', pl, 0);
  }

  // b is a with property i attached to node cur.
  ghost predicate Attached(a: Arena, b: Arena, cur: nat, i: nat)
  {
    a.Ok() && b.Ok() && cur in a.pl && b.pl == a.pl && b.h == Attach(a.h, cur, i)
  }

  // The walk does not look at properties.
  lemma {:induction false} FindAttach(a: Arena, b: Arena, cur: nat, i: nat, bt: nat, seg: Seg)
    requires Attached(a, b, cur, i) && bt in a.pl
    ensures Find(b.d, bt, seg) == Find(a.d, bt, seg)
    decreases |a.d| - bt
  {
    FindStep(a.d, a.h, a.pl, bt, seg);
    FindStep(b.d, b.h, b.pl, bt, seg);
    if seg != a.h[bt].name {
      var l := if Less(seg, a.h[bt].name) then Left else Right;
      LinkIs(a.h, a.pl, bt, l);
      if Follow(a.h[bt], l) != 0 {
        FindAttach(a, b, cur, i, Follow(a.h[bt], l), seg);
      }
    }
  }

  lemma {:induction false} WalkAttach(a: Arena, b: Arena, cur: nat, i: nat, from: nat, segs: seq<Seg>)
    requires Attached(a, b, cur, i) && from in a.pl
    ensures Walk(b.d, from, segs) == Walk(a.d, from, segs)
    decreases |segs|
  {
    if segs != [] {
      ChildStep(a.d, a.h, a.pl, from, segs[0]);
      ChildStep(b.d, b.h, b.pl, from, segs[0]);
      LinkIs(a.h, a.pl, from, Children);
      if a.h[from].children != 0 {
        FindAttach(a, b, cur, i, a.h[from].children, segs[0]);
      }
      var c := Child(a.d, from, segs[0]);
      if c.Some? {
        WalkAttach(a, b, cur, i, c.value, segs[1..]);
      }
    }
  }

  lemma SeenAttach(h: Heap, cur: nat, i: nat, w: Option<nat>)
    requires cur in h && h[cur].Bt? && InfoOk(h, i)
    ensures Seen(Attach(h, cur, i), w) == if w == Some(cur) then Some(Reading(h[i].name, ValueOf(h, i))) else Seen(h, w)
  {
  }

  // Attaching a property to the node of `name` changes the lookup of that name only.
  lemma GetAttach(a: Arena, b: Arena, cur: nat, i: nat, name: seq<Byte>, other: seq<Byte>)
    requires Holds(a.d, a.h) && Holds(b.d, b.h) && Attached(a, b, cur, i)
    requires a.pl[cur].path == Split(name) && InfoOk(a.h, i) && a.h[i].name == name
    ensures Get(b.d, other) ==
            if other == name then Some(Reading(name, ValueOf(a.h, i))) else Get(a.d, other)
  {
    GetIs(a, other);
    GetIs(b, other);
    WalkAttach(a, b, cur, i, 0, Split(other));
    SeenAttach(a.h, cur, i, Walk(a.d, 0, Split(other)));
    WalkComplete(a.d, a.h, a.pl, cur);
    if Walk(a.d, 0, Split(other)) == Some(cur) {
      WalkSound(a.d, a.h, a.pl, 0, Split(other));
      assert NodeOk(a.h, a.pl, 0);
      assert [] + Split(other) == Split(other);
      SplitInjective(other, name);
    }
  }
}
