// The builder of one Android property area (crates/aro-props/src/lib.rs).
module PropertyArea {
  import opened Bytes
  import opened Names
  import opened Records
  import opened Trie
  import opened Growth

  const PA_SIZE: nat := 131072
  const HEADER_SIZE: nat := 128
  const CAPACITY: nat := PA_SIZE - HEADER_SIZE
  const MAGIC: nat := 0x504f_5250
  const VERSION: nat := 0xfc6e_d0ab

  datatype Failure = AreaFull | InvalidName | Duplicate

  // ---------- what an add costs ----------

  function NodeCosts(segs: seq<Seg>): (n: nat)
  {
    if segs == [] then 0 else Size(NewNode(segs[0])) + NodeCosts(segs[1..])
  }

  // Bytes of the nodes missing on the way from cur down segs.
  function PathCost(d: seq<Byte>, cur: nat, segs: seq<Seg>): (n: nat)
    decreases |segs|
  {
    if segs == [] then 0
    else
      match Child(d, cur, segs[0])
      case None => NodeCosts(segs)
      case Some(c) => PathCost(d, c, segs[1..])
  }

  function InfoCost(name: seq<Byte>, value: seq<Byte>): (n: nat)
  {
    INFO_SIZE + Align4(|name| + 1) + if |value| >= VALUE_MAX then Align4(|value| + 1) else 0
  }

  // Bytes `add(name, value)` needs in the arena d.
  function AddCost(d: seq<Byte>, name: seq<Byte>, value: seq<Byte>): (n: nat)
  {
    PathCost(d, 0, Split(name)) + InfoCost(name, value)
  }

  lemma {:induction false} NoPathCost(d: seq<Byte>, cur: nat, segs: seq<Seg>)
    requires Walk(d, cur, segs).Some?
    ensures PathCost(d, cur, segs) == 0
    decreases |segs|
  {
    if segs != [] {
      NoPathCost(d, Child(d, cur, segs[0]).value, segs[1..]);
    }
  }

  // ---------- what an add costs, by the paths already there ----------

  function Paths(pl: Places): (p: set<seq<Seg>>)
  {
    set o | o in pl :: pl[o].path
  }

  // Proper beginnings of segs of more than a and at most b segments.
  function Prefixes(segs: seq<Seg>, a: nat, b: nat): (p: set<seq<Seg>>)
    requires b <= |segs|
  {
    set i | a < i <= b :: segs[..i]
  }

  // Bytes of the nodes of segs, from the k-th on, whose paths are not among p.
  function Missing(p: set<seq<Seg>>, segs: seq<Seg>, k: nat): (n: nat)
    requires k <= |segs|
    decreases |segs| - k
  {
    if k == |segs| then 0
    else (if segs[..k + 1] in p then 0 else Size(NewNode(segs[k]))) + Missing(p, segs, k + 1)
  }

  lemma {:induction false} AllMissing(p: set<seq<Seg>>, segs: seq<Seg>, k: nat)
    requires k <= |segs| && forall i :: k < i <= |segs| ==> segs[..i] !in p
    ensures Missing(p, segs, k) == NodeCosts(segs[k..])
    decreases |segs| - k
  {
    if k < |segs| {
      AllMissing(p, segs, k + 1);
      assert segs[k..][1..] == segs[k + 1..];
    }
  }

  // Without a child for the next segment no longer path is there either.
  lemma NothingBelow(a: Arena, cur: nat, segs: seq<Seg>, k: nat, i: nat)
    requires a.Ok() && cur in a.pl && k < i <= |segs| && a.pl[cur].path == segs[..k]
    requires Child(a.d, cur, segs[k]).None?
    ensures segs[..i] !in Paths(a.pl)
  {
    if segs[..i] in Paths(a.pl) {
      var m :| m in a.pl && a.pl[m].path == segs[..i];
      WalkComplete(a.d, a.h, a.pl, m);
      WalkComplete(a.d, a.h, a.pl, cur);
      var below := segs[k..i];
      assert segs[..i] == segs[..k] + below && below[0] == segs[k];
      WalkAppend(a.d, 0, segs[..k], below);
    }
  }

  // The cost of a path is that of its missing nodes.
  lemma {:induction false} PathCostIs(a: Arena, cur: nat, segs: seq<Seg>, k: nat)
    requires a.Ok() && cur in a.pl && k <= |segs| && a.pl[cur].path == segs[..k]
    ensures PathCost(a.d, cur, segs[k..]) == Missing(Paths(a.pl), segs, k)
    decreases |segs| - k
  {
    if k < |segs| {
      hide Child, NodeCosts, Paths, Size;
      StepCost(a, cur, segs, k);
      NodesAhead(segs, k);
      match Child(a.d, cur, segs[k])
      case None =>
        forall i | k < i <= |segs|
          ensures segs[..i] !in Paths(a.pl)
        {
          NothingBelow(a, cur, segs, k, i);
        }
        AllMissing(Paths(a.pl), segs, k);
      case Some(c) =>
        assert segs[..k + 1] == segs[..k] + [segs[k]];
        HasPath(a.pl, c);
        PathCostIs(a, c, segs, k + 1);
    }
  }

  lemma NodesAhead(segs: seq<Seg>, k: nat)
    requires k < |segs|
    ensures NodeCosts(segs[k..]) == Size(NewNode(segs[k])) + NodeCosts(segs[k + 1..])
  {
    assert segs[k..][1..] == segs[k + 1..];
  }

  lemma HasPath(pl: Places, o: nat)
    requires o in pl
    ensures pl[o].path in Paths(pl)
  {
  }

  lemma PathsUpdate(pl: Places, o: nat, pos: Place)
    requires o !in pl
    ensures Paths(pl[o := pos]) == Paths(pl) + {pos.path}
  {
    var pl' := pl[o := pos];
    forall p | p in Paths(pl) + {pos.path}
      ensures p in Paths(pl')
    {
      if p == pos.path {
        assert pl'[o].path == p;
      } else {
        var m :| m in pl && pl[m].path == p;
        assert pl'[m].path == p;
      }
    }
  }

  lemma NoPrefix(segs: seq<Seg>)
    ensures Prefixes(segs, 0, 0) == {}
  {
  }

  // The paths after one round of the loop over segments.
  lemma NewPath(a: Arena, b: Arena, n: nat, segment: Seg, path: seq<Seg>)
    requires (a == b && n in a.pl && a.pl[n].path == path)
             || exists pos :: Created(a, b, n, segment, pos) && pos.path == path
    ensures Paths(b.pl) == Paths(a.pl) + {path}
  {
    hide Paths, Grows;
    if a == b && n in a.pl && a.pl[n].path == path {
      HasPath(a.pl, n);
    } else {
      var pos :| Created(a, b, n, segment, pos) && pos.path == path;
      PathsUpdate(a.pl, n, pos);
    }
  }

  lemma NextPrefix(segs: seq<Seg>, k: nat)
    requires k < |segs|
    ensures Prefixes(segs, 0, k + 1) == Prefixes(segs, 0, k) + {segs[..k + 1]}
  {
  }

  // What an add needs, by the paths already there.
  lemma AddCostIs(a: Arena, name: seq<Byte>, value: seq<Byte>)
    requires a.Ok()
    ensures AddCost(a.d, name, value) == Missing(Paths(a.pl), Split(name), 0) + InfoCost(name, value)
  {
    RootPlace(a);
    PathCostIs(a, 0, Split(name), 0);
    assert Split(name)[0..] == Split(name);
  }

  // ---------- what new_info appends ----------

  function InfoHeap(h: Heap, o: nat, name: seq<Byte>, value: seq<Byte>): Heap
  {
    if |value| >= VALUE_MAX then
      var r := Long(name, INFO_SIZE + Align4(|name| + 1));
      h[o := r][o + Size(r) := Text(value)]
    else h[o := Short(name, value)]
  }

  function InfoBytes(name: seq<Byte>, value: seq<Byte>): seq<Byte>
    requires |name| < CAPACITY
  {
    if |value| >= VALUE_MAX then
      Enc(Long(name, INFO_SIZE + Align4(|name| + 1))) + Enc(Text(value))
    else Enc(Short(name, value))
  }

  lemma LooseHolds(d: seq<Byte>, h: Heap, pl: Places, r: Rec)
    requires Holds(d, h) && Wf(h, pl) && |d| % 4 == 0 && Fits(r) && !r.Bt?
    ensures Holds(d + Enc(r), h[|d| := r]) && Wf(h[|d| := r], pl)
    ensures forall p :: p in h ==> p < |d|
  {
    HoldsAppend(d, h, r);
    WfAppend(h, pl, |d|, r);
    forall p | p in h
      ensures p < |d|
    {
      assert At(d, p, h[p]);
    }
  }

  lemma LongHolds(d: seq<Byte>, h: Heap, pl: Places, r: Rec, value: seq<Byte>)
    requires Holds(d, h) && Wf(h, pl) && |d| % 4 == 0 && Fits(r) && r.Long?
    ensures var h' := h[|d| := r][|d| + Size(r) := Text(value)];
            && Holds(d + (Enc(r) + Enc(Text(value))), h') && Wf(h', pl)
            && Grows(h, h', |d|)
  {
    hide Enc, Holds, Wf, At;
    LooseHolds(d, h, pl, r);
    LooseHolds(d + Enc(r), h[|d| := r], pl, Text(value));
    assert d + Enc(r) + Enc(Text(value)) == d + (Enc(r) + Enc(Text(value)));
  }

  lemma InfoHolds(d: seq<Byte>, h: Heap, pl: Places, name: seq<Byte>, value: seq<Byte>)
    requires Holds(d, h) && Wf(h, pl) && |d| % 4 == 0 && |name| < CAPACITY
    ensures var h', i := InfoHeap(h, |d|, name, value), |d|;
            && Holds(d + InfoBytes(name, value), h') && Wf(h', pl)
            && Grows(h, h', |d|)
            && InfoOk(h', i) && h'[i].name == name && ValueOf(h', i) == value
  {
    hide Enc, Holds, Wf;
    if |value| >= VALUE_MAX {
      var r := Long(name, INFO_SIZE + Align4(|name| + 1));
      LongHolds(d, h, pl, r, value);
    } else {
      LooseHolds(d, h, pl, Short(name, value));
    }
  }

  function Known(props: map<seq<Byte>, seq<Byte>>, name: seq<Byte>): (r: Option<Found>)
  {
    if name in props then Some(Reading(name, props[name])) else None
  }

  lemma SameHeapGrows(d: seq<Byte>, h: Heap)
    requires Holds(d, h)
    ensures Grows(h, h, |d|)
  {
    forall o | o in h
      ensures o < |d|
    {
      assert At(d, o, h[o]);
    }
  }

  lemma LookupsKept(a: Arena, b: Arena)
    requires Holds(a.d, a.h) && a.Ok() && Holds(b.d, b.h) && b.Ok() && Grows(a.h, b.h, |a.d|)
    ensures forall name {:trigger Get(b.d, name)} :: Get(b.d, name) == Get(a.d, name)
  {
    forall name {:trigger Get(b.d, name)}
      ensures Get(b.d, name) == Get(a.d, name)
    {
      GetGrows(a, b, |a.d|, name);
    }
  }

  // b is a with node n for seg appended at place pos.
  ghost predicate Created(a: Arena, b: Arena, n: nat, seg: Seg, pos: Place)
  {
    && Grows(a.h, b.h, |a.d|)
    && n !in a.pl && b.pl == a.pl[n := pos]
    && n != 0 && n in b.h && b.h[n] == NewNode(seg)
    && |b.d| == |a.d| + Size(NewNode(seg))
  }

  lemma HangCreates(a: Arena, o: nat, l: Link, seg: Seg)
    requires Holds(a.d, a.h) && a.Ok() && CanHang(a, o, l, seg)
    ensures o + Offset(l) + 4 <= |a.d|
    ensures var b := Hang(a, o, l, seg);
            && Holds(b.d, b.h) && b.Ok()
            && Created(a, b, |a.d|, seg, Down(a.pl[o], a.h[o].name, o, l, seg))
            && forall name {:trigger Get(b.d, name)} :: Get(b.d, name) == Get(a.d, name)
  {
    hide Enc, NodeOk, Down, Inside, Put32, Get, Holds, Reads;
    HangHolds(a, o, l, seg);
    HangGrows(a, o, l, seg);
    HangWf(a, o, l, seg);
    var b := Hang(a, o, l, seg);
    HoldsReads(b.d, b.h);
    LookupsKept(a, b);
  }

  // One round of find_bt at bt: the words it reads, and where it goes from there.
  lemma NodeBytes(d: seq<Byte>, h: Heap, pl: Places, bt: nat, seg: Seg)
    requires Reads(d, h) && Wf(h, pl) && bt in pl && bt != 0 && Inside(pl[bt], seg)
    requires |d| % 4 == 0 && |d| <= CAPACITY && seg != []
    ensures bt + BT_SIZE <= |d|
    ensures bt + BT_SIZE + U32At(d, bt) <= |d|
    ensures d[bt + BT_SIZE..bt + BT_SIZE + U32At(d, bt)] == h[bt].name
    ensures seg == h[bt].name ==> Find(d, bt, seg) == Some(bt)
    ensures seg != h[bt].name ==>
              var l := if Less(seg, h[bt].name) then Left else Right;
              RoundOk(d, h, pl, bt, seg, l, U32At(d, bt + Offset(l)))
  {
    NodeView(d, h, pl, bt);
    FindStep(d, h, pl, bt, seg);
    assert NodeAt(d, bt, h[bt]);
    if seg != h[bt].name {
      var l := if Less(seg, h[bt].name) then Left else Right;
      LessTotal(seg, h[bt].name);
      NodeRound(d, h, pl, bt, seg, l);
    }
  }

  // c is what link l of bt holds, and the search for seg goes on there, or a node may be hung.
  ghost predicate RoundOk(d: seq<Byte>, h: Heap, pl: Places, bt: nat, seg: Seg, l: Link, c: nat)
    requires bt in pl && bt in h && h[bt].Bt?
  {
    if c == 0 then
      && Find(d, bt, seg).None?
      && (|seg| < U32_LIMIT ==> CanHang(Arena(d, h, pl), bt, l, seg))
      && Down(pl[bt], h[bt].name, bt, l, seg).path == Init(pl[bt].path) + [seg]
    else
      && bt < c < |d| && c in pl && Inside(pl[c], seg)
      && Init(pl[c].path) == Init(pl[bt].path) && Find(d, c, seg) == Find(d, bt, seg)
  }

  lemma NodeRound(d: seq<Byte>, h: Heap, pl: Places, bt: nat, seg: Seg, l: Link)
    requires Reads(d, h) && Wf(h, pl) && bt in pl && bt != 0 && Inside(pl[bt], seg)
    requires |d| % 4 == 0 && |d| <= CAPACITY && seg != [] && seg != h[bt].name
    requires l == (if Less(seg, h[bt].name) then Left else Right)
    requires l == Right ==> Less(h[bt].name, seg)
    requires Find(d, bt, seg) == if Follow(h[bt], l) == 0 then None else Find(d, Follow(h[bt], l), seg)
    ensures RoundOk(d, h, pl, bt, seg, l, Follow(h[bt], l))
  {
    LinkIs(h, pl, bt, l);
    NodeView(d, h, pl, bt);
    var c := Follow(h[bt], l);
    if c != 0 {
      NodeView(d, h, pl, c);
    }
  }

  lemma InsideFree(p: Place, seg: Seg)
    requires p.lo == None && p.hi == None
    ensures Inside(p, seg)
  {
  }

  lemma HangLength(a: Arena, o: nat, l: Link, seg: Seg)
    requires CanHang(a, o, l, seg) && o + Offset(l) + 4 <= |a.d|
    ensures Hang(a, o, l, seg).d == Put32(a.d + Enc(NewNode(seg)), o + Offset(l), |a.d|)
    ensures |Hang(a, o, l, seg).d| == |a.d| + Size(NewNode(seg)) && Size(NewNode(seg)) % 4 == 0
  {
    hide Put32, Enc, Down, Relink;
  }

  // ---------- the steps of add ----------

  lemma RootPlace(a: Arena)
    requires a.Ok()
    ensures 0 in a.pl && a.pl[0].path == []
  {
    assert NodeOk(a.h, a.pl, 0);
  }

  lemma KnownPath(a: Arena, name: seq<Byte>)
    requires Holds(a.d, a.h) && a.Ok()
    ensures Get(a.d, name).Some? ==> PathCost(a.d, 0, Split(name)) == 0 && [] !in Split(name)
  {
    if Get(a.d, name).Some? {
      RootPlace(a);
      NoPathCost(a.d, 0, Split(name));
      WalkSound(a.d, a.h, a.pl, 0, Split(name));
      var n := Walk(a.d, 0, Split(name)).value;
      assert NodeOk(a.h, a.pl, n);
      assert [] + Split(name) == Split(name);
    }
  }

  lemma ChildBytes(a: Arena, current: nat, segment: Seg)
    requires Holds(a.d, a.h) && a.Ok() && current in a.pl && segment != []
    requires |a.d| % 4 == 0 && 0 < |a.d| <= CAPACITY
    ensures current + BT_SIZE <= |a.d|
    ensures var c := U32At(a.d, current + Offset(Children));
            && c == a.h[current].children
            && (if c == 0 then
                  && Child(a.d, current, segment).None?
                  && (|segment| < U32_LIMIT ==> CanHang(a, current, Children, segment))
                else
                  && Child(a.d, current, segment) == Find(a.d, c, segment)
                  && c in a.pl && a.pl[c].lo == None && a.pl[c].hi == None
                  && Init(a.pl[c].path) == a.pl[current].path)
  {
    hide Holds, Find, U32At, PropOk, UpOk;
    NodeView(a.d, a.h, a.pl, current);
    assert NodeAt(a.d, current, a.h[current]);
    ChildStep(a.d, a.h, a.pl, current, segment);
    LinkIs(a.h, a.pl, current, Children);
  }

  // A node just hung is found at once.
  lemma CreatedFound(a: Arena, n: nat, segment: Seg)
    requires a.Ok() && n in a.pl && n in a.h && a.h[n] == NewNode(segment)
    ensures Find(a.d, n, segment) == Some(n)
  {
    FindStep(a.d, a.h, a.pl, n, segment);
  }

  // Cost of the path below, when the first segment exists or must be created.
  lemma StepCost(a: Arena, current: nat, segs: seq<Seg>, k: nat)
    requires a.Ok() && current in a.pl && k < |segs|
    ensures PathCost(a.d, current, segs[k..]) ==
            match Child(a.d, current, segs[k])
            case None => Size(NewNode(segs[k])) + NodeCosts(segs[k + 1..])
            case Some(c) => PathCost(a.d, c, segs[k + 1..])
    ensures var c := Child(a.d, current, segs[k]);
            c.Some? ==> c.value in a.pl && a.pl[c.value].path == a.pl[current].path + [segs[k]]
  {
    assert segs[k..][1..] == segs[k + 1..];
    ChildStep(a.d, a.h, a.pl, current, segs[k]);
  }

  lemma CreatedCost(a: Arena, b: Arena, n: nat, segment: Seg, rest: seq<Seg>)
    requires b.Ok() && n in b.pl && n in b.h && b.h[n] == NewNode(segment)
    ensures PathCost(b.d, n, rest) == NodeCosts(rest)
  {
    if rest != [] {
      ChildStep(b.d, b.h, b.pl, n, rest[0]);
    }
  }

  lemma PropWord(a: Arena, current: nat, name: seq<Byte>)
    requires Holds(a.d, a.h) && a.Ok() && current in a.pl && a.pl[current].path == Split(name)
    ensures current + BT_SIZE <= |a.d| && current != 0
    ensures U32At(a.d, current + Offset(Prop)) == a.h[current].prop
    ensures a.h[current].prop != 0 <==> Get(a.d, name).Some?
  {
    RootPlace(a);
    NodeView(a.d, a.h, a.pl, current);
    assert NodeAt(a.d, current, a.h[current]);
    WalkComplete(a.d, a.h, a.pl, current);
  }

  lemma OrphanInfo(a: Arena, name: seq<Byte>)
    requires Holds(a.d, a.h) && a.Ok() && |a.d| % 4 == 0 && |name| < CAPACITY
    ensures var b := Arena(a.d + Enc(Short(name, [])), a.h[|a.d| := Short(name, [])], a.pl);
            && Holds(b.d, b.h) && b.Ok()
            && forall n {:trigger Get(b.d, n)} :: Get(b.d, n) == Get(a.d, n)
  {
    hide Enc, NodeOk, Get, Grows;
    var b := Arena(a.d + Enc(Short(name, [])), a.h[|a.d| := Short(name, [])], a.pl);
    InfoHolds(a.d, a.h, a.pl, name, []);
    HoldsReads(b.d, b.h);
    LookupsKept(a, b);
  }

  lemma PropertyAdded(a: Arena, current: nat, name: seq<Byte>, value: seq<Byte>)
    requires Holds(a.d, a.h) && a.Ok() && |a.d| % 4 == 0 && |name| < CAPACITY && |a.d| < CAPACITY
    requires current in a.pl && current != 0 && current + BT_SIZE <= |a.d| && a.h[current].prop == 0
    requires a.pl[current].path == Split(name)
    ensures var h1 := InfoHeap(a.h, |a.d|, name, value);
            && current in h1 && h1[current].Bt?
            && var b := Arena(Put32(a.d + InfoBytes(name, value), current + Offset(Prop), |a.d|),
                              Attach(h1, current, |a.d|), a.pl);
            && Holds(b.d, b.h) && b.Ok()
            && forall n {:trigger Get(b.d, n)} ::
              Get(b.d, n) == if n == name then Some(Reading(name, value)) else Get(a.d, n)
  {
    hide Enc, NodeOk, Get, Put32, Size, InfoBytes, Reading, LinkOk, PropOk, UpOk;
    InfoHolds(a.d, a.h, a.pl, name, value);
    var m := Arena(a.d + InfoBytes(name, value), InfoHeap(a.h, |a.d|, name, value), a.pl);
    HoldsReads(m.d, m.h);
    LookupsKept(a, m);
    JoinOfSplit(name);
    AttachInfo(m, current, |a.d|, name);
  }

  lemma InfoBytesLength(name: seq<Byte>, value: seq<Byte>)
    requires |name| < CAPACITY
    ensures |InfoBytes(name, value)| == InfoCost(name, value) > 0 && InfoCost(name, value) % 4 == 0
  {
  }

  // The writes of to_bytes.
  lemma MappedBytes(d: seq<Byte>)
    requires |d| <= CAPACITY
    ensures var out := Splice(Splice(Splice(Splice(Zeros(PA_SIZE), 0, U32(|d|)), 8, U32(MAGIC)), 12, U32(VERSION)),
                              HEADER_SIZE, d);
            && out[0..4] == U32(|d|) && out[4..8] == Zeros(4) && out[8..12] == U32(MAGIC) && out[12..16] == U32(VERSION)
            && out[HEADER_SIZE..HEADER_SIZE + |d|] == d
            && out[HEADER_SIZE..] == d + Zeros(CAPACITY - |d|)
            && forall i :: HEADER_SIZE + |d| <= i < PA_SIZE ==> out[i] == 0
  {
    hide Splice, Le;
    var rest := Zeros(PA_SIZE - 16);
    assert Zeros(PA_SIZE) == Zeros(16) + rest;
    var h0 := Zeros(16);
    SplicePrefix(h0, rest, 0, U32(|d|));
    var h1 := Splice(h0, 0, U32(|d|));
    SplicePrefix(h1, rest, 8, U32(MAGIC));
    var h2 := Splice(h1, 8, U32(MAGIC));
    SplicePrefix(h2, rest, 12, U32(VERSION));
    var h := Splice(h2, 12, U32(VERSION));
    HeaderBytes(U32(|d|), U32(MAGIC), U32(VERSION));
    HeaderThenData(h, d);
    FourWords(Splice(h + rest, HEADER_SIZE, d), U32(|d|), Zeros(4), U32(MAGIC), U32(VERSION));
  }

  lemma HeaderBytes(used: seq<Byte>, magic: seq<Byte>, version: seq<Byte>)
    requires |used| == 4 && |magic| == 4 && |version| == 4
    ensures Splice(Splice(Splice(Zeros(16), 0, used), 8, magic), 12, version) == used + Zeros(4) + magic + version
  {
  }

  lemma FourWords(out: seq<Byte>, a: seq<Byte>, b: seq<Byte>, c: seq<Byte>, e: seq<Byte>)
    requires |a| == 4 && |b| == 4 && |c| == 4 && |e| == 4
    requires |out| >= 16 && out[..16] == a + b + c + e
    ensures out[0..4] == a && out[4..8] == b && out[8..12] == c && out[12..16] == e
  {
    assert out[0..4] == out[..16][0..4] && out[4..8] == out[..16][4..8];
    assert out[8..12] == out[..16][8..12] && out[12..16] == out[..16][12..16];
  }

  lemma HeaderThenData(h: seq<Byte>, d: seq<Byte>)
    requires |h| == 16 && |d| <= CAPACITY
    ensures var out := Splice(h + Zeros(PA_SIZE - 16), HEADER_SIZE, d);
            && out[..16] == h
            && out[HEADER_SIZE..HEADER_SIZE + |d|] == d
            && out[HEADER_SIZE..] == d + Zeros(CAPACITY - |d|)
            && forall i :: HEADER_SIZE + |d| <= i < PA_SIZE ==> out[i] == 0
  {
  }

  lemma HeaderWords(out: seq<Byte>, n: nat)
    requires |out| == PA_SIZE && n < U32_LIMIT
    requires out[0..4] == U32(n) && out[4..8] == Zeros(4) && out[8..12] == U32(MAGIC) && out[12..16] == U32(VERSION)
    ensures U32At(out, 0) == n && U32At(out, 4) == 0 && U32At(out, 8) == MAGIC && U32At(out, 12) == VERSION
  {
    assert U32(0) == Zeros(4);
    U32Read(out, 0, n);
    U32Read(out, 4, 0);
    U32Read(out, 8, MAGIC);
    U32Read(out, 12, VERSION);
  }

  // Zeros behind the arena, as in the mapped file, change no lookup.
  lemma MappedLookups(a: Arena, n: nat)
    requires Holds(a.d, a.h) && a.Ok()
    ensures forall name {:trigger Get(a.d + Zeros(n), name)} :: Get(a.d + Zeros(n), name) == Get(a.d, name)
  {
    hide Enc, NodeOk, Get, Wf;
    var b := Arena(a.d + Zeros(n), a.h, a.pl);
    forall o | o in a.h
      ensures At(b.d, o, a.h[o])
    {
      assert At(a.d, o, a.h[o]);
      AtFrame(a.d, b.d, o, a.h[o]);
    }
    HoldsReads(b.d, b.h);
    SameHeapGrows(a.d, a.h);
    LookupsKept(a, b);
  }

  lemma AttachInfo(m: Arena, current: nat, i: nat, name: seq<Byte>)
    requires Holds(m.d, m.h) && m.Ok() && current in m.pl && current != 0 && m.h[current].prop == 0
    requires current < i < CAPACITY && InfoOk(m.h, i) && m.h[i].name == name
    requires m.pl[current].path == Split(name) && Join(Split(name)) == name
    ensures current + BT_SIZE <= |m.d|
    ensures var b := Arena(Put32(m.d, current + Offset(Prop), i), Attach(m.h, current, i), m.pl);
            && Holds(b.d, b.h) && b.Ok()
            && forall n {:trigger Get(b.d, n)} ::
              Get(b.d, n) == if n == name then Some(Reading(name, ValueOf(m.h, i))) else Get(m.d, n)
  {
    hide Enc, NodeOk, Get, Put32, Size;
    NodeView(m.d, m.h, m.pl, current);
    HoldsPut(m.d, m.h, current, Prop, i);
    AttachWf(m.h, m.pl, current, i);
    var b := Arena(Put32(m.d, current + Offset(Prop), i), Attach(m.h, current, i), m.pl);
    HoldsReads(b.d, b.h);
    forall n {:trigger Get(b.d, n)}
      ensures Get(b.d, n) == if n == name then Some(Reading(name, ValueOf(m.h, i))) else Get(m.d, n)
    {
      GetAttach(m, b, current, i, name, n);
    }
  }

  class PropArea {
    var data: seq<Byte>
    // The records in data, where each node hangs, and the properties added so far.
    ghost var heap: Heap
    ghost var places: Places
    ghost var props: map<seq<Byte>, seq<Byte>>

    ghost predicate Valid()
      reads this
    {
      && |data| % 4 == 0 && 0 < |data| <= CAPACITY
      && Holds(data, heap) && Reads(data, heap) && Wf(heap, places)
      && forall name {:trigger Get(data, name)} :: Get(data, name) == Known(props, name)
    }

    ghost function View(): Arena
      reads this
    {
      Arena(data, heap, places)
    }

    constructor ()
      ensures Valid() && props == map[] && |data| == BT_SIZE && Paths(places) == {[]}
    {
      data := Zeros(BT_SIZE);
      heap := map[0 := Bt([], 0, 0, 0, 0)];
      places := map[0 := Place([], None, None, 0)];
      props := map[];
      new;
      EmptyArea(data, heap, places);
    }

    // ---------- bytes ----------

    method SetU32(off: nat, v: nat)
      requires off + 4 <= |data|
      modifies this`data
      ensures data == Put32(old(data), off, v)
    {
      data := data[..off] + U32(v) + data[off + 4..];
    }

    method CopyFromSlice(off: nat, s: seq<Byte>)
      requires off + |s| <= |data|
      modifies this`data
      ensures data == Splice(old(data), off, s)
    {
      data := data[..off] + s + data[off + |s|..];
    }

    // Zeroed room at the end of the arena, or a failure that changes nothing.
    method Alloc(size: nat) returns (r: Result<nat, Failure>)
      modifies this`data
      ensures r.Ok? <==> |old(data)| + Align4(size) <= CAPACITY
      ensures r.Ok? ==> r.value == |old(data)| && data == old(data) + Zeros(Align4(size))
      ensures r.Err? ==> r.error == AreaFull && data == old(data)
    {
      var aligned := Align4(size);
      var off := |data|;
      if off + aligned > CAPACITY {
        return Err(AreaFull);
      }
      data := data + Zeros(aligned);
      return Ok(off);
    }

    method NewBt(name: Seg) returns (r: Result<nat, Failure>)
      requires name != []
      modifies this`data
      ensures r.Ok? <==> |old(data)| + Size(NewNode(name)) <= CAPACITY
      ensures r.Ok? ==> |name| < U32_LIMIT && r.value == |old(data)| && data == old(data) + Enc(NewNode(name))
      ensures r.Err? ==> r.error == AreaFull && data == old(data)
    {
      hide Enc, Splice, Zeros, Align4;
      r := Alloc(BT_SIZE + |name| + 1);
      if r.Ok? {
        var off := r.value;
        SetU32(off, |name|);
        CopyFromSlice(off + BT_SIZE, name);
        ghost var t := Zeros(Align4(BT_SIZE + |name| + 1));
        NodeTail(name);
        NodeWrites(old(data), t, name);
      }
    }

    // The value of a long property goes into a block of its own; off is the property's record.
    method PutLong(off: nat, name: seq<Byte>, value: seq<Byte>, ghost d: seq<Byte>) returns (r: Result<nat, Failure>)
      requires |name| < CAPACITY && |value| >= VALUE_MAX
      requires data == d + InfoZeros(name) && off == |d|
      modifies this`data
      ensures r.Ok? <==> |old(data)| + Align4(|value| + 1) <= CAPACITY
      ensures r.Ok? ==> r.value == off && data == d + InfoBytes(name, value)
      ensures r.Err? ==> r.error == AreaFull && data == old(data)
    {
      hide Enc, InfoZeros, Splice, Zeros, InfoBytes, Align4;
      InfoZerosLength(name);
      r := Alloc(|value| + 1);
      if r.Err? {
        return;
      }
      var longOff := r.value;
      CopyFromSlice(longOff, value);
      TextTail(value);
      SpliceTail(d + InfoZeros(name), Zeros(Align4(|value| + 1)), 0, value);
      assert longOff == |d + InfoZeros(name)| + 0;
      FinishLong(d, name, value);
      SetU32(off, LONG_SERIAL);
      CopyFromSlice(off + 4, LEGACY_ERROR);
      SetU32(off + 4 + 56, longOff - off);
      return Ok(off);
    }

    method NewInfo(name: seq<Byte>, value: seq<Byte>) returns (r: Result<nat, Failure>)
      requires |data| % 4 == 0
      modifies this`data
      ensures r.Ok? <==> |old(data)| + InfoCost(name, value) <= CAPACITY
      ensures r.Ok? ==> |name| < CAPACITY && r.value == |old(data)| && data == old(data) + InfoBytes(name, value)
      ensures r.Err? ==> r.error == AreaFull
      // A failing long property may leave its half-written record behind.
      ensures r.Err? ==> data == old(data)
                         || (|name| < CAPACITY && |data| <= CAPACITY && data == old(data) + Enc(Short(name, [])))
    {
      hide Enc, InfoZeros, Splice, Zeros;
      r := Alloc(INFO_SIZE + |name| + 1);
      if r.Err? {
        return;
      }
      var off := r.value;
      CopyFromSlice(off + INFO_SIZE, name);
      ghost var d := old(data);
      InfoTail(name);
      SpliceTail(d, Zeros(Align4(INFO_SIZE + |name| + 1)), INFO_SIZE, name);
      assert data == d + InfoZeros(name);
      NoValueTail(name);
      InfoZerosLength(name);
      if |value| >= VALUE_MAX {
        r := PutLong(off, name, value, d);
      } else {
        SetU32(off, ShortSerial(|value|));
        CopyFromSlice(off + 4, value);
        ShortWrites(d, name, value);
      }
    }

    // ---------- the trie ----------

    // Append a node for `segment` and point the empty link l of o at it.
    method HangBt(o: nat, l: Link, segment: Seg) returns (r: Result<nat, Failure>)
      requires Valid() && segment != []
      requires |segment| < U32_LIMIT ==> CanHang(View(), o, l, segment)
      modifies this
      ensures Valid() && props == old(props)
      ensures r.Ok? <==> |old(data)| + Size(NewNode(segment)) <= CAPACITY
      ensures r.Ok? ==> old(CanHang(View(), o, l, segment))
      ensures r.Ok? ==> Created(old(View()), View(), r.value, segment,
                                old(Down(places[o], heap[o].name, o, l, segment)))
      ensures r.Err? ==> r.error == AreaFull && View() == old(View())
    {
      hide Enc, Wf, Holds, Reads, Grows, Down, Splice, Get, Created, Inside, Size, Zeros, Hang, Put32, Known;
      ghost var a := View();
      r := NewBt(segment);
      if r.Ok? {
        HangCreates(a, o, l, segment);
        HangLength(a, o, l, segment);
        SetU32(o + Offset(l), r.value);
        ghost var b := Hang(a, o, l, segment);
        heap, places := b.h, b.pl;
        assert View() == b;
      }
    }

    // The node that a search of the tree at start finds, or a new one where that search ends.
    method FindBt(start: nat, segment: Seg) returns (r: Result<nat, Failure>)
      requires Valid() && start in places && start != 0 && segment != []
      requires places[start].lo == None && places[start].hi == None
      modifies this
      ensures Valid() && props == old(props)
      ensures old(Find(data, start, segment)).Some? ==>
                View() == old(View()) && r == Ok(old(Find(data, start, segment)).value)
      ensures old(Find(data, start, segment)).None? ==>
                (r.Ok? <==> |old(data)| + Size(NewNode(segment)) <= CAPACITY)
      ensures old(Find(data, start, segment)).None? && r.Ok? ==>
                exists pos ::
                  && Created(old(View()), View(), r.value, segment, pos)
                  && pos.path == Init(old(places)[start].path) + [segment]
      ensures r.Err? ==> r.error == AreaFull && View() == old(View())
    {
      hide Enc, Wf, Holds, Reads, Grows, NodeOk, Inside, Get, Created, Splice;
      hide Less, Find, Down, CanHang, Size, U32At, Known, Init;
      var bt := start;
      InsideFree(places[start], segment);
      while true
        invariant View() == old(View()) && props == old(props)
        invariant Valid() && bt in places && bt != 0 && Inside(places[bt], segment)
        invariant Init(places[bt].path) == Init(places[start].path)
        invariant Find(data, bt, segment) == Find(data, start, segment)
        decreases |data| - bt
      {
        NodeBytes(data, heap, places, bt, segment);
        var name := data[bt + BT_SIZE..bt + BT_SIZE + U32At(data, bt)];
        if segment == name {
          return Ok(bt);
        } else if Less(segment, name) {
          var left := U32At(data, bt + Offset(Left));
          if left != 0 {
            bt := left;
          } else {
            r := HangBt(bt, Left, segment);
            return;
          }
        } else {
          var right := U32At(data, bt + Offset(Right));
          if right != 0 {
            bt := right;
          } else {
            r := HangBt(bt, Right, segment);
            return;
          }
        }
      }
    }

    // The trie node one segment below current, created when missing.
    method Descend(current: nat, segment: Seg) returns (r: Result<nat, Failure>)
      requires Valid() && current in places && segment != []
      modifies this
      ensures Valid() && props == old(props)
      ensures old(Child(data, current, segment)).Some? ==>
                View() == old(View()) && r == Ok(old(Child(data, current, segment)).value)
      ensures old(Child(data, current, segment)).None? ==>
                (r.Ok? <==> |old(data)| + Size(NewNode(segment)) <= CAPACITY)
      ensures old(Child(data, current, segment)).None? && r.Ok? ==>
                exists pos ::
                  && Created(old(View()), View(), r.value, segment, pos)
                  && pos.path == old(places)[current].path + [segment]
      ensures r.Err? ==> r.error == AreaFull && View() == old(View())
    {
      hide Enc, Wf, Holds, Reads, Grows, NodeOk, Inside, Get, Splice, Less, Find, CanHang, Size, Known, PropOk, UpOk;
      ChildBytes(View(), current, segment);
      var children := U32At(data, current + Offset(Children));
      if children != 0 {
        r := FindBt(children, segment);
      } else {
        var n := HangBt(current, Children, segment);
        if n.Err? {
          return n;
        }
        CreatedFound(View(), n.value, segment);
        r := FindBt(n.value, segment);
      }
    }

    // Append the property record of `name` and point its trie node at it.
    method AddInfo(current: nat, name: seq<Byte>, value: seq<Byte>) returns (r: Result<(), Failure>)
      requires Valid() && current in places && current != 0 && current + BT_SIZE <= |data|
      requires places[current].path == Split(name) && heap[current].prop == 0
      modifies this
      ensures Valid()
      ensures r.Ok? <==> |old(data)| + InfoCost(name, value) <= CAPACITY
      ensures r.Ok? ==> props == old(props)[name := value] && |data| == |old(data)| + InfoCost(name, value)
      ensures r.Err? ==> r.error == AreaFull && props == old(props)
      ensures places == old(places)
    {
      hide Enc, Wf, Holds, Reads, NodeOk, Get, Splice, Size, InfoBytes, InfoHeap, InfoCost, Split;
      ghost var a := View();
      var info := NewInfo(name, value);
      if info.Err? {
        if data != a.d {
          heap := a.h[|a.d| := Short(name, [])];
          OrphanInfo(a, name);
        }
        return Err(info.error);
      }
      InfoBytesLength(name, value);
      PropertyAdded(a, current, name, value);
      SetU32(current + Offset(Prop), info.value);
      heap := Attach(InfoHeap(a.h, |a.d|, name, value), current, |a.d|);
      props := props[name := value];
      return Ok(());
    }

    // A new name becomes readable; whatever fails, and however late, no lookup changes.
    method Add(name: seq<Byte>, value: seq<Byte>) returns (r: Result<(), Failure>)
      requires Valid()
      modifies this
      ensures Valid()
      ensures r.Ok? <==>
              && [] !in Split(name) && name !in old(props)
              && |old(data)| + old(AddCost(data, name, value)) <= CAPACITY
      ensures r.Ok? ==> props == old(props)[name := value]
                        && |data| == |old(data)| + old(AddCost(data, name, value))
      ensures r.Err? ==> props == old(props)
      ensures r == Err(Duplicate) <==> name in old(props)
      ensures r == Err(InvalidName) ==> [] in Split(name)
      // The trie gains the nodes of the name's beginnings and no other.
      ensures r.Ok? ==> Paths(places) == old(Paths(places)) + Prefixes(Split(name), 0, |Split(name)|)
    {
      hide Enc, Wf, Holds, Reads, Grows, NodeOk, Inside, Get, Splice, Less, Find, CanHang, Size, PropOk, UpOk, Walk;
      hide Paths, Prefixes;
      var segs := Split(name);
      var current := 0;
      NoPrefix(segs);
      RootPlace(View());
      KnownPath(View(), name);
      for k := 0 to |segs|
        invariant Valid() && props == old(props)
        invariant current in places && places[current].path == segs[..k]
        invariant |data| + PathCost(data, current, segs[k..]) == |old(data)| + old(PathCost(data, 0, segs))
        invariant [] !in segs[..k]
        invariant Paths(places) == old(Paths(places)) + Prefixes(segs, 0, k)
      {
        var segment := segs[k];
        if segment == [] {
          return Err(InvalidName);
        }
        ghost var a := View();
        var next := Descend(current, segment);
        StepCost(a, current, segs, k);
        if next.Err? {
          return Err(next.error);
        }
        if Child(a.d, current, segment).None? {
          CreatedCost(a, View(), next.value, segment, segs[k + 1..]);
        }
        assert segs[..k + 1] == segs[..k] + [segment];
        NextPrefix(segs, k);
        NewPath(a, View(), next.value, segment, segs[..k + 1]);
        current := next.value;
      }
      assert segs[..|segs|] == segs;
      PropWord(View(), current, name);
      if U32At(data, current + Offset(Prop)) != 0 {
        return Err(Duplicate);
      }
      r := AddInfo(current, name, value);
    }

    // Serialize to the mapped format (exactly PA_SIZE bytes): header, arena, zeros.
    method ToBytes() returns (out: seq<Byte>)
      requires Valid()
      ensures |out| == 131072
      ensures U32At(out, 0) == |data| && U32At(out, 4) == 0 && U32At(out, 8) == 0x504f_5250 && U32At(out, 12) == 0xfc6e_d0ab
      ensures out[128..128 + |data|] == data
      ensures forall i :: 128 + |data| <= i < 131072 ==> out[i] == 0
      ensures forall name {:trigger Get(out[128..], name)} ::
                Get(out[128..], name) == Known(props, name)
    {
      hide Wf, Holds, Reads, Get, Known, Splice, Zeros;
      out := Zeros(PA_SIZE);
      out := Splice(out, 0, U32(|data|));
      out := Splice(out, 8, U32(MAGIC));
      out := Splice(out, 12, U32(VERSION));
      out := Splice(out, HEADER_SIZE, data);
      MappedBytes(data);
      HeaderWords(out, |data|);
      MappedLookups(View(), CAPACITY - |data|);
    }
  }

  // ---------- the writes of new_bt and new_info produce whole records ----------

  lemma ShortWrites(d: seq<Byte>, name: seq<Byte>, value: seq<Byte>)
    requires |name| < CAPACITY && |value| < VALUE_MAX
    ensures Splice(Put32(d + InfoZeros(name), |d|, ShortSerial(|value|)), |d| + 4, value) == d + Enc(Short(name, value))
  {
    SpliceTail(d, InfoZeros(name), 0, U32(ShortSerial(|value|)));
    SpliceTail(d, Put32(InfoZeros(name), 0, ShortSerial(|value|)), 4, value);
    ShortTail(name, value);
  }

  lemma NodeWrites(d: seq<Byte>, t: seq<Byte>, name: seq<Byte>)
    requires BT_SIZE + |name| <= |t|
    ensures Splice(Put32(d + t, |d|, |name|), |d| + BT_SIZE, name) == d + Put32(Splice(t, BT_SIZE, name), 0, |name|)
  {
    SpliceTail(d, t, 0, U32(|name|));
    SpliceTail(d, Put32(t, 0, |name|), BT_SIZE, name);
    assert Splice(Put32(t, 0, |name|), BT_SIZE, name) == Put32(Splice(t, BT_SIZE, name), 0, |name|);
  }

  // A name copied behind k zeroed bytes.
  lemma NameTail(k: nat, name: seq<Byte>)
    requires k % 4 == 0
    ensures Align4(k + |name| + 1) == k + Align4(|name| + 1)
    ensures Splice(Zeros(Align4(k + |name| + 1)), k, name) == Zeros(k) + Padded(name + [0])
  {
    AlignedBehind(k, |name| + 1);
    var a := Align4(|name| + 1);
    ZerosTwice(k, a);
    ZerosTwice(|name|, a - |name|);
    ZerosTwice(1, a - |name| - 1);
    SpliceTail(Zeros(k), Zeros(a), 0, name);
    hide Align4;
    assert Zeros(1) == [0];
    assert Splice(Zeros(|name|) + Zeros(a - |name|), 0, name) == name + Zeros(a - |name|);
    assert name + ([0] + Zeros(a - |name| - 1)) == name + [0] + Zeros(a - |name| - 1);
  }

  lemma AlignedBehind(k: nat, n: nat)
    requires k % 4 == 0
    ensures Align4(k + n) == k + Align4(n)
  {
  }

  lemma ZerosTwice(m: nat, n: nat)
    ensures Zeros(m + n) == Zeros(m) + Zeros(n)
  {
  }

  lemma NodeTail(name: Seg)
    requires name != [] && |name| < CAPACITY
    ensures var t := Zeros(Align4(BT_SIZE + |name| + 1));
            Put32(Splice(t, BT_SIZE, name), 0, |name|) == Enc(NewNode(name))
  {
    NameTail(BT_SIZE, name);
    SplicePrefix(Zeros(BT_SIZE), Padded(name + [0]), 0, U32(|name|));
    assert U32(0) == [0, 0, 0, 0];
    assert Put32(Zeros(BT_SIZE), 0, |name|) == BtHead(|name|, 0, 0, 0, 0);
  }

  function InfoZeros(name: seq<Byte>): seq<Byte>
  {
    Zeros(INFO_SIZE) + Padded(name + [0])
  }

  lemma InfoTail(name: seq<Byte>)
    ensures Splice(Zeros(Align4(INFO_SIZE + |name| + 1)), INFO_SIZE, name) == InfoZeros(name)
  {
    NameTail(INFO_SIZE, name);
  }

  lemma ShortTail(name: seq<Byte>, value: seq<Byte>)
    requires |name| < CAPACITY && |value| < VALUE_MAX
    ensures Splice(Put32(InfoZeros(name), 0, ShortSerial(|value|)), 4, value) == Enc(Short(name, value))
  {
    var z, serial := Zeros(INFO_SIZE), ShortSerial(|value|);
    SplicePrefix(z, Padded(name + [0]), 0, U32(serial));
    SplicePrefix(Put32(z, 0, serial), Padded(name + [0]), 4, value);
    assert Splice(Put32(z, 0, serial), 4, value) == U32(serial) + value + Zeros(VALUE_MAX - |value|);
  }

  lemma NoValueTail(name: seq<Byte>)
    requires |name| < CAPACITY
    ensures InfoZeros(name) == Enc(Short(name, []))
  {
    assert U32(0) == [0, 0, 0, 0];
    assert Zeros(INFO_SIZE) == U32(ShortSerial(0)) + [] + Zeros(VALUE_MAX);
  }

  lemma LongTail(name: seq<Byte>, rel: nat)
    requires |name| < CAPACITY && rel < U32_LIMIT
    ensures Put32(Splice(Put32(InfoZeros(name), 0, LONG_SERIAL), 4, LEGACY_ERROR), 60, rel) == Enc(Long(name, rel))
  {
    var z, p := Zeros(INFO_SIZE), Padded(name + [0]);
    var z1 := Put32(z, 0, LONG_SERIAL);
    var z2 := Splice(z1, 4, LEGACY_ERROR);
    SplicePrefix(z, p, 0, U32(LONG_SERIAL));
    SplicePrefix(z1, p, 4, LEGACY_ERROR);
    SplicePrefix(z2, p, 60, U32(rel));
    assert z2 == U32(LONG_SERIAL) + LEGACY_ERROR + Zeros(42);
    assert Put32(z2, 60, rel) == U32(LONG_SERIAL) + LEGACY_ERROR + Zeros(6) + U32(rel) + Zeros(32);
  }

  lemma TextTail(value: seq<Byte>)
    ensures Splice(Zeros(Align4(|value| + 1)), 0, value) == Enc(Text(value))
  {
    NameTail(0, value);
    assert Zeros(0) + Padded(value + [0]) == Padded(value + [0]);
  }

  // The last three writes of a long property.
  lemma FinishLong(d: seq<Byte>, name: seq<Byte>, value: seq<Byte>)
    requires |name| < CAPACITY && |value| >= VALUE_MAX
    ensures var t, rel := d + InfoZeros(name) + Enc(Text(value)), INFO_SIZE + Align4(|name| + 1);
            Put32(Splice(Put32(t, |d|, LONG_SERIAL), |d| + 4, LEGACY_ERROR), |d| + 60, rel)
            == d + InfoBytes(name, value)
  {
    hide Enc, Splice, InfoZeros;
    var e, rel := Enc(Text(value)), INFO_SIZE + Align4(|name| + 1);
    InfoZerosLength(name);
    var t1 := Put32(InfoZeros(name), 0, LONG_SERIAL);
    var t2 := Splice(t1, 4, LEGACY_ERROR);
    SpliceMiddle(d, InfoZeros(name), e, 0, U32(LONG_SERIAL));
    SpliceMiddle(d, t1, e, 4, LEGACY_ERROR);
    SpliceMiddle(d, t2, e, 60, U32(rel));
    LongTail(name, rel);
    assert d + Enc(Long(name, rel)) + e == d + (Enc(Long(name, rel)) + e);
  }

  lemma InfoZerosLength(name: seq<Byte>)
    ensures |InfoZeros(name)| == INFO_SIZE + Align4(|name| + 1)
  {
  }

  lemma EmptyArea(d: seq<Byte>, h: Heap, pl: Places)
    requires d == Zeros(BT_SIZE) && h == map[0 := Bt([], 0, 0, 0, 0)] && pl == map[0 := Place([], None, None, 0)]
    ensures Holds(d, h) && Reads(d, h) && Wf(h, pl)
    ensures forall name {:trigger Get(d, name)} :: Get(d, name) == None
  {
    assert U32(0) == [0, 0, 0, 0];
    assert Enc(h[0]) == d[0..BT_SIZE];
    assert At(d, 0, h[0]);
    HoldsReads(d, h);
    assert NodeOk(h, pl, 0);
    forall name {:trigger Get(d, name)}
      ensures Get(d, name) == None
    {
      ChildStep(d, h, pl, 0, Split(name)[0]);
    }
  }
}
