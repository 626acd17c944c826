// Element trees as binary XML: a tree's chunks rebuild the tree, and every tree has such chunks.
module AxmlTree {
  import opened Bytes
  import opened Axml
  import opened AxmlParser

  // A tree over string-pool indices, with chunks the parser skips (namespaces, text) anywhere.
  datatype Node =
    | Elem(meta: Meta, name: nat, attrs: seq<AttrRec>, kids: seq<Node>)
    | Noise(ty: nat, headerSize: nat, body: seq<Byte>)

  ghost function Chunks(n: Node): (cs: seq<Chunk>)
    decreases n, 1
  {
    match n
    case Elem(meta, name, attrs, kids) => [Start(meta, name, attrs)] + AllChunks(kids) + [End(meta, name)]
    case Noise(ty, headerSize, body) => [Skipped(ty, headerSize, body)]
  }

  ghost function AllChunks(ns: seq<Node>): (cs: seq<Chunk>)
    decreases ns, 0
  {
    if ns == [] then [] else Chunks(ns[0]) + AllChunks(ns[1..])
  }

  // The elements a node stands for, given the pool and the resource map.
  ghost function Elements(n: Node, strings: seq<string>, resMap: seq<nat>): (es: seq<Element>)
    requires AllFit(Chunks(n))
    decreases n, 1
  {
    match n
    case Elem(meta, name, attrs, kids) =>
      ElemFits(n);
      [Element(StringAt(strings, name), AttributesOf(strings, resMap, attrs), AllElements(kids, strings, resMap))]
    case Noise(_, _, _) => []
  }

  ghost function AllElements(ns: seq<Node>, strings: seq<string>, resMap: seq<nat>): (es: seq<Element>)
    requires AllFit(AllChunks(ns))
    decreases ns, 0
  {
    if ns == [] then []
    else
      ConcatFits(Chunks(ns[0]), AllChunks(ns[1..]));
      Elements(ns[0], strings, resMap) + AllElements(ns[1..], strings, resMap)
  }

  // The element a node stands for, in terms of the pool and the resource map.
  ghost predicate Stands(n: Node, e: Element, strings: seq<string>, resMap: seq<nat>)
    decreases n, 1
  {
    && n.Elem?
    && Names(strings, n.name, e.name)
    && AttrsStand(strings, resMap, n.attrs, e.attrs)
    && AllStand(n.kids, e.children, strings, resMap)
  }

  // Skipped chunks stand for nothing.
  ghost predicate AllStand(ns: seq<Node>, es: seq<Element>, strings: seq<string>, resMap: seq<nat>)
    decreases ns, 0
  {
    if ns == [] then es == []
    else if ns[0].Noise? then AllStand(ns[1..], es, strings, resMap)
    else es != [] && Stands(ns[0], es[0], strings, resMap) && AllStand(ns[1..], es[1..], strings, resMap)
  }

  lemma {:induction false} StandsIff(n: Node, e: Element, strings: seq<string>, resMap: seq<nat>)
    requires n.Elem? && AllFit(Chunks(n))
    ensures Stands(n, e, strings, resMap) <==> Elements(n, strings, resMap) == [e]
    decreases n, 1
  {
    hide ChunkFits, AllFit, AttrsStand, AttributesOf, AllStand, AllElements;
    ElemFits(n);
    StartAttrs(n);
    AttributesIff(strings, resMap, n.attrs, e.attrs);
    AllStandIff(n.kids, e.children, strings, resMap);
  }

  lemma StartAttrs(n: Node)
    requires n.Elem? && ChunkFits(Start(n.meta, n.name, n.attrs))
    ensures forall i :: 0 <= i < |n.attrs| ==> AttrFits(n.attrs[i])
  {
  }

  lemma {:induction false} AllStandIff(ns: seq<Node>, es: seq<Element>, strings: seq<string>, resMap: seq<nat>)
    requires AllFit(AllChunks(ns))
    ensures AllStand(ns, es, strings, resMap) <==> AllElements(ns, strings, resMap) == es
    decreases ns, 0
  {
    hide ChunkFits, AllFit, Stands;
    if ns != [] {
      ConcatFits(Chunks(ns[0]), AllChunks(ns[1..]));
      var rest := AllElements(ns[1..], strings, resMap);
      if ns[0].Noise? {
        AllStandIff(ns[1..], es, strings, resMap);
        assert [] + rest == rest;
      } else if es != [] {
        AllStandIff(ns[1..], es[1..], strings, resMap);
        StandsIff(ns[0], es[0], strings, resMap);
        var first := Elements(ns[0], strings, resMap);
        assert |first| == 1;
        assert es == [es[0]] + es[1..];
        assert (first + rest)[0] == first[0] && (first + rest)[1..] == rest;
        assert first == [first[0]];
      }
    }
  }

  lemma ConcatFits(a: seq<Chunk>, b: seq<Chunk>)
    ensures AllFit(a + b) <==> AllFit(a) && AllFit(b)
  {
    if AllFit(a + b) {
      forall i | 0 <= i < |a|
        ensures ChunkFits(a[i])
      {
        assert (a + b)[i] == a[i];
      }
      forall i | 0 <= i < |b|
        ensures ChunkFits(b[i])
      {
        assert (a + b)[|a| + i] == b[i];
      }
    }
  }

  lemma ElemFits(n: Node)
    requires n.Elem?
    ensures AllFit(Chunks(n)) <==>
            ChunkFits(Start(n.meta, n.name, n.attrs)) && AllFit(AllChunks(n.kids))
  {
    hide ChunkFits;
    var first: seq<Chunk> := [Start(n.meta, n.name, n.attrs)];
    var last: seq<Chunk> := [End(n.meta, n.name)];
    ConcatFits(first + AllChunks(n.kids), last);
    ConcatFits(first, AllChunks(n.kids));
    assert ChunkFits(first[0]) <==> AllFit(first);
    EndFits(n.meta, n.name);
  }

  lemma EndFits(meta: Meta, name: nat)
    ensures AllFit([End(meta, name)])
  {
  }

  // The stack with the elements es added below its top.
  function Grown(stack: seq<Element>, es: seq<Element>): seq<Element>
    requires stack != []
  {
    var top := stack[|stack| - 1];
    stack[..|stack| - 1] + [top.(children := top.children + es)]
  }

  lemma GrownTwice(stack: seq<Element>, a: seq<Element>, b: seq<Element>)
    requires stack != []
    ensures Grown(Grown(stack, a), b) == Grown(stack, a + b)
    ensures Grown(stack, []) == stack
  {
    var top := stack[|stack| - 1];
    assert top.children + a + b == top.children + (a + b);
    assert top.children + [] == top.children;
  }

  // Running the chunks of a node hangs its elements below the top of the stack and leaves the rest.
  lemma {:induction false} RunNode(n: Node, st: State)
    requires AllFit(Chunks(n)) && st.stack != []
    ensures Run(st, Chunks(n)) == st.(stack := Grown(st.stack, Elements(n, st.strings, st.resMap)))
    decreases n, 1
  {
    match n
    case Noise(ty, headerSize, body) =>
      GrownTwice(st.stack, [], []);
      assert ChunkFits(Chunks(n)[0]);
      RunOne(st, Skipped(ty, headerSize, body));
    case Elem(meta, name, attrs, kids) =>
      ElemFits(n);
      RunElem(n, st);
      var open := Element(StringAt(st.strings, name), AttributesOf(st.strings, st.resMap, attrs), []);
      var st1 := st.(stack := st.stack + [open]);
      RunNodes(kids, st1);
      ClosedTop(st.stack, open, AllElements(kids, st.strings, st.resMap));
  }

  lemma RunOne(st: State, c: Chunk)
    requires ChunkFits(c)
    ensures AllFit([c]) && Run(st, [c]) == Step(st, c)
  {
    var one: seq<Chunk> := [c];
    assert one[1..] == [];
    assert Run(Step(st, c), []) == Step(st, c);
  }

  lemma RunElem(n: Node, st: State)
    requires n.Elem? && AllFit(Chunks(n)) && ChunkFits(Start(n.meta, n.name, n.attrs)) && AllFit(AllChunks(n.kids))
    ensures Run(st, Chunks(n)) ==
            Step(Run(Step(st, Start(n.meta, n.name, n.attrs)), AllChunks(n.kids)), End(n.meta, n.name))
  {
    hide Step, ChunkFits, AllFit, Run;
    var start, end := Start(n.meta, n.name, n.attrs), End(n.meta, n.name);
    EndFits(n.meta, n.name);
    EndChunkFits(n.meta, n.name);
    RunOne(st, start);
    RunAppend(st, [start], AllChunks(n.kids));
    RunAppend(st, [start] + AllChunks(n.kids), [end]);
    RunOne(Run(st, [start] + AllChunks(n.kids)), end);
  }

  lemma EndChunkFits(meta: Meta, name: nat)
    ensures ChunkFits(End(meta, name))
  {
  }

  lemma ClosedTop(stack: seq<Element>, open: Element, es: seq<Element>)
    requires stack != [] && open.children == []
    ensures Pop(Grown(stack + [open], es)) == Grown(stack, [open.(children := es)])
  {
    var grown := Grown(stack + [open], es);
    assert [] + es == es;
    assert (stack + [open])[..|stack|] == stack;
    assert grown == stack + [open.(children := es)];
    assert grown[..|stack| - 1] == stack[..|stack| - 1];
  }

  lemma {:induction false} RunNodes(ns: seq<Node>, st: State)
    requires AllFit(AllChunks(ns)) && st.stack != []
    ensures Run(st, AllChunks(ns)) == st.(stack := Grown(st.stack, AllElements(ns, st.strings, st.resMap)))
    decreases ns, 0
  {
    hide Step, ChunkFits, AllFit, Grown, Elements, Chunks;
    if ns == [] {
      GrownTwice(st.stack, [], []);
    } else {
      ConcatFits(Chunks(ns[0]), AllChunks(ns[1..]));
      var es := Elements(ns[0], st.strings, st.resMap);
      RunNode(ns[0], st);
      GrownNonEmpty(st.stack, es);
      RunNodes(ns[1..], st.(stack := Grown(st.stack, es)));
      RunAppend(st, Chunks(ns[0]), AllChunks(ns[1..]));
      GrownTwice(st.stack, es, AllElements(ns[1..], st.strings, st.resMap));
    }
  }

  lemma GrownNonEmpty(stack: seq<Element>, es: seq<Element>)
    requires stack != []
    ensures Grown(stack, es) != []
  {
  }

  // A document of a pool, a resource map and nodes.
  ghost function DocChunks(utf8: bool, strings: seq<string>, resMap: seq<nat>, ns: seq<Node>): seq<Chunk>
  {
    [Pool(utf8, strings), ResMap(resMap)] + AllChunks(ns)
  }

  // The only element of a document, or a synthetic root with all of them.
  function Document(es: seq<Element>): Element
  {
    if |es| == 1 then es[0] else Element("<root>", [], es)
  }

  // The parser's state after it: pool, resource map, and the elements below the synthetic root.
  lemma DocumentRun(utf8: bool, strings: seq<string>, resMap: seq<nat>, ns: seq<Node>)
    requires AllFit(DocChunks(utf8, strings, resMap, ns))
    ensures AllFit(AllChunks(ns))
    ensures Run(INIT, DocChunks(utf8, strings, resMap, ns))
            == State(strings, resMap, [Element("<root>", [], AllElements(ns, strings, resMap))])
  {
    hide ChunkFits, AllFit, Run;
    var head: seq<Chunk> := [Pool(utf8, strings), ResMap(resMap)];
    ConcatFits(head, AllChunks(ns));
    TwoFit(head);
    var st := State(strings, resMap, [ROOT]);
    RunTwo(head);
    RunAppend(INIT, head, AllChunks(ns));
    RunNodes(ns, st);
    var es := AllElements(ns, strings, resMap);
    assert [] + es == es;
    assert Grown([ROOT], es) == [Element("<root>", [], es)];
  }

  // What the parser returns for it.
  lemma DocumentMeans(utf8: bool, strings: seq<string>, resMap: seq<nat>, ns: seq<Node>)
    requires AllFit(DocChunks(utf8, strings, resMap, ns))
    ensures AllFit(AllChunks(ns))
    ensures Finish(Run(INIT, DocChunks(utf8, strings, resMap, ns)).stack) == Document(AllElements(ns, strings, resMap))
  {
    DocumentRun(utf8, strings, resMap, ns);
  }

  // A document with one tag too many: an end tag without its start is skipped, and an element that is
  // never closed is lost with everything inside it.
  lemma Unbalanced(utf8: bool, strings: seq<string>, resMap: seq<nat>, ns: seq<Node>, tag: Chunk, more: seq<Node>)
    requires AllFit(DocChunks(utf8, strings, resMap, ns)) && AllFit(AllChunks(more)) && ChunkFits(tag)
    requires tag.Start? || tag.End?
    ensures var chunks := DocChunks(utf8, strings, resMap, ns) + [tag] + AllChunks(more);
            && AllFit(AllChunks(ns)) && AllFit(chunks)
            && var es := AllElements(ns, strings, resMap);
            Finish(Run(INIT, chunks).stack)
            == Document(if tag.Start? then es else es + AllElements(more, strings, resMap))
  {
    hide ChunkFits, AllFit, Run, AttributesOf;
    var chunks := DocChunks(utf8, strings, resMap, ns);
    DocumentRun(utf8, strings, resMap, ns);
    RunOne(Run(INIT, chunks), tag);
    RunAppend(INIT, chunks, [tag]);
    RunAppend(INIT, chunks + [tag], AllChunks(more));
    var st := Run(INIT, chunks + [tag]);
    RunNodes(more, st);
    if tag.Start? {
      assert |st.stack| == 2;
      assert Grown(st.stack, AllElements(more, strings, resMap))[0] == st.stack[0];
    }
  }

  lemma TwoFit(head: seq<Chunk>)
    requires |head| == 2 && AllFit(head)
    ensures ChunkFits(head[0]) && ChunkFits(head[1])
  {
  }

  lemma RunTwo(head: seq<Chunk>)
    requires |head| == 2 && AllFit(head) && head[0].Pool? && head[1].ResMap?
    ensures Run(INIT, head) == State(head[0].strings, head[1].ids, [ROOT])
  {
    hide ChunkFits;
    var tail := head[1..];
    assert tail[0] == head[1] && tail[1..] == [];
    assert Run(INIT, head) == Run(Step(INIT, head[0]), tail);
    assert Run(Step(INIT, head[0]), tail) == Run(Step(Step(INIT, head[0]), head[1]), tail[1..]);
  }

  // Parsing the encoding of a document gives its tree.
  method ParseDocument(utf8: bool, strings: seq<string>, resMap: seq<nat>, ghost ns: seq<Node>, data: seq<Byte>)
      returns (r: Result<Element, Failure>)
    requires AllFit(DocChunks(utf8, strings, resMap, ns)) && data == EncDoc(DocChunks(utf8, strings, resMap, ns))
    ensures AllFit(AllChunks(ns))
    ensures r == Ok(Document(AllElements(ns, strings, resMap)))
    ensures forall es :: AllStand(ns, es, strings, resMap) ==> r == Ok(Document(es))
  {
    hide Run, Finish, EncDoc, AllFit, DocChunks;
    DocumentMeans(utf8, strings, resMap, ns);
    forall es | AllStand(ns, es, strings, resMap)
      ensures es == AllElements(ns, strings, resMap)
    {
      AllStandIff(ns, es, strings, resMap);
    }
    r := Parse(data, DocChunks(utf8, strings, resMap, ns));
  }

  // ---------- every tree has an encoding ----------

  // String pool and resource map, grown together.
  datatype Tables = Tables(strings: seq<string>, ids: seq<nat>)
  {
    ghost predicate Valid()
    {
      |strings| == |ids|
    }

    function Add(s: string, id: nat): Tables
    {
      Tables(strings + [s], ids + [id])
    }
  }

  // t continues into u.
  ghost predicate Into(t: Tables, u: Tables)
  {
    t.Valid() && u.Valid() && t.strings <= u.strings && t.ids <= u.ids
  }

  const NO_META: Meta := Meta(0, 0, 0)

  function AddValue(t: Tables, v: Value): Tables
  {
    if v.Str? then t.Add(v.s, 0) else t
  }

  function EncValue(t: Tables, v: Value): (Byte, nat)
  {
    match v
    case Str(_) => (TYPE_STRING, |t.strings|)
    case Reference(id) => (TYPE_REFERENCE, id)
    case Int(i) => (TYPE_INT_DEC, Unsigned32(i))
    case Bool(b) => (TYPE_INT_BOOLEAN, if b then 0xFFFF_FFFF else 0)
    case Other(ty, data) => (ty, data)
  }

  // Attribute records for attrs: each gets its own name entry, so that it keeps its resource id.
  function EncAttributes(t: Tables, attrs: seq<Attribute>): (r: (Tables, seq<AttrRec>))
    ensures |r.1| == |attrs|
    decreases attrs
  {
    if attrs == [] then (t, [])
    else
      var a := attrs[0];
      var t1 := t.Add(a.name, a.resId);
      var (ty, data) := EncValue(t1, a.value);
      var (t2, rest) := EncAttributes(AddValue(t1, a.value), attrs[1..]);
      (t2, [AttrRec(0xFFFF_FFFF, |t.strings|, 0xFFFF_FFFF, ty, data)] + rest)
  }

  function EncElement(t: Tables, e: Element): (r: (Tables, Node))
    decreases e, 1
  {
    var (t1, attrs) := EncAttributes(t.Add(e.name, 0), e.attrs);
    var (t2, kids) := EncElements(t1, e.children);
    (t2, Elem(NO_META, |t.strings|, attrs, kids))
  }

  function EncElements(t: Tables, es: seq<Element>): (r: (Tables, seq<Node>))
    decreases es, 0
  {
    if es == [] then (t, [])
    else
      var (t1, n) := EncElement(t, es[0]);
      var (t2, rest) := EncElements(t1, es[1..]);
      (t2, [n] + rest)
  }

  // Values the format can hold: an uninterpreted type byte is none of the interpreted ones.
  predicate ValueOk(v: Value)
  {
    match v
    case Reference(id) => id < U32_LIMIT
    case Other(ty, data) =>
      data < U32_LIMIT && ty !in {TYPE_STRING, TYPE_REFERENCE, TYPE_INT_DEC, TYPE_INT_HEX, TYPE_INT_BOOLEAN}
    case _ => true
  }

  lemma AttributesInto(t: Tables, attrs: seq<Attribute>)
    requires t.Valid()
    ensures Into(t, EncAttributes(t, attrs).0)
    decreases attrs
  {
    if attrs != [] {
      var t1 := t.Add(attrs[0].name, attrs[0].resId);
      AttributesInto(AddValue(t1, attrs[0].value), attrs[1..]);
    }
  }

  lemma {:induction false} AttributesBack(t: Tables, attrs: seq<Attribute>, u: Tables)
    requires t.Valid() && Into(EncAttributes(t, attrs).0, u) && |u.strings| < U32_LIMIT
    requires forall i :: 0 <= i < |attrs| ==> ValueOk(attrs[i].value)
    ensures var recs := EncAttributes(t, attrs).1;
            && (forall i :: 0 <= i < |recs| ==> AttrFits(recs[i]))
            && AttributesOf(u.strings, u.ids, recs) == attrs
    decreases attrs
  {
    if attrs != [] {
      var a := attrs[0];
      var t1 := t.Add(a.name, a.resId);
      var t2 := AddValue(t1, a.value);
      AttributesInto(t2, attrs[1..]);
      AttributesBack(t2, attrs[1..], u);
      var recs, rest := EncAttributes(t, attrs).1, EncAttributes(t2, attrs[1..]).1;
      assert recs[1..] == rest;
      assert u.strings[|t.strings|] == t2.strings[|t.strings|] == a.name;
      assert u.ids[|t.ids|] == t2.ids[|t.ids|] == a.resId;
      assert AttributeOf(u.strings, u.ids, recs[0]) == a;
      AttributesOfCons(u, recs);
      assert attrs == [a] + attrs[1..];
    }
  }

  lemma AttributesOfCons(u: Tables, recs: seq<AttrRec>)
    requires recs != [] && forall i :: 0 <= i < |recs| ==> AttrFits(recs[i])
    ensures AttributesOf(u.strings, u.ids, recs) ==
            [AttributeOf(u.strings, u.ids, recs[0])] + AttributesOf(u.strings, u.ids, recs[1..])
  {
    hide AttributeOf;
    var a, b := AttributesOf(u.strings, u.ids, recs),
                [AttributeOf(u.strings, u.ids, recs[0])] + AttributesOf(u.strings, u.ids, recs[1..]);
    assert |a| == |b| && forall i :: 0 <= i < |a| ==> a[i] == b[i];
  }

  // Trees the format can hold.
  ghost predicate TreeOk(e: Element)
    decreases e, 1
  {
    && |e.attrs| < U16_LIMIT
    && (forall i :: 0 <= i < |e.attrs| ==> ValueOk(e.attrs[i].value))
    && AllOk(e.children)
  }

  ghost predicate AllOk(es: seq<Element>)
    decreases es, 0
  {
    es != [] ==> TreeOk(es[0]) && AllOk(es[1..])
  }

  lemma {:induction false} ElementInto(t: Tables, e: Element)
    requires t.Valid()
    ensures Into(t, EncElement(t, e).0)
    decreases e, 1
  {
    var t1 := EncAttributes(t.Add(e.name, 0), e.attrs).0;
    AttributesInto(t.Add(e.name, 0), e.attrs);
    ElementsInto(t1, e.children);
  }

  lemma {:induction false} ElementsInto(t: Tables, es: seq<Element>)
    requires t.Valid()
    ensures Into(t, EncElements(t, es).0)
    decreases es, 0
  {
    if es != [] {
      ElementInto(t, es[0]);
      ElementsInto(EncElement(t, es[0]).0, es[1..]);
    }
  }

  // With any tables that continue its own, the node made for e stands for e.
  lemma {:induction false} ElementBack(t: Tables, e: Element, u: Tables)
    requires t.Valid() && Into(EncElement(t, e).0, u) && |u.strings| < U32_LIMIT && TreeOk(e)
    ensures var n := EncElement(t, e).1;
            AllFit(Chunks(n)) && Elements(n, u.strings, u.ids) == [e]
    decreases e, 1
  {
    var t0 := t.Add(e.name, 0);
    var (t1, attrs) := EncAttributes(t0, e.attrs);
    var (t2, kids) := EncElements(t1, e.children);
    AttributesInto(t0, e.attrs);
    ElementsInto(t1, e.children);
    AttributesBack(t0, e.attrs, u);
    ElementsBack(t1, e.children, u);
    var n := EncElement(t, e).1;
    ElemFits(n);
    assert u.strings[|t.strings|] == t0.strings[|t.strings|] == e.name;
  }

  lemma {:induction false} ElementsBack(t: Tables, es: seq<Element>, u: Tables)
    requires t.Valid() && Into(EncElements(t, es).0, u) && |u.strings| < U32_LIMIT && AllOk(es)
    ensures var ns := EncElements(t, es).1;
            AllFit(AllChunks(ns)) && AllElements(ns, u.strings, u.ids) == es
    decreases es, 0
  {
    if es != [] {
      var (t1, n) := EncElement(t, es[0]);
      var (t2, rest) := EncElements(t1, es[1..]);
      ElementInto(t, es[0]);
      ElementsInto(t1, es[1..]);
      ElementBack(t, es[0], u);
      ElementsBack(t1, es[1..], u);
      var ns := EncElements(t, es).1;
      assert ns[0] == n && ns[1..] == rest;
      ConcatFits(Chunks(n), AllChunks(rest));
      assert es == [es[0]] + es[1..];
    }
  }

  // The binary XML of an element tree.
  function Compile(e: Element): (Tables, Node)
  {
    EncElement(Tables([], []), e)
  }

  ghost function TreeChunks(utf8: bool, e: Element): seq<Chunk>
  {
    var (t, n) := Compile(e);
    DocChunks(utf8, t.strings, t.ids, [n])
  }

  // The tables of a tree fit the pool and the resource map of a document.
  ghost predicate TablesFit(utf8: bool, t: Tables)
  {
    ChunkFits(Pool(utf8, t.strings)) && ChunkFits(ResMap(t.ids))
  }

  lemma TreeMeansItself(utf8: bool, e: Element)
    requires TreeOk(e) && TablesFit(utf8, Compile(e).0)
    ensures AllFit(TreeChunks(utf8, e))
    ensures Finish(Run(INIT, TreeChunks(utf8, e)).stack) == e
  {
    hide ChunkFits, Run, Finish;
    var (t, n) := Compile(e);
    PoolBounds(utf8, t);
    ElementInto(Tables([], []), e);
    ElementBack(Tables([], []), e, t);
    var ns: seq<Node> := [n];
    assert ns[1..] == [] && AllChunks(ns) == Chunks(n) + [];
    assert Chunks(n) + [] == Chunks(n);
    var head: seq<Chunk> := [Pool(utf8, t.strings), ResMap(t.ids)];
    ConcatFits(head, AllChunks(ns));
    DocumentMeans(utf8, t.strings, t.ids, ns);
    assert AllElements(ns, t.strings, t.ids) == [e] + [];
  }

  lemma PoolBounds(utf8: bool, t: Tables)
    requires TablesFit(utf8, t)
    ensures |t.strings| < U32_LIMIT
  {
    PoolWords(utf8, t.strings);
  }

  // Parsing the binary XML of any element tree gives the tree back.
  method ParseTree(utf8: bool, ghost e: Element, data: seq<Byte>) returns (r: Result<Element, Failure>)
    requires TreeOk(e) && TablesFit(utf8, Compile(e).0)
    requires AllFit(TreeChunks(utf8, e)) && data == EncDoc(TreeChunks(utf8, e))
    ensures r == Ok(e)
  {
    hide Run, Finish, EncDoc, AllFit, ChunkFits;
    TreeMeansItself(utf8, e);
    r := Parse(data, TreeChunks(utf8, e));
  }
}
