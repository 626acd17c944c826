// The keyboard's press/repeat/release machine (crates/arod/src/keyboard.rs). The key map's answers
// and the clock are inputs of each call.
module KeyboardMachine {
  import opened Bytes

  const FLAG_FROM_SYSTEM: nat := 0x8
  const FLAG_CANCELED: nat := 0x20
  const MAX_REPEAT: nat := 0x7FFF_FFFF

  datatype Action = Down | Up

  datatype KeyInput = KeyInput(code: int, scan: I32, meta: int, action: Action, repeat: nat, downTime: int, flags: nat)

  // What the key map says of a scan code: key code, modifiers, and whether it repeats.
  datatype Translation = Translation(code: int, meta: int, repeats: bool)

  // `repeat.saturating_add(1)`
  function NextRepeat(n: nat): nat
  {
    if n < MAX_REPEAT then n + 1 else n
  }

  // `flags |= 0x20` of a held key, whose flags are 0x8.
  function Canceled(key: KeyInput): KeyInput
  {
    key.(action := Up, flags := FLAG_FROM_SYSTEM + FLAG_CANCELED)
  }

  lemma CanceledIs(key: KeyInput)
    ensures Canceled(key) == key.(action := Up, flags := 0x28)
  {
  }

  // ---------- what an application sees of one key ----------

  datatype Phase = Released | Held(key: KeyInput) | Broken

  // The same press: code, scan code and down time.
  predicate SamePress(a: KeyInput, b: KeyInput)
  {
    a.code == b.code && a.scan == b.scan && a.downTime == b.downTime
  }

  // A released key goes down with repeat 0; a held key repeats with the next number, or comes up.
  function After(p: Phase, e: KeyInput): Phase
  {
    match p
    case Released => if e.action == Down && e.repeat == 0 then Held(e) else Broken
    case Held(key) =>
      if !SamePress(key, e) then Broken
      else if e.action == Up then Released
      else if e.repeat == NextRepeat(key.repeat) then Held(e)
      else Broken
    case Broken => Broken
  }

  function PhaseOf(stream: seq<KeyInput>): (p: Phase)
  {
    if stream == [] then Released else After(PhaseOf(stream[..|stream| - 1]), stream[|stream| - 1])
  }

  lemma PhaseSnoc(stream: seq<KeyInput>, e: KeyInput)
    ensures PhaseOf(stream + [e]) == After(PhaseOf(stream), e)
  {
    assert (stream + [e])[..|stream|] == stream;
  }

  // While a key is held, its last events are one Down and then repeats numbered 1, 2, 3, ... of the
  // same press; before the Down the key was released.
  lemma {:induction false} RepeatsCount(stream: seq<KeyInput>)
    requires PhaseOf(stream).Held? && PhaseOf(stream).key.repeat < 0x7FFF_FFFF
    ensures var d := |stream| - 1 - PhaseOf(stream).key.repeat;
            && d >= 0 && PhaseOf(stream[..d]) == Released
            && forall i :: d <= i < |stream| ==>
              stream[i].repeat == i - d && stream[i].action == Down && SamePress(stream[d], stream[i])
    decreases |stream|
  {
    HeldIsLast(stream);
    var last := |stream| - 1;
    var before := stream[..last];
    if PhaseOf(before).Held? {
      RepeatsCount(before);
      HeldIsLast(before);
      var d := last - 1 - PhaseOf(before).key.repeat;
      assert before[..d] == stream[..d];
      assert forall i :: d <= i < last ==> before[i] == stream[i];
    }
  }

  lemma HeldIsLast(stream: seq<KeyInput>)
    requires PhaseOf(stream).Held?
    ensures stream != [] && PhaseOf(stream).key == stream[|stream| - 1]
  {
  }

  // ---------- the events of all keys ----------

  type Streams = map<nat, seq<KeyInput>>

  function StreamOf(streams: Streams, scan: nat): (stream: seq<KeyInput>)
  {
    if scan in streams then streams[scan] else []
  }

  // Every key's events are well-behaved, unless it went down twice.
  ghost predicate StreamsOk(streams: Streams, pressed: map<nat, KeyInput>, doubled: set<nat>)
  {
    forall s {:trigger StreamOf(streams, s)} ::
      PhaseOf(StreamOf(streams, s)) ==
        if s in doubled then Broken else if s in pressed then Held(pressed[s]) else Released
  }

  // One more event of one key.
  lemma OneEvent(streams: Streams, pressed: map<nat, KeyInput>, doubled: set<nat>, scan: nat, e: KeyInput,
                 pressed': map<nat, KeyInput>, doubled': set<nat>)
    requires StreamsOk(streams, pressed, doubled)
    requires forall s :: s != scan ==> (s in pressed' <==> s in pressed) && (s in doubled' <==> s in doubled)
    requires forall s :: s != scan && s in pressed ==> pressed'[s] == pressed[s]
    requires After(PhaseOf(StreamOf(streams, scan)), e) ==
             if scan in doubled' then Broken else if scan in pressed' then Held(pressed'[scan]) else Released
    ensures StreamsOk(streams[scan := StreamOf(streams, scan) + [e]], pressed', doubled')
  {
    hide After, PhaseOf;
    var streams' := streams[scan := StreamOf(streams, scan) + [e]];
    forall s {:trigger StreamOf(streams', s)}
      ensures PhaseOf(StreamOf(streams', s)) ==
              if s in doubled' then Broken else if s in pressed' then Held(pressed'[s]) else Released
    {
      PhaseSnoc(StreamOf(streams, scan), e);
      assert s != scan ==> StreamOf(streams', s) == StreamOf(streams, s);
    }
  }

  class Keyboard {
    var pressed: map<nat, KeyInput>
    var repeating: Option<(nat, int)>
    var rate: nat
    var delay: nat
    var focused: bool
    // Events sent so far, by scan code, and the scan codes that went down while they were held.
    ghost var streams: Streams
    ghost var doubled: set<nat>

    ghost predicate Valid()
      reads this
    {
      && (pressed != map[] ==> focused)
      && (repeating.Some? ==> repeating.value.0 in pressed && rate > 0)
      && (forall s :: s in pressed ==>
        && pressed[s].action == Down && pressed[s].flags == FLAG_FROM_SYSTEM && s < U32_LIMIT && pressed[s].scan == Signed32(s))
      && StreamsOk(streams, pressed, doubled)
    }

    constructor ()
      ensures Valid() && pressed == map[] && repeating == None && rate == 0 && delay == 0 && !focused
      ensures streams == map[] && doubled == {}
    {
      pressed, repeating, rate, delay, focused := map[], None, 0, 0, false;
      streams, doubled := map[], {};
    }

    method Enter()
      requires Valid()
      modifies this`focused
      ensures Valid() && focused
    {
      focused := true;
    }

    method RepeatInfo(newRate: I32, newDelay: I32)
      requires Valid()
      modifies this`rate, this`delay, this`repeating
      ensures Valid()
      ensures rate == (if newRate > 0 then newRate as int else 0) && delay == (if newDelay > 0 then newDelay as int else 0)
      ensures repeating == if rate == 0 then None else old(repeating)
    {
      rate := if newRate > 0 then newRate else 0;
      delay := if newDelay > 0 then newDelay else 0;
      if rate == 0 {
        repeating := None;
      }
    }

    // A key comes up. `meta` are the current modifiers, when there is a key map.
    method Release(scan: nat, meta: Option<int>) returns (r: Option<KeyInput>)
      requires Valid()
      modifies this
      ensures Valid() && doubled == old(doubled) && focused == old(focused) && rate == old(rate) && delay == old(delay)
      ensures pressed == old(pressed) - {scan}
      ensures repeating == if old(repeating).Some? && old(repeating).value.0 == scan then None else old(repeating)
      ensures if scan in old(pressed) then
                && r == Some(old(pressed)[scan].(action := Up, repeat := 0,
                                                 meta := if meta.Some? then meta.value else old(pressed)[scan].meta))
                && streams == old(streams)[scan := StreamOf(old(streams), scan) + [r.value]]
              else r == None && streams == old(streams)
    {
      if repeating.Some? && repeating.value.0 == scan {
        repeating := None;
      }
      if scan !in pressed {
        assert pressed - {scan} == pressed;
        return None;
      }
      var key := pressed[scan].(action := Up, repeat := 0);
      if meta.Some? {
        key := key.(meta := meta.value);
      }
      OneEvent(streams, pressed, doubled, scan, key, pressed - {scan}, doubled);
      streams := streams[scan := StreamOf(streams, scan) + [key]];
      pressed := pressed - {scan};
      return Some(key);
    }

    // A key goes down. `tr` is its translation, if the key map has one.
    method Press(scan: nat, tr: Option<Translation>, nowNs: int, now: int) returns (r: Option<KeyInput>)
      requires Valid() && scan < U32_LIMIT
      modifies this
      ensures Valid() && focused == old(focused) && rate == old(rate) && delay == old(delay)
      ensures if focused && tr.Some? then
                var key := KeyInput(tr.value.code, Signed32(scan), tr.value.meta, Down, 0, nowNs, 0x8);
                && r == Some(key) && pressed == old(pressed)[scan := key]
                && repeating == (if tr.value.repeats && rate > 0 then Some((scan, now + delay * 1_000_000)) else old(repeating))
                && streams == old(streams)[scan := StreamOf(old(streams), scan) + [key]]
                && doubled == (if scan in old(pressed) then old(doubled) + {scan} else old(doubled))
              else
                && r == None && pressed == old(pressed) && repeating == old(repeating)
                && streams == old(streams) && doubled == old(doubled)
    {
      if !focused || tr.None? {
        return None;
      }
      var key := KeyInput(tr.value.code, Signed32(scan), tr.value.meta, Down, 0, nowNs, FLAG_FROM_SYSTEM);
      ghost var twice := if scan in pressed then doubled + {scan} else doubled;
      OneEvent(streams, pressed, doubled, scan, key, pressed[scan := key], twice);
      streams := streams[scan := StreamOf(streams, scan) + [key]];
      doubled := twice;
      pressed := pressed[scan := key];
      if tr.value.repeats && rate > 0 {
        repeating := Some((scan, now + delay * 1_000_000));
      }
      return Some(key);
    }

    // The repeat timer.
    method Repeat(tr: Option<Translation>, now: int) returns (r: Option<KeyInput>)
      requires Valid()
      modifies this
      ensures Valid() && doubled == old(doubled) && focused == old(focused) && rate == old(rate) && delay == old(delay)
      ensures if old(repeating).Some? && now >= old(repeating).value.1 && tr.Some? then
                var scan := old(repeating).value.0;
                var n := old(pressed)[scan].repeat;
                var key := old(pressed)[scan].(repeat := if n < 0x7FFF_FFFF then n + 1 else n, meta := tr.value.meta);
                && r == Some(key) && pressed == old(pressed)[scan := key]
                && repeating == Some((scan, now + 1_000_000_000 / rate))
                && streams == old(streams)[scan := StreamOf(old(streams), scan) + [key]]
              else
                && r == None && pressed == old(pressed) && repeating == old(repeating) && streams == old(streams)
    {
      if repeating.None? || now < repeating.value.1 || tr.None? {
        return None;
      }
      var scan := repeating.value.0;
      var key := pressed[scan];
      key := key.(repeat := NextRepeat(key.repeat), meta := tr.value.meta);
      OneEvent(streams, pressed, doubled, scan, key, pressed[scan := key], doubled);
      streams := streams[scan := StreamOf(streams, scan) + [key]];
      pressed := pressed[scan := key];
      // The rate is above zero whenever a key repeats.
      repeating := Some((scan, now + 1_000_000_000 / rate));
      return Some(key);
    }

    // Focus is lost: every held key comes up, canceled, in the order of the scan codes.
    method Leave() returns (released: seq<KeyInput>, ghost scans: seq<nat>)
      requires Valid()
      modifies this
      ensures Valid() && pressed == map[] && repeating == None && !focused && doubled == old(doubled)
      ensures |scans| == |released| == |old(pressed)|
      ensures forall i, j :: 0 <= i < j < |scans| ==> scans[i] < scans[j]
      ensures forall s :: s in scans <==> s in old(pressed)
      ensures forall i :: 0 <= i < |scans| ==> scans[i] in old(pressed) && released[i] == Canceled(old(pressed)[scans[i]])
      // The key as it was last sent, up, with FLAG_CANCELED beside FLAG_FROM_SYSTEM.
      ensures forall i :: 0 <= i < |scans| ==>
                && scans[i] in old(pressed) && old(pressed)[scans[i]].flags == 0x8
                && released[i] == old(pressed)[scans[i]].(action := Up, flags := 0x28)
      ensures forall s {:trigger StreamOf(streams, s)} ::
                StreamOf(streams, s) == StreamOf(old(streams), s) + if s in old(pressed) then [Canceled(old(pressed)[s])] else []
    {
      hide StreamsOk, StreamOf, PhaseOf, Canceled, After, AllCanceled;
      focused := false;
      repeating := None;
      var held := pressed;
      pressed := map[];
      var order;
      released, order := CanceledInOrder(held);
      scans := order;
      CancelAll(streams, held, doubled);
      forall s | s in held
        ensures Canceled(held[s]) == held[s].(action := Up, flags := 0x28)
      {
        CanceledIs(held[s]);
      }
      streams := AllCanceled(streams, held);
    }
  }

  // Every held key gets one more event, its canceled Up.
  ghost function AllCanceled(streams: Streams, held: map<nat, KeyInput>): Streams
  {
    map s | s in streams.Keys + held.Keys :: StreamOf(streams, s) + if s in held then [Canceled(held[s])] else []
  }

  lemma CancelAll(streams: Streams, held: map<nat, KeyInput>, doubled: set<nat>)
    requires StreamsOk(streams, held, doubled)
    ensures StreamsOk(AllCanceled(streams, held), map[], doubled)
    ensures forall s {:trigger StreamOf(AllCanceled(streams, held), s)} ::
              StreamOf(AllCanceled(streams, held), s) ==
              StreamOf(streams, s) + if s in held then [Canceled(held[s])] else []
  {
    hide PhaseOf;
    var after := AllCanceled(streams, held);
    forall s {:trigger StreamOf(after, s)}
      ensures StreamOf(after, s) == StreamOf(streams, s) + if s in held then [Canceled(held[s])] else []
      ensures PhaseOf(StreamOf(after, s)) == if s in doubled then Broken else Released
    {
      var stream := StreamOf(streams, s);
      assert stream + [] == stream;
      if s in held {
        PhaseSnoc(stream, Canceled(held[s]));
      }
    }
  }

  // One canceled Up for each held key, in the order of the scan codes.
  method CanceledInOrder(held: map<nat, KeyInput>) returns (released: seq<KeyInput>, scans: seq<nat>)
    ensures |scans| == |released| == |held|
    ensures forall i, j :: 0 <= i < j < |scans| ==> scans[i] < scans[j]
    ensures forall s :: s in scans <==> s in held
    ensures forall i :: 0 <= i < |scans| ==> scans[i] in held && released[i] == Canceled(held[scans[i]])
  {
    hide Canceled;
    scans := InOrder(held.Keys);
    released := [];
    for i := 0 to |scans|
      invariant |released| == i && forall k :: 0 <= k < i ==> released[k] == Canceled(held[scans[k]])
    {
      released := released + [Canceled(held[scans[i]])];
    }
  }

  // The keys of a BTreeMap, in its order.
  method InOrder(keys: set<nat>) returns (order: seq<nat>)
    ensures |order| == |keys| && forall s :: s in order <==> s in keys
    ensures forall i, j :: 0 <= i < j < |order| ==> order[i] < order[j]
  {
    order := [];
    var rest := keys;
    while rest != {}
      invariant rest <= keys && |order| + |rest| == |keys|
      invariant forall s :: s in order <==> s in keys && s !in rest
      invariant forall i, j :: 0 <= i < j < |order| ==> order[i] < order[j]
      invariant forall i, s :: 0 <= i < |order| && s in rest ==> order[i] < s
      decreases rest
    {
      ghost var least := Least(rest);
      var s :| s in rest && forall t :: t in rest ==> s <= t;
      order := order + [s];
      rest := rest - {s};
    }
  }

  lemma Least(s: set<nat>) returns (m: nat)
    requires s != {}
    ensures m in s && forall t :: t in s ==> m <= t
  {
    m :| m in s;
    var rest := s - {m};
    if rest != {} {
      var n := Least(rest);
      forall t | t in s
        ensures (if m < n then m else n) <= t
      {
        assert t == m || t in rest;
      }
      m := if m < n then m else n;
    } else {
      assert s == {m};
    }
  }
}
