// Intents over parcels: `Target::to_intent`, `Intent::write` and `read_intent_target`
// (crates/arod/src/pending_intent.rs, crates/arod/src/parcelables.rs).
module Intents {
  import opened Bytes
  import opened Parcels

  datatype RawBundle = RawBundle(length: I32, magic: I32, data: seq<Byte>, hasIntent: I32)

  datatype Target = Target(
    intentType: I32, package: Option<string>, class_: Option<string>, action: Option<string>,
    data: Option<string>, categories: seq<string>, extras: Option<RawBundle>)

  datatype Intent = Intent(
    action: Option<string>, data: Option<string>, package: Option<string>,
    component: Option<(string, string)>, categories: seq<string>, flags: I32, extras: Option<RawBundle>)

  function ToIntent(t: Target): (i: Intent)
  {
    Intent(t.action, t.data, t.package,
           if t.package.Some? && t.class_.Some? then Some((t.package.value, t.class_.value)) else None,
           t.categories, 0, t.extras)
  }

  // ---------- an intent on the wire ----------

  // Everything an Android intent may carry, which is more than this code writes: tail holds the words
  // behind the extras, of which older writers leave out some.
  datatype Wire = Wire(
    action: Option<string>, uriType: I32, uri: Option<string>, mimeType: Option<string>, ident: Option<string>,
    flags: I32, ext: I32, package: Option<string>, component: Option<(string, Option<string>)>,
    bounds: I32, rect: (I32, I32, I32, I32), categories: Option<seq<Option<string>>>,
    selector: I32, clip: I32, hint: I32, extras: RawBundle, tail: seq<I32>)

  function EncUri(uriType: I32, uri: Option<string>): seq<Byte>
  {
    if uriType == 0 then EncI32(0) else EncI32(uriType) + EncString8(uri)
  }

  function EncComponent(c: Option<(string, Option<string>)>): seq<Byte>
  {
    if c.Some? then EncString16(Some(c.value.0)) + EncString16(c.value.1) else EncString16(None)
  }

  function EncStrings(cs: seq<Option<string>>): seq<Byte>
  {
    if cs == [] then [] else EncString8(cs[0]) + EncStrings(cs[1..])
  }

  function EncCategories(c: Option<seq<Option<string>>>): seq<Byte>
  {
    if c.Some? then U32(|c.value|) + EncStrings(c.value) else EncI32(-1)
  }

  // data cut or zero-extended to n bytes.
  function Fitted(data: seq<Byte>, n: nat): (d: seq<Byte>)
    ensures |d| == n
    ensures d == if n <= |data| then data[..n] else data + Zeros(n - |data|)
  {
    seq(n, i requires 0 <= i < n => if i < |data| then data[i] else 0)
  }

  function EncExtras(b: RawBundle): seq<Byte>
  {
    if b.length <= 0 then EncI32(b.length)
    else EncI32(b.length) + (EncI32(b.magic) + (Fitted(b.data, Align4(b.length as int)) + EncI32(b.hasIntent)))
  }

  function EncWords(ws: seq<I32>): seq<Byte>
  {
    if ws == [] then [] else EncI32(ws[0]) + EncWords(ws[1..])
  }

  // From the selector on. What follows a selector or a clip is not read.
  function EncPayload(w: Wire): seq<Byte>
  {
    if w.selector != 0 then EncI32(w.selector)
    else if w.clip != 0 then EncI32(0) + EncI32(w.clip)
    else EncI32(0) + (EncI32(0) + (EncI32(w.hint) + (EncExtras(w.extras) + EncWords(w.tail))))
  }

  function EncBounds(bounds: I32, rect: (I32, I32, I32, I32)): seq<Byte>
  {
    if bounds == 0 then EncI32(0)
    else EncI32(bounds) + (EncI32(rect.0) + (EncI32(rect.1) + (EncI32(rect.2) + EncI32(rect.3))))
  }

  // From the source bounds on.
  function EncTail(w: Wire): seq<Byte>
  {
    EncBounds(w.bounds, w.rect) + (EncCategories(w.categories) + EncPayload(w))
  }

  // From the type on.
  function EncBody(w: Wire): seq<Byte>
  {
    EncString8(w.mimeType) + (EncString8(w.ident) + (EncI32(w.flags) + (EncI32(w.ext)
    + (EncString8(w.package) + (EncComponent(w.component) + EncTail(w))))))
  }

  // What follows a Uri of an unknown shape is not read.
  function EncWire(w: Wire): seq<Byte>
  {
    EncString8(w.action)
    + if 0 <= w.uriType <= 3 then EncUri(w.uriType, w.uri) + EncBody(w) else EncI32(w.uriType)
  }

  // ---------- what Intent::write writes ----------

  function Somes(cs: seq<string>): (os: seq<Option<string>>)
    ensures |os| == |cs| && forall i :: 0 <= i < |cs| ==> os[i] == Some(cs[i])
  {
    seq(|cs|, i requires 0 <= i < |cs| => Some(cs[i]))
  }

  function Absent(e: Option<RawBundle>): RawBundle
  {
    if e.None? || e.value.length < 0 then RawBundle(-1, 0, [], 0) else e.value
  }

  function WireOf(i: Intent): (w: Wire)
  {
    Wire(i.action, if i.data.Some? then 1 else 0, i.data, None, None, i.flags, 0, i.package,
         if i.component.Some? then Some((i.component.value.0, Some(i.component.value.1))) else None,
         0, (0, 0, 0, 0), Some(Somes(i.categories)), 0, 0, -2, Absent(i.extras), [0, 0])
  }

  function EncIntent(i: Intent): seq<Byte>
  {
    EncWire(WireOf(i))
  }

  // ---------- what read_intent_target reads ----------

  function GetUri(d: seq<Byte>, p: nat, uriType: I32): (r: Read<Option<string>>)
  {
    if uriType == 0 then Ok((None, p)) else GetString8(d, p)
  }

  function GetComponent(d: seq<Byte>, p: nat): (r: Read<(Option<string>, Option<string>)>)
  {
    var (pkg, q) :- GetString16(d, p);
    if pkg.None? then Ok(((None, None), q))
    else
      var (cls, q) :- GetString16(d, q);
      Ok(((pkg, cls), q))
  }

  function GetStrings(d: seq<Byte>, p: nat, n: nat): (r: Read<seq<string>>)
    decreases n
  {
    if n == 0 then Ok(([], p))
    else
      var (c, q) :- GetString8(d, p);
      var (rest, q) :- GetStrings(d, q, n - 1);
      Ok((if c.Some? then [c.value] + rest else rest, q))
  }

  function GetExtras(d: seq<Byte>, p: nat): (r: Read<Option<RawBundle>>)
  {
    var (len, p) :- GetI32(d, p);
    if len < 0 then Ok((None, p))
    else if len == 0 then Ok((Some(RawBundle(0, 0, [], 0)), p))
    else
      var (magic, p) :- GetI32(d, p);
      var total := Align4(len as int);
      if p + total > |d| then Err(NotEnoughData)
      else
        var (hasIntent, q) :- GetI32(d, p + total);
        Ok((Some(RawBundle(len, magic, d[p..p + total], hasIntent)), q))
  }

  // `read_i32().unwrap_or(0)`: at the end of the data nothing is consumed.
  function SkipI32(d: seq<Byte>, p: nat): (q: nat)
  {
    match GetI32(d, p) case Ok(r) => r.1 case Err(_) => p
  }

  function Or(a: Option<string>, b: Option<string>): Option<string>
  {
    if a.Some? then a else b
  }

  // The part from the selector on.
  function GetPayload(d: seq<Byte>, p: nat, t: Target): (r: Read<Target>)
  {
    var (selector, p) :- GetI32(d, p);
    if selector != 0 then Ok((t, p))
    else
      var (clip, p) :- GetI32(d, p);
      if clip != 0 then Ok((t, p))
      else
        var (_, p) :- GetI32(d, p);
        var (extras, p) :- GetExtras(d, p);
        Ok((t.(extras := extras), SkipI32(d, SkipI32(d, p))))
  }

  // The part from the source bounds on.
  function GetRest(d: seq<Byte>, p: nat, t: Target): (r: Read<Target>)
  {
    var (bounds, p) :- GetI32(d, p);
    var (_, p) :- if bounds != 0 then GetRect(d, p) else Ok(((), p));
    var (n, p) :- GetI32(d, p);
    var (categories, p) :- GetStrings(d, p, if n > 0 then n as int else 0);
    GetPayload(d, p, t.(categories := categories))
  }

  function GetRect(d: seq<Byte>, p: nat): (r: Read<()>)
  {
    var (_, p) :- GetI32(d, p);
    var (_, p) :- GetI32(d, p);
    var (_, p) :- GetI32(d, p);
    var (_, p) :- GetI32(d, p);
    Ok(((), p))
  }

  // The part behind the data Uri.
  function GetBody(d: seq<Byte>, p: nat, t: Target): (r: Read<Target>)
  {
    var (_, p) :- GetString8(d, p);
    var (_, p) :- GetString8(d, p);
    var (_, p) :- GetI32(d, p);
    var (_, p) :- GetI32(d, p);
    var (ipkg, p) :- GetString8(d, p);
    var ((cpkg, ccls), p) :- GetComponent(d, p);
    GetRest(d, p, t.(package := Or(cpkg, ipkg), class_ := ccls))
  }

  const EMPTY: Target := Target(0, None, None, None, None, [], None)

  function GetTarget(d: seq<Byte>, p: nat): (r: Read<Target>)
  {
    var (action, p) :- GetString8(d, p);
    var (uriType, p) :- GetI32(d, p);
    if !(0 <= uriType <= 3) then Ok((EMPTY.(action := action), p))
    else
      var (uri, p) :- GetUri(d, p, uriType);
      GetBody(d, p, EMPTY.(action := action, data := uri))
  }

  // ---------- what an intent on the wire means ----------

  function Present(cs: seq<Option<string>>): (p: seq<string>)
  {
    if cs == [] then [] else (if cs[0].Some? then [cs[0].value] else []) + Present(cs[1..])
  }

  function PresentExtras(b: RawBundle): (r: Option<RawBundle>)
  {
    if b.length < 0 then None
    else if b.length == 0 then Some(RawBundle(0, 0, [], 0))
    else Some(b.(data := Fitted(b.data, Align4(b.length as int))))
  }

  // The target: the component's package goes before the intent's own; a selector or a clip hides the
  // extras, a Uri of an unknown shape everything but the action.
  function Meaning(w: Wire): (t: Target)
  {
    if !(0 <= w.uriType <= 3) then Target(0, None, None, w.action, None, [], None)
    else
      Target(0, PackageOf(w), ClassOf(w), w.action, if w.uriType == 0 then None else w.uri, CategoriesOf(w), ExtrasOf(w))
  }

  function PackageOf(w: Wire): Option<string>
  {
    if w.component.Some? then Some(w.component.value.0) else w.package
  }

  function ClassOf(w: Wire): Option<string>
  {
    if w.component.Some? then w.component.value.1 else None
  }

  function CategoriesOf(w: Wire): seq<string>
  {
    if w.categories.Some? then Present(w.categories.value) else []
  }

  function ExtrasOf(w: Wire): Option<RawBundle>
  {
    if w.selector == 0 && w.clip == 0 then PresentExtras(w.extras) else None
  }

  // Strings and lists whose lengths fit the format's i32 fields.
  predicate WireFits(w: Wire)
  {
    && ShortEnough(w.action) && ShortEnough(w.uri) && ShortEnough(w.mimeType) && ShortEnough(w.ident)
    && ShortEnough(w.package) && (w.component.Some? ==> ShortEnough(Some(w.component.value.0)) && ShortEnough(w.component.value.1))
    && (w.categories.Some? ==> AllShort(w.categories.value))
    && |w.tail| <= 2
  }

  predicate AllShort(cs: seq<Option<string>>)
  {
    |cs| < 0x8000_0000 && forall c :: c in cs ==> ShortEnough(c)
  }

  lemma {:induction false} StringsRoundTrip(d: seq<Byte>, p: nat, cs: seq<Option<string>>)
    requires Sits(d, p, EncStrings(cs)) && AllShort(cs)
    ensures GetStrings(d, p, |cs|) == Ok((Present(cs), p + |EncStrings(cs)|))
    decreases cs
  {
    hide EncString8, GetString8, ShortEnough;
    if cs != [] {
      SitsSplit(d, p, EncString8(cs[0]), EncStrings(cs[1..]));
      String8RoundTrip(d, p, cs[0]);
      StringsRoundTrip(d, p + |EncString8(cs[0])|, cs[1..]);
      assert [] + Present(cs[1..]) == Present(cs[1..]);
    }
  }

  lemma ExtrasRoundTrip(d: seq<Byte>, p: nat, b: RawBundle)
    requires Sits(d, p, EncExtras(b))
    ensures GetExtras(d, p) == Ok((PresentExtras(b), p + |EncExtras(b)|))
  {
    hide EncI32, GetI32, Fitted;
    if b.length <= 0 {
      I32RoundTrip(d, p, b.length);
    } else {
      var fit := Fitted(b.data, Align4(b.length as int));
      SitsSplit(d, p, EncI32(b.length), EncI32(b.magic) + (fit + EncI32(b.hasIntent)));
      SitsSplit(d, p + 4, EncI32(b.magic), fit + EncI32(b.hasIntent));
      SitsSplit(d, p + 8, fit, EncI32(b.hasIntent));
      I32RoundTrip(d, p, b.length);
      I32RoundTrip(d, p + 4, b.magic);
      I32RoundTrip(d, p + 8 + |fit|, b.hasIntent);
    }
  }

  lemma ComponentRoundTrip(d: seq<Byte>, p: nat, c: Option<(string, Option<string>)>)
    requires c.Some? ==> ShortEnough(Some(c.value.0)) && ShortEnough(c.value.1)
    requires Sits(d, p, EncComponent(c))
    ensures GetComponent(d, p) ==
            Ok((if c.Some? then (Some(c.value.0), c.value.1) else (None, None), p + |EncComponent(c)|))
  {
    hide EncString16, GetString16;
    if c.Some? {
      SitsSplit(d, p, EncString16(Some(c.value.0)), EncString16(c.value.1));
      String16RoundTrip(d, p, Some(c.value.0));
      String16RoundTrip(d, p + |EncString16(Some(c.value.0))|, c.value.1);
    } else {
      String16RoundTrip(d, p, None);
    }
  }

  lemma UriRoundTrip(d: seq<Byte>, p: nat, uriType: I32, uri: Option<string>)
    requires ShortEnough(uri) && Sits(d, p, EncUri(uriType, uri))
    ensures GetI32(d, p) == Ok((uriType, p + 4))
    ensures GetUri(d, p + 4, uriType) == Ok((if uriType == 0 then None else uri, p + |EncUri(uriType, uri)|))
  {
    hide EncString8, GetString8;
    if uriType != 0 {
      SitsSplit(d, p, EncI32(uriType), EncString8(uri));
      I32RoundTrip(d, p, uriType);
      String8RoundTrip(d, p + 4, uri);
    } else {
      I32RoundTrip(d, p, 0);
    }
  }

  lemma BoundsRoundTrip(d: seq<Byte>, p: nat, bounds: I32, rect: (I32, I32, I32, I32))
    requires Sits(d, p, EncBounds(bounds, rect))
    ensures GetI32(d, p) == Ok((bounds, p + 4))
    ensures if bounds == 0 then |EncBounds(bounds, rect)| == 4 else GetRect(d, p + 4) == Ok(((), p + |EncBounds(bounds, rect)|))
  {
    hide EncI32, GetI32, Sits;
    if bounds == 0 {
      I32RoundTrip(d, p, 0);
    } else {
      var e3 := EncI32(rect.2) + EncI32(rect.3);
      var e2 := EncI32(rect.1) + e3;
      SitsSplit(d, p, EncI32(bounds), EncI32(rect.0) + e2);
      SitsSplit(d, p + 4, EncI32(rect.0), e2);
      SitsSplit(d, p + 8, EncI32(rect.1), e3);
      SitsSplit(d, p + 12, EncI32(rect.2), EncI32(rect.3));
      I32RoundTrip(d, p, bounds);
      I32RoundTrip(d, p + 4, rect.0);
      I32RoundTrip(d, p + 8, rect.1);
      I32RoundTrip(d, p + 12, rect.2);
      I32RoundTrip(d, p + 16, rect.3);
    }
  }

  lemma CategoriesRoundTrip(d: seq<Byte>, p: nat, c: Option<seq<Option<string>>>)
    requires Sits(d, p, EncCategories(c)) && (c.Some? ==> AllShort(c.value))
    ensures var n := if c.Some? then |c.value| else -1;
            && GetI32(d, p) == Ok((n, p + 4))
            && GetStrings(d, p + 4, if n > 0 then n else 0)
               == Ok((if c.Some? then Present(c.value) else [], p + |EncCategories(c)|))
  {
    hide EncStrings, Present, ShortEnough, Le;
    if c.Some? {
      SitsSplit(d, p, U32(|c.value|), EncStrings(c.value));
      U32Read(d, p, |c.value|);
      StringsRoundTrip(d, p + 4, c.value);
    } else {
      I32RoundTrip(d, p, -1);
    }
  }

  // Missing words at the end of the data read as absent.
  lemma TailSkipped(d: seq<Byte>, p: nat, ws: seq<I32>)
    requires Sits(d, p, EncWords(ws)) && |ws| <= 2
    requires |ws| < 2 ==> |d| < p + |EncWords(ws)| + 4
    ensures SkipI32(d, SkipI32(d, p)) == p + |EncWords(ws)|
  {
    hide EncI32;
    if ws != [] {
      SitsSplit(d, p, EncI32(ws[0]), EncWords(ws[1..]));
      I32RoundTrip(d, p, ws[0]);
      if |ws| == 2 {
        SitsSplit(d, p + 4, EncI32(ws[1..][0]), EncWords(ws[1..][1..]));
        I32RoundTrip(d, p + 4, ws[1]);
      }
    }
  }

  lemma PayloadRoundTrip(d: seq<Byte>, p: nat, w: Wire, t: Target)
    requires Sits(d, p, EncPayload(w)) && t.extras == None && |w.tail| <= 2
    requires |w.tail| == 2 || w.selector != 0 || w.clip != 0 || |d| < p + |EncPayload(w)| + 4
    ensures GetPayload(d, p, t) ==
            Ok((t.(extras := ExtrasOf(w)), p + |EncPayload(w)|))
  {
    hide EncI32, EncExtras, GetI32, GetExtras, Le, Sits, PresentExtras, EncWords, SkipI32;
    if w.selector != 0 {
      I32RoundTrip(d, p, w.selector);
    } else if w.clip != 0 {
      SitsSplit(d, p, EncI32(0), EncI32(w.clip));
      I32RoundTrip(d, p, 0);
      I32RoundTrip(d, p + 4, w.clip);
    } else {
      var x, end := EncExtras(w.extras), EncWords(w.tail);
      SitsSplit(d, p, EncI32(0), EncI32(0) + (EncI32(w.hint) + (x + end)));
      SitsSplit(d, p + 4, EncI32(0), EncI32(w.hint) + (x + end));
      SitsSplit(d, p + 8, EncI32(w.hint), x + end);
      SitsSplit(d, p + 12, x, end);
      I32RoundTrip(d, p, 0);
      I32RoundTrip(d, p + 4, 0);
      I32RoundTrip(d, p + 8, w.hint);
      ExtrasRoundTrip(d, p + 12, w.extras);
      TailSkipped(d, p + 12 + |x|, w.tail);
    }
  }

  // The bytes of w end with d, or with words that need not be there.
  predicate Complete(d: seq<Byte>, end: nat, w: Wire)
  {
    |w.tail| == 2 || w.selector != 0 || w.clip != 0 || |d| < end + 4
  }

  lemma TailRoundTrip(d: seq<Byte>, p: nat, w: Wire, t: Target)
    requires WireFits(w) && Sits(d, p, EncTail(w)) && t.extras == None && Complete(d, p + |EncTail(w)|, w)
    ensures GetRest(d, p, t) ==
            Ok((t.(categories := CategoriesOf(w), extras := ExtrasOf(w)), p + |EncTail(w)|))
  {
    hide EncI32, EncBounds, EncCategories, EncPayload, GetI32, GetStrings, GetPayload, ShortEnough, GetRect, Sits;
    hide PresentExtras, Present;
    var b, c := EncBounds(w.bounds, w.rect), EncCategories(w.categories);
    SitsSplit(d, p, b, c + EncPayload(w));
    SitsSplit(d, p + |b|, c, EncPayload(w));
    BoundsRoundTrip(d, p, w.bounds, w.rect);
    CategoriesRoundTrip(d, p + |b|, w.categories);
    PayloadRoundTrip(d, p + |b| + |c|, w,
                     t.(categories := CategoriesOf(w)));
  }

  lemma BodyRoundTrip(d: seq<Byte>, p: nat, w: Wire, t: Target)
    requires WireFits(w) && Sits(d, p, EncBody(w)) && t.extras == None && Complete(d, p + |EncBody(w)|, w)
    ensures GetBody(d, p, t) ==
            Ok((t.(package := PackageOf(w), class_ := ClassOf(w), categories := CategoriesOf(w), extras := ExtrasOf(w)),
                p + |EncBody(w)|))
  {
    hide EncI32, EncString8, EncComponent, EncTail, GetI32, GetString8, GetComponent, GetRest, Sits;
    hide CategoriesOf, ExtrasOf, Complete;
    var e8 := EncTail(w);
    var e7 := EncComponent(w.component) + e8;
    var e6 := EncString8(w.package) + e7;
    var e5 := EncI32(w.ext) + e6;
    var e4 := EncI32(w.flags) + e5;
    SitsSplit(d, p, EncString8(w.mimeType), EncString8(w.ident) + e4);
    String8RoundTrip(d, p, w.mimeType);
    var p3 := p + |EncString8(w.mimeType)|;
    SitsSplit(d, p3, EncString8(w.ident), e4);
    String8RoundTrip(d, p3, w.ident);
    var p4 := p3 + |EncString8(w.ident)|;
    SitsSplit(d, p4, EncI32(w.flags), e5);
    I32RoundTrip(d, p4, w.flags);
    SitsSplit(d, p4 + 4, EncI32(w.ext), e6);
    I32RoundTrip(d, p4 + 4, w.ext);
    SitsSplit(d, p4 + 8, EncString8(w.package), e7);
    String8RoundTrip(d, p4 + 8, w.package);
    var p5 := p4 + 8 + |EncString8(w.package)|;
    SitsSplit(d, p5, EncComponent(w.component), e8);
    ComponentRoundTrip(d, p5, w.component);
    var p6 := p5 + |EncComponent(w.component)|;
    TailRoundTrip(d, p6, w, t.(package := PackageOf(w), class_ := ClassOf(w)));
  }

  lemma WireSteps(d: seq<Byte>, p: nat, w: Wire)
    requires WireFits(w) && Sits(d, p, EncWire(w))
    requires 0 <= w.uriType <= 3 ==> Complete(d, p + |EncWire(w)|, w)
    ensures GetTarget(d, p) == Ok((Meaning(w), p + |EncWire(w)|))
  {
    hide EncI32, EncString8, EncUri, EncBody, GetI32, GetString8, GetUri, GetBody, ShortEnough, PresentExtras, Present;
    var p1 := p + |EncString8(w.action)|;
    if 0 <= w.uriType <= 3 {
      SitsSplit(d, p, EncString8(w.action), EncUri(w.uriType, w.uri) + EncBody(w));
      String8RoundTrip(d, p, w.action);
      SitsSplit(d, p1, EncUri(w.uriType, w.uri), EncBody(w));
      UriRoundTrip(d, p1, w.uriType, w.uri);
      BodyRoundTrip(d, p1 + |EncUri(w.uriType, w.uri)|, w,
                    EMPTY.(action := w.action, data := if w.uriType == 0 then None else w.uri));
    } else {
      SitsSplit(d, p, EncString8(w.action), EncI32(w.uriType));
      String8RoundTrip(d, p, w.action);
      I32RoundTrip(d, p1, w.uriType);
    }
  }

  // The reader returns what an intent means, whatever the intent and whatever surrounds it, and consumes
  // exactly its bytes.
  lemma WireReads(pre: seq<Byte>, w: Wire, post: seq<Byte>)
    requires WireFits(w)
    requires 0 <= w.uriType <= 3 && w.selector == 0 && w.clip == 0 && |w.tail| < 2 ==> |post| < 4
    ensures GetTarget(pre + EncWire(w) + post, |pre|) == Ok((Meaning(w), |pre| + |EncWire(w)|))
  {
    hide EncWire, GetTarget, Meaning;
    assert Sits(pre + EncWire(w) + post, |pre|, EncWire(w));
    WireSteps(pre + EncWire(w) + post, |pre|, w);
  }

  // ---------- the round trip ----------

  // Strings and lists whose lengths fit the format's i32 fields.
  predicate Fits(t: Target)
  {
    && ShortEnough(t.package) && ShortEnough(t.class_) && ShortEnough(t.action) && ShortEnough(t.data)
    && |t.categories| < 0x8000_0000
    && forall c :: c in t.categories ==> ShortEnough(Some(c))
  }

  function NormalExtras(e: Option<RawBundle>): (r: Option<RawBundle>)
  {
    if e.None? || e.value.length < 0 then None
    else if e.value.length == 0 then Some(RawBundle(0, 0, [], 0))
    else Some(e.value.(data := Fitted(e.value.data, Align4(e.value.length as int))))
  }

  // What survives the trip: a class only with its package, extras cut or padded to their length.
  function Normal(t: Target): (r: Target)
  {
    t.(intentType := 0, class_ := if t.package.Some? then t.class_ else None, extras := NormalExtras(t.extras))
  }

  // The targets that come back unchanged.
  predicate Canonical(t: Target)
  {
    && t.intentType == 0
    && (t.class_.Some? ==> t.package.Some?)
    && (t.extras.Some? ==>
      var b := t.extras.value;
      && b.length >= 0
      && (b.length == 0 ==> b.magic == 0 && b.hasIntent == 0)
      && |b.data| == Align4(b.length as int))
  }

  lemma NormalIff(t: Target)
    ensures Normal(t) == t <==> Canonical(t)
  {
    if t.extras.Some? && t.extras.value.length >= 0 {
      var b := t.extras.value;
      var n := Align4(b.length as int);
      assert |Fitted(b.data, n)| == n;
      if |b.data| == n {
        assert Fitted(b.data, n) == b.data;
      }
      assert NormalExtras(t.extras) == t.extras <==>
             |b.data| == n && (b.length == 0 ==> b.magic == 0 && b.hasIntent == 0);
    }
  }

  lemma {:induction false} SomesPresent(cs: seq<string>)
    ensures Present(Somes(cs)) == cs
    decreases cs
  {
    if cs != [] {
      assert Somes(cs)[1..] == Somes(cs[1..]);
      SomesPresent(cs[1..]);
    }
  }

  lemma NoneShort()
    ensures ShortEnough(None)
  {
  }

  // What is written for a target means its normal form.
  lemma WrittenMeans(t: Target)
    requires Fits(t)
    ensures WireFits(WireOf(ToIntent(t))) && Meaning(WireOf(ToIntent(t))) == Normal(t)
    ensures WireOf(ToIntent(t)).flags == 0 && WireOf(ToIntent(t)).uriType in {0, 1}
  {
    NoneShort();
    hide ShortEnough, Fitted;
    SomesPresent(t.categories);
    forall c | c in Somes(t.categories)
      ensures ShortEnough(c)
    {
    }
  }

  // Reading what was written for any target returns its normal form and consumes exactly the bytes
  // written, whatever surrounds them.
  lemma TargetRoundTrip(pre: seq<Byte>, t: Target, post: seq<Byte>)
    requires Fits(t)
    ensures var e := EncIntent(ToIntent(t));
            GetTarget(pre + e + post, |pre|) == Ok((Normal(t), |pre| + |e|))
  {
    hide GetTarget, EncWire;
    WrittenMeans(t);
    WireReads(pre, WireOf(ToIntent(t)), post);
  }

  // The reader inverts the writer exactly on the canonical targets.
  lemma InverseIff(pre: seq<Byte>, t: Target, post: seq<Byte>)
    requires Fits(t)
    ensures var e := EncIntent(ToIntent(t));
            GetTarget(pre + e + post, |pre|) == Ok((t, |pre| + |e|)) <==> Canonical(t)
  {
    hide Normal, Canonical, GetTarget, EncIntent;
    TargetRoundTrip(pre, t, post);
    NormalIff(t);
  }
}
