// Writing and reading intents step by step on a parcel, proved against Intents.
module IntentParcel {
  import opened Bytes
  import opened Parcels
  import opened Intents

  // ---------- Intent::write ----------

  function Named(c: Option<(string, string)>): Option<(string, Option<string>)>
  {
    if c.Some? then Some((c.value.0, Some(c.value.1))) else None
  }

  method WriteComponentName(p: Parcel, c: Option<(string, string)>)
    modifies p`data
    ensures p.data == old(p.data) + EncComponent(Named(c))
  {
    if c.Some? {
      p.WriteString16(Some(c.value.0));
      p.WriteString16(Some(c.value.1));
      assert p.data == old(p.data) + (EncString16(Some(c.value.0)) + EncString16(Some(c.value.1)));
    } else {
      p.WriteString16(None);
    }
  }

  lemma {:induction false} StringsAppend(cs: seq<Option<string>>, c: Option<string>)
    ensures EncStrings(cs + [c]) == EncStrings(cs) + EncString8(c)
  {
    hide EncString8;
    if cs == [] {
      var one: seq<Option<string>> := [c];
      assert one[1..] == [] && [] + [c] == one;
    } else {
      assert (cs + [c])[1..] == cs[1..] + [c];
      StringsAppend(cs[1..], c);
    }
  }

  method WriteCategories(p: Parcel, cs: seq<string>)
    modifies p`data
    ensures p.data == old(p.data) + EncCategories(Some(Somes(cs)))
  {
    hide EncString8;
    ghost var all := Somes(cs);
    if |cs| == 0 {
      p.WriteI32(0);
      assert U32(0) + EncStrings(all) == U32(0);
    } else {
      p.WriteLen(|cs|);
      for i := 0 to |cs|
        invariant p.data == old(p.data) + U32(|cs|) + EncStrings(all[..i])
      {
        p.WriteString8(Some(cs[i]));
        StringsAppend(all[..i], all[i]);
        assert all[..i + 1] == all[..i] + [all[i]];
      }
      assert all[..|cs|] == all;
      assert old(p.data) + U32(|cs|) + EncStrings(all) == old(p.data) + (U32(|cs|) + EncStrings(all));
    }
  }

  // `data.get(off).copied().unwrap_or(0)`
  function ByteOr0(data: seq<Byte>, off: nat): Byte
  {
    if off < |data| then data[off] else 0
  }

  method WriteExtras(p: Parcel, e: Option<RawBundle>)
    modifies p`data
    ensures p.data == old(p.data) + EncExtras(Absent(e))
  {
    hide EncI32;
    if e.Some? && e.value.length > 0 {
      var b := e.value;
      var n: nat := b.length;
      p.WriteI32(b.length);
      p.WriteI32(b.magic);
      var chunks := Align4(n) / 4;
      ghost var fit := Fitted(b.data, Align4(n));
      for i := 0 to chunks
        invariant p.data == old(p.data) + EncI32(b.length) + EncI32(b.magic) + fit[..4 * i]
      {
        var off := i * 4;
        var w := [ByteOr0(b.data, off), ByteOr0(b.data, off + 1), ByteOr0(b.data, off + 2), ByteOr0(b.data, off + 3)];
        WordBytes(w);
        p.WriteU32(LeNat(w));
        assert fit[..4 * (i + 1)] == fit[..4 * i] + w;
      }
      assert fit[..4 * chunks] == fit;
      p.WriteI32(b.hasIntent);
      Reassociate(old(p.data), EncI32(b.length), EncI32(b.magic), fit, EncI32(b.hasIntent));
    } else if e.Some? && e.value.length == 0 {
      p.WriteI32(0);
    } else {
      p.WriteI32(-1);
    }
  }

  lemma Reassociate(d: seq<Byte>, a: seq<Byte>, b: seq<Byte>, c: seq<Byte>, e: seq<Byte>)
    ensures d + a + b + c + e == d + (a + (b + (c + e)))
  {
  }

  method WriteTail(p: Parcel, i: Intent)
    modifies p`data
    ensures p.data == old(p.data) + EncTail(WireOf(i))
  {
    hide EncI32, EncCategories, EncExtras, Le, EncWords;
    p.WriteI32(0);
    WriteCategories(p, i.categories);
    p.WriteI32(0);
    p.WriteI32(0);
    p.WriteI32(-2);
    WriteExtras(p, i.extras);
    p.WriteI32(0);
    p.WriteI32(0);
    TwoWords();
    TailAssociates(old(p.data), EncCategories(Some(Somes(i.categories))), EncExtras(Absent(i.extras)));
  }

  lemma TwoWords()
    ensures EncWords([0, 0]) == EncI32(0) + EncI32(0)
  {
    hide EncI32;
    var one: seq<I32> := [0, 0][1..];
    assert one == [0] && one[1..] == [];
    assert EncWords(one) == EncI32(0) + [];
  }

  lemma TailAssociates(d: seq<Byte>, cs: seq<Byte>, x: seq<Byte>)
    ensures var z, u := EncI32(0), EncI32(-2);
            d + z + cs + z + z + u + x + z + z == d + (z + (cs + (z + (z + (u + (x + (z + z)))))))
  {
    hide EncI32;
    var z, u := EncI32(0), EncI32(-2);
    Reassociate(d, z, cs, z, z);
    var e := d + (z + (cs + (z + z)));
    Reassociate(e, u, x, z, z);
    assert e + (u + (x + (z + z))) == d + (z + (cs + (z + (z + (u + (x + (z + z)))))));
  }

  method WriteBody(p: Parcel, i: Intent)
    modifies p`data
    ensures p.data == old(p.data) + EncBody(WireOf(i))
  {
    hide EncI32, EncString8, EncComponent, EncTail;
    p.WriteString8(None);
    p.WriteString8(None);
    p.WriteI32(i.flags);
    p.WriteI32(0);
    p.WriteString8(i.package);
    ghost var none, f, z, k := EncString8(None), EncI32(i.flags), EncI32(0), EncString8(i.package);
    Reassociate(old(p.data), none, none, f, z);
    assert p.data == old(p.data) + (none + (none + (f + z))) + k;
    WriteComponentName(p, i.component);
    WriteTail(p, i);
    ghost var c, t := EncComponent(Named(i.component)), EncTail(WireOf(i));
    assert old(p.data) + (none + (none + (f + z))) + k + c + t
        == old(p.data) + (none + (none + (f + (z + (k + (c + t))))));
  }

  method WriteIntent(p: Parcel, i: Intent)
    modifies p`data
    ensures p.data == old(p.data) + EncIntent(i)
  {
    hide EncI32, EncString8, EncBody;
    p.WriteString8(i.action);
    ghost var d := p.data;
    if i.data.Some? {
      p.WriteI32(1);
      p.WriteString8(Some(i.data.value));
      assert p.data == d + (EncI32(1) + EncString8(i.data));
    } else {
      p.WriteI32(0);
    }
    ghost var uri, body := EncUri(if i.data.Some? then 1 else 0, i.data), EncBody(WireOf(i));
    assert p.data == d + uri;
    WriteBody(p, i);
    assert old(p.data) + EncString8(i.action) + uri + body == old(p.data) + (EncString8(i.action) + (uri + body));
  }

  // ---------- read_intent_target ----------

  // A reader on a parcel agrees with its function: same value, same position.
  ghost predicate Agrees<T>(g: Read<T>, r: Result<T, ParcelError>, pos: nat)
  {
    if g.Ok? then r == Ok(g.value.0) && pos == g.value.1 else r == Err(g.error)
  }

  // g with the strings read before it in front.
  function After(cs: seq<string>, g: Read<seq<string>>): Read<seq<string>>
  {
    if g.Err? then g else Ok((cs + g.value.0, g.value.1))
  }

  lemma AfterSteps(cs: seq<string>, c: Option<string>, g: Read<seq<string>>)
    ensures After([], g) == g
    ensures After(cs, Ok(([], 0))) == Ok((cs, 0))
    ensures g.Ok? && c.Some? ==>
              After(cs, Ok(([c.value] + g.value.0, g.value.1))) == After(cs + [c.value], g)
  {
    assert cs + [] == cs;
    if g.Ok? {
      assert [] + g.value.0 == g.value.0;
      if c.Some? {
        assert cs + ([c.value] + g.value.0) == cs + [c.value] + g.value.0;
      }
    }
  }

  method ReadCategories(p: Parcel, n: nat) returns (r: Result<seq<string>, ParcelError>)
    requires p.pos <= |p.data|
    modifies p`pos
    ensures p.pos <= |p.data|
    ensures Agrees(GetStrings(p.data, old(p.pos), n), r, p.pos)
  {
    hide GetString8;
    var categories: seq<string> := [];
    AfterSteps([], None, GetStrings(p.data, p.pos, n));
    for i := 0 to n
      invariant p.pos <= |p.data|
      invariant GetStrings(p.data, old(p.pos), n) == After(categories, GetStrings(p.data, p.pos, n - i))
    {
      ghost var q := p.pos;
      var c := p.ReadString8();
      if c.Err? {
        return Err(c.error);
      }
      AfterSteps(categories, c.value, GetStrings(p.data, p.pos, n - i - 1));
      if c.value.Some? {
        categories := categories + [c.value.value];
      }
    }
    AfterSteps(categories, None, Ok(([], 0)));
    return Ok(categories);
  }

  method ReadExtras(p: Parcel) returns (r: Result<Option<RawBundle>, ParcelError>)
    requires p.pos <= |p.data|
    modifies p`pos
    ensures p.pos <= |p.data|
    ensures Agrees(GetExtras(p.data, old(p.pos)), r, p.pos)
  {
    hide U32At;
    var len := p.ReadI32();
    if len.Err? {
      return Err(len.error);
    }
    if len.value > 0 {
      var n: nat := len.value;
      var magic := p.ReadI32();
      if magic.Err? {
        return Err(magic.error);
      }
      var bytes := p.ReadWords(Align4(n));
      if bytes.Err? {
        return Err(bytes.error);
      }
      var hasIntent := p.ReadI32();
      if hasIntent.Err? {
        return Err(hasIntent.error);
      }
      return Ok(Some(RawBundle(len.value, magic.value, bytes.value, hasIntent.value)));
    } else if len.value == 0 {
      return Ok(Some(RawBundle(0, 0, [], 0)));
    } else {
      return Ok(None);
    }
  }

  method ReadPayload(p: Parcel, t: Target) returns (r: Result<Target, ParcelError>)
    requires p.pos <= |p.data|
    modifies p`pos
    ensures p.pos <= |p.data|
    ensures Agrees(GetPayload(p.data, old(p.pos), t), r, p.pos)
  {
    hide GetI32, GetExtras;
    var selector := p.ReadI32();
    if selector.Err? { return Err(selector.error); }
    if selector.value != 0 {
      return Ok(t);
    }
    var clip := p.ReadI32();
    if clip.Err? { return Err(clip.error); }
    if clip.value != 0 {
      return Ok(t);
    }
    var hint := p.ReadI32();
    if hint.Err? { return Err(hint.error); }
    var extras := ReadExtras(p);
    if extras.Err? { return Err(extras.error); }
    var original := p.ReadI32();
    var creator := p.ReadI32();
    return Ok(t.(extras := extras.value));
  }

  method ReadRest(p: Parcel, t: Target) returns (r: Result<Target, ParcelError>)
    requires p.pos <= |p.data|
    modifies p`pos
    ensures p.pos <= |p.data|
    ensures Agrees(GetRest(p.data, old(p.pos), t), r, p.pos)
  {
    hide GetI32, GetPayload, GetStrings;
    var bounds := p.ReadI32();
    if bounds.Err? { return Err(bounds.error); }
    if bounds.value != 0 {
      var left := p.ReadI32();
      if left.Err? { return Err(left.error); }
      var top := p.ReadI32();
      if top.Err? { return Err(top.error); }
      var right := p.ReadI32();
      if right.Err? { return Err(right.error); }
      var bottom := p.ReadI32();
      if bottom.Err? { return Err(bottom.error); }
    }
    var count := p.ReadI32();
    if count.Err? { return Err(count.error); }
    var categories := ReadCategories(p, if count.value > 0 then count.value as int else 0);
    if categories.Err? { return Err(categories.error); }
    r := ReadPayload(p, t.(categories := categories.value));
  }

  method ReadBody(p: Parcel, target: Target) returns (r: Result<Target, ParcelError>)
    requires p.pos <= |p.data|
    modifies p`pos
    ensures p.pos <= |p.data|
    ensures Agrees(GetBody(p.data, old(p.pos), target), r, p.pos)
  {
    hide GetI32, GetString8, GetString16, GetRest;
    var mimeType := p.ReadString8();
    if mimeType.Err? { return Err(mimeType.error); }
    var ident := p.ReadString8();
    if ident.Err? { return Err(ident.error); }
    var flags := p.ReadI32();
    if flags.Err? { return Err(flags.error); }
    var ext := p.ReadI32();
    if ext.Err? { return Err(ext.error); }
    var ipkg := p.ReadString8();
    if ipkg.Err? { return Err(ipkg.error); }
    var cpkg := p.ReadString16();
    if cpkg.Err? { return Err(cpkg.error); }
    var ccls: Option<string> := None;
    if cpkg.value.Some? {
      var cls := p.ReadString16();
      if cls.Err? { return Err(cls.error); }
      ccls := cls.value;
    }
    r := ReadRest(p, target.(package := Or(cpkg.value, ipkg.value), class_ := ccls));
  }

  method ReadIntentTarget(p: Parcel) returns (r: Result<Target, ParcelError>)
    requires p.pos <= |p.data|
    modifies p`pos
    ensures p.pos <= |p.data|
    ensures Agrees(GetTarget(p.data, old(p.pos)), r, p.pos)
  {
    hide GetI32, GetString8, GetBody;
    var action := p.ReadString8();
    if action.Err? { return Err(action.error); }
    var uriType := p.ReadI32();
    if uriType.Err? { return Err(uriType.error); }
    if !(0 <= uriType.value <= 3) {
      return Ok(EMPTY.(action := action.value));
    }
    var uri: Option<string> := None;
    if uriType.value != 0 {
      var s := p.ReadString8();
      if s.Err? { return Err(s.error); }
      uri := s.value;
    }
    r := ReadBody(p, EMPTY.(action := action.value, data := uri));
  }

  // Writing a target's intent behind any bytes and reading it back from there.
  method WriteThenRead(p: Parcel, t: Target) returns (r: Result<Target, ParcelError>)
    requires Fits(t)
    modifies p
    ensures r == Ok(Normal(t)) && p.pos == |p.data|
    ensures r == Ok(t) <==> Canonical(t)
  {
    p.pos := |p.data|;
    ghost var before := p.data;
    WriteIntent(p, ToIntent(t));
    assert p.data == before + EncIntent(ToIntent(t)) + [];
    TargetRoundTrip(before, t, []);
    NormalIff(t);
    r := ReadIntentTarget(p);
  }
}
