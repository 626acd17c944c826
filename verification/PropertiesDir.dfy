// `write_properties_dir` (crates/aro-props/src/lib.rs): merge the input, build one area.
module PropertiesDir {
  import opened Bytes
  import opened Names
  import opened Records
  import opened Trie
  import opened Growth
  import opened PropertyArea
  import opened Sums

  type Entry = (seq<Byte>, seq<Byte>)

  // The value given last for each key.
  function LastWins(props: seq<Entry>): (m: map<seq<Byte>, seq<Byte>>)
  {
    if props == [] then map[]
    else
      var last := props[|props| - 1];
      LastWins(props[..|props| - 1])[last.0 := last.1]
  }

  lemma {:induction false} LastWinsIs(props: seq<Entry>, k: seq<Byte>)
    ensures k in LastWins(props) <==> exists i :: 0 <= i < |props| && props[i].0 == k
    ensures k in LastWins(props) ==>
              exists i :: 0 <= i < |props| && props[i] == (k, LastWins(props)[k])
                          && forall j :: i < j < |props| ==> props[j].0 != k
  {
    if props != [] {
      var n := |props| - 1;
      LastWinsIs(props[..n], k);
      if props[n].0 != k && k in LastWins(props) {
        var i :| 0 <= i < n && props[..n][i] == (k, LastWins(props[..n])[k])
                 && forall j :: i < j < n ==> props[..n][j].0 != k;
        assert props[i] == props[..n][i];
        forall j | i < j < |props|
          ensures props[j].0 != k
        {
          if j < n {
            assert props[j] == props[..n][j];
          }
        }
      }
    }
  }

  ghost predicate DistinctKeys(merged: seq<Entry>)
  {
    forall i, j :: 0 <= i < j < |merged| ==> merged[i].0 != merged[j].0
  }

  lemma {:induction false} DistinctSize(merged: seq<Entry>)
    requires DistinctKeys(merged)
    ensures |LastWins(merged)| == |merged|
  {
    if merged != [] {
      var n := |merged| - 1;
      DistinctSize(merged[..n]);
      LastWinsIs(merged[..n], merged[n].0);
    }
  }

  // Replacing the value of the entry that holds k.
  lemma {:induction false} UpdateEntry(merged: seq<Entry>, at: nat, v: seq<Byte>)
    requires DistinctKeys(merged) && at < |merged|
    ensures LastWins(merged[at := (merged[at].0, v)]) == LastWins(merged)[merged[at].0 := v]
  {
    var n := |merged| - 1;
    var merged' := merged[at := (merged[at].0, v)];
    if at == n {
      assert merged'[..n] == merged[..n];
    } else {
      UpdateEntry(merged[..n], at, v);
      assert merged'[..n] == merged[..n][at := (merged[at].0, v)];
      assert merged[n].0 != merged[at].0;
    }
  }

  lemma NothingYet(merged: seq<Entry>)
    ensures LastWins(merged[..0]) == map[]
  {
  }

  lemma OneMore(props: seq<Entry>, e: Entry)
    ensures LastWins(props + [e]) == LastWins(props)[e.0 := e.1]
  {
    assert (props + [e])[..|props|] == props;
  }

  // The merge loop: later entries override earlier ones in place.
  method Merge(props: seq<Entry>) returns (merged: seq<Entry>)
    ensures DistinctKeys(merged) && LastWins(merged) == LastWins(props)
  {
    hide LastWins;
    merged := [];
    NothingYet(props);
    NothingYet(merged);
    assert merged[..0] == merged;
    for i := 0 to |props|
      invariant DistinctKeys(merged) && LastWins(merged) == LastWins(props[..i])
    {
      var (k, v) := props[i];
      var at := 0;
      while at < |merged| && merged[at].0 != k
        invariant at <= |merged|
        invariant forall j :: 0 <= j < at ==> merged[j].0 != k
      {
        at := at + 1;
      }
      if at < |merged| {
        UpdateEntry(merged, at, v);
        merged := merged[at := (k, v)];
      } else {
        OneMore(merged, (k, v));
        merged := merged + [(k, v)];
      }
      OneMore(props[..i], props[i]);
      assert props[..i + 1] == props[..i] + [props[i]];
    }
    assert props[..|props|] == props;
  }

  // ---------- the size of an area ----------

  // The trie nodes of a set of names: every beginning of one of them.
  function NodePaths(keys: set<seq<Byte>>): (p: set<seq<Seg>>)
  {
    set k, i | k in keys && 0 < i <= |Split(k)| :: Split(k)[..i]
  }

  function NodeSize(path: seq<Seg>): nat
  {
    if path == [] then 0 else Size(NewNode(path[|path| - 1]))
  }

  function Entries(m: map<seq<Byte>, seq<Byte>>): (s: set<Entry>)
  {
    set k | k in m :: (k, m[k])
  }

  function EntrySize(e: Entry): nat
  {
    InfoCost(e.0, e.1)
  }

  // Bytes of the area that holds m: the root, each node once, each property.
  ghost function Need(m: map<seq<Byte>, seq<Byte>>): (n: nat)
  {
    BT_SIZE + Sum(NodePaths(m.Keys), NodeSize) + Sum(Entries(m), EntrySize)
  }

  ghost predicate NamesOk(m: map<seq<Byte>, seq<Byte>>)
  {
    forall k :: k in m ==> [] !in Split(k)
  }

  lemma {:induction false} MissingSum(p: set<seq<Seg>>, segs: seq<Seg>, k: nat)
    requires k <= |segs|
    ensures Sum(p + Prefixes(segs, k, |segs|), NodeSize) == Sum(p, NodeSize) + Missing(p, segs, k)
    decreases |segs| - k
  {
    hide Size;
    var n := |segs|;
    if k < n {
      MissingSum(p, segs, k + 1);
      var q, next := p + Prefixes(segs, k + 1, n), segs[..k + 1];
      assert forall x :: x in Prefixes(segs, k + 1, n) ==> |x| > k + 1;
      assert Prefixes(segs, k, n) == Prefixes(segs, k + 1, n) + {next};
      assert p + Prefixes(segs, k, n) == q + {next};
      assert NodeSize(next) == Size(NewNode(segs[k]));
      if next in p {
        assert q + {next} == q;
      } else {
        SumAdd(q, next, NodeSize);
      }
    } else {
      assert Prefixes(segs, n, n) == {};
      assert p + {} == p;
    }
  }

  lemma {:induction false} RootIsKnown(p: set<seq<Seg>>, segs: seq<Seg>, k: nat)
    requires k <= |segs|
    ensures Missing(p + {[]}, segs, k) == Missing(p, segs, k)
    decreases |segs| - k
  {
    hide Size;
    if k < |segs| {
      RootIsKnown(p, segs, k + 1);
      assert segs[..k + 1] != [];
    }
  }

  lemma MoreNodes(keys: set<seq<Byte>>, k: seq<Byte>)
    ensures NodePaths(keys + {k}) == NodePaths(keys) + Prefixes(Split(k), 0, |Split(k)|)
  {
  }

  lemma EntriesAdd(m: map<seq<Byte>, seq<Byte>>, k: seq<Byte>, v: seq<Byte>)
    requires k !in m
    ensures m[k := v].Keys == m.Keys + {k}
    ensures Entries(m[k := v]) == Entries(m) + {(k, v)} && (k, v) !in Entries(m)
  {
    assert forall x :: x in m ==> x in m[k := v] && m[k := v][x] == m[x];
  }

  // One more property: its missing nodes and its record.
  lemma NeedAdd(m: map<seq<Byte>, seq<Byte>>, k: seq<Byte>, v: seq<Byte>)
    requires k !in m
    ensures Need(m[k := v]) == Need(m) + Missing(NodePaths(m.Keys) + {[]}, Split(k), 0) + InfoCost(k, v)
  {
    hide NodePaths, InfoCost, Missing, Prefixes, NodeSize;
    var m' := m[k := v];
    EntriesAdd(m, k, v);
    MoreNodes(m.Keys, k);
    MissingSum(NodePaths(m.Keys), Split(k), 0);
    RootIsKnown(NodePaths(m.Keys), Split(k), 0);
    SumAdd(Entries(m), (k, v), EntrySize);
  }

  lemma NeedGrows(m: map<seq<Byte>, seq<Byte>>, n: map<seq<Byte>, seq<Byte>>)
    requires forall k :: k in m ==> k in n && n[k] == m[k]
    ensures Need(m) <= Need(n)
  {
    assert Entries(m) <= Entries(n);
    assert NodePaths(m.Keys) <= NodePaths(n.Keys);
    SumGrows(NodePaths(m.Keys), NodePaths(n.Keys), NodeSize);
    SumGrows(Entries(m), Entries(n), EntrySize);
  }

  lemma NeedNothing(m: map<seq<Byte>, seq<Byte>>)
    requires m == map[]
    ensures Need(m) == BT_SIZE && NodePaths(m.Keys) + {[]} == {[]}
  {
    assert Entries(m) == {} && m.Keys == {};
    assert NodePaths(m.Keys) == {};
  }

  // The merged entries before the i-th are among all of them.
  lemma {:induction false} Earlier(merged: seq<Entry>, i: nat)
    requires DistinctKeys(merged) && i <= |merged|
    ensures forall k :: k in LastWins(merged[..i]) ==>
              k in LastWins(merged) && LastWins(merged)[k] == LastWins(merged[..i])[k]
    decreases |merged| - i
  {
    if i < |merged| {
      Earlier(merged, i + 1);
      NextIsNew(merged, i);
    } else {
      assert merged[..i] == merged;
    }
  }

  // The next entry of a merged list is a new key.
  lemma NextIsNew(merged: seq<Entry>, i: nat)
    requires DistinctKeys(merged) && i < |merged|
    ensures merged[i].0 in LastWins(merged) && merged[i].0 !in LastWins(merged[..i])
    ensures LastWins(merged[..i + 1]) == LastWins(merged[..i])[merged[i].0 := merged[i].1]
  {
    LastWinsIs(merged[..i], merged[i].0);
    LastWinsIs(merged, merged[i].0);
    assert merged[..i + 1][..i] == merged[..i];
  }

  // The state of the area after the entries m.
  ghost predicate Built(area: PropArea, m: map<seq<Byte>, seq<Byte>>)
    reads area
  {
    && area.Valid() && area.props == m
    && |area.data| == Need(m) && Paths(area.places) == NodePaths(m.Keys) + {[]}
  }

  lemma BuiltFits(area: PropArea, m: map<seq<Byte>, seq<Byte>>)
    requires Built(area, m)
    ensures Need(m) <= CAPACITY
  {
    hide Need, Wf, Holds;
  }

  lemma AddNeeds(area: PropArea, m: map<seq<Byte>, seq<Byte>>, k: seq<Byte>, v: seq<Byte>)
    requires Built(area, m) && k !in m
    ensures |area.data| + AddCost(area.data, k, v) == Need(m[k := v])
    ensures NodePaths(m[k := v].Keys) + {[]} == Paths(area.places) + Prefixes(Split(k), 0, |Split(k)|)
  {
    hide Wf, Holds, Get, Need, Paths, Prefixes, NodePaths, Missing, InfoCost, AddCost;
    AddCostIs(area.View(), k, v);
    NeedAdd(m, k, v);
    MoreNodes(m.Keys, k);
    assert m[k := v].Keys == m.Keys + {k};
  }

  // Builds the property area file of `props`; returns the number of properties and its bytes. The call
  // succeeds exactly when no name has an empty segment and the area they need fits.
  method WritePropertiesDir(props: seq<Entry>) returns (r: Result<(nat, seq<Byte>), Failure>)
    ensures r.Ok? <==> NamesOk(LastWins(props)) && Need(LastWins(props)) <= 131072 - 128
    ensures r.Ok? ==>
              && r.value.0 == |LastWins(props)|
              && |r.value.1| == 131072
              && U32At(r.value.1, 0) == Need(LastWins(props))
              && forall name {:trigger Get(r.value.1[128..], name)} ::
                Get(r.value.1[128..], name) ==
                  if name in LastWins(props) then Some(Reading(name, LastWins(props)[name])) else None
    // The merged list never meets the duplicate error.
    ensures r.Err? ==> r.error != Duplicate
    ensures r == Err(InvalidName) ==> exists k :: k in LastWins(props) && [] in Split(k)
  {
    hide Get, Reading, Split, AddCost, LastWins, DistinctKeys, PropArea.Valid, Need, NodePaths, Prefixes, Paths;
    var merged := Merge(props);
    var area := new PropArea();
    NothingYet(merged);
    NeedNothing(LastWins(merged[..0]));
    for i := 0 to |merged|
      invariant Built(area, LastWins(merged[..i]))
      invariant forall k :: k in LastWins(merged[..i]) ==> [] !in Split(k)
    {
      NextIsNew(merged, i);
      Earlier(merged, i + 1);
      NeedGrows(LastWins(merged[..i + 1]), LastWins(merged));
      AddNeeds(area, LastWins(merged[..i]), merged[i].0, merged[i].1);
      var added := area.Add(merged[i].0, merged[i].1);
      if added.Err? {
        return Err(added.error);
      }
    }
    assert merged[..|merged|] == merged;
    DistinctSize(merged);
    BuiltFits(area, LastWins(merged));
    var bytes := area.ToBytes();
    return Ok((|merged|, bytes));
  }
}
