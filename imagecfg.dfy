/**
  imagecfg's repeatable flag: RepeatStr collects every occurrence of a flag
  and reads them back as a list, as a key=value map where the last value of a
  key wins, or as a map from key to the comma-separated parts of all of its
  values. run turns the collected flags into the values a rootfs template is
  executed with.
 */
module ImageCfg {
  import opened Wrappers
  import opened Strings

  /** A flag value of the form key=value (split at its first '='). */
  predicate IsKeyval(v: string) {
    '=' in v
  }

  predicate AllKeyvals(vs: seq<string>) {
    forall i :: 0 <= i < |vs| ==> IsKeyval(vs[i])
  }

  /** The part before the first '='. */
  function KeyOf(v: string): (k: string)
    requires IsKeyval(v)
    ensures '=' !in k
  {
    Cut(v, '=').value.0
  }

  /** The part after the first '=', which may itself hold further '='. */
  function ValOf(v: string): (val: string)
    requires IsKeyval(v)
    ensures KeyOf(v) + "=" + val == v
  {
    Cut(v, '=').value.1
  }

  // ----- AsKeyvals -----

  /** The key=value map of vs, built value by value; a later value of a key replaces an earlier one. */
  function KeyvalsOf(vs: seq<string>): (m: map<string, string>)
    requires AllKeyvals(vs)
    decreases |vs|
  {
    if vs == [] then map[]
    else
      var v := vs[|vs| - 1];
      KeyvalsOf(vs[..|vs| - 1])[KeyOf(v) := ValOf(v)]
  }

  lemma InitKeyvals(vs: seq<string>)
    requires AllKeyvals(vs) && vs != []
    ensures AllKeyvals(vs[..|vs| - 1])
  {
    var init := vs[..|vs| - 1];
    forall i | 0 <= i < |init| ensures IsKeyval(init[i]) { assert init[i] == vs[i]; }
  }

  /** One more flag value extends the map as AsKeyvals' loop body does. */
  lemma KeyvalsSnoc(vs: seq<string>, v: string)
    requires AllKeyvals(vs) && IsKeyval(v)
    ensures AllKeyvals(vs + [v])
    ensures KeyvalsOf(vs + [v]) == KeyvalsOf(vs)[KeyOf(v) := ValOf(v)]
  {
    assert (vs + [v])[..|vs|] == vs;
  }

  /** The keys of vs, one per flag value, in flag order. */
  function KeysOf(vs: seq<string>): (ks: seq<string>)
    requires AllKeyvals(vs)
    ensures |ks| == |vs| && forall i :: 0 <= i < |vs| ==> ks[i] == KeyOf(vs[i])
  {
    seq(|vs|, i requires 0 <= i < |vs| => KeyOf(vs[i]))
  }

  /** The keys of all but the last value, then the last value's key. */
  lemma KeysSnoc(vs: seq<string>)
    requires AllKeyvals(vs) && vs != []
    ensures AllKeyvals(vs[..|vs| - 1])
    ensures KeysOf(vs) == KeysOf(vs[..|vs| - 1]) + [KeyOf(vs[|vs| - 1])]
  {
    InitKeyvals(vs);
    var init := vs[..|vs| - 1];
    assert forall i :: 0 <= i < |init| ==> init[i] == vs[i];
  }

  /** The keys of the key=value map are exactly the keys seen. */
  lemma {:induction false} KeyvalsKeys(vs: seq<string>)
    requires AllKeyvals(vs)
    ensures forall k :: k in KeyvalsOf(vs) <==> k in KeysOf(vs)
    decreases |vs|
  {
    if vs != [] {
      KeysSnoc(vs);
      KeyvalsKeys(vs[..|vs| - 1]);
    }
  }

  /** Each key maps to the value part of the last flag value with that key. */
  lemma {:induction false} KeyvalsLastWins(vs: seq<string>)
    requires AllKeyvals(vs)
    ensures forall i :: 0 <= i < |vs| && (forall j :: i < j < |vs| ==> KeyOf(vs[j]) != KeyOf(vs[i])) ==>
      KeyOf(vs[i]) in KeyvalsOf(vs) && KeyvalsOf(vs)[KeyOf(vs[i])] == ValOf(vs[i])
    decreases |vs|
  {
    if vs != [] {
      InitKeyvals(vs);
      var init := vs[..|vs| - 1];
      KeyvalsLastWins(init);
      forall i | 0 <= i < |vs| && (forall j :: i < j < |vs| ==> KeyOf(vs[j]) != KeyOf(vs[i]))
        ensures KeyOf(vs[i]) in KeyvalsOf(vs) && KeyvalsOf(vs)[KeyOf(vs[i])] == ValOf(vs[i])
      {
        if i < |init| {
          assert init[i] == vs[i];
          forall j | i < j < |init| ensures KeyOf(init[j]) != KeyOf(init[i]) {
            assert init[j] == vs[j];
          }
        }
      }
    }
  }

  // ----- AsMap -----

  /** The key to channels map of vs, built value by value; each value appends its comma-split parts. */
  function MapOf(vs: seq<string>): (m: map<string, seq<string>>)
    requires AllKeyvals(vs)
    decreases |vs|
  {
    if vs == [] then map[]
    else
      var v := vs[|vs| - 1];
      var m := MapOf(vs[..|vs| - 1]);
      var k := KeyOf(v);
      m[k := (if k in m then m[k] else []) + Split(ValOf(v), ',')]
  }

  /** One more flag value extends the map as AsMap's loop body does. */
  lemma MapOfSnoc(vs: seq<string>, v: string)
    requires AllKeyvals(vs) && IsKeyval(v)
    ensures AllKeyvals(vs + [v])
    ensures var m := MapOf(vs); var k := KeyOf(v);
      MapOf(vs + [v]) == m[k := (if k in m then m[k] else []) + Split(ValOf(v), ',')]
  {
    assert (vs + [v])[..|vs|] == vs;
  }

  /** An independent account of one key's channels: the comma-split value parts of its values, in flag order. */
  function ChannelsFor(vs: seq<string>, k: string): seq<string>
    requires AllKeyvals(vs)
    decreases |vs|
  {
    if vs == [] then []
    else
      (if KeyOf(vs[0]) == k then Split(ValOf(vs[0]), ',') else []) + ChannelsFor(vs[1..], k)
  }

  lemma {:induction false} ChannelsForConcat(a: seq<string>, b: seq<string>, k: string)
    requires AllKeyvals(a) && AllKeyvals(b)
    ensures AllKeyvals(a + b)
    ensures ChannelsFor(a + b, k) == ChannelsFor(a, k) + ChannelsFor(b, k)
    decreases |a|
  {
    assert AllKeyvals(a + b) by {
      forall i | 0 <= i < |a + b| ensures IsKeyval((a + b)[i]) {
        if i < |a| { assert (a + b)[i] == a[i]; } else { assert (a + b)[i] == b[i - |a|]; }
      }
    }
    if a == [] {
      assert a + b == b;
    } else {
      assert (a + b)[0] == a[0];
      assert (a + b)[1..] == a[1..] + b;
      ChannelsForConcat(a[1..], b, k);
    }
  }

  /** The keys of the channel map are exactly the keys seen. */
  lemma {:induction false} MapKeys(vs: seq<string>)
    requires AllKeyvals(vs)
    ensures forall k :: k in MapOf(vs) <==> k in KeysOf(vs)
    decreases |vs|
  {
    if vs != [] {
      KeysSnoc(vs);
      MapKeys(vs[..|vs| - 1]);
    }
  }

  /**
    Each key's list is the concatenation, in flag order, of the comma-split
    value parts of all the values with that key.
   */
  lemma {:induction false} MapOfChannels(vs: seq<string>)
    requires AllKeyvals(vs)
    ensures forall k :: k in MapOf(vs) ==> MapOf(vs)[k] == ChannelsFor(vs, k)
    decreases |vs|
  {
    if vs != [] {
      InitKeyvals(vs);
      var init := vs[..|vs| - 1];
      var v := vs[|vs| - 1];
      MapOfChannels(init);
      MapKeys(init);
      assert vs == init + [v];
      forall k | k in MapOf(vs) ensures MapOf(vs)[k] == ChannelsFor(vs, k) {
        ChannelsForConcat(init, [v], k);
        assert ChannelsFor([v], k) == (if KeyOf(v) == k then Split(ValOf(v), ',') else []) + ChannelsFor([], k);
        if k !in MapOf(init) {
          NoChannelsWithoutKey(init, k);
        }
      }
    }
  }

  lemma {:induction false} NoChannelsWithoutKey(vs: seq<string>, k: string)
    requires AllKeyvals(vs)
    requires forall i :: 0 <= i < |vs| ==> KeyOf(vs[i]) != k
    ensures ChannelsFor(vs, k) == []
    decreases |vs|
  {
    if vs != [] {
      assert KeyOf(vs[0]) != k;
      forall i | 0 <= i < |vs[1..]| ensures KeyOf(vs[1..][i]) != k { assert vs[1..][i] == vs[i + 1]; }
      NoChannelsWithoutKey(vs[1..], k);
    }
  }

  /**
    The two readings agree: a key's channel list ends with the comma-split
    parts of the value the key=value map keeps for it.
   */
  lemma {:induction false} MapEndsWithKeyval(vs: seq<string>, k: string)
    requires AllKeyvals(vs) && k in KeyvalsOf(vs)
    ensures k in MapOf(vs)
    ensures var c := MapOf(vs)[k]; var s := Split(KeyvalsOf(vs)[k], ',');
      |s| <= |c| && c[|c| - |s|..] == s
    decreases |vs|
  {
    InitKeyvals(vs);
    var init := vs[..|vs| - 1];
    var v := vs[|vs| - 1];
    assert KeyvalsOf(vs) == KeyvalsOf(init)[KeyOf(v) := ValOf(v)];
    var m := MapOf(init);
    assert MapOf(vs) == m[KeyOf(v) := (if KeyOf(v) in m then m[KeyOf(v)] else []) + Split(ValOf(v), ',')];
    if KeyOf(v) != k {
      MapEndsWithKeyval(init, k);
    }
  }

  /**
    A single source flag url=c1,c2,... yields one source, url, whose channels
    are the comma-split parts (the case main_test.go exercises).
   */
  lemma OneSource(url: string, val: string)
    requires '=' !in url
    ensures IsKeyval(url + ['='] + val)
    ensures MapOf([url + ['='] + val]) == map[url := Split(val, ',')]
  {
    var v := url + ['='] + val;
    CutAt(url, '=', val);
    assert KeyOf(v) == url && ValOf(v) == val;
    var vs := [v];
    assert vs[..0] == [];
    assert MapOf(vs) == MapOf([])[url := [] + Split(val, ',')];
    assert [] + Split(val, ',') == Split(val, ',');
    assert MapOf([]) == map[];
  }

  // ----- RepeatStr -----

  class RepeatStr {
    var values: seq<string>

    constructor ()
      ensures values == []
    {
      values := [];
    }

    /**
      String: the values joined with ';' (strings.Join), empty when there are
      none; a non-empty value list without ';' in it splits back.
     */
    function String(): (s: string)
      reads this
      ensures s == Join(values, ';')
      ensures values == [] ==> s == ""
      ensures values != [] && (forall i :: 0 <= i < |values| ==> ';' !in values[i]) ==> Split(s, ';') == values
    {
      var s := Join(values, ';');
      assert values != [] && (forall i :: 0 <= i < |values| ==> ';' !in values[i]) ==> Split(s, ';') == values by {
        if values != [] && (forall i :: 0 <= i < |values| ==> ';' !in values[i]) {
          SplitJoin(values, ';');
        }
      }
      s
    }

    /** Set: appends the value and never fails. */
    method Set(value: string) returns (err: Option<string>)
      modifies this
      ensures values == old(values) + [value]
      ensures err.None?
    {
      values := values + [value];
      err := None;
    }

    /** Values: every value Set, in the order it was set. */
    function Values(): (vs: seq<string>)
      reads this
      ensures |vs| == |values| && forall i :: 0 <= i < |vs| ==> vs[i] == values[i]
    {
      values
    }

    /**
      AsKeyvals: the first value without '=' is the error and no map is
      returned; otherwise the key=value map, the last value of a key winning.
     */
    method AsKeyvals() returns (r: Result<map<string, string>, string>)
      ensures r.Err? <==> !AllKeyvals(values)
      ensures r.Err? ==> exists i :: 0 <= i < |values| && values[i] == r.error && !IsKeyval(r.error) && AllKeyvals(values[..i])
      ensures r.Ok? ==> AllKeyvals(values) && r.value == KeyvalsOf(values)
    {
      var ret := map[];
      for i := 0 to |values|
        invariant AllKeyvals(values[..i])
        invariant ret == KeyvalsOf(values[..i])
      {
        var value := values[i];
        var kv := Cut(value, '=');
        if kv.None? {
          return Err(value);
        }
        assert values[..i + 1] == values[..i] + [value];
        KeyvalsSnoc(values[..i], value);
        ret := ret[kv.value.0 := kv.value.1];
      }
      assert values[..|values|] == values;
      r := Ok(ret);
    }

    /**
      AsMap: the first value without '=' is the error and no map is
      returned; otherwise each key maps to the comma-split parts of its
      values, accumulated in flag order.
     */
    method AsMap() returns (r: Result<map<string, seq<string>>, string>)
      ensures r.Err? <==> !AllKeyvals(values)
      ensures r.Err? ==> exists i :: 0 <= i < |values| && values[i] == r.error && !IsKeyval(r.error) && AllKeyvals(values[..i])
      ensures r.Ok? ==> AllKeyvals(values) && r.value == MapOf(values)
    {
      var ret := map[];
      for i := 0 to |values|
        invariant AllKeyvals(values[..i])
        invariant ret == MapOf(values[..i])
      {
        var value := values[i];
        var kv := Cut(value, '=');
        if kv.None? {
          return Err(value);
        }
        assert values[..i + 1] == values[..i] + [value];
        MapOfSnoc(values[..i], value);
        var key := kv.value.0;
        var vals := Split(kv.value.1, ',');
        ret := ret[key := (if key in ret then ret[key] else []) + vals];
      }
      assert values[..|values|] == values;
      r := Ok(ret);
    }
  }

  // ----- run: the template data -----

  datatype Source = Source(channels: seq<string>, url: string)

  datatype RootFsValues = RootFsValues(archs: seq<string>, sources: seq<Source>, packages: seq<string>)

  /** Exactly one source per key of m, carrying that key's list; their order is unspecified. */
  predicate SourcesOf(srcs: seq<Source>, m: map<string, seq<string>>) {
    && (forall i :: 0 <= i < |srcs| ==> srcs[i].url in m && srcs[i].channels == m[srcs[i].url])
    && (forall i, j :: 0 <= i < j < |srcs| ==> srcs[i].url != srcs[j].url)
    && (forall k :: k in m ==> exists i :: 0 <= i < |srcs| && srcs[i].url == k)
  }

  /**
    The data run hands to the template: the arch and package flags as they
    were given, and one source per distinct source URL with its channels; a
    malformed source flag aborts with that value.
   */
  method AssembleData(packages: RepeatStr, archs: RepeatStr, sources: RepeatStr)
    returns (r: Result<RootFsValues, string>)
    ensures r.Err? <==> !AllKeyvals(sources.values)
    ensures r.Ok? ==> && r.value.archs == archs.values
                      && r.value.packages == packages.values
                      && SourcesOf(r.value.sources, MapOf(sources.values))
  {
    var archVals := archs.Values();
    var packageVals := packages.Values();
    var srcs := sources.AsMap();
    if srcs.Err? {
      return Err(srcs.error);
    }
    var m := srcs.value;
    var list: seq<Source> := [];
    var rest := m.Keys;
    while rest != {}
      invariant rest <= m.Keys
      invariant forall i :: 0 <= i < |list| ==> list[i].url in m && list[i].url !in rest && list[i].channels == m[list[i].url]
      invariant forall i, j :: 0 <= i < j < |list| ==> list[i].url != list[j].url
      invariant forall k :: k in m && k !in rest ==> exists i :: 0 <= i < |list| && list[i].url == k
      decreases rest
    {
      var k :| k in rest;
      ghost var before := list;
      list := list + [Source(m[k], k)];
      assert list[|list| - 1].url == k;
      assert forall i :: 0 <= i < |before| ==> list[i] == before[i];
      rest := rest - {k};
    }
    r := Ok(RootFsValues(archVals, list, packageVals));
  }
}
