/** Layered configuration: the recursive merge, its fold over presets, and what each key path gets. */
module DeepMerge {
  import opened Optional

  /** A parsed YAML value. A scalar other than a string is opaque to the merge. */
  datatype Json = Text(text: string) | Scalar(token: string) | List(items: seq<Json>) | Obj(fields: Fields)

  type Fields = map<string, Json>

  type Path = seq<string>

  // ----- the merge -----

  /** The value stored under a key that both sides have. */
  function MergeValue(target: Json, source: Json): Json
    decreases source
  {
    if target.Obj? && source.Obj? then
      Obj(map k | k in target.fields.Keys + source.fields.Keys ::
        if k !in source.fields then target.fields[k]
        else if k !in target.fields then source.fields[k]
        else MergeValue(target.fields[k], source.fields[k]))
    else source
  }

  function Merge(target: Fields, source: Fields): Fields {
    MergeValue(Obj(target), Obj(source)).fields
  }

  /** What one key of the source contributes. */
  function MergedKey(target: Fields, source: Fields, key: string): (r: Json)
    requires key in source
    ensures key in Merge(target, source) && r == Merge(target, source)[key]
  {
    if key in target then MergeValue(target[key], source[key]) else source[key]
  }

  /** The loop over the source's keys, in any order, filling a copy of the target. */
  method DeepMerge(target: Fields, source: Fields) returns (result: Fields)
    ensures result == Merge(target, source)
    decreases Obj(source)
  {
    result := target;
    var todo := source.Keys;
    while todo != {}
      invariant todo <= source.Keys
      invariant result.Keys == target.Keys + (source.Keys - todo)
      invariant forall k :: k in source && k !in todo ==> result[k] == MergedKey(target, source, k)
      invariant forall k :: k in target && (k !in source || k in todo) ==> result[k] == target[k]
      decreases todo
    {
      var key :| key in todo;
      if source[key].Obj? && key in target && target[key].Obj? {
        assert source[key] < Obj(source);
        var merged := DeepMerge(target[key].fields, source[key].fields);
        assert Obj(merged) == MergeValue(target[key], source[key]);
        result := result[key := Obj(merged)];
      } else {
        result := result[key := source[key]];
      }
      todo := todo - {key};
    }
  }

  // ----- what a key path holds -----

  function At(v: Json, p: Path): Option<Json>
    decreases |p|
  {
    if p == [] then Some(v)
    else if v.Obj? && p[0] in v.fields then At(v.fields[p[0]], p[1..])
    else None
  }

  /** Somewhere strictly before the end of `p` there is a value that is not an object. */
  predicate Blocks(v: Json, p: Path)
    decreases |p|
  {
    p != [] && (v.Obj? ==> p[0] in v.fields && Blocks(v.fields[p[0]], p[1..]))
  }

  /** Every path of a merge, with no condition on the two sides. */
  lemma {:induction false} MergedAt(a: Json, b: Json, p: Path)
    ensures At(MergeValue(a, b), p) ==
      if At(b, p).Some? then
        Some(if At(a, p).Some? then MergeValue(At(a, p).value, At(b, p).value) else At(b, p).value)
      else if Blocks(b, p) then None
      else At(a, p)
    decreases |p|
  {
    if p != [] && a.Obj? && b.Obj? && p[0] in a.fields && p[0] in b.fields {
      MergedAt(a.fields[p[0]], b.fields[p[0]], p[1..]);
    } else if p != [] && a.Obj? && b.Obj? && p[0] in b.fields {
      assert MergeValue(a, b).fields[p[0]] == b.fields[p[0]];
      BlockedIsAbsent(b, p);
    } else if p != [] && !a.Obj? {
      BlockedIsAbsent(b, p);
    }
  }

  lemma {:induction false} BlockedIsAbsent(v: Json, p: Path)
    ensures Blocks(v, p) ==> At(v, p).None?
    decreases |p|
  {
    if p != [] && v.Obj? && p[0] in v.fields {
      BlockedIsAbsent(v.fields[p[0]], p[1..]);
    }
  }

  /** A value that holds something at `p` is an object all the way there. */
  lemma {:induction false} PresentIsObjectAbove(v: Json, p: Path, n: nat)
    requires At(v, p).Some? && n < |p|
    ensures At(v, p[..n]).Some? && At(v, p[..n]).value.Obj?
    decreases n
  {
    if n > 0 {
      assert p[1..][..n - 1] == p[..n][1..];
      PresentIsObjectAbove(v.fields[p[0]], p[1..], n - 1);
    }
  }

  /** Where a value blocks `p`, a proper prefix of `p` holds a non-object. */
  lemma {:induction false} BlockedAtAPrefix(v: Json, p: Path) returns (n: nat)
    requires Blocks(v, p)
    ensures n < |p| && At(v, p[..n]).Some? && !At(v, p[..n]).value.Obj?
    decreases |p|
  {
    if v.Obj? {
      var m := BlockedAtAPrefix(v.fields[p[0]], p[1..]);
      n := m + 1;
      assert p[..n][1..] == p[1..][..m];
    } else {
      n := 0;
    }
  }

  // ----- layers -----

  /** Presets from left to right on an empty start, the repository's own fields last. */
  function Fold(layers: seq<Fields>): Fields {
    if layers == [] then map[] else Merge(Fold(layers[..|layers| - 1]), layers[|layers| - 1])
  }

  predicate Untouched(layer: Fields, p: Path) {
    At(Obj(layer), p).None? && !Blocks(Obj(layer), p)
  }

  predicate SparesObject(layer: Fields, p: Path) {
    !Blocks(Obj(layer), p) && (At(Obj(layer), p).Some? ==> At(Obj(layer), p).value.Obj?)
  }

  /** Layer `i` puts `v` at `p` and no later layer says anything about `p` or cuts it off. */
  predicate LastPut(layers: seq<Fields>, p: Path, v: Json, i: int) {
    0 <= i < |layers| && At(Obj(layers[i]), p) == Some(v) &&
    forall j :: i < j < |layers| ==> Untouched(layers[j], p)
  }

  predicate LastObject(layers: seq<Fields>, p: Path, i: int) {
    0 <= i < |layers| && At(Obj(layers[i]), p).Some? && At(Obj(layers[i]), p).value.Obj? &&
    forall j :: i < j < |layers| ==> SparesObject(layers[j], p)
  }

  ghost predicate PutSomewhere(layers: seq<Fields>, p: Path, v: Json) {
    exists i :: LastPut(layers, p, v, i)
  }

  ghost predicate ObjectSomewhere(layers: seq<Fields>, p: Path) {
    exists i :: LastObject(layers, p, i)
  }

  lemma {:induction false} LastPutSteps(layers: seq<Fields>, p: Path, v: Json)
    requires layers != []
    ensures PutSomewhere(layers, p, v) <==>
      (At(Obj(layers[|layers| - 1]), p) == Some(v) ||
       (Untouched(layers[|layers| - 1], p) && PutSomewhere(layers[..|layers| - 1], p, v)))
  {
    var n := |layers| - 1;
    if i :| LastPut(layers, p, v, i) {
      assert i < n ==> LastPut(layers[..n], p, v, i);
    }
    if At(Obj(layers[n]), p) == Some(v) {
      assert LastPut(layers, p, v, n);
    }
    if i :| LastPut(layers[..n], p, v, i) {
      if Untouched(layers[n], p) {
        assert LastPut(layers, p, v, i);
      }
    }
  }

  lemma {:induction false} LastObjectSteps(layers: seq<Fields>, p: Path)
    requires layers != []
    ensures var last := layers[|layers| - 1];
      ObjectSomewhere(layers, p) <==>
      ((At(Obj(last), p).Some? && At(Obj(last), p).value.Obj?) ||
       (SparesObject(last, p) && ObjectSomewhere(layers[..|layers| - 1], p)))
  {
    var n := |layers| - 1;
    if i :| LastObject(layers, p, i) {
      assert i < n ==> LastObject(layers[..n], p, i);
    }
    if At(Obj(layers[n]), p).Some? && At(Obj(layers[n]), p).value.Obj? {
      assert LastObject(layers, p, n);
    }
    if i :| LastObject(layers[..n], p, i) {
      if SparesObject(layers[n], p) {
        assert LastObject(layers, p, i);
      }
    }
  }

  /** Which scalar or list ends up at `p`, for all layers: exactly the last one put there that nothing later disturbs. */
  lemma {:induction false} NonObjectAtExactly(layers: seq<Fields>, p: Path, v: Json)
    requires !v.Obj?
    ensures At(Obj(Fold(layers)), p) == Some(v) <==> PutSomewhere(layers, p, v)
    decreases |layers|
  {
    if layers != [] {
      var n := |layers| - 1;
      NonObjectAtExactly(layers[..n], p, v);
      LastPutSteps(layers, p, v);
      MergedAt(Obj(Fold(layers[..n])), Obj(layers[n]), p);
    }
  }

  /** Where objects end up, for all layers. */
  lemma {:induction false} ObjectAtExactly(layers: seq<Fields>, p: Path)
    requires p != []
    ensures At(Obj(Fold(layers)), p).Some? && At(Obj(Fold(layers)), p).value.Obj? <==>
      ObjectSomewhere(layers, p)
    decreases |layers|
  {
    if layers != [] {
      var n := |layers| - 1;
      ObjectAtExactly(layers[..n], p);
      LastObjectSteps(layers, p);
      MergedAt(Obj(Fold(layers[..n])), Obj(layers[n]), p);
      BlockedIsAbsent(Obj(layers[n]), p);
    }
  }

  // ----- layers that agree on which paths are objects -----

  predicate AgreeAt(a: Json, b: Json, p: Path) {
    At(a, p).Some? && At(b, p).Some? ==> (At(a, p).value.Obj? <==> At(b, p).value.Obj?)
  }

  ghost predicate Agree(a: Json, b: Json) {
    forall p :: AgreeAt(a, b, p)
  }

  ghost predicate AllAgree(layers: seq<Fields>) {
    forall i, j :: 0 <= i < j < |layers| ==> Agree(Obj(layers[i]), Obj(layers[j]))
  }

  lemma AgreeingDoesNotBlock(a: Json, b: Json, p: Path)
    requires Agree(a, b) && At(a, p).Some?
    ensures !Blocks(b, p)
  {
    if Blocks(b, p) {
      var n := BlockedAtAPrefix(b, p);
      assert AgreeAt(a, b, p[..n]);
      PresentIsObjectAbove(a, p, n);
    }
  }

  predicate RightmostDefining(layers: seq<Fields>, p: Path, i: int) {
    0 <= i < |layers| && At(Obj(layers[i]), p).Some? &&
    forall j :: i < j < |layers| ==> At(Obj(layers[j]), p).None?
  }

  /** Agreeing layers: the rightmost layer that defines `p` decides, and nobody else can. */
  lemma RightmostLayerWins(layers: seq<Fields>, p: Path, i: nat)
    requires AllAgree(layers) && RightmostDefining(layers, p, i)
    ensures At(Obj(Fold(layers)), p).Some?
    ensures At(Obj(layers[i]), p).value.Obj? <==> At(Obj(Fold(layers)), p).value.Obj?
    ensures !At(Obj(layers[i]), p).value.Obj? ==> At(Obj(Fold(layers)), p) == At(Obj(layers[i]), p)
  {
    forall j | i < j < |layers| ensures Untouched(layers[j], p) && SparesObject(layers[j], p) {
      AgreeingDoesNotBlock(Obj(layers[i]), Obj(layers[j]), p);
    }
    var v := At(Obj(layers[i]), p).value;
    if !v.Obj? {
      assert LastPut(layers, p, v, i);
      NonObjectAtExactly(layers, p, v);
    } else if p != [] {
      assert LastObject(layers, p, i);
      ObjectAtExactly(layers, p);
    }
  }

  // ----- algebra -----

  lemma EmptyIsIdentity(a: Fields)
    ensures Merge(map[], a) == a && Merge(a, map[]) == a
  {
  }

  /** Merging a value into `c` leaves `c` as it is. */
  predicate Absorbed(a: Json, c: Json)
    decreases c
  {
    a.Obj? && c.Obj? ==>
      forall k :: k in a.fields ==> k in c.fields && Absorbed(a.fields[k], c.fields[k])
  }

  lemma {:induction false} AbsorbedExactly(a: Json, c: Json)
    ensures MergeValue(a, c) == c <==> Absorbed(a, c)
    decreases c
  {
    if a.Obj? && c.Obj? {
      var m := MergeValue(a, c);
      forall k | k in a.fields && k in c.fields
        ensures m.fields[k] == c.fields[k] <==> Absorbed(a.fields[k], c.fields[k])
      {
        AbsorbedExactly(a.fields[k], c.fields[k]);
      }
      if Absorbed(a, c) {
        assert m.fields == c.fields;
      } else {
        var k :| k in a.fields && (k !in c.fields || !Absorbed(a.fields[k], c.fields[k]));
        assert k in m.fields;
      }
    }
  }

  lemma {:induction false} MergeIdempotent(a: Json)
    ensures MergeValue(a, a) == a
    decreases a
  {
    if a.Obj? {
      forall k | k in a.fields ensures MergeValue(a.fields[k], a.fields[k]) == a.fields[k] {
        MergeIdempotent(a.fields[k]);
      }
    }
  }

  /** No key path has an object in `a` and `c` with something else between them in `b`, unless `c` covers `a` there. */
  predicate Associates(a: Json, b: Json, c: Json)
    decreases c
  {
    if a.Obj? && b.Obj? && c.Obj? then
      forall k :: k in a.fields && k in b.fields && k in c.fields ==>
        Associates(a.fields[k], b.fields[k], c.fields[k])
    else a.Obj? && c.Obj? ==> Absorbed(a, c)
  }

  lemma {:induction false} AssociatesKey(a: Json, b: Json, c: Json, k: string)
    requires a.Obj? && b.Obj? && c.Obj?
    requires k in a.fields || k in b.fields || k in c.fields
    ensures k in MergeValue(MergeValue(a, b), c).fields && k in MergeValue(a, MergeValue(b, c)).fields
    ensures MergeValue(MergeValue(a, b), c).fields[k] == MergeValue(a, MergeValue(b, c)).fields[k] <==>
      (k in a.fields && k in b.fields && k in c.fields ==>
        Associates(a.fields[k], b.fields[k], c.fields[k]))
    decreases c, 0
  {
    if k in a.fields && k in b.fields && k in c.fields {
      AssociativeExactly(a.fields[k], b.fields[k], c.fields[k]);
    }
  }

  /** Grouping of three layers: it does not matter exactly when `Associates` holds. */
  lemma {:induction false} AssociativeExactly(a: Json, b: Json, c: Json)
    ensures MergeValue(MergeValue(a, b), c) == MergeValue(a, MergeValue(b, c)) <==> Associates(a, b, c)
    decreases c, 1
  {
    if a.Obj? && b.Obj? && c.Obj? {
      var l, r := MergeValue(MergeValue(a, b), c), MergeValue(a, MergeValue(b, c));
      forall k | k in a.fields || k in b.fields || k in c.fields
        ensures k in l.fields && k in r.fields
        ensures l.fields[k] == r.fields[k] <==>
          (k in a.fields && k in b.fields && k in c.fields ==>
            Associates(a.fields[k], b.fields[k], c.fields[k]))
      {
        AssociatesKey(a, b, c, k);
      }
      if Associates(a, b, c) {
        assert l.fields.Keys == r.fields.Keys;
        assert l.fields == r.fields;
      }
    } else {
      AbsorbedExactly(a, c);
    }
  }

  lemma {:induction false} AgreeBelow(a: Json, b: Json, k: string)
    requires Agree(a, b) && a.Obj? && b.Obj? && k in a.fields && k in b.fields
    ensures Agree(a.fields[k], b.fields[k])
  {
    forall p ensures AgreeAt(a.fields[k], b.fields[k], p) {
      assert ([k] + p)[1..] == p;
      assert AgreeAt(a, b, [k] + p);
    }
  }

  lemma {:induction false} AgreeingLayersAssociate(a: Json, b: Json, c: Json)
    requires Agree(a, b) && Agree(b, c)
    ensures Associates(a, b, c)
    ensures MergeValue(MergeValue(a, b), c) == MergeValue(a, MergeValue(b, c))
    decreases c
  {
    assert AgreeAt(a, b, []) && AgreeAt(b, c, []);
    if a.Obj? && b.Obj? && c.Obj? {
      forall k | k in a.fields && k in b.fields && k in c.fields
        ensures Associates(a.fields[k], b.fields[k], c.fields[k])
      {
        AgreeBelow(a, b, k);
        AgreeBelow(b, c, k);
        AgreeingLayersAssociate(a.fields[k], b.fields[k], c.fields[k]);
      }
    }
    AssociativeExactly(a, b, c);
  }

  /** Three layers on which grouping matters: a scalar between two objects. */
  lemma GroupingMatters(a: Fields, b: Fields, c: Fields)
    requires a == map["quality" := Obj(map["nits" := Text("drop")])]
    requires b == map["quality" := Text("off")]
    requires c == map["quality" := Obj(map[])]
    ensures Merge(Merge(a, b), c) != Merge(a, Merge(b, c))
  {
    var k := "quality";
    assert MergedKey(a, b, k) == b[k] && MergedKey(b, c, k) == c[k];
    assert MergedKey(Merge(a, b), c, k) == c[k];
    assert MergedKey(a, Merge(b, c), k) == MergeValue(a[k], c[k]);
    assert "nits" in MergeValue(a[k], c[k]).fields;
  }

  // ----- resolving an `extends` list -----

  datatype ResolveError = NotFound(name: string) | Cycle(names: seq<string>)

  datatype Resolved = Ok(config: Fields) | Err(error: ResolveError)

  /** The string entries of a preset's own `extends` list. */
  predicate InnerExtends(preset: Fields, inner: string) {
    "extends" in preset && preset["extends"].List? && Text(inner) in preset["extends"].items
  }

  predicate LeadsBack(preset: Fields, visited: seq<string>) {
    exists k :: 0 <= k < |visited| && InnerExtends(preset, visited[k])
  }

  /** Name `i` of the list passes every test made on it. */
  predicate Accepted(presets: map<string, Fields>, names: seq<string>, i: nat)
    requires i < |names|
  {
    names[i] != "org" && names[i] !in names[..i] && names[i] in presets &&
    !LeadsBack(presets[names[i]], names[..i + 1])
  }

  predicate AcceptedUpTo(presets: map<string, Fields>, names: seq<string>, n: nat)
    requires n <= |names|
  {
    forall j :: 0 <= j < n ==> Accepted(presets, names, j)
  }

  /** Name `i` is the first to fail, and the error says how. */
  predicate Rejected(presets: map<string, Fields>, names: seq<string>, i: nat, e: ResolveError) {
    i < |names| && !Accepted(presets, names, i) && AcceptedUpTo(presets, names, i) &&
    match e
    case NotFound(name) => name == names[i] && (name == "org" || (name !in names[..i] && name !in presets))
    case Cycle(path) =>
      if names[i] in names[..i] then names[i] != "org" && path == names[..i] + [names[i]]
      else names[i] in presets && ClosesCycle(presets[names[i]], names[..i + 1], path)
  }

  /** The path is the names so far and one of them again, which the preset extends. */
  predicate ClosesCycle(preset: Fields, visited: seq<string>, path: seq<string>) {
    |path| == |visited| + 1 && path[..|visited|] == visited &&
    path[|visited|] in visited && InnerExtends(preset, path[|visited|])
  }

  predicate AllKnown(presets: map<string, Fields>, names: seq<string>) {
    forall n :: n in names ==> n in presets
  }

  function Layers(presets: map<string, Fields>, names: seq<string>): (layers: seq<Fields>)
    requires AllKnown(presets, names)
    ensures |layers| == |names|
  {
    seq(|names|, i requires 0 <= i < |names| => presets[names[i]])
  }

  lemma LayersNext(presets: map<string, Fields>, names: seq<string>, i: nat)
    requires i < |names| && AllKnown(presets, names[..i + 1])
    ensures AllKnown(presets, names[..i]) && names[i] in presets
    ensures Fold(Layers(presets, names[..i + 1])) == Merge(Fold(Layers(presets, names[..i])), presets[names[i]])
  {
    assert names[..i + 1][i] == names[i];
    forall n | n in names[..i] ensures n in presets { assert n in names[..i + 1]; }
    assert Layers(presets, names[..i + 1])[..i] == Layers(presets, names[..i]);
  }

  /** `inner` is the first string of the list that was visited. */
  predicate FirstVisited(items: seq<Json>, visited: seq<string>, k: nat, inner: string) {
    k < |items| && items[k] == Text(inner) && inner in visited &&
    forall j :: 0 <= j < k && items[j].Text? ==> items[j].text !in visited
  }

  method FirstInner(preset: Fields, visited: seq<string>) returns (found: Option<string>)
    ensures found.Some? <==> LeadsBack(preset, visited)
    ensures found.Some? ==> found.value in visited && InnerExtends(preset, found.value)
    ensures found.Some? ==> exists k :: FirstVisited(preset["extends"].items, visited, k, found.value)
  {
    found := None;
    if "extends" in preset && preset["extends"].List? {
      var items := preset["extends"].items;
      for j := 0 to |items|
        invariant forall m :: 0 <= m < j && items[m].Text? ==> items[m].text !in visited
      {
        if items[j].Text? && items[j].text in visited {
          assert FirstVisited(items, visited, j, items[j].text);
          return Some(items[j].text);
        }
      }
    }
  }

  method ResolveExtendsPresets(presets: map<string, Fields>, names: seq<string>, repo: Fields)
    returns (r: Resolved)
    ensures r.Ok? <==> AcceptedUpTo(presets, names, |names|)
    ensures r.Ok? ==> AllKnown(presets, names) && r.config == Fold(Layers(presets, names) + [repo])
    ensures r.Err? ==> exists i :: Rejected(presets, names, i, r.error)
  {
    var visited: seq<string> := [];
    var base: Fields := map[];
    for i := 0 to |names|
      invariant visited == names[..i]
      invariant AcceptedUpTo(presets, names, i)
      invariant AllKnown(presets, names[..i])
      invariant base == Fold(Layers(presets, names[..i]))
    {
      var name := names[i];
      assert names[..i + 1] == names[..i] + [name];
      if name == "org" {
        assert Rejected(presets, names, i, NotFound("org"));
        return Err(NotFound("org"));
      }
      if name in visited {
        assert Rejected(presets, names, i, Cycle(visited + [name]));
        return Err(Cycle(visited + [name]));
      }
      visited := visited + [name];
      if name !in presets {
        assert Rejected(presets, names, i, NotFound(name));
        return Err(NotFound(name));
      }
      var inner := FirstInner(presets[name], visited);
      if inner.Some? {
        assert Rejected(presets, names, i, Cycle(visited + [inner.value]));
        return Err(Cycle(visited + [inner.value]));
      }
      base := DeepMerge(base, presets[name]);
      LayersNext(presets, names, i);
    }
    assert names[..|names|] == names;
    assert (Layers(presets, names) + [repo])[..|names|] == Layers(presets, names);
    var config := DeepMerge(base, repo);
    return Ok(config);
  }
}
