/** JSON bodies, their measures, and the bounded flattening into field paths. */
module Json {
  import opened Text

  datatype Json =
    | Null
    | Boolean(b: bool)
    | Number(n: real)
    | String(s: string)
    | Array(items: seq<Json>)
    | Object(fields: seq<(string, Json)>)

  datatype Kind = KArray | KBoolean | KNull | KNumber | KObject | KString

  function KindOf(v: Json): Kind {
    match v
    case Null => KNull
    case Boolean(_) => KBoolean
    case Number(_) => KNumber
    case String(_) => KString
    case Array(_) => KArray
    case Object(_) => KObject
  }

  function Max(a: nat, b: nat): nat {
    if a > b then a else b
  }

  function Depth(v: Json): nat
    decreases v, Width(v) + 2
  {
    if v.Array? || v.Object? then 1 + DeepestFrom(v, 0) else 1
  }

  function Width(v: Json): nat {
    if v.Array? then |v.items| else if v.Object? then |v.fields| else 0
  }

  function Child(v: Json, i: nat): (c: Json)
    requires i < Width(v)
    ensures c < v
  {
    if v.Array? then v.items[i] else v.fields[i].1
  }

  function DeepestFrom(v: Json, i: nat): nat
    requires i <= Width(v)
    decreases v, Width(v) - i + 1
  {
    if i == Width(v) then 0 else Max(Depth(Child(v, i)), DeepestFrom(v, i + 1))
  }

  function MaxArrayLen(v: Json): nat
    decreases v, Width(v) + 2
  {
    if v.Array? then Max(|v.items|, LongestFrom(v, 0)) else if v.Object? then LongestFrom(v, 0) else 0
  }

  function LongestFrom(v: Json, i: nat): nat
    requires i <= Width(v)
    decreases v, Width(v) - i + 1
  {
    if i == Width(v) then 0 else Max(MaxArrayLen(Child(v, i)), LongestFrom(v, i + 1))
  }

  /** What stands at the end of a path of child positions. */
  function At(v: Json, p: seq<nat>): Option<Json>
    decreases |p|
  {
    if p == [] then Some(v) else if p[0] < Width(v) then At(Child(v, p[0]), p[1..]) else None
  }

  lemma {:induction false} DeepestOfChildren(v: Json, i: nat) returns (best: nat)
    requires i < Width(v)
    ensures i <= best < Width(v) && DeepestFrom(v, i) == Depth(Child(v, best))
    ensures forall k :: i <= k < Width(v) ==> Depth(Child(v, k)) <= DeepestFrom(v, i)
    decreases Width(v) - i
  {
    best := i;
    if i + 1 < Width(v) {
      var later := DeepestOfChildren(v, i + 1);
      if DeepestFrom(v, i) != Depth(Child(v, i)) {
        best := later;
      }
    } else {
      assert DeepestFrom(v, i + 1) == 0;
    }
  }

  lemma {:induction false} PathWithin(v: Json, p: seq<nat>)
    requires At(v, p).Some?
    ensures |p| + 1 <= Depth(v)
    decreases |p|
  {
    if p == [] {
    } else {
      PathWithin(Child(v, p[0]), p[1..]);
      var best := DeepestOfChildren(v, 0);
    }
  }

  lemma {:induction false} DeepestPath(v: Json) returns (p: seq<nat>)
    ensures At(v, p).Some? && |p| + 1 == Depth(v)
    decreases v
  {
    p := [];
    if Width(v) > 0 {
      var best := DeepestOfChildren(v, 0);
      var rest := DeepestPath(Child(v, best));
      p := [best] + rest;
      assert p[1..] == rest;
    }
  }

  /** The depth is the number of values on the longest path into the body. */
  lemma DepthIsLongestPath(v: Json)
    ensures exists p :: At(v, p).Some? && |p| + 1 == Depth(v)
    ensures forall p :: At(v, p).Some? ==> |p| + 1 <= Depth(v)
  {
    var p := DeepestPath(v);
    forall p | At(v, p).Some?
      ensures |p| + 1 <= Depth(v)
    {
      PathWithin(v, p);
    }
  }

  lemma {:induction false} LongestOfChildren(v: Json, i: nat) returns (best: nat)
    requires i < Width(v)
    ensures i <= best < Width(v) && LongestFrom(v, i) == MaxArrayLen(Child(v, best))
    ensures forall k :: i <= k < Width(v) ==> MaxArrayLen(Child(v, k)) <= LongestFrom(v, i)
    decreases Width(v) - i
  {
    best := i;
    if i + 1 < Width(v) {
      var later := LongestOfChildren(v, i + 1);
      if LongestFrom(v, i) != MaxArrayLen(Child(v, i)) {
        best := later;
      }
    } else {
      assert LongestFrom(v, i + 1) == 0;
    }
  }

  ghost predicate ArrayAt(v: Json, p: seq<nat>, n: nat) {
    At(v, p).Some? && At(v, p).value.Array? && |At(v, p).value.items| == n
  }

  lemma {:induction false} ArrayWithin(v: Json, p: seq<nat>, n: nat)
    requires ArrayAt(v, p, n)
    ensures n <= MaxArrayLen(v)
    decreases |p|
  {
    if p == [] {
    } else {
      ArrayWithin(Child(v, p[0]), p[1..], n);
      var best := LongestOfChildren(v, 0);
    }
  }

  lemma {:induction false} LongestArray(v: Json) returns (p: seq<nat>)
    requires MaxArrayLen(v) > 0
    ensures ArrayAt(v, p, MaxArrayLen(v))
    decreases v
  {
    p := [];
    if !(v.Array? && |v.items| == MaxArrayLen(v)) {
      var best := LongestOfChildren(v, 0);
      var rest := LongestArray(Child(v, best));
      p := [best] + rest;
      assert p[1..] == rest;
    }
  }

  /** The array length is that of the longest array anywhere in the body, and zero without one. */
  lemma ArrayLenIsMaximum(v: Json)
    ensures forall p, n: nat :: ArrayAt(v, p, n) ==> n <= MaxArrayLen(v)
    ensures MaxArrayLen(v) > 0 ==> exists p :: ArrayAt(v, p, MaxArrayLen(v))
  {
    forall p, n: nat | ArrayAt(v, p, n)
      ensures n <= MaxArrayLen(v)
    {
      ArrayWithin(v, p, n);
    }
    if MaxArrayLen(v) > 0 {
      var p := LongestArray(v);
    }
  }

  /** The kind says how a value was built. */
  lemma KindsExactly(v: Json)
    ensures (KindOf(v) == KNull <==> v.Null?) && (KindOf(v) == KBoolean <==> v.Boolean?)
    ensures (KindOf(v) == KNumber <==> v.Number?) && (KindOf(v) == KString <==> v.String?)
    ensures (KindOf(v) == KArray <==> v.Array?) && (KindOf(v) == KObject <==> v.Object?)
  {
  }

  // Paths

  predicate IsKeyChar(c: char) {
    '0' <= c <= '9' || 'A' <= c <= 'Z' || 'a' <= c <= 'z' || c == '_' || c == '-'
  }

  function CleanKey(key: string): (r: string)
    ensures '.' !in r
  {
    if key == "" then ""
    else (if IsKeyChar(key[0]) then [LowerChar(key[0])] else []) + CleanKey(key[1..])
  }

  /** A clean key keeps letters in lower case, digits, `_` and `-`, each in its place. */
  lemma CleanKeyExactly(a: string, c: char)
    ensures CleanKey("") == ""
    ensures CleanKey([c] + a) ==
      if c in LOWER_LETTERS || c in DIGITS || c in "_-" then [c] + CleanKey(a)
      else if c in UPPER_LETTERS then [LowerChar(c)] + CleanKey(a)
      else CleanKey(a)
  {
    assert ([c] + a)[1..] == a;
    Alphabets(c);
    CaseFolding(c);
  }

  function ChildPath(prefix: string, key: string): string {
    if prefix == "" then CleanKey(key) else prefix + "." + CleanKey(key)
  }

  type FieldMap = map<string, Kind>

  function Flatten(v: Json, prefix: string, max: nat, out: FieldMap): FieldMap
    decreases v, Width(v) + 2
  {
    if |out| >= max || !v.Object? then out else FlattenFrom(v, 0, prefix, max, out)
  }

  function FlattenFrom(v: Json, i: nat, prefix: string, max: nat, out: FieldMap): FieldMap
    requires v.Object? && i <= |v.fields|
    decreases v, Width(v) - i + 1
  {
    if i == |v.fields| || |out| >= max then out
    else FlattenFrom(v, i + 1, prefix, max, FlattenField(v, i, prefix, max, out))
  }

  function FlattenField(v: Json, i: nat, prefix: string, max: nat, out: FieldMap): FieldMap
    requires v.Object? && i < |v.fields|
    decreases v, 0
  {
    if CleanKey(v.fields[i].0) == "" then out
    else
      var path := ChildPath(prefix, v.fields[i].0);
      Flatten(Child(v, i), path, max, out[path := KindOf(Child(v, i))])
  }

  /** Every field of the body, with no bound: its path and its kind. */
  function AllFields(v: Json, prefix: string): set<(string, Kind)>
    decreases v, Width(v) + 2
  {
    if v.Object? then AllFieldsFrom(v, 0, prefix) else {}
  }

  function AllFieldsFrom(v: Json, i: nat, prefix: string): set<(string, Kind)>
    requires v.Object? && i <= |v.fields|
    decreases v, Width(v) - i + 1
  {
    if i == |v.fields| then {} else OneField(v, i, prefix) + AllFieldsFrom(v, i + 1, prefix)
  }

  function OneField(v: Json, i: nat, prefix: string): set<(string, Kind)>
    requires v.Object? && i < |v.fields|
    decreases v, 0
  {
    if CleanKey(v.fields[i].0) == "" then {}
    else
      var path := ChildPath(prefix, v.fields[i].0);
      {(path, KindOf(Child(v, i)))} + AllFields(Child(v, i), path)
  }

  /** The clean keys along a path of positions through objects, none of them empty. */
  function KeysAlong(v: Json, p: seq<nat>): Option<seq<string>>
    decreases |p|
  {
    if p == [] then Some([])
    else if v.Object? && p[0] < |v.fields| && CleanKey(v.fields[p[0]].0) != "" then
      var rest := KeysAlong(v.fields[p[0]].1, p[1..]);
      if rest.None? then None else Some([CleanKey(v.fields[p[0]].0)] + rest.value)
    else None
  }

  /** The field at the end of `p`: its keys after those of `outer`, separated by dots, and its kind. */
  ghost predicate FieldAt(v: Json, outer: seq<string>, f: (string, Kind), p: seq<nat>) {
    && p != [] && KeysAlong(v, p).Some? && At(v, p).Some?
    && f.0 == Join(outer + KeysAlong(v, p).value, '.')
    && f.1 == KindOf(At(v, p).value)
  }

  lemma {:induction false} JoinAppend(keys: seq<string>, key: string)
    ensures Join(keys + [key], '.') == if keys == [] then key else Join(keys, '.') + "." + key
  {
    if keys == [] {
      assert [] + [key] == [key];
    } else if |keys| == 1 {
      assert (keys + [key])[1..] == [key];
    } else {
      assert (keys + [key])[1..] == keys[1..] + [key];
      JoinAppend(keys[1..], key);
    }
  }

  lemma ChildPathIsJoin(outer: seq<string>, key: string)
    requires forall k :: k in outer ==> k != ""
    ensures ChildPath(Join(outer, '.'), key) == Join(outer + [CleanKey(key)], '.')
  {
    JoinAppend(outer, CleanKey(key));
    if outer != [] {
      assert outer[0] in outer;
    }
  }

  lemma {:induction false} SomeField(v: Json, i: nat, prefix: string, f: (string, Kind)) returns (k: nat)
    requires v.Object? && i <= |v.fields| && f in AllFieldsFrom(v, i, prefix)
    ensures i <= k < |v.fields| && f in OneField(v, k, prefix)
    decreases |v.fields| - i
  {
    if f in OneField(v, i, prefix) {
      k := i;
    } else {
      k := SomeField(v, i + 1, prefix, f);
    }
  }

  lemma {:induction false} FieldOfAll(v: Json, i: nat, prefix: string, f: (string, Kind), k: nat)
    requires v.Object? && i <= k < |v.fields| && f in OneField(v, k, prefix)
    ensures f in AllFieldsFrom(v, i, prefix)
    decreases k - i
  {
    if i == k {
    } else {
      FieldOfAll(v, i + 1, prefix, f, k);
    }
  }

  lemma PathBelow(v: Json, k: nat, q: seq<nat>)
    requires v.Object? && k < |v.fields| && CleanKey(v.fields[k].0) != ""
    ensures At(v, [k] + q) == At(Child(v, k), q)
    ensures var rest := KeysAlong(Child(v, k), q);
      KeysAlong(v, [k] + q) == if rest.None? then None else Some([CleanKey(v.fields[k].0)] + rest.value)
  {
    assert ([k] + q)[1..] == q;
  }

  lemma FieldHere(v: Json, outer: seq<string>, f: (string, Kind), k: nat)
    requires v.Object? && k < |v.fields| && CleanKey(v.fields[k].0) != ""
    ensures FieldAt(v, outer, f, [k]) <==> f == (Join(outer + [CleanKey(v.fields[k].0)], '.'), KindOf(Child(v, k)))
  {
    PathBelow(v, k, []);
    assert [k] + [] == [k];
    assert [CleanKey(v.fields[k].0)] + [] == [CleanKey(v.fields[k].0)];
  }

  lemma FieldBelow(v: Json, outer: seq<string>, f: (string, Kind), k: nat, q: seq<nat>)
    requires v.Object? && k < |v.fields| && CleanKey(v.fields[k].0) != "" && q != []
    ensures FieldAt(v, outer, f, [k] + q) <==> FieldAt(Child(v, k), outer + [CleanKey(v.fields[k].0)], f, q)
  {
    PathBelow(v, k, q);
    if KeysAlong(Child(v, k), q).Some? {
      var key, rest := CleanKey(v.fields[k].0), KeysAlong(Child(v, k), q).value;
      assert outer + ([key] + rest) == (outer + [key]) + rest;
    }
  }

  lemma {:induction false} FieldFound(v: Json, outer: seq<string>, f: (string, Kind)) returns (p: seq<nat>)
    requires (forall k :: k in outer ==> k != "") && f in AllFields(v, Join(outer, '.'))
    ensures FieldAt(v, outer, f, p)
    decreases v
  {
    var k := SomeField(v, 0, Join(outer, '.'), f);
    var inner := outer + [CleanKey(v.fields[k].0)];
    ChildPathIsJoin(outer, v.fields[k].0);
    if f == (Join(inner, '.'), KindOf(Child(v, k))) {
      p := [k];
      FieldHere(v, outer, f, k);
    } else {
      var q := FieldFound(Child(v, k), inner, f);
      FieldBelow(v, outer, f, k, q);
      p := [k] + q;
    }
  }

  lemma {:induction false} FieldListed(v: Json, outer: seq<string>, f: (string, Kind), p: seq<nat>)
    requires (forall k :: k in outer ==> k != "") && FieldAt(v, outer, f, p)
    ensures f in AllFields(v, Join(outer, '.'))
    decreases |p|
  {
    var k, q := p[0], p[1..];
    var inner := outer + [CleanKey(v.fields[k].0)];
    assert p == [k] + q;
    ChildPathIsJoin(outer, v.fields[k].0);
    if q == [] {
      assert p == [k];
      FieldHere(v, outer, f, k);
    } else {
      FieldBelow(v, outer, f, k, q);
      FieldListed(Child(v, k), inner, f, q);
    }
    FieldOfAll(v, 0, Join(outer, '.'), f, k);
  }

  /** The fields of a body are the values reached through objects by non-empty keys, under those keys with dots between. */
  lemma FieldsExactly(v: Json, f: (string, Kind))
    ensures f in AllFields(v, "") <==> exists p :: FieldAt(v, [], f, p)
  {
    if f in AllFields(v, "") {
      var p := FieldFound(v, [], f);
    }
    if exists p :: FieldAt(v, [], f, p) {
      var p :| FieldAt(v, [], f, p);
      FieldListed(v, [], f, p);
    }
  }

  function PathsOf(fields: set<(string, Kind)>): set<string> {
    set f | f in fields :: f.0
  }

  /** The enclosing path, for a path with a dot in it. */
  function Parent(path: string): string
    requires '.' in path
  {
    if path[|path| - 1] == '.' then path[..|path| - 1] else Parent(path[..|path| - 1])
  }

  ghost predicate ParentClosed(out: FieldMap) {
    forall p :: p in out && '.' in p ==> Parent(p) in out
  }

  lemma {:induction false} ParentOfChild(prefix: string, key: string)
    requires '.' !in key
    ensures Parent(prefix + "." + key) == prefix
  {
    var path := prefix + "." + key;
    if key == "" {
    } else {
      ParentOfChild(prefix, key[..|key| - 1]);
      assert path[..|path| - 1] == prefix + "." + key[..|key| - 1];
      assert path[|path| - 1] in key;
    }
  }

  /** What flattening `fields` into `before` may do under the bound. */
  ghost predicate Flattens(before: FieldMap, after: FieldMap, fields: set<(string, Kind)>, max: nat) {
    && before.Keys <= after.Keys
    && (forall p :: p in after ==> (p, after[p]) in fields || (p in before && after[p] == before[p]))
    && (|before| <= max ==> |after| <= max)
    && (|after| < max ==> PathsOf(fields) <= after.Keys)
  }

  lemma FlattensThen(a: FieldMap, b: FieldMap, c: FieldMap, first: set<(string, Kind)>, second: set<(string, Kind)>, max: nat)
    requires Flattens(a, b, first, max) && Flattens(b, c, second, max)
    ensures Flattens(a, c, first + second, max)
  {
    assert |c.Keys| == |b.Keys| + |c.Keys - b.Keys| by {
      assert c.Keys == b.Keys + (c.Keys - b.Keys);
    }
    assert PathsOf(first + second) == PathsOf(first) + PathsOf(second);
  }

  lemma FlattensOne(before: FieldMap, path: string, kind: Kind, max: nat)
    requires |before| < max
    ensures Flattens(before, before[path := kind], {(path, kind)}, max)
  {
    assert before[path := kind].Keys == before.Keys + {path};
  }

  lemma FlattensNothing(out: FieldMap, fields: set<(string, Kind)>, max: nat)
    requires |out| >= max || fields == {}
    ensures Flattens(out, out, fields, max)
  {
  }

  lemma {:induction false} FlattenSpec(v: Json, prefix: string, max: nat, out: FieldMap)
    ensures Flattens(out, Flatten(v, prefix, max, out), AllFields(v, prefix), max)
    decreases v, Width(v) + 2
  {
    if |out| < max && v.Object? {
      FlattenFromSpec(v, 0, prefix, max, out);
    } else {
      FlattensNothing(out, AllFields(v, prefix), max);
    }
  }

  lemma {:induction false} FlattenFromSpec(v: Json, i: nat, prefix: string, max: nat, out: FieldMap)
    requires v.Object? && i <= |v.fields|
    ensures Flattens(out, FlattenFrom(v, i, prefix, max, out), AllFieldsFrom(v, i, prefix), max)
    decreases v, Width(v) - i + 1
  {
    if i == |v.fields| || |out| >= max {
      FlattensNothing(out, AllFieldsFrom(v, i, prefix), max);
    } else {
      var next := FlattenField(v, i, prefix, max, out);
      var rest := FlattenFrom(v, i + 1, prefix, max, next);
      FlattenFieldSpec(v, i, prefix, max, out);
      FlattenFromSpec(v, i + 1, prefix, max, next);
      FlattensThen(out, next, rest, OneField(v, i, prefix), AllFieldsFrom(v, i + 1, prefix), max);
    }
  }

  lemma {:induction false} FlattenFieldSpec(v: Json, i: nat, prefix: string, max: nat, out: FieldMap)
    requires v.Object? && i < |v.fields| && |out| < max
    ensures Flattens(out, FlattenField(v, i, prefix, max, out), OneField(v, i, prefix), max)
    decreases v, 0
  {
    var key, child := v.fields[i].0, Child(v, i);
    if CleanKey(key) == "" {
      FlattensNothing(out, {}, max);
    } else {
      var path, kind := ChildPath(prefix, key), KindOf(child);
      var one := out[path := kind];
      FlattensOne(out, path, kind, max);
      FlattenSpec(child, path, max, one);
      FlattensThen(out, one, Flatten(child, path, max, one), {(path, kind)}, AllFields(child, path), max);
    }
  }

  ghost predicate HasParents(out: FieldMap, prefix: string) {
    ParentClosed(out) && (prefix == "" || prefix in out)
  }

  lemma {:induction false} FlattenKeepsParents(v: Json, prefix: string, max: nat, out: FieldMap)
    requires HasParents(out, prefix)
    ensures HasParents(Flatten(v, prefix, max, out), prefix)
    decreases v, Width(v) + 2
  {
    if |out| < max && v.Object? {
      FlattenFromKeepsParents(v, 0, prefix, max, out);
    }
  }

  lemma {:induction false} FlattenFromKeepsParents(v: Json, i: nat, prefix: string, max: nat, out: FieldMap)
    requires v.Object? && i <= |v.fields| && HasParents(out, prefix)
    ensures HasParents(FlattenFrom(v, i, prefix, max, out), prefix)
    decreases v, Width(v) - i + 1
  {
    if i < |v.fields| && |out| < max {
      var key, child := v.fields[i].0, Child(v, i);
      if CleanKey(key) != "" {
        var path := ChildPath(prefix, key);
        var one := out[path := KindOf(child)];
        NewPathHasParent(out, prefix, key, KindOf(child));
        FlattenKeepsParents(child, path, max, one);
        FlattenSpec(child, path, max, one);
        assert prefix == "" || prefix in one;
      }
      FlattenFromKeepsParents(v, i + 1, prefix, max, FlattenField(v, i, prefix, max, out));
    }
  }

  lemma NewPathHasParent(out: FieldMap, prefix: string, key: string, kind: Kind)
    ensures ParentClosed(out) && (prefix == "" || prefix in out) ==> ParentClosed(out[ChildPath(prefix, key) := kind])
  {
    if prefix != "" {
      ParentOfChild(prefix, CleanKey(key));
    }
  }

  /**
   * For every body: each path comes with the kind of a field it names, the paths are closed under
   * taking parents, and there are as many as the body has, up to the bound.
   */
  lemma FlattenIsBoundedTree(v: Json, max: nat)
    ensures var out, fields := Flatten(v, "", max, map[]), AllFields(v, "");
      && (forall p :: p in out ==> (p, out[p]) in fields)
      && ParentClosed(out)
      && |out| == (if |PathsOf(fields)| <= max then |PathsOf(fields)| else max)
  {
    var out, fields := Flatten(v, "", max, map[]), AllFields(v, "");
    FlattenSpec(v, "", max, map[]);
    FlattenKeepsParents(v, "", max, map[]);
    forall p | p in out
      ensures p in PathsOf(fields)
    {
      assert (p, out[p]) in fields;
    }
    assert out.Keys <= PathsOf(fields);
    var missing := PathsOf(fields) - out.Keys;
    assert PathsOf(fields) == out.Keys + missing;
    assert |PathsOf(fields)| == |out.Keys| + |missing|;
  }

  method FlattenInner(v: Json, prefix: string, max: nat, before: FieldMap) returns (out: FieldMap)
    ensures out == Flatten(v, prefix, max, before)
    decreases v
  {
    out := before;
    if |out| >= max || !v.Object? {
      return;
    }
    for i := 0 to |v.fields|
      invariant FlattenFrom(v, i, prefix, max, out) == Flatten(v, prefix, max, before)
    {
      if |out| >= max {
        return;
      }
      var cleanKey := CleanKey(v.fields[i].0);
      if cleanKey == "" {
        continue;
      }
      var child := Child(v, i);
      ghost var was := out;
      var path := if prefix == "" then cleanKey else prefix + "." + cleanKey;
      out := out[path := KindOf(child)];
      if child.Object? {
        out := FlattenInner(child, path, max, out);
      }
      assert out == FlattenField(v, i, prefix, max, was);
    }
  }
}
