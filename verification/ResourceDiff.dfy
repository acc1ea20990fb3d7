/** The resource diff of `src/middleware/impersonationRecorder.ts`: a recursive walk over two JSON
    objects that records every difference under a dotted path. */
module ResourceDiff {
  import opened Results
  import opened Sequences
  import JsText

  /** Arrays are atomic and compared by their JSON text. */
  datatype Json =
    | Null
    | Bool(value: bool)
    | Num(number: real)
    | Str(text: string)
    | Arr(items: string)
    | Obj(fields: map<string, Json>)

  type Fields = map<string, Json>

  type Path = seq<string>

  datatype Entry = Entry(field: string, before: Option<Json>, after: Option<Json>)

  /** None stands for undefined. */
  function Field(m: Fields, key: string): Option<Json> {
    if key in m then Some(m[key]) else None
  }

  predicate IsObj(v: Option<Json>) {
    v.Some? && v.value.Obj?
  }

  // ---------------------------------------------------------------- what a difference is

  /** The two trees are objects all the way down to the last key, and there they differ without
      both being objects. */
  predicate Changed(b: Fields, a: Fields, path: Path)
    decreases path
  {
    && path != []
    && var bv, av := Field(b, path[0]), Field(a, path[0]);
       if IsObj(bv) && IsObj(av) then Changed(bv.value.fields, av.value.fields, path[1..])
       else |path| == 1 && bv != av
  }

  function ValueAt(m: Fields, path: Path): Option<Json>
    decreases path
  {
    if path == [] then None
    else if |path| == 1 then Field(m, path[0])
    else
      var v := Field(m, path[0]);
      if IsObj(v) then ValueAt(v.value.fields, path[1..]) else None
  }

  predicate Distinct(paths: seq<Path>) {
    forall i, j :: 0 <= i < j < |paths| ==> paths[i] != paths[j]
  }

  /** Each difference once, in some order. */
  ghost predicate Lists(paths: seq<Path>, b: Fields, a: Fields) {
    Distinct(paths) && forall p :: p in paths <==> Changed(b, a, p)
  }

  // ---------------------------------------------------------------- the walk

  function Extend(prefix: string, key: string): string {
    if prefix != "" then prefix + "." + key else key
  }

  function FieldOf(prefix: string, path: Path): string
    decreases path
  {
    if path == [] then prefix else FieldOf(Extend(prefix, path[0]), path[1..])
  }

  function Render(path: Path, b: Fields, a: Fields, prefix: string): Entry {
    Entry(FieldOf(prefix, path), ValueAt(b, path), ValueAt(a, path))
  }

  function Rendered(paths: seq<Path>, b: Fields, a: Fields, prefix: string): seq<Entry> {
    if paths == [] then []
    else Rendered(paths[..|paths| - 1], b, a, prefix) + [Render(paths[|paths| - 1], b, a, prefix)]
  }

  function Under(key: string, paths: seq<Path>): seq<Path> {
    if paths == [] then [] else Under(key, paths[..|paths| - 1]) + [[key] + paths[|paths| - 1]]
  }

  lemma {:induction false} UnderAt(key: string, paths: seq<Path>)
    ensures |Under(key, paths)| == |paths|
    ensures forall i :: 0 <= i < |paths| ==> Under(key, paths)[i] == [key] + paths[i]
  {
    if paths != [] {
      UnderAt(key, paths[..|paths| - 1]);
    }
  }

  lemma {:induction false} RenderedConcat(p: seq<Path>, q: seq<Path>, b: Fields, a: Fields, prefix: string)
    ensures Rendered(p + q, b, a, prefix) == Rendered(p, b, a, prefix) + Rendered(q, b, a, prefix)
  {
    if q == [] {
      assert p + q == p;
    } else {
      var n := |q| - 1;
      RenderedConcat(p, q[..n], b, a, prefix);
      assert (p + q)[..|p + q| - 1] == p + q[..n];
    }
  }

  lemma RenderedSnoc(paths: seq<Path>, p: Path, b: Fields, a: Fields, prefix: string)
    ensures Rendered(paths + [p], b, a, prefix) == Rendered(paths, b, a, prefix) + [Render(p, b, a, prefix)]
  {
    assert (paths + [p])[..|paths|] == paths;
  }

  lemma RenderUnder(key: string, path: Path, b: Fields, a: Fields, prefix: string)
    requires IsObj(Field(b, key)) && IsObj(Field(a, key)) && path != []
    ensures Render([key] + path, b, a, prefix) == Render(path, b[key].fields, a[key].fields, Extend(prefix, key))
  {
    assert ([key] + path)[1..] == path;
  }

  /** Rendering below a key is rendering the subtrees with the longer prefix. */
  lemma {:induction false} RenderedUnder(key: string, paths: seq<Path>, b: Fields, a: Fields, prefix: string)
    requires IsObj(Field(b, key)) && IsObj(Field(a, key)) && [] !in paths
    ensures Rendered(Under(key, paths), b, a, prefix) ==
            Rendered(paths, b[key].fields, a[key].fields, Extend(prefix, key))
  {
    if paths != [] {
      var n := |paths| - 1;
      RenderedUnder(key, paths[..n], b, a, prefix);
      assert paths[n] in paths;
      UnderAt(key, paths[..n]);
      RenderedSnoc(Under(key, paths[..n]), [key] + paths[n], b, a, prefix);
      RenderUnder(key, paths[n], b, a, prefix);
    }
  }

  lemma RenderMore(paths: seq<Path>, key: string, sub: seq<Path>, b: Fields, a: Fields, prefix: string)
    requires IsObj(Field(b, key)) && IsObj(Field(a, key)) && Lists(sub, b[key].fields, a[key].fields)
    ensures Rendered(paths + Under(key, sub), b, a, prefix) ==
            Rendered(paths, b, a, prefix) + Rendered(sub, b[key].fields, a[key].fields, Extend(prefix, key))
  {
    RenderedConcat(paths, Under(key, sub), b, a, prefix);
    RenderedUnder(key, sub, b, a, prefix);
  }

  lemma RenderOneMore(paths: seq<Path>, key: string, b: Fields, a: Fields, prefix: string)
    ensures Rendered(paths + [[key]], b, a, prefix) ==
            Rendered(paths, b, a, prefix) + [Entry(Extend(prefix, key), Field(b, key), Field(a, key))]
  {
    RenderedSnoc(paths, [key], b, a, prefix);
    RenderKey(key, b, a, prefix);
  }

  /** The differences whose first key is among `done`. */
  ghost predicate ListsKeys(paths: seq<Path>, b: Fields, a: Fields, done: set<string>) {
    Distinct(paths) && forall p :: p in paths <==> Changed(b, a, p) && p[0] in done
  }

  lemma ListsUnder(paths: seq<Path>, b: Fields, a: Fields, done: set<string>, key: string, sub: seq<Path>)
    requires ListsKeys(paths, b, a, done) && key !in done
    requires IsObj(Field(b, key)) && IsObj(Field(a, key)) && Lists(sub, b[key].fields, a[key].fields)
    ensures ListsKeys(paths + Under(key, sub), b, a, done + {key})
  {
    var more := Under(key, sub);
    UnderAt(key, sub);
    forall p
      ensures p in more <==> Changed(b, a, p) && p[0] == key
    {
      if Changed(b, a, p) && p[0] == key {
        assert p[1..] in sub;
        var i :| 0 <= i < |sub| && sub[i] == p[1..];
        assert p == [key] + p[1..] == more[i];
      }
      if p in more {
        var i :| 0 <= i < |more| && more[i] == p;
        assert sub[i] in sub && p[1..] == sub[i];
      }
    }
    DistinctUnder(key, sub);
    DistinctConcat(paths, more);
  }

  lemma DistinctUnder(key: string, sub: seq<Path>)
    requires Distinct(sub)
    ensures Distinct(Under(key, sub))
  {
    UnderAt(key, sub);
    forall i, j | 0 <= i < j < |sub|
      ensures Under(key, sub)[i] != Under(key, sub)[j]
    {
      assert ([key] + sub[i])[1..] == sub[i] && ([key] + sub[j])[1..] == sub[j];
    }
  }

  lemma DistinctConcat(p: seq<Path>, q: seq<Path>)
    requires Distinct(p) && Distinct(q) && forall x :: x in p ==> x !in q
    ensures Distinct(p + q)
  {
    forall i, j | 0 <= i < j < |p + q|
      ensures (p + q)[i] != (p + q)[j]
    {
      if i < |p| <= j {
        assert p[i] in p && q[j - |p|] in q;
      }
    }
  }

  lemma ListsOne(paths: seq<Path>, b: Fields, a: Fields, done: set<string>, key: string)
    requires ListsKeys(paths, b, a, done) && key !in done
    requires !(IsObj(Field(b, key)) && IsObj(Field(a, key)))
    ensures ListsKeys(if Field(b, key) == Field(a, key) then paths else paths + [[key]], b, a, done + {key})
  {
    forall p
      ensures Changed(b, a, p) && p[0] == key <==> p == [key] && Field(b, key) != Field(a, key)
    {
    }
    DistinctConcat(paths, [[key]]);
  }

  /** The state of a walk that has finished the keys `done`. */
  ghost predicate Recorded(entries: seq<Entry>, start: seq<Entry>, paths: seq<Path>, b: Fields, a: Fields,
      prefix: string, done: set<string>)
  {
    ListsKeys(paths, b, a, done) && entries == start + Rendered(paths, b, a, prefix)
  }

  lemma RecordBelow(entries: seq<Entry>, start: seq<Entry>, paths: seq<Path>, b: Fields, a: Fields, prefix: string,
      done: set<string>, key: string, sub: seq<Path>)
    requires Recorded(entries, start, paths, b, a, prefix, done) && key !in done
    requires IsObj(Field(b, key)) && IsObj(Field(a, key)) && Lists(sub, b[key].fields, a[key].fields)
    ensures Recorded(entries + Rendered(sub, b[key].fields, a[key].fields, Extend(prefix, key)), start,
            paths + Under(key, sub), b, a, prefix, done + {key})
  {
    ListsUnder(paths, b, a, done, key, sub);
    RenderMore(paths, key, sub, b, a, prefix);
    ConcatAssoc(start, Rendered(paths, b, a, prefix), Rendered(sub, b[key].fields, a[key].fields, Extend(prefix, key)));
  }

  lemma RecordHere(entries: seq<Entry>, start: seq<Entry>, paths: seq<Path>, b: Fields, a: Fields, prefix: string,
      done: set<string>, key: string)
    requires Recorded(entries, start, paths, b, a, prefix, done) && key !in done
    requires !(IsObj(Field(b, key)) && IsObj(Field(a, key)))
    ensures Field(b, key) == Field(a, key) ==> Recorded(entries, start, paths, b, a, prefix, done + {key})
    ensures Field(b, key) != Field(a, key) ==>
              Recorded(entries + [Entry(Extend(prefix, key), Field(b, key), Field(a, key))], start, paths + [[key]], b,
                  a, prefix, done + {key})
  {
    ListsOne(paths, b, a, done, key);
    RenderOneMore(paths, key, b, a, prefix);
    ConcatAssoc(start, Rendered(paths, b, a, prefix), [Entry(Extend(prefix, key), Field(b, key), Field(a, key))]);
  }

  lemma RecordNothing(start: seq<Entry>, b: Fields, a: Fields, prefix: string)
    ensures Recorded(start, start, [], b, a, prefix, {})
  {
    assert start + [] == start;
  }

  lemma RecordAll(entries: seq<Entry>, start: seq<Entry>, paths: seq<Path>, b: Fields, a: Fields, prefix: string,
      done: set<string>)
    requires Recorded(entries, start, paths, b, a, prefix, done) && done == b.Keys + a.Keys
    ensures Lists(paths, b, a) && entries == start + Rendered(paths, b, a, prefix)
  {
    forall p | Changed(b, a, p)
      ensures p[0] in done
    {
    }
  }

  class Differ {
    /** Shared by every level of the walk. */
    var entries: seq<Entry>

    constructor ()
      ensures entries == []
    {
      entries := [];
    }

    /** Appends every difference below `prefix` once, with both of its values. */
    method Walk(b: Fields, a: Fields, prefix: string) returns (ghost paths: seq<Path>)
      modifies this
      ensures Lists(paths, b, a)
      ensures entries == old(entries) + Rendered(paths, b, a, prefix)
      decreases Obj(b)
    {
      paths := [];
      var keys := b.Keys + a.Keys;
      ghost var done := {};
      RecordNothing(entries, b, a, prefix);
      while keys != {}
        invariant keys + done == b.Keys + a.Keys && keys !! done
        invariant Recorded(entries, old(entries), paths, b, a, prefix, done)
      {
        var key :| key in keys;
        var bVal, aVal := Field(b, key), Field(a, key);
        if IsObj(bVal) && IsObj(aVal) {
          ghost var was := entries;
          ghost var sub := Walk(bVal.value.fields, aVal.value.fields, Extend(prefix, key));
          RecordBelow(was, old(entries), paths, b, a, prefix, done, key, sub);
          paths := paths + Under(key, sub);
        } else {
          RecordHere(entries, old(entries), paths, b, a, prefix, done, key);
          if bVal != aVal {
            entries := entries + [Entry(Extend(prefix, key), bVal, aVal)];
            paths := paths + [[key]];
          }
        }
        keys := keys - {key};
        done := done + {key};
      }
      RecordAll(entries, old(entries), paths, b, a, prefix, done);
    }
  }

  /** `diff` lists every difference of the two objects once, in some order. */
  ghost predicate IsDiff(diff: seq<Entry>, b: Fields, a: Fields) {
    exists paths :: Lists(paths, b, a) && diff == Rendered(paths, b, a, "")
  }

  function Whole(doc: Option<Fields>): Option<Json> {
    match doc case None => None case Some(m) => Some(Obj(m))
  }

  /** `before` and `after` are None for null. */
  method ComputeDiff(before: Option<Fields>, after: Option<Fields>) returns (diff: seq<Entry>)
    ensures before.Some? && after.Some? ==> IsDiff(diff, before.value, after.value)
    ensures before.None? || after.None? ==>
              diff == if before == after then [] else [Entry("value", Whole(before), Whole(after))]
  {
    if before.None? && after.None? {
      return [];
    }
    if before.None? || after.None? {
      return [Entry("value", Whole(before), Whole(after))];
    }
    var differ := new Differ();
    ghost var paths := differ.Walk(before.value, after.value, "");
    assert [] + Rendered(paths, before.value, after.value, "") == Rendered(paths, before.value, after.value, "");
    return differ.entries;
  }

  // ---------------------------------------------------------------- nothing is missed

  lemma {:induction false} RenderedAt(paths: seq<Path>, b: Fields, a: Fields, prefix: string)
    ensures |Rendered(paths, b, a, prefix)| == |paths|
    ensures forall i :: 0 <= i < |paths| ==> Rendered(paths, b, a, prefix)[i] == Render(paths[i], b, a, prefix)
  {
    if paths != [] {
      RenderedAt(paths[..|paths| - 1], b, a, prefix);
    }
  }

  lemma {:induction false} SameHasNoChange(m: Fields, path: Path)
    ensures !Changed(m, m, path)
    decreases path
  {
    if path != [] {
      var v := Field(m, path[0]);
      if IsObj(v) {
        SameHasNoChange(v.value.fields, path[1..]);
      }
    }
  }

  lemma SameFields(b: Fields, a: Fields)
    ensures (forall k :: Field(b, k) == Field(a, k)) ==> b == a
  {
    if forall k :: Field(b, k) == Field(a, k) {
      forall k
        ensures k in b <==> k in a
        ensures k in b ==> b[k] == a[k]
      {
        assert Field(b, k) == Field(a, k);
      }
    }
  }

  /** Two different objects differ at some path. */
  lemma {:induction false} DifferentHasChange(b: Fields, a: Fields) returns (path: Path)
    requires b != a
    ensures Changed(b, a, path)
    decreases Obj(b)
  {
    SameFields(b, a);
    var key :| Field(b, key) != Field(a, key);
    var bv, av := Field(b, key), Field(a, key);
    if IsObj(bv) && IsObj(av) {
      var rest := DifferentHasChange(bv.value.fields, av.value.fields);
      path := [key] + rest;
      assert path[1..] == rest;
    } else {
      path := [key];
    }
  }

  /** The diff is empty exactly when the objects are equal. */
  lemma EmptyExactlyWhenEqual(diff: seq<Entry>, b: Fields, a: Fields)
    requires IsDiff(diff, b, a)
    ensures diff == [] <==> b == a
  {
    var paths :| Lists(paths, b, a) && diff == Rendered(paths, b, a, "");
    RenderedAt(paths, b, a, "");
    if diff != [] {
      assert paths[0] in paths;
      SameHasNoChange(a, paths[0]);
    }
    if b != a {
      var p := DifferentHasChange(b, a);
      assert p in paths;
    }
  }

  lemma {:induction false} ChangeIsReal(b: Fields, a: Fields, path: Path)
    requires Changed(b, a, path)
    ensures ValueAt(b, path) != ValueAt(a, path)
    decreases path
  {
    var bv, av := Field(b, path[0]), Field(a, path[0]);
    if IsObj(bv) && IsObj(av) {
      ChangeIsReal(bv.value.fields, av.value.fields, path[1..]);
    }
  }

  /** Every entry records two different values. */
  lemma EntriesAreReal(diff: seq<Entry>, b: Fields, a: Fields, i: nat)
    requires IsDiff(diff, b, a) && i < |diff|
    ensures diff[i].before != diff[i].after
  {
    var paths :| Lists(paths, b, a) && diff == Rendered(paths, b, a, "");
    RenderedAt(paths, b, a, "");
    assert paths[i] in paths;
    ChangeIsReal(b, a, paths[i]);
  }

  // ---------------------------------------------------------------- dotted names

  /** Reading a reported field back as a path. */
  function SplitDots(s: string): (r: Path)
    ensures |r| >= 1
  {
    JsText.SplitOn(s, '.')
  }

  predicate DotFree(path: Path) {
    forall i :: 0 <= i < |path| ==> '.' !in path[i]
  }

  lemma ExtendSplits(prefix: string, key: string)
    requires prefix != ""
    ensures SplitDots(Extend(prefix, key)) == SplitDots(prefix) + SplitDots(key)
  {
    JsText.SplitOnConcat(prefix, key, '.');
    assert prefix + "." + key == prefix + ['.'] + key;
  }

  /** All keys of a path, each split at its own dots. */
  function Flat(path: Path): Path {
    if path == [] then [] else SplitDots(path[0]) + Flat(path[1..])
  }

  lemma {:induction false} FieldSplits(prefix: string, path: Path)
    requires prefix != ""
    ensures SplitDots(FieldOf(prefix, path)) == SplitDots(prefix) + Flat(path)
    decreases path
  {
    if path == [] {
      assert SplitDots(prefix) + [] == SplitDots(prefix);
    } else {
      FieldSplits(Extend(prefix, path[0]), path[1..]);
      ExtendSplits(prefix, path[0]);
      ConcatAssoc(SplitDots(prefix), SplitDots(path[0]), Flat(path[1..]));
    }
  }

  lemma {:induction false} FlatDotFree(path: Path)
    ensures |Flat(path)| >= |path|
    ensures DotFree(path) ==> Flat(path) == path
  {
    if path != [] {
      FlatDotFree(path[1..]);
      if DotFree(path) {
        JsText.SplitOnWord(path[0], '.');
        assert [path[0]] + path[1..] == path;
      }
    }
  }

  /** A path that starts with a real key is split into exactly its keys' pieces. */
  lemma FieldOfNamed(path: Path)
    requires path != [] && path[0] != ""
    ensures SplitDots(FieldOf("", path)) == Flat(path)
  {
    FieldSplits(path[0], path[1..]);
  }

  /** Leading empty keys leave no trace, so the field is too short for the path. */
  lemma {:induction false} FieldIsShort(path: Path)
    requires path != [] && DotFree(path)
    ensures |SplitDots(FieldOf("", path))| <= |path|
    decreases path
  {
    if path[0] != "" {
      FieldOfNamed(path);
      FlatDotFree(path);
    } else if |path| > 1 {
      FieldIsShort(path[1..]);
    } else {
      assert FieldOf("", path) == "";
    }
  }

  predicate NamesItself(path: Path) {
    path != [] && DotFree(path) && (path[0] != "" || |path| == 1)
  }

  /** The reported field gives back the path it came from exactly when no key holds a dot and an
      empty first key is the only one. */
  lemma FieldNamesPath(path: Path)
    requires path != []
    ensures SplitDots(FieldOf("", path)) == path <==> NamesItself(path)
  {
    JsText.PartsHoldNoSeparator(FieldOf("", path), '.');
    if DotFree(path) {
      if path[0] != "" {
        FieldOfNamed(path);
        FlatDotFree(path);
      } else if |path| == 1 {
        assert FieldOf("", path) == "" && path == [""];
      } else {
        assert FieldOf("", path) == FieldOf("", path[1..]);
        FieldIsShort(path[1..]);
      }
    }
  }

  /** Every difference is reported under a field that names it. */
  ghost predicate AllNamed(b: Fields, a: Fields) {
    forall p :: Changed(b, a, p) ==> NamesItself(p)
  }

  predicate DotFreeKeys(m: Fields)
    decreases Obj(m)
  {
    forall k :: k in m ==> '.' !in k && (m[k].Obj? ==> DotFreeKeys(m[k].fields))
  }

  lemma {:induction false} ChangedPathIsDotFree(b: Fields, a: Fields, path: Path)
    requires DotFreeKeys(b) && DotFreeKeys(a) && Changed(b, a, path)
    ensures DotFree(path)
    decreases path
  {
    var bv, av := Field(b, path[0]), Field(a, path[0]);
    assert '.' !in path[0];
    if IsObj(bv) && IsObj(av) {
      ChangedPathIsDotFree(bv.value.fields, av.value.fields, path[1..]);
    }
  }

  /** Dot-free keys, not empty at the top, are enough. */
  lemma DotFreeKeysAreNamed(b: Fields, a: Fields)
    requires DotFreeKeys(b) && DotFreeKeys(a) && "" !in b && "" !in a
    ensures AllNamed(b, a)
  {
    forall p | Changed(b, a, p)
      ensures NamesItself(p)
    {
      ChangedPathIsDotFree(b, a, p);
    }
  }

  // ---------------------------------------------------------------- no path above another

  lemma {:induction false} ChangesDoNotNest(b: Fields, a: Fields, p: Path, q: Path)
    requires Changed(b, a, p) && Changed(b, a, q) && p <= q
    ensures p == q
    decreases p
  {
    var bv, av := Field(b, p[0]), Field(a, p[0]);
    if IsObj(bv) && IsObj(av) {
      ChangesDoNotNest(bv.value.fields, av.value.fields, p[1..], q[1..]);
      assert p == [p[0]] + p[1..] && q == [q[0]] + q[1..];
    }
  }

  lemma AboveSplits(s: string, t: string)
    requires s + "." <= t
    ensures SplitDots(s) < SplitDots(t)
  {
    var rest := t[|s| + 1..];
    assert t == s + "." + rest;
    JsText.SplitOnConcat(s, rest, '.');
    assert s + "." + rest == s + ['.'] + rest;
  }

  /** No reported field equals another or lies above it. */
  lemma FieldsDoNotNest(diff: seq<Entry>, b: Fields, a: Fields, i: nat, j: nat)
    requires IsDiff(diff, b, a) && AllNamed(b, a)
    requires i < |diff| && j < |diff| && i != j
    ensures diff[i].field != diff[j].field
    ensures !(diff[i].field + "." <= diff[j].field)
  {
    var paths :| Lists(paths, b, a) && diff == Rendered(paths, b, a, "");
    RenderedAt(paths, b, a, "");
    var p, q := paths[i], paths[j];
    assert p in paths && q in paths && p != q;
    FieldNamesPath(p);
    FieldNamesPath(q);
    if diff[i].field + "." <= diff[j].field {
      AboveSplits(diff[i].field, diff[j].field);
      ChangesDoNotNest(b, a, p, q);
    }
  }

  // ---------------------------------------------------------------- patching

  /** Sets the value at a path, or removes it; a path through a non-object changes nothing. */
  function SetAt(m: Fields, path: Path, v: Option<Json>): Fields
    requires path != []
    decreases path
  {
    var key := path[0];
    if |path| == 1 then
      match v case Some(x) => m[key := x] case None => m - {key}
    else
      var sub := Field(m, key);
      if IsObj(sub) then m[key := Obj(SetAt(sub.value.fields, path[1..], v))] else m
  }

  function Patch(doc: Fields, e: Entry): Fields {
    SetAt(doc, SplitDots(e.field), e.after)
  }

  function PatchAll(doc: Fields, diff: seq<Entry>): Fields
    decreases diff
  {
    if diff == [] then doc else PatchAll(Patch(doc, diff[0]), diff[1..])
  }

  lemma SetAtElsewhere(m: Fields, path: Path, v: Option<Json>, key: string)
    requires path != [] && key != path[0]
    ensures Field(SetAt(m, path, v), key) == Field(m, key)
  {
  }

  /** Repairing one difference removes it and touches no other. */
  lemma {:induction false} SetRepairsOne(d: Fields, a: Fields, p: Path, q: Path)
    requires Changed(d, a, p)
    ensures Changed(SetAt(d, p, ValueAt(a, p)), a, q) <==> Changed(d, a, q) && q != p
    decreases p
  {
    var key := p[0];
    var after := SetAt(d, p, ValueAt(a, p));
    if q != [] && q[0] != key {
      SetAtElsewhere(d, p, ValueAt(a, p), q[0]);
    } else if q != [] {
      var dv, av := Field(d, key), Field(a, key);
      assert p == [key] + p[1..] && q == [key] + q[1..];
      if IsObj(dv) && IsObj(av) {
        SetRepairsOne(dv.value.fields, av.value.fields, p[1..], q[1..]);
      } else {
        assert Field(after, key) == av;
        if IsObj(av) {
          SameHasNoChange(av.value.fields, q[1..]);
        }
      }
    }
  }

  lemma DropFirst(paths: seq<Path>, d: Fields, a: Fields)
    requires Lists(paths, d, a) && paths != []
    ensures Changed(d, a, paths[0]) && Lists(paths[1..], SetAt(d, paths[0], ValueAt(a, paths[0])), a)
  {
    var p := paths[0];
    assert p in paths;
    forall q
      ensures Changed(SetAt(d, p, ValueAt(a, p)), a, q) <==> Changed(d, a, q) && q != p
    {
      SetRepairsOne(d, a, p, q);
    }
    assert paths == [p] + paths[1..];
    forall q
      ensures q in paths[1..] <==> q in paths && q != p
    {
    }
  }

  /** Entries that name all remaining differences and carry the target values lead to the target. */
  lemma {:induction false} PatchReaches(d: Fields, a: Fields, paths: seq<Path>, diff: seq<Entry>)
    requires Lists(paths, d, a) && |diff| == |paths|
    requires forall i :: 0 <= i < |paths| ==>
             SplitDots(diff[i].field) == paths[i] && diff[i].after == ValueAt(a, paths[i])
    ensures PatchAll(d, diff) == a
    decreases |paths|
  {
    if paths == [] {
      if d != a {
        var p := DifferentHasChange(d, a);
      }
    } else {
      DropFirst(paths, d, a);
      PatchReaches(Patch(d, diff[0]), a, paths[1..], diff[1..]);
    }
  }

  /** Applying the diff to `before`, in whatever order the keys were met, yields `after`. */
  lemma PatchRestores(diff: seq<Entry>, b: Fields, a: Fields)
    requires IsDiff(diff, b, a) && AllNamed(b, a)
    ensures PatchAll(b, diff) == a
  {
    var paths :| Lists(paths, b, a) && diff == Rendered(paths, b, a, "");
    RenderedAt(paths, b, a, "");
    forall i | 0 <= i < |paths|
      ensures SplitDots(diff[i].field) == paths[i] && diff[i].after == ValueAt(a, paths[i])
    {
      assert paths[i] in paths;
      FieldNamesPath(paths[i]);
    }
    PatchReaches(b, a, paths, diff);
  }

  function Swapped(diff: seq<Entry>): seq<Entry> {
    seq(|diff|, i requires 0 <= i < |diff| => Entry(diff[i].field, diff[i].after, diff[i].before))
  }

  lemma {:induction false} ChangedBothWays(b: Fields, a: Fields, path: Path)
    ensures Changed(b, a, path) <==> Changed(a, b, path)
    decreases path
  {
    if path != [] {
      var bv, av := Field(b, path[0]), Field(a, path[0]);
      if IsObj(bv) && IsObj(av) {
        ChangedBothWays(bv.value.fields, av.value.fields, path[1..]);
      }
    }
  }

  /** The record is enough to undo the request: with the two values exchanged it is the diff back. */
  lemma SwappedUndoes(diff: seq<Entry>, b: Fields, a: Fields)
    requires IsDiff(diff, b, a)
    ensures IsDiff(Swapped(diff), a, b)
    ensures AllNamed(b, a) ==> PatchAll(a, Swapped(diff)) == b
  {
    var paths :| Lists(paths, b, a) && diff == Rendered(paths, b, a, "");
    RenderedAt(paths, b, a, "");
    RenderedAt(paths, a, b, "");
    assert Swapped(diff) == Rendered(paths, a, b, "");
    forall p
      ensures Changed(b, a, p) <==> Changed(a, b, p)
    {
      ChangedBothWays(b, a, p);
    }
    assert Lists(paths, a, b);
    if AllNamed(b, a) {
      PatchRestores(Swapped(diff), a, b);
    }
  }

  // ---------------------------------------------------------------- ambiguous records

  lemma OneChange(b: Fields, a: Fields, path: Path)
    requires Changed(b, a, path) && forall q :: Changed(b, a, q) ==> q == path
    ensures IsDiff([Render(path, b, a, "")], b, a)
  {
    var paths := [path];
    assert Lists(paths, b, a);
    RenderedAt(paths, b, a, "");
    assert Rendered(paths, b, a, "") == [Render(path, b, a, "")];
  }

  lemma RenderKey(key: string, b: Fields, a: Fields, prefix: string)
    ensures Render([key], b, a, prefix) == Entry(Extend(prefix, key), Field(b, key), Field(a, key))
  {
    assert [key][1..] == [];
    assert FieldOf(prefix, [key]) == FieldOf(Extend(prefix, key), []);
  }

  /** A dotted key and the nested keys it spells leave the same record. */
  lemma DottedKeysAreAmbiguous(x: string, y: string, v: Json, w: Json)
    requires x != "" && v != w && !(v.Obj? && w.Obj?)
    ensures var entry := Entry(x + "." + y, Some(v), Some(w));
            && IsDiff([entry], map[x + "." + y := v], map[x + "." + y := w])
            && IsDiff([entry], map[x := Obj(map[y := v])], map[x := Obj(map[y := w])])
  {
    var flat := [x + "." + y];
    assert flat[1..] == [];
    OneChange(map[x + "." + y := v], map[x + "." + y := w], flat);
    RenderKey(x + "." + y, map[x + "." + y := v], map[x + "." + y := w], "");
    var b, a := map[x := Obj(map[y := v])], map[x := Obj(map[y := w])];
    var nested := [x, y];
    assert nested[1..] == [y] && [y][1..] == [];
    forall q | Changed(b, a, q)
      ensures q == nested
    {
      assert Changed(b[x].fields, a[x].fields, q[1..]);
      assert q == [q[0]] + q[1..];
    }
    OneChange(b, a, nested);
    RenderUnder(x, [y], b, a, "");
    RenderKey(y, map[y := v], map[y := w], x);
    assert [x] + [y] == nested;
  }
}
