/** Exactly when the diff of `ResourceDiff` restores the new object: when every reported field names
    the path of its difference. Two things break this. A dotted key can only come into the object as
    part of a value set above it. And below an empty key at the top the field does not show that key,
    so the values go elsewhere. */
module ResourcePatch {
  import opened Results
  import opened Sequences
  import opened ResourceDiff
  import JsText

  // ---------------------------------------------------------------- dotted keys

  predicate Dotted(key: string) {
    '.' in key
  }

  /** The path with its first dotted key at `j`. */
  predicate DottedAt(path: Path, j: nat) {
    j < |path| && Dotted(path[j]) && forall i :: 0 <= i < j ==> !Dotted(path[i])
  }

  lemma {:induction false} FirstDotted(path: Path) returns (j: nat)
    requires !DotFree(path)
    ensures DottedAt(path, j)
  {
    if Dotted(path[0]) {
      j := 0;
    } else {
      j := FirstDotted(path[1..]);
      j := j + 1;
    }
  }

  lemma OneKeyIsAbove(q: Path, p: Path, j: nat)
    requires 0 < j <= |p|
    ensures |q| == 1 && q[0] == p[0] ==> q <= p[..j]
  {
  }

  /** Setting a dot-free path does not repair a difference below a dotted key, unless it replaces an
      object above that key. */
  lemma {:induction false} SetMissesDotted(d: Fields, a: Fields, p: Path, j: nat, q: Path, v: Option<Json>)
    requires Changed(d, a, p) && DottedAt(p, j) && q != [] && DotFree(q) && !(q <= p[..j])
    ensures Changed(SetAt(d, q, v), a, p)
    decreases p
  {
    if q[0] != p[0] {
      SetAtElsewhere(d, q, v, p[0]);
    } else {
      assert j > 0;
      assert q == [q[0]] + q[1..] && p[..j] == [p[0]] + p[1..][..j - 1];
      var dv, av := Field(d, p[0]), Field(a, p[0]);
      OneKeyIsAbove(q, p, j);
      SetMissesDotted(dv.value.fields, av.value.fields, p[1..], j - 1, q[1..], v);
    }
  }

  lemma {:induction false} PatchMissesDotted(d: Fields, a: Fields, p: Path, j: nat, diff: seq<Entry>)
    requires Changed(d, a, p) && DottedAt(p, j)
    requires forall i :: 0 <= i < |diff| ==> !(SplitDots(diff[i].field) <= p[..j])
    ensures Changed(PatchAll(d, diff), a, p)
    decreases diff
  {
    if diff != [] {
      var q := SplitDots(diff[0].field);
      JsText.PartsHoldNoSeparator(diff[0].field, '.');
      SetMissesDotted(d, a, p, j, q, diff[0].after);
      PatchMissesDotted(Patch(d, diff[0]), a, p, j, diff[1..]);
    }
  }

  /** Among the listed paths, one whose first dotted key lies highest. */
  lemma {:induction false} HighestDotted(paths: seq<Path>) returns (p: Path, j: nat)
    requires exists q :: q in paths && !DotFree(q)
    ensures p in paths && DottedAt(p, j)
    ensures forall q, k :: q in paths && DottedAt(q, k) ==> j <= k
  {
    var n := |paths| - 1;
    var last, rest := paths[n], paths[..n];
    assert paths == rest + [last];
    if q :| q in rest && !DotFree(q) {
      p, j := HighestDotted(rest);
      if !DotFree(last) {
        var k := FirstDotted(last);
        if k < j {
          p, j := last, k;
        }
      }
    } else {
      p := last;
      j := FirstDotted(last);
    }
  }

  /** No reported field reads as a path above the highest dotted key. */
  lemma NoFieldAbove(b: Fields, a: Fields, p: Path, j: nat, r: Path)
    requires Changed(b, a, p) && Changed(b, a, r) && DottedAt(p, j) && !BelowEmpty(r)
    requires forall k :: DottedAt(r, k) ==> j <= k
    ensures !(SplitDots(FieldOf("", r)) <= p[..j])
  {
    FieldNamesPath(r);
    if DotFree(r) {
      if r <= p[..j] {
        ChangesDoNotNest(b, a, r, p);
      }
    } else {
      var k := FirstDotted(r);
      assert r[0] != "";
      FieldOfNamed(r);
      FlatDotFree(r);
    }
  }

  lemma DottedKeyBlocks(paths: seq<Path>, diff: seq<Entry>, b: Fields, a: Fields)
    requires Lists(paths, b, a) && diff == Rendered(paths, b, a, "")
    requires (exists q :: q in paths && !DotFree(q)) && forall q :: q in paths ==> !BelowEmpty(q)
    ensures PatchAll(b, diff) != a
  {
    RenderedAt(paths, b, a, "");
    var p, j := HighestDotted(paths);
    forall i | 0 <= i < |diff|
      ensures !(SplitDots(diff[i].field) <= p[..j])
    {
      assert paths[i] in paths;
      NoFieldAbove(b, a, p, j, paths[i]);
    }
    PatchMissesDotted(b, a, p, j, diff);
    SameHasNoChange(a, p);
  }

  // ---------------------------------------------------------------- below an empty key

  /** The path goes on below an empty key at the top. */
  predicate BelowEmpty(path: Path) {
    |path| > 1 && path[0] == ""
  }

  function Empties(n: nat): Path {
    seq(n, _ => "")
  }

  /** How many empty keys the path starts with. */
  function Lead(path: Path): (n: nat)
    ensures n <= |path| && path[..n] == Empties(n) && (n < |path| ==> path[n] != "")
  {
    if path == [] || path[0] != "" then 0
    else
      assert path == [path[0]] + path[1..];
      1 + Lead(path[1..])
  }

  /** After the empty keys comes a dotted one. */
  predicate Sheds(path: Path) {
    Lead(path) < |path| && Dotted(path[Lead(path)])
  }

  /** What the reported field of a path reads as: the leading empty keys are lost. */
  lemma {:induction false} FieldReads(path: Path)
    requires path != []
    ensures SplitDots(FieldOf("", path)) == if Lead(path) == |path| then [""] else Flat(path[Lead(path)..])
    decreases path
  {
    if path[0] != "" {
      FieldOfNamed(path);
      assert path[0..] == path;
    } else if |path| == 1 {
      assert FieldOf("", path) == "";
    } else {
      assert FieldOf("", path) == FieldOf("", path[1..]);
      FieldReads(path[1..]);
      assert path[1..][Lead(path[1..])..] == path[Lead(path)..];
    }
  }

  /** A field that reads as starting with an empty key comes from a path of empty keys or one that sheds. */
  lemma ReadsEmpty(path: Path)
    requires path != []
    ensures var q := SplitDots(FieldOf("", path));
            q[0] == "" ==> Sheds(path) || (Lead(path) == |path| && q == Empties(1))
  {
    FieldReads(path);
    if Lead(path) < |path| && !Dotted(path[Lead(path)]) {
      JsText.SplitOnWord(path[Lead(path)], '.');
    }
    assert Empties(1) == [""];
  }

  // ---------------------------------------------------------------- heights

  ghost function Highest(s: set<nat>): nat {
    if s == {} then 0
    else
      var x :| x in s;
      var rest := Highest(s - {x});
      if x > rest then x else rest
  }

  lemma {:induction false} HighestIsBound(s: set<nat>, bound: nat)
    ensures Highest(s) <= bound <==> forall x :: x in s ==> x <= bound
  {
    if s != {} {
      var x :| x in s && Highest(s) == if x > Highest(s - {x}) then x else Highest(s - {x});
      HighestIsBound(s - {x}, bound);
      assert forall y :: y in s <==> y == x || y in s - {x};
    }
  }

  ghost function Height(v: Json): nat {
    if v.Obj? then 1 + Highest(set k | k in v.fields :: Height(v.fields[k])) else 0
  }

  /** The height of what lies below the dotted keys. */
  ghost function DottedHeight(m: Fields): nat {
    Highest(set k | k in m && Dotted(k) :: 1 + Height(m[k]))
  }

  lemma FieldIsLower(m: Fields, key: string)
    requires key in m
    ensures Height(m[key]) < Height(Obj(m))
    ensures Dotted(key) ==> Height(m[key]) < DottedHeight(m)
  {
    var heights := set k | k in m :: Height(m[k]);
    assert Height(m[key]) in heights;
    HighestIsBound(heights, Highest(heights));
    assert Obj(m).fields == m;
    if Dotted(key) {
      var dotted := set k | k in m && Dotted(k) :: 1 + Height(m[k]);
      assert 1 + Height(m[key]) in dotted;
      HighestIsBound(dotted, Highest(dotted));
    }
  }

  lemma DottedHeightIsLower(m: Fields)
    ensures DottedHeight(m) <= Height(Obj(m))
  {
    var dotted := set k | k in m && Dotted(k) :: 1 + Height(m[k]);
    forall h | h in dotted
      ensures h <= Height(Obj(m))
    {
      var k :| k in m && Dotted(k) && h == 1 + Height(m[k]);
      FieldIsLower(m, k);
    }
    HighestIsBound(dotted, Height(Obj(m)));
  }

  lemma {:induction false} ValueIsLower(m: Fields, path: Path)
    requires ValueAt(m, path).Some?
    ensures Height(ValueAt(m, path).value) < Height(Obj(m))
    decreases path
  {
    FieldIsLower(m, path[0]);
    if |path| > 1 {
      ValueIsLower(m[path[0]].fields, path[1..]);
      assert m[path[0]] == Obj(m[path[0]].fields);
    }
  }

  // ---------------------------------------------------------------- the chain of empty keys

  /** The object below `n` empty keys. */
  function Node(m: Fields, n: nat): Option<Fields>
    decreases n
  {
    if n == 0 then Some(m)
    else if "" in m && m[""].Obj? then Node(m[""].fields, n - 1)
    else None
  }

  lemma {:induction false} NodeSum(m: Fields, i: nat, n: nat)
    ensures Node(m, i + n) == if Node(m, i).Some? then Node(Node(m, i).value, n) else None
    decreases i
  {
    if i > 0 && "" in m && m[""].Obj? {
      NodeSum(m[""].fields, i - 1, n);
    }
  }

  lemma {:induction false} NodeIsLower(m: Fields, n: nat)
    requires Node(m, n).Some?
    ensures DottedHeight(Node(m, n).value) <= Height(Obj(m))
    decreases n
  {
    if n == 0 {
      DottedHeightIsLower(m);
    } else {
      NodeIsLower(m[""].fields, n - 1);
      FieldIsLower(m, "");
      assert m[""] == Obj(m[""].fields);
    }
  }

  lemma {:induction false} EmptiesReachNode(m: Fields, k: nat)
    requires k > 0
    ensures var v := ValueAt(m, Empties(k)); IsObj(v) ==> Node(m, k) == Some(v.value.fields)
    decreases k
  {
    if k > 1 {
      assert Empties(k)[1..] == Empties(k - 1);
      if IsObj(Field(m, "")) {
        EmptiesReachNode(m[""].fields, k - 1);
      }
    } else {
      assert Node(m, 1) == if "" in m && m[""].Obj? then Node(m[""].fields, 0) else None;
    }
  }

  /** A value below a dotted key of the chain is lower than that node. */
  lemma {:induction false} ShedValueIsLower(m: Fields, path: Path)
    requires Sheds(path) && ValueAt(m, path).Some?
    ensures Node(m, Lead(path)).Some? && Height(ValueAt(m, path).value) < DottedHeight(Node(m, Lead(path)).value)
    decreases path
  {
    if Lead(path) == 0 {
      FieldIsLower(m, path[0]);
      if |path| > 1 {
        ValueIsLower(m[path[0]].fields, path[1..]);
        assert m[path[0]] == Obj(m[path[0]].fields);
      }
    } else {
      assert Lead(path[1..]) == Lead(path) - 1 && path[1..][Lead(path) - 1] == path[Lead(path)];
      ShedValueIsLower(m[""].fields, path[1..]);
    }
  }

  /** From `base` on, node `n` is the last of those with the highest dotted parts. */
  ghost predicate Tallest(m: Fields, base: nat, n: nat) {
    && base <= n && Node(m, n).Some?
    && forall l :: base <= l && Node(m, l).Some? ==>
         && DottedHeight(Node(m, l).value) <= DottedHeight(Node(m, n).value)
         && (l > n ==> DottedHeight(Node(m, l).value) < DottedHeight(Node(m, n).value))
  }

  lemma {:induction false} TallestExists(m: Fields) returns (n: nat)
    ensures Tallest(m, 0, n)
    decreases Obj(m)
  {
    n := 0;
    if "" in m && m[""].Obj? {
      var below := m[""].fields;
      assert m[""] == Obj(below);
      var l := TallestExists(below);
      assert Node(m, l + 1) == Node(below, l);
      if DottedHeight(m) <= DottedHeight(Node(below, l).value) {
        n := l + 1;
      }
      forall x: nat | Node(m, x).Some?
        ensures x > 0 ==> Node(m, x) == Node(below, x - 1)
      {
      }
    }
  }

  lemma TallestFrom(m: Fields, base: nat) returns (n: nat)
    requires Node(m, base).Some?
    ensures Tallest(m, base, n)
  {
    var l := TallestExists(Node(m, base).value);
    n := base + l;
    NodeSum(m, base, l);
    forall x: nat | base <= x
      ensures Node(m, x) == Node(Node(m, base).value, x - base)
    {
      NodeSum(m, base, x - base);
    }
  }

  // ---------------------------------------------------------------- what a patch does to the chain

  /** Node `n`, if there, falls short of `height`. */
  ghost predicate Short(m: Fields, n: nat, height: nat) {
    Node(m, n).Some? ==> DottedHeight(Node(m, n).value) < height
  }

  lemma {:induction false} SetAway(m: Fields, q: Path, v: Option<Json>, n: nat)
    requires q != [] && DotFree(q) && !(q <= Empties(n))
    ensures Node(SetAt(m, q, v), n).Some? <==> Node(m, n).Some?
    ensures Node(m, n).Some? ==> DottedHeight(Node(SetAt(m, q, v), n).value) == DottedHeight(Node(m, n).value)
    decreases n
  {
    var t := SetAt(m, q, v);
    if n == 0 {
      SameDotted(m, t, q[0]);
    } else if q[0] != "" {
      SetAtElsewhere(m, q, v, "");
      assert Field(t, "") == Field(m, "");
    } else {
      assert |q| > 1;
      if "" in m && m[""].Obj? {
        assert !(q[1..] <= Empties(n - 1)) by {
          assert q == [""] + q[1..] && Empties(n) == [""] + Empties(n - 1);
        }
        SetAway(m[""].fields, q[1..], v, n - 1);
      }
    }
  }

  lemma SameDotted(m: Fields, t: Fields, key: string)
    requires !Dotted(key) && forall k :: k != key ==> Field(t, k) == Field(m, k)
    ensures DottedHeight(t) == DottedHeight(m)
  {
    assert forall k :: Dotted(k) ==> Field(t, k) == Field(m, k);
    assert (set k | k in m && Dotted(k) :: 1 + Height(m[k])) == (set k | k in t && Dotted(k) :: 1 + Height(t[k]));
  }

  lemma {:induction false} SetOn(m: Fields, i: nat, v: Option<Json>, n: nat)
    requires 0 < i <= n
    ensures var t := SetAt(m, Empties(i), v);
            Node(t, n).Some? ==> IsObj(v) && Node(t, n) == Node(v.value.fields, n - i)
    decreases i
  {
    if i > 1 {
      assert Empties(i)[1..] == Empties(i - 1);
      if "" in m && m[""].Obj? {
        SetOn(m[""].fields, i - 1, v, n - 1);
      }
    }
  }

  /** Entries that carry values of `a` to the chain of empty keys leave its tallest node short. */
  lemma EntryKeepsShort(doc: Fields, a: Fields, r: Path, base: nat, n: nat)
    requires r != [] && r != [""] && Tallest(a, base, n) && (Sheds(r) ==> Lead(r) >= base)
    requires Short(doc, n, DottedHeight(Node(a, n).value)) || SplitDots(FieldOf("", r)) <= Empties(n)
    ensures Short(SetAt(doc, SplitDots(FieldOf("", r)), ValueAt(a, r)), n, DottedHeight(Node(a, n).value))
  {
    var q, v := SplitDots(FieldOf("", r)), ValueAt(a, r);
    JsText.PartsHoldNoSeparator(FieldOf("", r), '.');
    if !(q <= Empties(n)) {
      SetAway(doc, q, v, n);
    } else {
      assert q == Empties(|q|);
      SetOn(doc, |q|, v, n);
      if IsObj(v) && Node(v.value.fields, n - |q|).Some? {
        ReadsEmpty(r);
        CarriedIsShort(a, r, base, n, n - |q|);
      }
    }
  }

  /** The value carried to the chain is shorter than the tallest node, wherever it lands. */
  lemma CarriedIsShort(a: Fields, r: Path, base: nat, n: nat, l: nat)
    requires r != [] && r != [""] && Tallest(a, base, n) && (Sheds(r) ==> Lead(r) >= base)
    requires Sheds(r) || (Lead(r) == |r| && l + 1 >= n)
    requires var v := ValueAt(a, r); IsObj(v) && Node(v.value.fields, l).Some?
    ensures DottedHeight(Node(ValueAt(a, r).value.fields, l).value) < DottedHeight(Node(a, n).value)
  {
    var w := ValueAt(a, r).value.fields;
    if Sheds(r) {
      ShedValueIsLower(a, r);
      NodeIsLower(w, l);
      assert ValueAt(a, r).value == Obj(w);
    } else {
      assert r == Empties(|r|);
      EmptiesReachNode(a, |r|);
      NodeSum(a, |r|, l);
    }
  }

  lemma {:induction false} PatchStaysShort(doc: Fields, a: Fields, paths: seq<Path>, diff: seq<Entry>, base: nat,
      n: nat)
    requires |diff| == |paths| && Tallest(a, base, n)
    requires forall i :: 0 <= i < |paths| ==> Carries(diff[i], paths[i], a, base)
    requires Short(doc, n, DottedHeight(Node(a, n).value)) ||
             exists i :: 0 <= i < |diff| && SplitDots(diff[i].field) <= Empties(n)
    ensures Short(PatchAll(doc, diff), n, DottedHeight(Node(a, n).value))
    decreases |diff|
  {
    if diff != [] {
      assert Carries(diff[0], paths[0], a, base);
      if Short(doc, n, DottedHeight(Node(a, n).value)) || SplitDots(diff[0].field) <= Empties(n) {
        EntryKeepsShort(doc, a, paths[0], base, n);
      } else {
        var i :| 0 <= i < |diff| && SplitDots(diff[i].field) <= Empties(n);
        assert diff[1..][i - 1] == diff[i];
      }
      PatchStaysShort(Patch(doc, diff[0]), a, paths[1..], diff[1..], base, n);
    }
  }

  /** The entry reports the value of `a` at `r`, which does not shed above `base`. */
  ghost predicate Carries(e: Entry, r: Path, a: Fields, base: nat) {
    && r != [] && r != [""] && (Sheds(r) ==> Lead(r) >= base)
    && e.field == FieldOf("", r) && e.after == ValueAt(a, r)
  }

  lemma {:induction false} ChangedReachesNode(b: Fields, a: Fields, p: Path, n: nat)
    requires Changed(b, a, p) && n < |p| && p[..n] == Empties(n)
    ensures Node(a, n).Some?
    decreases n
  {
    if n > 0 {
      assert p[0] == p[..n][0] == "" && p[1..][..n - 1] == p[..n][1..] == Empties(n - 1);
      ChangedReachesNode(b[""].fields, a[""].fields, p[1..], n - 1);
    }
  }

  /** Among the listed paths, one that sheds the fewest empty keys. */
  lemma {:induction false} TopmostShed(paths: seq<Path>) returns (p: Path)
    requires exists q :: q in paths && Sheds(q)
    ensures p in paths && Sheds(p) && forall q :: q in paths && Sheds(q) ==> Lead(p) <= Lead(q)
  {
    var n := |paths| - 1;
    var last, rest := paths[n], paths[..n];
    assert paths == rest + [last];
    p := last;
    if q :| q in rest && Sheds(q) {
      p := TopmostShed(rest);
      if Sheds(last) && Lead(last) < Lead(p) {
        p := last;
      }
    }
  }

  /** Once an entry is carried to the chain, no entry makes up for it. */
  lemma CarriedBlocks(paths: seq<Path>, diff: seq<Entry>, b: Fields, a: Fields, below: Path, base: nat, i: nat)
    requires Lists(paths, b, a) && diff == Rendered(paths, b, a, "") && below in paths && BelowEmpty(below)
    requires i < |diff| && SplitDots(diff[i].field) == Empties(base) && Node(a, base).Some?
    requires forall q :: q in paths && Sheds(q) ==> Lead(q) >= base
    ensures PatchAll(b, diff) != a
  {
    RenderedAt(paths, b, a, "");
    var n := TallestFrom(a, base);
    assert Empties(base) <= Empties(n);
    forall j | 0 <= j < |paths|
      ensures Carries(diff[j], paths[j], a, base)
    {
      assert paths[j] in paths;
      if paths[j] == [""] {
        ChangesDoNotNest(b, a, paths[j], below);
      }
    }
    PatchStaysShort(b, a, paths, diff, base, n);
  }

  /** Entries for other keys at the top do not repair a difference. */
  lemma {:induction false} PatchMissesKey(d: Fields, a: Fields, p: Path, diff: seq<Entry>)
    requires Changed(d, a, p) && forall i :: 0 <= i < |diff| ==> SplitDots(diff[i].field)[0] != p[0]
    ensures Changed(PatchAll(d, diff), a, p)
    decreases diff
  {
    if diff != [] {
      SetAtElsewhere(d, SplitDots(diff[0].field), diff[0].after, p[0]);
      PatchMissesKey(Patch(d, diff[0]), a, p, diff[1..]);
    }
  }

  /** No entry is set above the dotted key. */
  lemma UnreachedBlocks(diff: seq<Entry>, b: Fields, a: Fields, p: Path)
    requires Changed(b, a, p) && Sheds(p)
    requires forall i :: 0 <= i < |diff| ==> !(SplitDots(diff[i].field) <= Empties(Lead(p)))
    ensures PatchAll(b, diff) != a
  {
    var n := Lead(p);
    assert p[..n] == Empties(n);
    forall i | 0 <= i < n
      ensures !Dotted(p[i])
    {
      assert p[i] == p[..n][i];
    }
    PatchMissesDotted(b, a, p, n, diff);
    SameHasNoChange(a, p);
  }

  lemma PartOfEmpties(q: Path, n: nat)
    requires q <= Empties(n)
    ensures q == Empties(|q|) && |q| <= n
  {
  }

  lemma ShedBlocks(paths: seq<Path>, diff: seq<Entry>, b: Fields, a: Fields, below: Path)
    requires Lists(paths, b, a) && diff == Rendered(paths, b, a, "") && below in paths && BelowEmpty(below)
    requires exists q :: q in paths && Sheds(q)
    ensures PatchAll(b, diff) != a
  {
    var p := TopmostShed(paths);
    var n := Lead(p);
    if i :| 0 <= i < |diff| && SplitDots(diff[i].field) <= Empties(n) {
      PartOfEmpties(SplitDots(diff[i].field), n);
      var base := |SplitDots(diff[i].field)|;
      ChangedReachesNode(b, a, p, n);
      NodeSum(a, base, n - base);
      CarriedBlocks(paths, diff, b, a, below, base, i);
    } else {
      UnreachedBlocks(diff, b, a, p);
    }
  }

  lemma EmptyKeyBlocks(paths: seq<Path>, diff: seq<Entry>, b: Fields, a: Fields, below: Path)
    requires Lists(paths, b, a) && diff == Rendered(paths, b, a, "") && below in paths && BelowEmpty(below)
    ensures PatchAll(b, diff) != a
  {
    RenderedAt(paths, b, a, "");
    if q :| q in paths && Sheds(q) {
      ShedBlocks(paths, diff, b, a, below);
    } else if i :| 0 <= i < |diff| && SplitDots(diff[i].field) == Empties(1) {
      ChangedReachesNode(b, a, below, 1);
      CarriedBlocks(paths, diff, b, a, below, 1, i);
    } else {
      forall i | 0 <= i < |diff|
        ensures SplitDots(diff[i].field)[0] != ""
      {
        assert paths[i] in paths;
        ReadsEmpty(paths[i]);
      }
      PatchMissesKey(b, a, below, diff);
      SameHasNoChange(a, below);
    }
  }

  /** Applying the diff to `before`, in whatever order the keys were met, yields `after` exactly when
      every difference is reported under a field that names its path. */
  lemma PatchRestoresExactly(diff: seq<Entry>, b: Fields, a: Fields)
    requires IsDiff(diff, b, a)
    ensures PatchAll(b, diff) == a <==> AllNamed(b, a)
  {
    if AllNamed(b, a) {
      PatchRestores(diff, b, a);
    } else {
      var paths :| Lists(paths, b, a) && diff == Rendered(paths, b, a, "");
      if below :| below in paths && BelowEmpty(below) {
        EmptyKeyBlocks(paths, diff, b, a, below);
      } else {
        var p :| Changed(b, a, p) && !NamesItself(p);
        assert p in paths && !DotFree(p);
        DottedKeyBlocks(paths, diff, b, a);
      }
    }
  }

  /** The same condition decides whether the record, with its values exchanged, undoes the request. */
  lemma SwappedUndoesExactly(diff: seq<Entry>, b: Fields, a: Fields)
    requires IsDiff(diff, b, a)
    ensures PatchAll(a, Swapped(diff)) == b <==> AllNamed(b, a)
  {
    SwappedUndoes(diff, b, a);
    PatchRestoresExactly(Swapped(diff), a, b);
    forall p
      ensures Changed(a, b, p) <==> Changed(b, a, p)
    {
      ChangedBothWays(b, a, p);
    }
  }
}
