/** Marketplace facet counts of `src/cache/facetCountsCache.ts`: counters kept up to date by write
    events, against a full recount of the slots. */
module FacetCounts {
  import opened Results

  // ---------------------------------------------------------------- ranges

  /** A half-open range; no maximum means unbounded. */
  datatype Range = Range(min: real, max: Option<real>)

  const PRICE_RANGES := [
    Range(0.0, Some(5000.0)), Range(5000.0, Some(15000.0)), Range(15000.0, Some(50000.0)),
    Range(50000.0, Some(100000.0)), Range(100000.0, None)]

  const RATING_RANGES := [
    Range(4.5, Some(5.0)), Range(4.0, Some(4.5)), Range(3.5, Some(4.0)), Range(3.0, Some(3.5)), Range(0.0, Some(3.0))]

  predicate Contains(r: Range, x: real) {
    x >= r.min && (r.max.None? || x < r.max.value)
  }

  /** `ranges.find(...)`: the first range that contains `x`. */
  function FindFrom(ranges: seq<Range>, x: real, i: nat): (found: Option<nat>)
    requires i <= |ranges|
    ensures found.Some? ==> i <= found.value < |ranges| && Contains(ranges[found.value], x)
    ensures found.None? <==> forall k :: i <= k < |ranges| ==> !Contains(ranges[k], x)
    decreases |ranges| - i
  {
    if i == |ranges| then None else if Contains(ranges[i], x) then Some(i) else FindFrom(ranges, x, i + 1)
  }

  function Find(ranges: seq<Range>, x: Option<real>): (found: Option<nat>)
    ensures found.Some? ==> found.value < |ranges|
  {
    if x.None? then None else FindFrom(ranges, x.value, 0)
  }

  /** A price falls into exactly one range when it is not negative. A rating does when it lies
      in [0, 5): the top range ends before 5.0, so a perfect rating is counted nowhere. */
  lemma RangesCover(x: real, i: nat, j: nat)
    ensures Find(PRICE_RANGES, Some(x)).Some? <==> x >= 0.0
    ensures Find(RATING_RANGES, Some(x)).Some? <==> 0.0 <= x < 5.0
    ensures i < |PRICE_RANGES| && j < |PRICE_RANGES| ==>
              Contains(PRICE_RANGES[i], x) && Contains(PRICE_RANGES[j], x) ==> i == j
    ensures i < |RATING_RANGES| && j < |RATING_RANGES| ==>
              Contains(RATING_RANGES[i], x) && Contains(RATING_RANGES[j], x) ==> i == j
  {
    assert x >= 0.0 ==> Contains(PRICE_RANGES[0], x) || Contains(PRICE_RANGES[1], x) || Contains(PRICE_RANGES[2], x)
                        || Contains(PRICE_RANGES[3], x) || Contains(PRICE_RANGES[4], x);
    assert 0.0 <= x < 5.0 ==>
           Contains(RATING_RANGES[0], x) || Contains(RATING_RANGES[1], x) || Contains(RATING_RANGES[2], x)
                              || Contains(RATING_RANGES[3], x) || Contains(RATING_RANGES[4], x);
  }

  // ---------------------------------------------------------------- slots and cells

  datatype Slot = Slot(category: Option<string>, price: Option<real>, rating: Option<real>)

  type Slots = map<int, Slot>

  /** One counter of the facet counts. */
  datatype Cell = Category(name: string) | Price(i: nat) | Rating(i: nat)

  /** The slot is counted in the cell; the empty category name is not counted. */
  predicate In(s: Slot, cell: Cell) {
    match cell
    case Category(name) => s.category == Some(name) && name != ""
    case Price(i) => Find(PRICE_RANGES, s.price) == Some(i)
    case Rating(i) => Find(RATING_RANGES, s.rating) == Some(i)
  }

  predicate Categorised(s: Slot) {
    s.category.Some? && s.category.value != ""
  }

  function Members(slots: Slots, cell: Cell): set<int> {
    set id | id in slots && In(slots[id], cell)
  }

  function CategorisedIds(slots: Slots): set<int> {
    set id | id in slots && Categorised(slots[id])
  }

  /** The reference: how many slots belong to a cell. */
  function Recount(slots: Slots, cell: Cell): nat {
    |Members(slots, cell)|
  }

  function RecountCategorised(slots: Slots): nat {
    |CategorisedIds(slots)|
  }

  function One(b: bool): int {
    if b then 1 else 0
  }

  lemma RecountInsert(slots: Slots, id: int, s: Slot, cell: Cell)
    requires id !in slots
    ensures Recount(slots[id := s], cell) == Recount(slots, cell) + One(In(s, cell))
  {
    var ids := Members(slots, cell);
    assert Members(slots[id := s], cell) == if In(s, cell) then ids + {id} else ids;
  }

  lemma CategorisedInsert(slots: Slots, id: int, s: Slot)
    requires id !in slots
    ensures RecountCategorised(slots[id := s]) == RecountCategorised(slots) + One(Categorised(s))
  {
    var ids := CategorisedIds(slots);
    assert CategorisedIds(slots[id := s]) == if Categorised(s) then ids + {id} else ids;
  }

  lemma RecountRemove(slots: Slots, id: int, cell: Cell)
    requires id in slots
    ensures Recount(slots - {id}, cell) == Recount(slots, cell) - One(In(slots[id], cell))
    ensures RecountCategorised(slots - {id}) == RecountCategorised(slots) - One(Categorised(slots[id]))
  {
    assert (slots - {id})[id := slots[id]] == slots;
    RecountInsert(slots - {id}, id, slots[id], cell);
    CategorisedInsert(slots - {id}, id, slots[id]);
  }

  // ---------------------------------------------------------------- events

  datatype Kind = Create | Update | Delete

  /** `before` and `after` hold the old and new fields that the event carries. */
  datatype Event = Event(slotId: int, kind: Kind, before: Slot, after: Slot, timestamp: int)

  /** The event describes a change that is possible in `slots`. */
  predicate Truthful(slots: Slots, e: Event) {
    match e.kind
    case Create => e.slotId !in slots
    case Update => e.slotId in slots && slots[e.slotId] == e.before
    case Delete => e.slotId in slots && slots[e.slotId] == e.before
  }

  function Happen(slots: Slots, e: Event): Slots {
    if e.kind == Delete then slots - {e.slotId} else slots[e.slotId := e.after]
  }

  predicate Leaves(e: Event, cell: Cell) {
    e.kind != Create && In(e.before, cell)
  }

  predicate Enters(e: Event, cell: Cell) {
    e.kind != Delete && In(e.after, cell)
  }

  lemma RecountAfter(slots: Slots, e: Event, cell: Cell)
    requires Truthful(slots, e)
    ensures Recount(Happen(slots, e), cell) == Recount(slots, cell) - One(Leaves(e, cell)) + One(Enters(e, cell))
    ensures RecountCategorised(Happen(slots, e)) == RecountCategorised(slots)
            - One(e.kind != Create && Categorised(e.before)) + One(e.kind != Delete && Categorised(e.after))
  {
    match e.kind {
      case Create =>
        RecountInsert(slots, e.slotId, e.after, cell);
        CategorisedInsert(slots, e.slotId, e.after);
      case Delete => RecountRemove(slots, e.slotId, cell);
      case Update =>
        RecountRemove(slots, e.slotId, cell);
        RecountInsert(slots - {e.slotId}, e.slotId, e.after, cell);
        CategorisedInsert(slots - {e.slotId}, e.slotId, e.after);
        assert (slots - {e.slotId})[e.slotId := e.after] == slots[e.slotId := e.after];
    }
  }

  // ---------------------------------------------------------------- incremental counters

  datatype Counts = Counts(categories: map<string, int>, price: seq<int>, rating: seq<int>, total: int)

  predicate WellSized(c: Counts) {
    |c.price| == |PRICE_RANGES| && |c.rating| == |RATING_RANGES|
  }

  function AtLeastZero(n: int): int {
    if n < 0 then 0 else n
  }

  function DecCategory(c: Counts, cat: Option<string>): Counts {
    if cat.Some? && cat.value != "" && cat.value in c.categories then
      c.(categories := c.categories[cat.value := AtLeastZero(c.categories[cat.value] - 1)],
          total := AtLeastZero(c.total - 1))
    else c
  }

  function IncCategory(c: Counts, cat: Option<string>): Counts {
    if cat.Some? && cat.value != "" then
      c.(categories :=
           c.categories[cat.value := (if cat.value in c.categories then c.categories[cat.value] else 0) + 1],
         total := c.total + 1)
    else c
  }

  function DecAt(counts: seq<int>, i: Option<nat>): seq<int> {
    if i.Some? && i.value < |counts| then counts[i.value := AtLeastZero(counts[i.value] - 1)] else counts
  }

  function IncAt(counts: seq<int>, i: Option<nat>): seq<int> {
    if i.Some? && i.value < |counts| then counts[i.value := counts[i.value] + 1] else counts
  }

  function MoveCategory(c: Counts, kind: Kind, before: Option<string>, after: Option<string>): Counts {
    match kind
    case Create => IncCategory(c, after)
    case Delete => DecCategory(c, before)
    case Update => if before != after then IncCategory(DecCategory(c, before), after) else c
  }

  function MoveRange(counts: seq<int>, ranges: seq<Range>, kind: Kind, before: Option<real>,
      after: Option<real>): seq<int>
  {
    match kind
    case Create => IncAt(counts, Find(ranges, after))
    case Delete => DecAt(counts, Find(ranges, before))
    case Update => if before != after then IncAt(DecAt(counts, Find(ranges, before)), Find(ranges, after)) else counts
  }

  /** `applySingleEvent` on values. */
  function Apply(c: Counts, e: Event): Counts {
    MoveCategory(c, e.kind, e.before.category, e.after.category).(
      price := MoveRange(c.price, PRICE_RANGES, e.kind, e.before.price, e.after.price),
      rating := MoveRange(c.rating, RATING_RANGES, e.kind, e.before.rating, e.after.rating))
  }

  function ApplyAll(c: Counts, events: seq<Event>): Counts {
    if events == [] then c else Apply(ApplyAll(c, events[..|events| - 1]), events[|events| - 1])
  }

  /** The value of a counter; a category that is not listed counts zero. */
  function Value(c: Counts, cell: Cell): int {
    match cell
    case Category(name) => if name in c.categories then c.categories[name] else 0
    case Price(i) => if i < |c.price| then c.price[i] else 0
    case Rating(i) => if i < |c.rating| then c.rating[i] else 0
  }

  /** No counter that the event takes from stands at zero, so no clamp can fire. */
  ghost predicate Covered(c: Counts, e: Event) {
    && (forall cell :: Leaves(e, cell) ==> Value(c, cell) >= 1)
    && (e.kind != Create && Categorised(e.before) ==> c.total >= 1)
  }

  lemma CategoryMoves(c: Counts, e: Event, name: string)
    requires Covered(c, e) && name != ""
    ensures var cell := Category(name);
            Value(Apply(c, e), cell) == Value(c, cell) - One(Leaves(e, cell)) + One(Enters(e, cell))
    ensures Apply(c, e).total ==
            c.total - One(e.kind != Create && Categorised(e.before)) + One(e.kind != Delete && Categorised(e.after))
  {
    if e.kind != Create && Categorised(e.before) {
      assert Leaves(e, Category(e.before.category.value));
    }
  }

  /** Moving one unit from cell `i` to cell `j` of a list of counters. */
  lemma UnitMoves(counts: seq<int>, i: Option<nat>, j: Option<nat>, k: nat)
    requires k < |counts| && (i.Some? ==> i.value < |counts| && counts[i.value] >= 1) &&
             (j.Some? ==> j.value < |counts|)
    ensures |IncAt(DecAt(counts, i), j)| == |counts|
    ensures IncAt(DecAt(counts, i), j)[k] == counts[k] - One(i == Some(k)) + One(j == Some(k))
  {
  }

  /** One list of range counters: whatever the kind of event, a unit moves from the old range to the
      new one. */
  lemma RangeMoves(counts: seq<int>, ranges: seq<Range>, kind: Kind, before: Option<real>, after: Option<real>, k: nat)
    requires |counts| == |ranges| && k < |counts|
    requires kind != Create && Find(ranges, before).Some? ==> counts[Find(ranges, before).value] >= 1
    ensures |MoveRange(counts, ranges, kind, before, after)| == |counts|
    ensures MoveRange(counts, ranges, kind, before, after)[k] == counts[k]
            - One(kind != Create && Find(ranges, before) == Some(k)) +
                One(kind != Delete && Find(ranges, after) == Some(k))
  {
    UnitMoves(counts, if kind == Create then None else Find(ranges, before),
              if kind == Delete then None else Find(ranges, after), k);
  }

  lemma PricesMove(c: Counts, e: Event, k: nat)
    requires WellSized(c) && Covered(c, e) && k < |PRICE_RANGES|
    ensures |Apply(c, e).price| == |PRICE_RANGES|
    ensures Apply(c, e).price[k] == c.price[k] - One(Leaves(e, Price(k))) + One(Enters(e, Price(k)))
  {
    var p := Find(PRICE_RANGES, e.before.price);
    assert e.kind != Create && p.Some? ==> Leaves(e, Price(p.value));
    RangeMoves(c.price, PRICE_RANGES, e.kind, e.before.price, e.after.price, k);
  }

  lemma RatingsMove(c: Counts, e: Event, k: nat)
    requires WellSized(c) && Covered(c, e) && k < |RATING_RANGES|
    ensures |Apply(c, e).rating| == |RATING_RANGES|
    ensures Apply(c, e).rating[k] == c.rating[k] - One(Leaves(e, Rating(k))) + One(Enters(e, Rating(k)))
  {
    var q := Find(RATING_RANGES, e.before.rating);
    assert e.kind != Create && q.Some? ==> Leaves(e, Rating(q.value));
    RangeMoves(c.rating, RATING_RANGES, e.kind, e.before.rating, e.after.rating, k);
  }

  /** Each counter moves by exactly what the event says. */
  lemma ApplyMoves(c: Counts, e: Event, cell: Cell)
    requires WellSized(c) && Covered(c, e) && cell != Category("")
    ensures WellSized(Apply(c, e))
    ensures Value(Apply(c, e), cell) == Value(c, cell) - One(Leaves(e, cell)) + One(Enters(e, cell))
    ensures Apply(c, e).total ==
            c.total - One(e.kind != Create && Categorised(e.before)) + One(e.kind != Delete && Categorised(e.after))
  {
    CategoryMoves(c, e, if cell.Category? then cell.name else "x");
    PricesMove(c, e, if cell.Price? && cell.i < |PRICE_RANGES| then cell.i else 0);
    RatingsMove(c, e, if cell.Rating? && cell.i < |RATING_RANGES| then cell.i else 0);
  }

  // ---------------------------------------------------------------- agreement with the recount

  /** Every counter equals the recount; `extra` is how far the total is ahead of the number of
      slots that have a category. */
  ghost predicate Agrees(c: Counts, slots: Slots, extra: nat) {
    && WellSized(c)
    && (forall cell :: cell != Category("") ==> Value(c, cell) == Recount(slots, cell))
    && c.total == RecountCategorised(slots) + extra
  }

  ghost predicate AllTruthful(slots: Slots, events: seq<Event>) {
    events == [] || (AllTruthful(slots, events[..|events| - 1]) &&
        Truthful(HappenAll(slots, events[..|events| - 1]), events[|events| - 1]))
  }

  function HappenAll(slots: Slots, events: seq<Event>): Slots {
    if events == [] then slots else Happen(HappenAll(slots, events[..|events| - 1]), events[|events| - 1])
  }

  lemma MemberCounts(slots: Slots, id: int, cell: Cell)
    requires id in slots && In(slots[id], cell)
    ensures Recount(slots, cell) >= 1
  {
    assert id in Members(slots, cell);
  }

  lemma TruthfulIsCovered(c: Counts, slots: Slots, extra: nat, e: Event)
    requires Agrees(c, slots, extra) && Truthful(slots, e)
    ensures Covered(c, e)
  {
    forall cell | Leaves(e, cell)
      ensures Value(c, cell) >= 1
    {
      MemberCounts(slots, e.slotId, cell);
    }
    if e.kind != Create && Categorised(e.before) {
      assert e.slotId in CategorisedIds(slots);
    }
  }

  lemma ApplyAgrees(c: Counts, slots: Slots, extra: nat, e: Event)
    requires Agrees(c, slots, extra) && Truthful(slots, e)
    ensures Agrees(Apply(c, e), Happen(slots, e), extra)
  {
    TruthfulIsCovered(c, slots, extra, e);
    forall cell | cell != Category("")
      ensures Value(Apply(c, e), cell) == Recount(Happen(slots, e), cell)
    {
      ApplyMoves(c, e, cell);
      RecountAfter(slots, e, cell);
    }
    ApplyMoves(c, e, Price(0));
    RecountAfter(slots, e, Price(0));
  }

  /** Folding truthful events over counts that agree with the slots keeps them in agreement with
      a recount of the resulting slots, and on the way no clamp at zero ever fires. */
  lemma {:induction false} IncrementalEqualsRecount(c: Counts, slots: Slots, extra: nat, events: seq<Event>)
    requires Agrees(c, slots, extra) && AllTruthful(slots, events)
    ensures Agrees(ApplyAll(c, events), HappenAll(slots, events), extra)
    ensures forall n :: 0 <= n < |events| ==> Covered(ApplyAll(c, events[..n]), events[n])
  {
    if events != [] {
      var before, e := events[..|events| - 1], events[|events| - 1];
      IncrementalEqualsRecount(c, slots, extra, before);
      ApplyAgrees(ApplyAll(c, before), HappenAll(slots, before), extra, e);
      TruthfulIsCovered(ApplyAll(c, before), HappenAll(slots, before), extra, e);
      forall n | 0 <= n < |events|
        ensures Covered(ApplyAll(c, events[..n]), events[n])
      {
        assert n < |before| ==> before[..n] == events[..n] && before[n] == events[n];
      }
    }
  }

  function Uncategorised(slots: Slots): nat {
    |slots.Keys - CategorisedIds(slots)|
  }

  lemma SizeSplits(slots: Slots)
    ensures |slots| == RecountCategorised(slots) + Uncategorised(slots)
  {
    assert CategorisedIds(slots) <= slots.Keys;
    assert slots.Keys == CategorisedIds(slots) + (slots.Keys - CategorisedIds(slots));
  }

  /** `totalMatching` follows categories only. Starting from the true number of slots it ends at
      the true number exactly when as many slots are without a category as before. */
  lemma TotalAgreesExactly(c: Counts, slots: Slots, events: seq<Event>)
    requires Agrees(c, slots, Uncategorised(slots)) && AllTruthful(slots, events)
    ensures c.total == |slots|
    ensures ApplyAll(c, events).total == |HappenAll(slots, events)| <==>
            Uncategorised(HappenAll(slots, events)) == Uncategorised(slots)
  {
    IncrementalEqualsRecount(c, slots, Uncategorised(slots), events);
    SizeSplits(slots);
    SizeSplits(HappenAll(slots, events));
  }

  /** Creating one slot without a category already breaks the total. */
  lemma UncategorisedSlotMiscounts(c: Counts, slots: Slots, e: Event)
    requires Agrees(c, slots, Uncategorised(slots)) && Truthful(slots, e) && e.kind == Create && !Categorised(e.after)
    ensures ApplyAll(c, [e]).total == |HappenAll(slots, [e])| - 1
  {
    assert [e][..0] == [] && HappenAll(slots, []) == slots && AllTruthful(slots, []);
    var after := HappenAll(slots, [e]);
    assert after == Happen(HappenAll(slots, [e][..0]), e);
    IncrementalEqualsRecount(c, slots, Uncategorised(slots), [e]);
    SizeSplits(slots);
    assert CategorisedIds(after) == CategorisedIds(slots);
    assert after.Keys == slots.Keys + {e.slotId};
    assert |after| == |after.Keys| && |slots| == |slots.Keys|;
  }

  // ---------------------------------------------------------------- recounting from rows

  /** The rows that fall into range `i`. */
  function RowsIn(rows: seq<real>, ranges: seq<Range>, i: nat): nat {
    if rows == [] then 0
    else RowsIn(rows[..|rows| - 1], ranges, i) + if Find(ranges, Some(rows[|rows| - 1])) == Some(i) then 1 else 0
  }

  /** The counting loop of `computeFacetCountsFromDb` over the returned prices or ratings. */
  method CountRows(rows: seq<real>, ranges: seq<Range>) returns (counts: array<int>)
    ensures fresh(counts) && counts.Length == |ranges|
    ensures forall i :: 0 <= i < |ranges| ==> counts[i] == RowsIn(rows, ranges, i)
  {
    counts := new int[|ranges|](_ => 0);
    for k := 0 to |rows|
      invariant forall i :: 0 <= i < |ranges| ==> counts[i] == RowsIn(rows[..k], ranges, i)
    {
      assert rows[..k + 1][..k] == rows[..k];
      var found := Find(ranges, Some(rows[k]));
      if found.Some? {
        counts[found.value] := counts[found.value] + 1;
      }
    }
    assert rows[..|rows|] == rows;
  }

  function IdSet(ids: seq<int>): set<int> {
    if ids == [] then {} else IdSet(ids[..|ids| - 1]) + {ids[|ids| - 1]}
  }

  /** The two numeric columns, each with its ranges and cells. */
  datatype Column = Prices | Ratings {
    function Ranges(): seq<Range> {
      if Prices? then PRICE_RANGES else RATING_RANGES
    }

    function CellAt(i: nat): Cell {
      if Prices? then Price(i) else Rating(i)
    }

    function Of(s: Slot): Option<real> {
      if Prices? then s.price else s.rating
    }
  }

  /** `rows` are the values of the column in the slots `ids`, each slot once. */
  ghost predicate RowsOf(column: Column, slots: Slots, ids: seq<int>, rows: seq<real>) {
    (ids == [] && rows == []) ||
    (|ids| == |rows| > 0 &&
     var n := |ids| - 1;
     && RowsOf(column, slots, ids[..n], rows[..n])
     && ids[n] in slots && column.Of(slots[ids[n]]) == Some(rows[n]) && ids[n] !in IdSet(ids[..n]))
  }

  function MembersAmong(slots: Slots, ids: set<int>, cell: Cell): set<int> {
    set id | id in ids && id in slots && In(slots[id], cell)
  }

  lemma MembersAmongGrow(slots: Slots, ids: set<int>, id: int, cell: Cell)
    requires id in slots && id !in ids
    ensures |MembersAmong(slots, ids + {id}, cell)| == |MembersAmong(slots, ids, cell)| + One(In(slots[id], cell))
  {
    var before := MembersAmong(slots, ids, cell);
    assert MembersAmong(slots, ids + {id}, cell) == if In(slots[id], cell) then before + {id} else before;
  }

  lemma {:induction false} RowsMatchMembers(column: Column, slots: Slots, ids: seq<int>, rows: seq<real>, i: nat)
    requires RowsOf(column, slots, ids, rows)
    ensures RowsIn(rows, column.Ranges(), i) == |MembersAmong(slots, IdSet(ids), column.CellAt(i))|
    decreases |ids|
  {
    if ids == [] {
      assert MembersAmong(slots, {}, column.CellAt(i)) == {};
    } else {
      var n := |ids| - 1;
      RowsMatchMembers(column, slots, ids[..n], rows[..n], i);
      MembersAmongGrow(slots, IdSet(ids[..n]), ids[n], column.CellAt(i));
    }
  }

  /** Counting the rows of all slots with a price, or with a rating, gives the reference recount of
      every cell of that column. */
  lemma RowCountIsRecount(column: Column, slots: Slots, ids: seq<int>, rows: seq<real>, i: nat)
    requires RowsOf(column, slots, ids, rows)
    requires forall id :: id in slots && column.Of(slots[id]).Some? ==> id in IdSet(ids)
    ensures RowsIn(rows, column.Ranges(), i) == Recount(slots, column.CellAt(i))
  {
    var cell := column.CellAt(i);
    RowsMatchMembers(column, slots, ids, rows, i);
    forall id | id in Members(slots, cell)
      ensures id in IdSet(ids)
    {
      assert column.Of(slots[id]).Some?;
    }
    assert MembersAmong(slots, IdSet(ids), cell) == Members(slots, cell);
  }

  // ---------------------------------------------------------------- the mutable cache entry

  /** A `FacetCounts` object; the counts of the ranges live in their own arrays. */
  class CountsEntry {
    var categories: map<string, int>
    const priceCounts: array<int>
    const ratingCounts: array<int>
    var totalMatching: int
    var lastRefreshedAt: int

    ghost predicate Valid()
      reads this
    {
      priceCounts.Length == |PRICE_RANGES| && ratingCounts.Length == |RATING_RANGES| && priceCounts != ratingCounts
    }

    ghost function Abs(): Counts
      reads this, priceCounts, ratingCounts
    {
      Counts(categories, priceCounts[..], ratingCounts[..], totalMatching)
    }

    /** The deep copy at the start of `applyWriteEvents`. */
    constructor CopyOf(base: CountsEntry)
      requires base.Valid()
      ensures Valid() && fresh(priceCounts) && fresh(ratingCounts)
      ensures Abs() == base.Abs() && lastRefreshedAt == base.lastRefreshedAt
    {
      var p, r := new int[|PRICE_RANGES|], new int[|RATING_RANGES|];
      forall i | 0 <= i < p.Length { p[i] := base.priceCounts[i]; }
      forall i | 0 <= i < r.Length { r[i] := base.ratingCounts[i]; }
      categories, priceCounts, ratingCounts := base.categories, p, r;
      totalMatching, lastRefreshedAt := base.totalMatching, base.lastRefreshedAt;
      new;
      assert priceCounts[..] == base.priceCounts[..] && ratingCounts[..] == base.ratingCounts[..];
    }

    method DecrementCategory(cat: Option<string>)
      modifies `categories, `totalMatching
      ensures Abs() == DecCategory(old(Abs()), cat)
    {
      if cat.Some? && cat.value != "" && cat.value in categories {
        categories := categories[cat.value := AtLeastZero(categories[cat.value] - 1)];
        totalMatching := AtLeastZero(totalMatching - 1);
      }
    }

    method IncrementCategory(cat: Option<string>)
      modifies `categories, `totalMatching
      ensures Abs() == IncCategory(old(Abs()), cat)
    {
      if cat.Some? && cat.value != "" {
        categories := categories[cat.value := (if cat.value in categories then categories[cat.value] else 0) + 1];
        totalMatching := totalMatching + 1;
      }
    }

    method ApplyToCategories(kind: Kind, before: Option<string>, after: Option<string>)
      modifies `categories, `totalMatching
      ensures Abs() == MoveCategory(old(Abs()), kind, before, after)
    {
      match kind {
        case Create => IncrementCategory(after);
        case Delete => DecrementCategory(before);
        case Update =>
          if before != after {
            DecrementCategory(before);
            IncrementCategory(after);
          }
      }
    }

    /** `applySingleEvent`. */
    method ApplySingleEvent(e: Event)
      requires Valid()
      modifies `categories, `totalMatching, priceCounts, ratingCounts
      ensures Valid() && Abs() == Apply(old(Abs()), e)
    {
      ApplyToCategories(e.kind, e.before.category, e.after.category);
      ApplyToRanges(priceCounts, PRICE_RANGES, e.kind, e.before.price, e.after.price);
      ApplyToRanges(ratingCounts, RATING_RANGES, e.kind, e.before.rating, e.after.rating);
    }

    /** The event loop of `applyWriteEvents`. */
    method ApplyEvents(events: seq<Event>)
      requires Valid()
      modifies `categories, `totalMatching, priceCounts, ratingCounts
      ensures Valid() && Abs() == ApplyAll(old(Abs()), events)
    {
      for i := 0 to |events|
        invariant Valid() && Abs() == ApplyAll(old(Abs()), events[..i])
      {
        assert events[..i + 1][..i] == events[..i];
        ApplySingleEvent(events[i]);
      }
      assert events[..|events|] == events;
    }
  }

  method ApplyToRanges(counts: array<int>, ranges: seq<Range>, kind: Kind, before: Option<real>, after: Option<real>)
    requires counts.Length == |ranges|
    modifies counts
    ensures counts[..] == MoveRange(old(counts[..]), ranges, kind, before, after)
  {
    match kind {
      case Create => IncrementRange(counts, Find(ranges, after));
      case Delete => DecrementRange(counts, Find(ranges, before));
      case Update =>
        if before != after {
          DecrementRange(counts, Find(ranges, before));
          IncrementRange(counts, Find(ranges, after));
        }
    }
  }

  method DecrementRange(counts: array<int>, i: Option<nat>)
    requires i.Some? ==> i.value < counts.Length
    modifies counts
    ensures counts[..] == DecAt(old(counts[..]), i)
  {
    if i.Some? {
      counts[i.value] := AtLeastZero(counts[i.value] - 1);
    }
  }

  method IncrementRange(counts: array<int>, i: Option<nat>)
    requires i.Some? ==> i.value < counts.Length
    modifies counts
    ensures counts[..] == IncAt(old(counts[..]), i)
  {
    if i.Some? {
      counts[i.value] := counts[i.value] + 1;
    }
  }

  // ---------------------------------------------------------------- the write log

  const MAX_WRITE_EVENTS := 10000

  function LastOf(log: seq<Event>, n: nat): seq<Event> {
    if |log| <= n then log else log[|log| - n..]
  }

  /** The events at or after `since`, in order. */
  function Recent(events: seq<Event>, since: int): seq<Event> {
    if events == [] then []
    else
      var last := events[|events| - 1];
      Recent(events[..|events| - 1], since) + if last.timestamp >= since then [last] else []
  }

  function LatestTime(events: seq<Event>, t: int): int {
    if events == [] then t
    else
      var rest := LatestTime(events[..|events| - 1], t);
      if events[|events| - 1].timestamp > rest then events[|events| - 1].timestamp else rest
  }

  /** Copying the events recorded since a refresh out of the bounded log yields all of them
      exactly when there are no more than the log can hold. */
  lemma {:induction false} RecentIsCompleteExactly(before: seq<Event>, missing: seq<Event>, since: int)
    requires forall e :: e in before ==> e.timestamp < since
    requires forall e :: e in missing ==> e.timestamp >= since
    ensures Recent(LastOf(before + missing, MAX_WRITE_EVENTS), since) == missing <==> |missing| <= MAX_WRITE_EVENTS
  {
    var log := before + missing;
    var kept := LastOf(log, MAX_WRITE_EVENTS);
    if |missing| <= MAX_WRITE_EVENTS {
      var n := |kept| - |missing|;
      assert kept == kept[..n] + missing;
      forall e | e in kept[..n]
        ensures e.timestamp < since
      {
        assert e in before;
      }
      RecentSplits(kept[..n], missing, since);
    } else {
      RecentIsShort(kept, since);
    }
  }

  lemma {:induction false} RecentSplits(a: seq<Event>, b: seq<Event>, since: int)
    requires forall e :: e in a ==> e.timestamp < since
    requires forall e :: e in b ==> e.timestamp >= since
    ensures Recent(a + b, since) == b
    decreases |a| + |b|
  {
    var s := a + b;
    if b != [] {
      assert s[..|s| - 1] == a + b[..|b| - 1];
      RecentSplits(a, b[..|b| - 1], since);
    } else if a != [] {
      assert s[..|s| - 1] == a[..|a| - 1] + [];
      RecentSplits(a[..|a| - 1], [], since);
      assert s[|s| - 1] == a[|a| - 1];
    }
  }

  lemma {:induction false} RecentIsShort(events: seq<Event>, since: int)
    ensures |Recent(events, since)| <= |events|
  {
    if events != [] {
      RecentIsShort(events[..|events| - 1], since);
    }
  }

  class FacetCountsCache {
    var writeEvents: seq<Event>
    ghost var log: seq<Event>

    ghost predicate Valid()
      reads this
    {
      writeEvents == LastOf(log, MAX_WRITE_EVENTS)
    }

    constructor ()
      ensures Valid() && log == []
    {
      writeEvents, log := [], [];
    }

    method RecordWriteEvent(e: Event)
      requires Valid()
      modifies this
      ensures Valid() && log == old(log) + [e]
    {
      writeEvents := writeEvents + [e];
      if |writeEvents| > MAX_WRITE_EVENTS {
        writeEvents := writeEvents[|writeEvents| - MAX_WRITE_EVENTS..];
      }
      log := log + [e];
    }

    /** `applyWriteEvents`: works on a deep copy, so the cached base is left as it was; the base
        itself is returned only when there is nothing to apply. */
    method ApplyWriteEvents(base: CountsEntry, since: int) returns (result: CountsEntry)
      requires base.Valid()
      ensures result.Valid() && result.Abs() == ApplyAll(base.Abs(), Recent(writeEvents, since))
      ensures result.lastRefreshedAt == LatestTime(Recent(writeEvents, since), base.lastRefreshedAt)
      ensures if Recent(writeEvents, since) == [] then result == base
              else fresh(result) && fresh(result.priceCounts) && fresh(result.ratingCounts)
    {
      var events := Recent(writeEvents, since);
      if events == [] {
        return base;
      }
      result := new CountsEntry.CopyOf(base);
      result.ApplyEvents(events);
      result.lastRefreshedAt := LatestTime(events, base.lastRefreshedAt);
    }
  }
}
