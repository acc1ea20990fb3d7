/** The WAL archive check of `ops/wal/walIntegrityChecker.ts`. Listing, hashing and reading sidecar
    files are inputs; everything they can return, failures included, is covered. */
module WalIntegrity {
  import opened Results
  import JsText

  // ---------------------------------------------------------------- segment names

  datatype Segment = Segment(filename: string, timeline: nat, number: nat, isPartial: bool)

  const PARTIAL := ".partial"
  const SIDECAR := ".sha256"

  predicate EndsWith(s: string, suffix: string) {
    |suffix| <= |s| && s[|s| - |suffix|..] == suffix
  }

  function Strip(s: string, suffix: string): string {
    if EndsWith(s, suffix) then s[..|s| - |suffix|] else s
  }

  predicate IsHex(c: char) {
    '0' <= c <= '9' || 'A' <= c <= 'F' || 'a' <= c <= 'f'
  }

  predicate AllHex(s: string) {
    forall i :: 0 <= i < |s| ==> IsHex(s[i])
  }

  function HexValue(c: char): nat
    requires IsHex(c)
  {
    if c <= '9' then c as int - '0' as int
    else if c <= 'F' then c as int - 'A' as int + 10
    else c as int - 'a' as int + 10
  }

  function ParseHex(s: string): nat
    requires AllHex(s)
  {
    if s == [] then 0 else 16 * ParseHex(s[..|s| - 1]) + HexValue(s[|s| - 1])
  }

  /** Eight hex digits of timeline, then eight or sixteen of sequence number. The pattern allows
      one more ".partial" after the suffix that was already cut off. */
  function ParseSegmentFilename(filename: string): Option<Segment> {
    var core := Strip(Strip(filename, PARTIAL), PARTIAL);
    if AllHex(core) && |core| in {16, 24} then
      Some(Segment(filename, ParseHex(core[..8]), ParseHex(core[8..]), EndsWith(filename, PARTIAL)))
    else None
  }

  function Pow16(n: nat): nat {
    if n == 0 then 1 else 16 * Pow16(n - 1)
  }

  function HexDigit(d: nat): char
    requires d < 16
  {
    if d < 10 then '0' + d as char else 'A' + (d - 10) as char
  }

  /** A number printed with a fixed width. */
  function HexText(n: nat, width: nat): string {
    if width == 0 then "" else HexText(n / 16, width - 1) + [HexDigit(n % 16)]
  }

  lemma {:induction false} HexRoundTrip(n: nat, width: nat)
    requires n < Pow16(width)
    ensures |HexText(n, width)| == width && AllHex(HexText(n, width)) && ParseHex(HexText(n, width)) == n
  {
    if width > 0 {
      HexRoundTrip(n / 16, width - 1);
      assert HexText(n, width)[..width - 1] == HexText(n / 16, width - 1);
    }
  }

  lemma HexIsNotPartial(s: string)
    requires AllHex(s)
    ensures !EndsWith(s, PARTIAL)
  {
    if |s| >= 8 {
      assert IsHex(s[|s| - 8]);
      assert s[|s| - 8] == s[|s| - 8..][0] && PARTIAL[0] == '.';
    }
  }

  /** Every position has its names: the printed timeline and number, of either width and with or
      without the suffix of a partial segment, parse back to that position. */
  lemma SegmentNameRoundTrip(timeline: nat, number: nat, width: nat, isPartial: bool)
    requires timeline < Pow16(8) && width in {8, 16} && number < Pow16(width)
    ensures var name := HexText(timeline, 8) + HexText(number, width) + if isPartial then PARTIAL else "";
            ParseSegmentFilename(name) == Some(Segment(name, timeline, number, isPartial))
  {
    HexRoundTrip(timeline, 8);
    HexRoundTrip(number, width);
    var core := HexText(timeline, 8) + HexText(number, width);
    assert AllHex(core) && core[..8] == HexText(timeline, 8) && core[8..] == HexText(number, width);
    HexIsNotPartial(core);
    assert core + "" == core;
    assert (core + PARTIAL)[|core|..] == PARTIAL && (core + PARTIAL)[..|core|] == core;
  }

  function SegmentsOf(filenames: seq<string>): seq<Segment> {
    if filenames == [] then []
    else
      var last := filenames[|filenames| - 1];
      var rest := SegmentsOf(filenames[..|filenames| - 1]);
      if EndsWith(last, SIDECAR) then rest
      else match ParseSegmentFilename(last) case None => rest case Some(seg) => rest + [seg]
  }

  method ParseAll(filenames: seq<string>) returns (parsed: seq<Segment>)
    ensures parsed == SegmentsOf(filenames)
  {
    parsed := [];
    for i := 0 to |filenames|
      invariant parsed == SegmentsOf(filenames[..i])
    {
      assert filenames[..i + 1][..i] == filenames[..i];
      if !EndsWith(filenames[i], SIDECAR) {
        var seg := ParseSegmentFilename(filenames[i]);
        if seg.Some? {
          parsed := parsed + [seg.value];
        }
      }
    }
    assert filenames[..|filenames|] == filenames;
  }

  // ---------------------------------------------------------------- alarms

  datatype Severity = CRITICAL | WARNING | INFO

  datatype Alarm =
    | ListingFailed
    | SplitBrain(timeline: nat, number: nat)
    | DuplicateSegment(filename: string)
    | Gap(timeline: nat, first: int, last: int)
    | HashTimeout(filename: string)
    | Unreadable(filename: string)
    | SidecarTimeout(filename: string)
    | HashMismatch(filename: string)
    | RestoreInProgress(filename: string)

  function SeverityOf(a: Alarm): Severity {
    match a
    case SidecarTimeout(_) => WARNING
    case RestoreInProgress(_) => INFO
    case _ => CRITICAL
  }

  predicate NoCritical(alarms: seq<Alarm>) {
    forall a :: a in alarms ==> SeverityOf(a) != CRITICAL
  }

  // ---------------------------------------------------------------- duplicates

  predicate SamePosition(a: Segment, b: Segment) {
    a.timeline == b.timeline && a.number == b.number
  }

  /** No two files stand for the same position of the same timeline. */
  predicate NoDuplicates(segs: seq<Segment>) {
    forall i, j :: 0 <= i < j < |segs| ==> !SamePosition(segs[i], segs[j])
  }

  /** The file names recorded for one position, in listing order. */
  function NamesAt(segs: seq<Segment>, position: (nat, nat)): seq<string> {
    if segs == [] then []
    else
      var last := segs[|segs| - 1];
      NamesAt(segs[..|segs| - 1], position) + if (last.timeline, last.number) == position then [last.filename] else []
  }

  lemma {:induction false} NamesAtLength(segs: seq<Segment>, i: nat, j: nat)
    requires i < |segs|
    ensures |NamesAt(segs, (segs[i].timeline, segs[i].number))| >= 1
    ensures i < j < |segs| && SamePosition(segs[i], segs[j]) ==>
            |NamesAt(segs, (segs[i].timeline, segs[i].number))| >= 2
  {
    var n := |segs| - 1;
    if i < n {
      NamesAtLength(segs[..n], i, if j < n then j else i);
    }
  }

  lemma {:induction false} TwoNamesTwoSegments(segs: seq<Segment>, position: (nat, nat)) returns (i: nat, j: nat)
    requires |NamesAt(segs, position)| >= 1
    ensures i < |segs| && (segs[i].timeline, segs[i].number) == position
    ensures |NamesAt(segs, position)| >= 2 ==> i < j < |segs| && SamePosition(segs[i], segs[j])
  {
    var n := |segs| - 1;
    if NamesAt(segs[..n], position) == [] {
      i, j := n, n;
    } else {
      i, j := TwoNamesTwoSegments(segs[..n], position);
      if |NamesAt(segs[..n], position)| < 2 {
        j := n;
      }
    }
  }

  /** Step 3, first loop: file names by position. */
  method GroupByPosition(segs: seq<Segment>) returns (seen: map<(nat, nat), seq<string>>)
    ensures forall p :: p in seen <==> NamesAt(segs, p) != []
    ensures forall p :: p in seen ==> seen[p] == NamesAt(segs, p)
  {
    seen := map[];
    for i := 0 to |segs|
      invariant forall p :: p in seen <==> NamesAt(segs[..i], p) != []
      invariant forall p :: p in seen ==> seen[p] == NamesAt(segs[..i], p)
    {
      assert segs[..i + 1][..i] == segs[..i];
      var p := (segs[i].timeline, segs[i].number);
      seen := seen[p := (if p in seen then seen[p] else []) + [segs[i].filename]];
    }
    assert segs[..|segs|] == segs;
  }

  function DuplicateAlarms(p: (nat, nat), names: seq<string>): seq<Alarm> {
    [SplitBrain(p.0, p.1)] + seq(|names|, k requires 0 <= k < |names| => DuplicateSegment(names[k]))
  }

  lemma DuplicateAlarmsAre(p: (nat, nat), names: seq<string>, a: Alarm)
    ensures a in DuplicateAlarms(p, names) <==>
            a == SplitBrain(p.0, p.1) || (a.DuplicateSegment? && a.filename in names)
  {
    var tail := seq(|names|, k requires 0 <= k < |names| => DuplicateSegment(names[k]));
    if a.DuplicateSegment? && a.filename in names {
      var k :| 0 <= k < |names| && names[k] == a.filename;
      assert tail[k] == a;
    }
  }

  /** The file shares its position, one of `done`, with another file. */
  ghost predicate Shares(seen: map<(nat, nat), seq<string>>, done: set<(nat, nat)>, filename: string) {
    exists p :: p in seen && p in done && |seen[p]| > 1 && filename in seen[p]
  }

  ghost predicate Reported(alarms: seq<Alarm>, seen: map<(nat, nat), seq<string>>, done: set<(nat, nat)>) {
    && (forall a :: a in alarms ==> a.SplitBrain? || a.DuplicateSegment?)
    && (forall t: nat, n: nat :: SplitBrain(t, n) in alarms <==> (t, n) in seen && (t, n) in done && |seen[(t, n)]| > 1)
    && (forall f :: DuplicateSegment(f) in alarms <==> Shares(seen, done, f))
  }

  lemma ReportOneMore(alarms: seq<Alarm>, seen: map<(nat, nat), seq<string>>, done: set<(nat, nat)>, p: (nat, nat))
    requires Reported(alarms, seen, done) && p in seen
    ensures |seen[p]| <= 1 ==> Reported(alarms, seen, done + {p})
    ensures |seen[p]| > 1 ==> Reported(alarms + DuplicateAlarms(p, seen[p]), seen, done + {p})
  {
    var more := DuplicateAlarms(p, seen[p]);
    forall a
      ensures a in more <==> a == SplitBrain(p.0, p.1) || (a.DuplicateSegment? && a.filename in seen[p])
    {
      DuplicateAlarmsAre(p, seen[p], a);
    }
    forall f
      ensures Shares(seen, done + {p}, f) <==> Shares(seen, done, f) || (|seen[p]| > 1 && f in seen[p])
    {
      if Shares(seen, done, f) {
        var q :| q in seen && q in done && |seen[q]| > 1 && f in seen[q];
        assert q in done + {p};
      }
    }
  }

  ghost predicate SharesPosition(segs: seq<Segment>, filename: string) {
    exists p :: |NamesAt(segs, p)| > 1 && filename in NamesAt(segs, p)
  }

  /** Step 3: a position with several files raises one alarm for itself and one for each file. */
  method DetectDuplicates(segs: seq<Segment>) returns (alarms: seq<Alarm>)
    ensures NoCritical(alarms) <==> NoDuplicates(segs)
    ensures forall a :: a in alarms ==> a.SplitBrain? || a.DuplicateSegment?
    ensures forall t: nat, n: nat :: SplitBrain(t, n) in alarms <==> |NamesAt(segs, (t, n))| > 1
    ensures forall f :: DuplicateSegment(f) in alarms <==> SharesPosition(segs, f)
  {
    var seen := GroupByPosition(segs);
    alarms := [];
    var positions := seen.Keys;
    ghost var done := {};
    while positions != {}
      invariant positions + done == seen.Keys && positions !! done
      invariant Reported(alarms, seen, done)
    {
      var p :| p in positions;
      ReportOneMore(alarms, seen, done, p);
      if |seen[p]| > 1 {
        alarms := alarms + DuplicateAlarms(p, seen[p]);
      }
      positions := positions - {p};
      done := done + {p};
    }
    ReportedShows(segs, alarms, seen, done);
    DuplicatesShow(segs, alarms);
  }

  lemma ReportedShows(segs: seq<Segment>, alarms: seq<Alarm>, seen: map<(nat, nat), seq<string>>, done: set<(nat, nat)>)
    requires Reported(alarms, seen, done) && done == seen.Keys
    requires forall p :: p in seen <==> NamesAt(segs, p) != []
    requires forall p :: p in seen ==> seen[p] == NamesAt(segs, p)
    ensures forall t: nat, n: nat :: SplitBrain(t, n) in alarms <==> |NamesAt(segs, (t, n))| > 1
    ensures forall f :: DuplicateSegment(f) in alarms <==> SharesPosition(segs, f)
  {
    forall f
      ensures Shares(seen, done, f) <==> SharesPosition(segs, f)
    {
      if p :| |NamesAt(segs, p)| > 1 && f in NamesAt(segs, p) {
        assert p in seen;
      }
    }
  }

  lemma DuplicatesShow(segs: seq<Segment>, alarms: seq<Alarm>)
    requires forall a :: a in alarms ==> a.SplitBrain? || a.DuplicateSegment?
    requires forall t: nat, n: nat :: SplitBrain(t, n) in alarms <==> |NamesAt(segs, (t, n))| > 1
    requires forall f :: DuplicateSegment(f) in alarms <==> SharesPosition(segs, f)
    ensures NoCritical(alarms) <==> NoDuplicates(segs)
  {
    AtMostOneName(segs);
    if !NoDuplicates(segs) {
      var t: nat, n: nat :| |NamesAt(segs, (t, n))| > 1;
      assert SplitBrain(t, n) in alarms;
    }
    if alarms != [] {
      var a := alarms[0];
      assert a in alarms;
      assert a.DuplicateSegment? ==> SharesPosition(segs, a.filename);
    }
  }

  /** No duplicates means no position with two names. */
  lemma AtMostOneName(segs: seq<Segment>)
    ensures NoDuplicates(segs) <==> forall t: nat, n: nat :: |NamesAt(segs, (t, n))| <= 1
  {
    if !NoDuplicates(segs) {
      var i, j :| 0 <= i < j < |segs| && SamePosition(segs[i], segs[j]);
      NamesAtLength(segs, i, j);
    }
    if t: nat, n: nat :| |NamesAt(segs, (t, n))| > 1 {
      var i, j := TwoNamesTwoSegments(segs, (t, n));
    }
  }

  // ---------------------------------------------------------------- sorting
  // Step 4 reads nothing of a segment but its sequence number, so a timeline is a list of numbers.

  function Insert(x: nat, sorted: seq<nat>): seq<nat> {
    if sorted == [] || x < sorted[0] then [x] + sorted else [sorted[0]] + Insert(x, sorted[1..])
  }

  function Sort(numbers: seq<nat>): seq<nat> {
    if numbers == [] then [] else Insert(numbers[|numbers| - 1], Sort(numbers[..|numbers| - 1]))
  }

  predicate Ascending(s: seq<nat>) {
    forall i, j :: 0 <= i < j < |s| ==> s[i] <= s[j]
  }

  predicate StrictlyAscending(s: seq<nat>) {
    forall i, j :: 0 <= i < j < |s| ==> s[i] < s[j]
  }

  predicate Distinct(s: seq<nat>) {
    forall i, j :: 0 <= i < j < |s| ==> s[i] != s[j]
  }

  lemma {:induction false} InsertAdds(x: nat, sorted: seq<nat>)
    ensures multiset(Insert(x, sorted)) == multiset(sorted) + multiset{x}
  {
    if sorted != [] && x >= sorted[0] {
      InsertAdds(x, sorted[1..]);
      assert sorted == [sorted[0]] + sorted[1..];
    }
  }

  lemma {:induction false} InsertKeepsOrder(x: nat, sorted: seq<nat>)
    requires Ascending(sorted)
    ensures Ascending(Insert(x, sorted))
  {
    if sorted != [] && x >= sorted[0] {
      InsertKeepsOrder(x, sorted[1..]);
      InsertAdds(x, sorted[1..]);
      var rest := Insert(x, sorted[1..]);
      forall i | 0 <= i < |rest|
        ensures sorted[0] <= rest[i]
      {
        assert rest[i] in multiset(rest);
        assert rest[i] == x || rest[i] in sorted[1..];
      }
    }
  }

  lemma {:induction false} SortSorts(numbers: seq<nat>)
    ensures Ascending(Sort(numbers)) && multiset(Sort(numbers)) == multiset(numbers)
  {
    if numbers != [] {
      var n := |numbers| - 1;
      SortSorts(numbers[..n]);
      InsertKeepsOrder(numbers[n], Sort(numbers[..n]));
      InsertAdds(numbers[n], Sort(numbers[..n]));
      assert numbers == numbers[..n] + [numbers[n]];
    }
  }

  lemma {:induction false} DistinctIsMultiset(s: seq<nat>)
    ensures Distinct(s) <==> forall x :: multiset(s)[x] <= 1
  {
    if s != [] {
      var n := |s| - 1;
      assert s == s[..n] + [s[n]];
      DistinctIsMultiset(s[..n]);
      if Distinct(s) {
        assert s[n] !in s[..n];
      } else if Distinct(s[..n]) {
        assert s[n] in s[..n];
        assert multiset(s)[s[n]] >= 2;
      } else {
        var x :| multiset(s[..n])[x] > 1;
        assert multiset(s)[x] > 1;
      }
    }
  }

  /** Sorting changes neither which numbers are present nor whether one is repeated. */
  lemma SortKeeps(numbers: seq<nat>)
    ensures forall x :: x in Sort(numbers) <==> x in numbers
    ensures StrictlyAscending(Sort(numbers)) <==> Distinct(numbers)
  {
    SortSorts(numbers);
    var sorted := Sort(numbers);
    forall x
      ensures x in sorted <==> x in numbers
    {
      assert x in sorted <==> x in multiset(sorted);
      assert x in numbers <==> x in multiset(numbers);
    }
    DistinctIsMultiset(numbers);
    DistinctIsMultiset(sorted);
    StrictMeansDistinct(sorted);
  }

  lemma StrictMeansDistinct(s: seq<nat>)
    requires Ascending(s)
    ensures StrictlyAscending(s) <==> Distinct(s)
  {
    if Distinct(s) {
      forall i, j | 0 <= i < j < |s|
        ensures s[i] < s[j]
      {
      }
    }
  }

  // ---------------------------------------------------------------- gaps

  function NumbersOn(segs: seq<Segment>, timeline: nat): seq<nat> {
    if segs == [] then []
    else
      var last := segs[|segs| - 1];
      NumbersOn(segs[..|segs| - 1], timeline) + if last.timeline == timeline then [last.number] else []
  }

  /** Every number between two present ones is present. */
  predicate Consecutive(s: seq<nat>) {
    forall lo, hi :: lo in s && hi in s ==> forall x :: lo <= x <= hi ==> x in s
  }

  /** The maximal runs of missing numbers between present ones. */
  predicate MissingRun(s: seq<nat>, first: int, last: int) {
    && 1 <= first <= last && first - 1 in s && last + 1 in s
    && forall x: nat :: first <= x <= last ==> x !in s
  }

  function Between(timeline: nat, prev: int, curr: int): Alarm {
    Gap(timeline, prev + 1, curr - 1)
  }

  /** The alarms of one sorted timeline: neighbours that are not one apart. */
  function GapsIn(timeline: nat, sorted: seq<nat>): seq<Alarm> {
    if |sorted| <= 1 then []
    else
      var n := |sorted| - 1;
      GapsIn(timeline, sorted[..n]) +
      if sorted[n] != sorted[n - 1] + 1 then [Between(timeline, sorted[n - 1], sorted[n])] else []
  }

  predicate GapAt(sorted: seq<nat>, i: nat, timeline: nat, a: Alarm) {
    && 0 < i < |sorted| && sorted[i] != sorted[i - 1] + 1
    && a == Between(timeline, sorted[i - 1], sorted[i])
  }

  lemma {:induction false} GapsInAre(timeline: nat, sorted: seq<nat>, a: Alarm)
    ensures a in GapsIn(timeline, sorted) <==> exists i: nat :: GapAt(sorted, i, timeline, a)
  {
    if |sorted| > 1 {
      var n := |sorted| - 1;
      GapsInAre(timeline, sorted[..n], a);
      if i: nat :| GapAt(sorted[..n], i, timeline, a) {
        assert GapAt(sorted, i, timeline, a);
      }
      if i: nat :| GapAt(sorted, i, timeline, a) {
        assert i < n ==> GapAt(sorted[..n], i, timeline, a);
      }
      assert sorted[n] != sorted[n - 1] + 1 ==> GapAt(sorted, n, timeline, Between(timeline, sorted[n - 1], sorted[n]));
    }
  }

  /** A sorted timeline raises no gap alarm exactly when it has neither repeats nor holes. */
  lemma {:induction false} NoGapsMeans(timeline: nat, sorted: seq<nat>)
    requires Ascending(sorted)
    ensures GapsIn(timeline, sorted) == [] <==> StrictlyAscending(sorted) && Consecutive(sorted)
  {
    if GapsIn(timeline, sorted) == [] {
      StepsOfOne(timeline, sorted);
      forall lo, hi, x | lo in sorted && hi in sorted && lo <= x <= hi
        ensures x in sorted
      {
        var i :| 0 <= i < |sorted| && sorted[i] == lo;
        assert sorted[i + (x - lo)] == x;
      }
    } else {
      var a := GapsIn(timeline, sorted)[0];
      GapsInAre(timeline, sorted, a);
      var i: nat :| GapAt(sorted, i, timeline, a);
      NeighboursShow(sorted, i);
    }
  }

  lemma {:induction false} StepsOfOne(timeline: nat, sorted: seq<nat>)
    requires GapsIn(timeline, sorted) == []
    ensures forall i :: 0 <= i < |sorted| ==> sorted[i] == sorted[0] + i
  {
    if |sorted| > 1 {
      StepsOfOne(timeline, sorted[..|sorted| - 1]);
    }
  }

  lemma NeighboursShow(sorted: seq<nat>, i: nat)
    requires Ascending(sorted) && 0 < i < |sorted| && sorted[i] != sorted[i - 1] + 1
    ensures !(StrictlyAscending(sorted) && Consecutive(sorted))
  {
    if sorted[i - 1] < sorted[i] {
      var x := sorted[i - 1] + 1;
      assert sorted[i - 1] in sorted && sorted[i] in sorted;
      assert sorted[i - 1] <= x <= sorted[i] && x !in sorted;
    }
  }

  /** On a timeline without repeats the gap alarms are exactly the maximal missing runs. */
  lemma GapsAreMissingRuns(timeline: nat, sorted: seq<nat>, first: int, last: int)
    requires StrictlyAscending(sorted)
    ensures Gap(timeline, first, last) in GapsIn(timeline, sorted) <==> MissingRun(sorted, first, last)
  {
    var a := Gap(timeline, first, last);
    GapsInAre(timeline, sorted, a);
    if i: nat :| GapAt(sorted, i, timeline, a) {
      assert first - 1 == sorted[i - 1] && last + 1 == sorted[i];
      forall x: nat | first <= x <= last
        ensures x !in sorted
      {
        assert forall k :: 0 <= k < |sorted| ==>
               (k <= i - 1 ==> sorted[k] <= sorted[i - 1]) && (k >= i ==> sorted[k] >= sorted[i]);
      }
    }
    if MissingRun(sorted, first, last) {
      RunIsBetweenNeighbours(timeline, sorted, first, last);
    }
  }

  lemma RunIsBetweenNeighbours(timeline: nat, sorted: seq<nat>, first: int, last: int)
    requires StrictlyAscending(sorted) && MissingRun(sorted, first, last)
    ensures exists i: nat :: GapAt(sorted, i, timeline, Gap(timeline, first, last))
  {
    var i :| 0 <= i < |sorted| && sorted[i] == first - 1;
    var j :| 0 <= j < |sorted| && sorted[j] == last + 1;
    assert i < j && sorted[i + 1] in sorted;
    assert GapAt(sorted, j, timeline, Gap(timeline, first, last));
  }

  /** A repeated number raises an alarm for a run that ends before it starts. */
  lemma RepeatRaisesEmptyGap(timeline: nat, sorted: seq<nat>, i: nat)
    requires i + 1 < |sorted| && sorted[i] == sorted[i + 1]
    ensures Gap(timeline, sorted[i] + 1, sorted[i] as int - 1) in GapsIn(timeline, sorted)
    ensures !MissingRun(sorted, sorted[i] + 1, sorted[i] as int - 1)
  {
    var a := Between(timeline, sorted[i], sorted[i + 1]);
    assert GapAt(sorted, i + 1, timeline, a);
    GapsInAre(timeline, sorted, a);
  }

  predicate RealGap(sorted: seq<nat>, a: Alarm) {
    a.Gap? && MissingRun(sorted, a.first, a.last)
  }

  /** Every gap alarm of a sorted timeline stands for a missing run exactly when nothing repeats. */
  lemma GapsAreRealExactly(timeline: nat, sorted: seq<nat>)
    requires Ascending(sorted)
    ensures (forall a :: a in GapsIn(timeline, sorted) ==> RealGap(sorted, a)) <==> StrictlyAscending(sorted)
  {
    if StrictlyAscending(sorted) {
      forall a | a in GapsIn(timeline, sorted)
        ensures RealGap(sorted, a)
      {
        GapsNameTheirTimeline(timeline, sorted);
        GapsAreMissingRuns(timeline, sorted, a.first, a.last);
      }
    } else {
      var i, j :| 0 <= i < j < |sorted| && sorted[i] >= sorted[j];
      assert sorted[i] <= sorted[i + 1] <= sorted[j];
      RepeatRaisesEmptyGap(timeline, sorted, i);
      assert !RealGap(sorted, Gap(timeline, sorted[i] + 1, sorted[i] as int - 1));
    }
  }

  /** Each run is reported once. */
  lemma {:induction false} GapsAreDistinct(timeline: nat, sorted: seq<nat>)
    requires StrictlyAscending(sorted)
    ensures forall i, j :: 0 <= i < j < |GapsIn(timeline, sorted)| ==>
            GapsIn(timeline, sorted)[i] != GapsIn(timeline, sorted)[j]
  {
    if |sorted| > 1 {
      var n := |sorted| - 1;
      GapsAreDistinct(timeline, sorted[..n]);
      var a := Between(timeline, sorted[n - 1], sorted[n]);
      GapsInAre(timeline, sorted[..n], a);
      assert a !in GapsIn(timeline, sorted[..n]);
    }
  }

  lemma {:induction false} GapsNameTheirTimeline(timeline: nat, sorted: seq<nat>)
    ensures forall a :: a in GapsIn(timeline, sorted) ==> a.Gap? && a.timeline == timeline
  {
    forall a | a in GapsIn(timeline, sorted)
      ensures a.Gap? && a.timeline == timeline
    {
      GapsInAre(timeline, sorted, a);
    }
  }

  ghost predicate AllDistinct(segs: seq<Segment>) {
    forall t: nat :: Distinct(NumbersOn(segs, t))
  }

  ghost predicate AllConsecutive(segs: seq<Segment>) {
    forall t: nat :: Consecutive(NumbersOn(segs, t))
  }

  /** The gap alarms due for one timeline of the archive. */
  function GapsOn(segs: seq<Segment>, timeline: nat): seq<Alarm> {
    GapsIn(timeline, Sort(NumbersOn(segs, timeline)))
  }

  method GroupByTimeline(segs: seq<Segment>) returns (byTimeline: map<nat, seq<nat>>)
    ensures forall t: nat :: t in byTimeline <==> NumbersOn(segs, t) != []
    ensures forall t: nat :: t in byTimeline ==> byTimeline[t] == NumbersOn(segs, t)
  {
    byTimeline := map[];
    for i := 0 to |segs|
      invariant forall t: nat :: t in byTimeline <==> NumbersOn(segs[..i], t) != []
      invariant forall t: nat :: t in byTimeline ==> byTimeline[t] == NumbersOn(segs[..i], t)
    {
      assert segs[..i + 1][..i] == segs[..i];
      var t := segs[i].timeline;
      byTimeline := byTimeline[t := (if t in byTimeline then byTimeline[t] else []) + [segs[i].number]];
    }
    assert segs[..|segs|] == segs;
  }

  method ScanTimeline(timeline: nat, sorted: seq<nat>) returns (alarms: seq<Alarm>)
    ensures alarms == GapsIn(timeline, sorted)
  {
    alarms := [];
    var i := 1;
    while i < |sorted|
      invariant 1 <= i && (i <= |sorted| || sorted == [])
      invariant i <= |sorted| ==> alarms == GapsIn(timeline, sorted[..i])
      invariant sorted == [] ==> alarms == []
    {
      assert sorted[..i + 1][..i] == sorted[..i];
      var prev, curr := sorted[i - 1], sorted[i];
      if curr != prev + 1 {
        alarms := alarms + [Between(timeline, prev, curr)];
      }
      i := i + 1;
    }
    assert sorted[..|sorted|] == sorted;
  }

  /** Step 4: the alarms of every timeline, each as often as its scan raises it. */
  method DetectGaps(segs: seq<Segment>) returns (alarms: seq<Alarm>)
    ensures forall a :: a in alarms ==> a.Gap?
    ensures forall t: nat, first, last ::
              multiset(alarms)[Gap(t, first, last)] == multiset(GapsOn(segs, t))[Gap(t, first, last)]
  {
    var byTimeline := GroupByTimeline(segs);
    alarms := [];
    var timelines := byTimeline.Keys;
    while timelines != {}
      invariant timelines <= byTimeline.Keys
      invariant forall a :: a in alarms ==> a.Gap? && a.timeline !in timelines
      invariant forall t: nat, first, last :: t !in timelines ==>
        multiset(alarms)[Gap(t, first, last)] == multiset(GapsOn(segs, t))[Gap(t, first, last)]
    {
      var t :| t in timelines;
      var found := ScanTimeline(t, Sort(byTimeline[t]));
      GapsNameTheirTimeline(t, Sort(byTimeline[t]));
      assert found == GapsOn(segs, t);
      AddScan(segs, alarms, t, timelines);
      timelines := timelines - {t};
      alarms := alarms + found;
    }
  }

  lemma AddScan(segs: seq<Segment>, alarms: seq<Alarm>, t: nat, timelines: set<nat>)
    requires forall a :: a in alarms ==> a.Gap? && a.timeline !in timelines
    requires t in timelines
    ensures forall u: nat, first, last :: u !in timelines || u == t ==>
              multiset(alarms + GapsOn(segs, t))[Gap(u, first, last)] ==
              if u == t then multiset(GapsOn(segs, t))[Gap(u, first, last)] else multiset(alarms)[Gap(u, first, last)]
  {
    GapsNameTheirTimeline(t, Sort(NumbersOn(segs, t)));
    forall u: nat, first, last | u !in timelines || u == t
      ensures multiset(alarms + GapsOn(segs, t))[Gap(u, first, last)] ==
              if u == t then multiset(GapsOn(segs, t))[Gap(u, first, last)] else multiset(alarms)[Gap(u, first, last)]
    {
      var a := Gap(u, first, last);
      assert a in multiset(alarms) <==> a in alarms;
      assert a in multiset(GapsOn(segs, t)) <==> a in GapsOn(segs, t);
    }
  }

  /** Numbers and names count the same files. */
  lemma {:induction false} NumbersAreNames(segs: seq<Segment>, timeline: nat, number: nat)
    ensures multiset(NumbersOn(segs, timeline))[number] == |NamesAt(segs, (timeline, number))|
  {
    if segs != [] {
      NumbersAreNames(segs[..|segs| - 1], timeline, number);
    }
  }

  lemma DistinctMeansOneName(segs: seq<Segment>, t: nat)
    ensures Distinct(NumbersOn(segs, t)) <==> forall n: nat :: |NamesAt(segs, (t, n))| <= 1
  {
    DistinctIsMultiset(NumbersOn(segs, t));
    forall n: nat
      ensures multiset(NumbersOn(segs, t))[n] == |NamesAt(segs, (t, n))|
    {
      NumbersAreNames(segs, t, n);
    }
  }

  /** No duplicates, said timeline by timeline. */
  lemma NoDuplicatesByTimeline(segs: seq<Segment>)
    ensures NoDuplicates(segs) <==> AllDistinct(segs)
  {
    AtMostOneName(segs);
    if NoDuplicates(segs) {
      forall t: nat
        ensures Distinct(NumbersOn(segs, t))
      {
        DistinctMeansOneName(segs, t);
      }
    } else {
      var t: nat, n: nat :| |NamesAt(segs, (t, n))| > 1;
      DistinctMeansOneName(segs, t);
    }
  }

  /** A timeline raises no alarm exactly when its numbers are distinct and consecutive. */
  lemma QuietTimeline(segs: seq<Segment>, t: nat)
    ensures GapsOn(segs, t) == [] <==> Distinct(NumbersOn(segs, t)) && Consecutive(NumbersOn(segs, t))
  {
    var numbers := NumbersOn(segs, t);
    SortSorts(numbers);
    SortKeeps(numbers);
    NoGapsMeans(t, Sort(numbers));
    assert Consecutive(Sort(numbers)) <==> Consecutive(numbers);
  }

  /** The gap alarms of a timeline are all real exactly when no two of its files share a number. */
  lemma TimelineGapsAreRealExactly(segs: seq<Segment>, t: nat)
    ensures (forall a :: a in GapsOn(segs, t) ==> RealGap(NumbersOn(segs, t), a)) <==> Distinct(NumbersOn(segs, t))
  {
    var numbers := NumbersOn(segs, t);
    SortSorts(numbers);
    SortKeeps(numbers);
    GapsAreRealExactly(t, Sort(numbers));
    forall a: Alarm
      ensures RealGap(Sort(numbers), a) <==> RealGap(numbers, a)
    {
    }
  }

  /** On a timeline without duplicates the gap alarms of the whole report are the maximal missing
      runs, one alarm for each. */
  lemma OneAlarmPerMissingRun(segs: seq<Segment>, alarms: seq<Alarm>, t: nat, first: int, last: int)
    requires forall u: nat, f, l :: multiset(alarms)[Gap(u, f, l)] == multiset(GapsOn(segs, u))[Gap(u, f, l)]
    requires Distinct(NumbersOn(segs, t))
    ensures multiset(alarms)[Gap(t, first, last)] == if MissingRun(NumbersOn(segs, t), first, last) then 1 else 0
  {
    var numbers := NumbersOn(segs, t);
    var sorted := Sort(numbers);
    var a := Gap(t, first, last);
    SortKeeps(numbers);
    GapsAreMissingRuns(t, sorted, first, last);
    assert MissingRun(sorted, first, last) <==> MissingRun(numbers, first, last);
    GapsAreDistinct(t, sorted);
    OnceInDistinct(GapsOn(segs, t), a);
  }

  /** A partial segment silences nothing: if the segment after it is missing and a later one is
      present, the run that starts there has its alarm. */
  lemma PartialSegmentStillAlarms(segs: seq<Segment>, alarms: seq<Alarm>, partial: Segment, later: nat)
      returns (last: nat)
    requires forall u: nat, f, l :: multiset(alarms)[Gap(u, f, l)] == multiset(GapsOn(segs, u))[Gap(u, f, l)]
    requires partial in segs && partial.isPartial && Distinct(NumbersOn(segs, partial.timeline))
    requires partial.number + 1 !in NumbersOn(segs, partial.timeline)
    requires later > partial.number && later in NumbersOn(segs, partial.timeline)
    ensures MissingRun(NumbersOn(segs, partial.timeline), partial.number + 1, last)
    ensures multiset(alarms)[Gap(partial.timeline, partial.number + 1, last)] == 1
  {
    last := RunAfter(segs, partial, later);
    OneAlarmPerMissingRun(segs, alarms, partial.timeline, partial.number + 1, last);
  }

  lemma RunAfter(segs: seq<Segment>, seg: Segment, later: nat) returns (last: nat)
    requires seg in segs && seg.number + 1 !in NumbersOn(segs, seg.timeline)
    requires later > seg.number && later in NumbersOn(segs, seg.timeline)
    ensures MissingRun(NumbersOn(segs, seg.timeline), seg.number + 1, last)
  {
    var numbers := NumbersOn(segs, seg.timeline);
    NumberIsListed(segs, seg);
    var next := NextPresent(numbers, seg.number, later);
    assert next != seg.number + 1;
    last := next - 1;
  }

  lemma {:induction false} NumberIsListed(segs: seq<Segment>, seg: Segment)
    requires seg in segs
    ensures seg.number in NumbersOn(segs, seg.timeline)
  {
    if seg != segs[|segs| - 1] {
      NumberIsListed(segs[..|segs| - 1], seg);
    }
  }

  lemma {:induction false} NextPresent(numbers: seq<nat>, n: nat, later: nat) returns (next: nat)
    requires n < later && later in numbers
    ensures n < next && next in numbers && forall x: nat :: n < x < next ==> x !in numbers
    decreases later - n
  {
    if n + 1 in numbers {
      next := n + 1;
    } else {
      next := NextPresent(numbers, n + 1, later);
    }
  }

  lemma {:induction false} OnceInDistinct(alarms: seq<Alarm>, a: Alarm)
    requires forall i, j :: 0 <= i < j < |alarms| ==> alarms[i] != alarms[j]
    ensures multiset(alarms)[a] == if a in alarms then 1 else 0
  {
    if alarms != [] {
      var n := |alarms| - 1;
      assert alarms == alarms[..n] + [alarms[n]];
      OnceInDistinct(alarms[..n], a);
    }
  }

  // ---------------------------------------------------------------- hashes

  datatype HashResult = Hash(text: string) | HashTimedOut | HashError
  datatype SidecarResult = Absent | Sidecar(text: string) | SidecarTimedOut | SidecarError

  /** What the storage answers for each file name. */
  datatype Storage = Storage(hash: string -> HashResult, sidecar: string -> SidecarResult)

  datatype SegmentResult =
    SegmentResult(segment: Segment, sha256: string, hashVerified: Option<bool>, alarms: seq<Alarm>)

  function Normalise(text: string): string {
    JsText.Lower(JsText.Trim(text))
  }

  /** Step 5 for one segment. */
  method Examine(seg: Segment, storage: Storage) returns (r: SegmentResult)
    ensures r.segment == seg
    ensures NoCritical(r.alarms) <==> HashOk(seg, storage)
    ensures r.hashVerified == Verdict(seg, storage)
    ensures r.sha256 == match storage.hash(seg.filename) case Hash(text) => text case _ => ""
    ensures r.alarms == HashAlarms(seg, storage)
  {
    var f := seg.filename;
    var hash := storage.hash(f);
    assert HashTimeout(f) in [HashTimeout(f)] && Unreadable(f) in [Unreadable(f)];
    if hash == HashTimedOut {
      return SegmentResult(seg, "", None, [HashTimeout(f)]);
    }
    if hash == HashError {
      return SegmentResult(seg, "", None, [Unreadable(f)]);
    }
    var alarms := [];
    var expected: Option<string> := None;
    match storage.sidecar(f) {
      case Sidecar(text) => expected := Some(text);
      case SidecarTimedOut => alarms := [SidecarTimeout(f)];
      case _ =>
    }
    var hashVerified: Option<bool> := None;
    if expected.Some? {
      hashVerified := Some(Normalise(hash.text) == Normalise(expected.value));
      if !hashVerified.value {
        alarms := alarms + [HashMismatch(f)];
        assert HashMismatch(f) in alarms;
      }
    } else if seg.isPartial {
      alarms := alarms + [RestoreInProgress(f)];
    }
    return SegmentResult(seg, hash.text, hashVerified, alarms);
  }

  /** The hash was computed and no sidecar contradicts it. */
  predicate HashOk(seg: Segment, storage: Storage) {
    var hash := storage.hash(seg.filename);
    hash.Hash? && Verdict(seg, storage) != Some(false)
  }

  predicate AllHashesOk(segs: seq<Segment>, storage: Storage) {
    forall i :: 0 <= i < |segs| ==> HashOk(segs[i], storage)
  }

  /** True or false only when both the hash and a sidecar were read. */
  function Verdict(seg: Segment, storage: Storage): Option<bool> {
    match (storage.hash(seg.filename), storage.sidecar(seg.filename))
    case (Hash(actual), Sidecar(expected)) => Some(Normalise(actual) == Normalise(expected))
    case _ => None
  }

  /** The alarms a segment deserves, by cause. */
  function HashAlarms(seg: Segment, storage: Storage): seq<Alarm> {
    var f := seg.filename;
    match storage.hash(f)
    case HashTimedOut => [HashTimeout(f)]
    case HashError => [Unreadable(f)]
    case Hash(_) =>
      match storage.sidecar(f)
      case Sidecar(_) => if Verdict(seg, storage) == Some(false) then [HashMismatch(f)] else []
      case SidecarTimedOut => if seg.isPartial then [SidecarTimeout(f), RestoreInProgress(f)] else [SidecarTimeout(f)]
      case _ => if seg.isPartial then [RestoreInProgress(f)] else []
  }

  function AllHashAlarms(segs: seq<Segment>, storage: Storage): seq<Alarm> {
    if segs == [] then []
    else AllHashAlarms(segs[..|segs| - 1], storage) + HashAlarms(segs[|segs| - 1], storage)
  }

  predicate HashKind(a: Alarm) {
    !a.SplitBrain? && !a.DuplicateSegment? && !a.Gap?
  }

  lemma HashAlarmsMean(seg: Segment, storage: Storage)
    ensures NoCritical(HashAlarms(seg, storage)) <==> HashOk(seg, storage)
    ensures forall a :: a in HashAlarms(seg, storage) ==> HashKind(a)
  {
    var f := seg.filename;
    assert storage.hash(f) == HashTimedOut ==> HashTimeout(f) in HashAlarms(seg, storage);
    assert storage.hash(f) == HashError ==> Unreadable(f) in HashAlarms(seg, storage);
    assert Verdict(seg, storage) == Some(false) ==> HashMismatch(f) in HashAlarms(seg, storage);
  }

  lemma {:induction false} AllHashAlarmsMean(segs: seq<Segment>, storage: Storage)
    ensures NoCritical(AllHashAlarms(segs, storage)) <==> AllHashesOk(segs, storage)
    ensures forall a :: a in AllHashAlarms(segs, storage) ==> HashKind(a)
  {
    if segs != [] {
      var n := |segs| - 1;
      AllHashAlarmsMean(segs[..n], storage);
      HashAlarmsMean(segs[n], storage);
      assert segs == segs[..n] + [segs[n]];
      SplitCritical(AllHashAlarms(segs[..n], storage), HashAlarms(segs[n], storage));
      assert AllHashesOk(segs, storage) <==> AllHashesOk(segs[..n], storage) && HashOk(segs[n], storage);
    }
  }

  lemma SplitCritical(a: seq<Alarm>, b: seq<Alarm>)
    ensures NoCritical(a + b) <==> NoCritical(a) && NoCritical(b)
  {
    assert forall x :: x in a + b <==> x in a || x in b;
  }

  ghost predicate Describes(results: seq<SegmentResult>, segs: seq<Segment>, storage: Storage) {
    && |results| == |segs|
    && (forall i :: 0 <= i < |segs| ==>
        results[i].segment == segs[i] && results[i].hashVerified == Verdict(segs[i], storage))
  }

  lemma OneMoreSegment(segs: seq<Segment>, storage: Storage, i: nat, results: seq<SegmentResult>, r: SegmentResult)
    requires i < |segs| && Describes(results, segs[..i], storage)
    requires r.segment == segs[i] && r.hashVerified == Verdict(segs[i], storage)
    ensures AllHashAlarms(segs[..i + 1], storage) == AllHashAlarms(segs[..i], storage) + HashAlarms(segs[i], storage)
    ensures Describes(results + [r], segs[..i + 1], storage)
  {
    assert segs[..i + 1][..i] == segs[..i];
  }

  /** Step 5. */
  method HashSegments(segs: seq<Segment>, storage: Storage) returns (alarms: seq<Alarm>, results: seq<SegmentResult>)
    ensures alarms == AllHashAlarms(segs, storage)
    ensures Describes(results, segs, storage)
  {
    alarms, results := [], [];
    for i := 0 to |segs|
      invariant alarms == AllHashAlarms(segs[..i], storage)
      invariant Describes(results, segs[..i], storage)
    {
      var r := Examine(segs[i], storage);
      OneMoreSegment(segs, storage, i, results, r);
      alarms := alarms + r.alarms;
      results := results + [r];
    }
    assert segs[..|segs|] == segs;
  }

  // ---------------------------------------------------------------- the report

  datatype Report = Report(
    totalSegments: nat,
    verifiedSegments: nat,
    corruptSegments: nat,
    gapsDetected: nat,
    duplicatesDetected: nat,
    partialSegments: nat,
    alarms: seq<Alarm>,
    segments: seq<SegmentResult>,
    healthy: bool)

  /** How many entries satisfy the test. */
  function Count<T>(s: seq<T>, test: T -> bool): nat {
    if s == [] then 0 else Count(s[..|s| - 1], test) + if test(s[|s| - 1]) then 1 else 0
  }

  lemma {:induction false} CountIsZero<T>(s: seq<T>, test: T -> bool)
    ensures Count(s, test) == 0 <==> forall x :: x in s ==> !test(x)
  {
    if s != [] {
      var n := |s| - 1;
      CountIsZero(s[..n], test);
      assert s == s[..n] + [s[n]];
    }
  }

  function BuildReport(alarms: seq<Alarm>, segments: seq<SegmentResult>): Report {
    Report(
      |segments|,
      Count(segments, (s: SegmentResult) => s.hashVerified == Some(true)),
      Count(segments, (s: SegmentResult) => s.hashVerified == Some(false)),
      Count(alarms, (a: Alarm) => a.Gap?),
      Count(alarms, (a: Alarm) => a.DuplicateSegment?),
      Count(segments, (s: SegmentResult) => s.segment.isPartial),
      alarms,
      segments,
      Count(alarms, (a: Alarm) => SeverityOf(a) == CRITICAL && !a.RestoreInProgress?) == 0)
  }

  lemma HealthyMeansNoCritical(alarms: seq<Alarm>, segments: seq<SegmentResult>)
    ensures BuildReport(alarms, segments).healthy <==> NoCritical(alarms)
  {
    CountIsZero(alarms, (a: Alarm) => SeverityOf(a) == CRITICAL && !a.RestoreInProgress?);
  }

  /** What an intact archive is, with no reference to alarms. */
  ghost predicate Intact(segs: seq<Segment>, storage: Storage) {
    && NoDuplicates(segs)
    && AllConsecutive(segs)
    && AllHashesOk(segs, storage)
  }

  lemma SomeGap(segs: seq<Segment>, t: nat)
    ensures GapsOn(segs, t) != [] ==> exists first, last :: multiset(GapsOn(segs, t))[Gap(t, first, last)] > 0
  {
    GapsNameTheirTimeline(t, Sort(NumbersOn(segs, t)));
    if GapsOn(segs, t) != [] {
      var a := GapsOn(segs, t)[0];
      assert a in multiset(GapsOn(segs, t)) && a == Gap(t, a.first, a.last);
    }
  }

  lemma NoGapAlarms(segs: seq<Segment>, alarms: seq<Alarm>)
    requires forall a :: a in alarms ==> a.Gap?
    requires forall t: nat, first, last ::
               multiset(alarms)[Gap(t, first, last)] == multiset(GapsOn(segs, t))[Gap(t, first, last)]
    ensures NoCritical(alarms) <==> AllDistinct(segs) && AllConsecutive(segs)
  {
    if alarms == [] {
      forall t: nat
        ensures Distinct(NumbersOn(segs, t)) && Consecutive(NumbersOn(segs, t))
      {
        QuietTimeline(segs, t);
        SomeGap(segs, t);
      }
    } else {
      var a := alarms[0];
      assert a in alarms && a in multiset(alarms);
      assert multiset(alarms)[Gap(a.timeline, a.first, a.last)] > 0;
      assert GapsOn(segs, a.timeline) != [];
      QuietTimeline(segs, a.timeline);
    }
  }

  /** Split brain is raised for exactly the positions with several files. On a timeline without
      duplicates there is one gap alarm for each maximal missing run, and no other. */
  ghost predicate Pinpoints(segs: seq<Segment>, alarms: seq<Alarm>) {
    && (forall t: nat, n: nat :: SplitBrain(t, n) in alarms <==> |NamesAt(segs, (t, n))| > 1)
    && (forall t: nat, first, last :: Distinct(NumbersOn(segs, t)) ==>
          multiset(alarms)[Gap(t, first, last)] == if MissingRun(NumbersOn(segs, t), first, last) then 1 else 0)
  }

  /** Each kind of alarm comes from one step only. */
  lemma AlarmsTogether(segs: seq<Segment>, duplicates: seq<Alarm>, gaps: seq<Alarm>, hashes: seq<Alarm>)
    requires forall a :: a in duplicates ==> a.SplitBrain? || a.DuplicateSegment?
    requires forall a :: a in gaps ==> a.Gap?
    requires forall t: nat, first, last ::
               multiset(gaps)[Gap(t, first, last)] == multiset(GapsOn(segs, t))[Gap(t, first, last)]
    requires forall a :: a in hashes ==> HashKind(a)
    requires forall t: nat, n: nat :: SplitBrain(t, n) in duplicates <==> |NamesAt(segs, (t, n))| > 1
    ensures Pinpoints(segs, duplicates + gaps + hashes)
    ensures NoCritical(duplicates + gaps + hashes) <==> NoCritical(duplicates) && NoCritical(gaps) && NoCritical(hashes)
  {
    var all := duplicates + gaps + hashes;
    assert forall a :: a in all <==> a in duplicates || a in gaps || a in hashes;
    forall t: nat, first, last | Distinct(NumbersOn(segs, t))
      ensures multiset(all)[Gap(t, first, last)] == if MissingRun(NumbersOn(segs, t), first, last) then 1 else 0
    {
      var a := Gap(t, first, last);
      assert a !in duplicates && a !in hashes;
      assert multiset(all) == multiset(duplicates) + multiset(gaps) + multiset(hashes);
      OneAlarmPerMissingRun(segs, gaps, t, first, last);
    }
  }

  lemma {:induction false} CountConcat<T>(a: seq<T>, b: seq<T>, test: T -> bool)
    ensures Count(a + b, test) == Count(a, test) + Count(b, test)
  {
    if b == [] {
      assert a + b == a;
    } else {
      var n := |b| - 1;
      CountConcat(a, b[..n], test);
      assert (a + b)[..|a + b| - 1] == a + b[..n];
    }
  }

  /** As many corrupt segments as mismatch alarms. */
  lemma {:induction false} CorruptAreMismatches(segs: seq<Segment>, storage: Storage, results: seq<SegmentResult>,
      corrupt: SegmentResult -> bool, mismatch: Alarm -> bool)
    requires Describes(results, segs, storage)
    requires forall r :: corrupt(r) <==> r.hashVerified == Some(false)
    requires forall a :: mismatch(a) <==> a.HashMismatch?
    ensures Count(results, corrupt) == Count(AllHashAlarms(segs, storage), mismatch)
  {
    if segs != [] {
      var n := |segs| - 1;
      CorruptAreMismatches(segs[..n], storage, results[..n], corrupt, mismatch);
      CountConcat(AllHashAlarms(segs[..n], storage), HashAlarms(segs[n], storage), mismatch);
      OneMismatch(segs[n], storage, mismatch);
    }
  }

  lemma OneMismatch(seg: Segment, storage: Storage, mismatch: Alarm -> bool)
    requires forall a :: mismatch(a) <==> a.HashMismatch?
    ensures Count(HashAlarms(seg, storage), mismatch) == if Verdict(seg, storage) == Some(false) then 1 else 0
  {
    var alarms := HashAlarms(seg, storage);
    if Verdict(seg, storage) == Some(false) {
      assert alarms == [HashMismatch(seg.filename)];
      assert alarms[..0] == [];
    } else {
      CountIsZero(alarms, mismatch);
    }
  }

  predicate IsMismatch(a: Alarm) {
    a.HashMismatch?
  }

  lemma MismatchesTogether(segs: seq<Segment>, storage: Storage, duplicates: seq<Alarm>, gaps: seq<Alarm>,
      results: seq<SegmentResult>)
    requires forall a :: a in duplicates ==> a.SplitBrain? || a.DuplicateSegment?
    requires forall a :: a in gaps ==> a.Gap?
    requires Describes(results, segs, storage)
    ensures var alarms := duplicates + gaps + AllHashAlarms(segs, storage);
            BuildReport(alarms, results).corruptSegments == Count(alarms, IsMismatch)
  {
    CountConcat(duplicates + gaps, AllHashAlarms(segs, storage), IsMismatch);
    CountIsZero(duplicates + gaps, IsMismatch);
    CorruptAreMismatches(segs, storage, results, (s: SegmentResult) => s.hashVerified == Some(false), IsMismatch);
  }

  /** Steps 3 to 5 on the parsed segments. */
  method CheckSegments(segs: seq<Segment>, storage: Storage) returns (alarms: seq<Alarm>, results: seq<SegmentResult>)
    ensures NoCritical(alarms) <==> Intact(segs, storage)
    ensures Pinpoints(segs, alarms)
    ensures Describes(results, segs, storage)
    ensures BuildReport(alarms, results).corruptSegments == Count(alarms, IsMismatch)
  {
    var duplicates := DetectDuplicates(segs);
    var gaps := DetectGaps(segs);
    var hashes;
    hashes, results := HashSegments(segs, storage);
    alarms := duplicates + gaps + hashes;
    AllHashAlarmsMean(segs, storage);
    AlarmsTogether(segs, duplicates, gaps, hashes);
    MismatchesTogether(segs, storage, duplicates, gaps, results);
    NoGapAlarms(segs, gaps);
    NoDuplicatesByTimeline(segs);
  }

  /** The whole check. `listing` is None when the archive could not be listed. */
  method Check(listing: Option<seq<string>>, storage: Storage) returns (report: Report)
    ensures report == BuildReport(report.alarms, report.segments)
    ensures report.healthy <==> listing.Some? && Intact(SegmentsOf(listing.value), storage)
    ensures report.corruptSegments == Count(report.alarms, IsMismatch)
    ensures listing.None? ==> report.alarms == [ListingFailed] && report.segments == []
    ensures listing.Some? ==> Pinpoints(SegmentsOf(listing.value), report.alarms)
    ensures listing.Some? ==> Describes(report.segments, SegmentsOf(listing.value), storage)
  {
    if listing.None? {
      HealthyMeansNoCritical([ListingFailed], []);
      assert ListingFailed in [ListingFailed];
      return BuildReport([ListingFailed], []);
    }
    var segs := ParseAll(listing.value);
    var alarms, results := CheckSegments(segs, storage);
    HealthyMeansNoCritical(alarms, results);
    return BuildReport(alarms, results);
  }
}
