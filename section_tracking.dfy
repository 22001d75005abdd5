/** Section completion tracking (`initializeSectionTracking` and its `updateProgressStats`):
    a section counts as completed once the observer reports it intersecting with more than
    half of it in view; the header shows "count/total sections (pct%)". */
module SectionTracking {

  /** One observer entry: the index of the observed section, and what the observer reports. */
  datatype Entry = Entry(target: nat, isIntersecting: bool, ratio: real)

  /** The three numbers of the "count/total sections (pct%)" text. */
  datatype Progress = Progress(count: nat, total: nat, percentage: nat)

  /** `entry.isIntersecting && entry.intersectionRatio > 0.5`. */
  predicate Qualifies(e: Entry) {
    e.isIntersecting && e.ratio > 0.5
  }

  /** `Math.round((count / total) * 100)`, computed exactly on whole numbers. */
  function Percentage(count: nat, total: nat): nat
    requires total > 0
  {
    (200 * count + total) / (2 * total)
  }

  /** The percentage is the whole number nearest to 100 * count / total, a half rounded
      up (p - 1/2 <= 100 * count / total < p + 1/2); it stays within 0..100 while
      count <= total and is 100 when every section is completed. */
  lemma PercentageRounds(count: nat, total: nat)
    requires total > 0
    ensures var p := Percentage(count, total);
            (2 * p - 1) * total <= 200 * count < (2 * p + 1) * total
    ensures count <= total ==> Percentage(count, total) <= 100
    ensures count == total ==> Percentage(count, total) == 100
  {
    var p := Percentage(count, total);
    var n, d := 200 * count + total, 2 * total;
    DivBounds(n, d);
    var m := p * total;
    assert d * p == 2 * m;
    assert (2 * p - 1) * total == 2 * m - total;
    assert (2 * p + 1) * total == 2 * m + total;
    if count <= total {
      assert 2 * m <= n <= 201 * total;
      MulMonotone(p, 101, total);
    }
    if count == total {
      assert 2 * m <= 201 * total < 2 * m + 2 * total;
      MulMonotone(99, p, total);
    }
  }

  lemma DivBounds(n: int, d: int)
    requires d > 0
    ensures d * (n / d) <= n < d * (n / d) + d
  {
  }

  /** If the product grows strictly with the left factor, so does the factor. */
  lemma MulMonotone(a: int, b: int, t: int)
    requires t > 0 && a * t < b * t
    ensures a < b
  {
    if a >= b {
      MulLe(b, a, t);
    }
  }

  lemma MulLe(a: int, b: int, t: int)
    requires t > 0 && a <= b
    ensures a * t <= b * t
  {
  }

  /** What `updateProgressStats` shows. */
  function Summary(count: nat, total: nat): (r: Progress)
    requires total > 0
    ensures r.count == count && r.total == total && r.percentage == Percentage(count, total)
  {
    Progress(count, total, Percentage(count, total))
  }

  /** The ids of the observed sections. */
  function IdSet(ids: seq<string>): set<string> {
    set i | 0 <= i < |ids| :: ids[i]
  }

  /** Ids may repeat, so there are at most as many distinct ids as sections. */
  lemma {:induction false} IdSetSize(ids: seq<string>)
    ensures |IdSet(ids)| <= |ids|
  {
    if ids != [] {
      IdSetSize(ids[1..]);
      assert IdSet(ids) == {ids[0]} + IdSet(ids[1..]);
    }
  }

  lemma {:induction false} SubsetSize(a: set<string>, b: set<string>)
    requires a <= b
    ensures |a| <= |b|
    decreases |b|
  {
    if a != {} {
      var x :| x in a;
      SubsetSize(a - {x}, b - {x});
    }
  }

  /** A set of completed ids drawn from the sections never counts more than `total`. */
  lemma CompletedBound(done: set<string>, ids: seq<string>)
    requires done <= IdSet(ids)
    ensures |done| <= |ids|
    ensures |ids| > 0 ==> Summary(|done|, |ids|).percentage <= 100
  {
    SubsetSize(done, IdSet(ids));
    IdSetSize(ids);
    if |ids| > 0 {
      PercentageRounds(|done|, |ids|);
    }
  }

  /** The ids whose entries among the first `n` qualify. */
  function Reached(ids: seq<string>, entries: seq<Entry>, n: nat): set<string>
    requires n <= |entries|
    requires forall k :: 0 <= k < |entries| ==> entries[k].target < |ids|
  {
    if n == 0 then {}
    else Reached(ids, entries, n - 1)
         + (if Qualifies(entries[n - 1]) then {ids[entries[n - 1].target]} else {})
  }

  /** An id is reached exactly when one of the first `n` entries targets its section and
      qualifies; entries that do not qualify never add anything. */
  lemma {:induction false} ReachedMembers(ids: seq<string>, entries: seq<Entry>, n: nat, x: string)
    requires n <= |entries|
    requires forall k :: 0 <= k < |entries| ==> entries[k].target < |ids|
    ensures x in Reached(ids, entries, n) <==>
            exists k :: 0 <= k < n && Qualifies(entries[k]) && ids[entries[k].target] == x
  {
    if n > 0 {
      ReachedMembers(ids, entries, n - 1, x);
      if Qualifies(entries[n - 1]) && ids[entries[n - 1].target] == x {
        assert x in Reached(ids, entries, n);
      }
    }
  }

  /** Some entry among the first `n` qualifies. */
  predicate AnyQualifies(entries: seq<Entry>, n: nat)
    requires n <= |entries|
  {
    n > 0 && (AnyQualifies(entries, n - 1) || Qualifies(entries[n - 1]))
  }

  /** What the tracker holds: the completed ids and the header's numbers. */
  datatype Tracking = Tracking(completed: set<string>, progress: Progress)

  /** The callback's body for one entry. */
  function Step(ids: seq<string>, e: Entry, s: Tracking): Tracking
    requires e.target < |ids|
  {
    if Qualifies(e) then
      var c := s.completed + {ids[e.target]};
      Tracking(c, Summary(|c|, |ids|))
    else s
  }

  /** The callback over the first `n` entries of a batch, in order. */
  function Run(ids: seq<string>, entries: seq<Entry>, n: nat, s: Tracking): Tracking
    requires n <= |entries|
    requires forall k :: 0 <= k < |entries| ==> entries[k].target < |ids|
  {
    if n == 0 then s else Step(ids, entries[n - 1], Run(ids, entries, n - 1, s))
  }

  /** A batch adds exactly the ids of its qualifying entries; nothing is ever removed. */
  lemma {:induction false} RunCompleted(ids: seq<string>, entries: seq<Entry>, n: nat, s: Tracking)
    requires n <= |entries|
    requires forall k :: 0 <= k < |entries| ==> entries[k].target < |ids|
    ensures Run(ids, entries, n, s).completed == s.completed + Reached(ids, entries, n)
  {
    if n > 0 {
      RunCompleted(ids, entries, n - 1, s);
    }
  }

  /** The header is rewritten, from the final completed set, exactly when some entry of the
      batch qualifies; otherwise it keeps its old text. */
  lemma {:induction false} RunProgress(ids: seq<string>, entries: seq<Entry>, n: nat, s: Tracking)
    requires n <= |entries|
    requires forall k :: 0 <= k < |entries| ==> entries[k].target < |ids|
    ensures var r := Run(ids, entries, n, s);
            r.progress == if AnyQualifies(entries, n) then Summary(|r.completed|, |ids|)
                          else s.progress
  {
    if n > 0 {
      RunProgress(ids, entries, n - 1, s);
    }
  }

  /** Only observed sections are ever completed. */
  lemma {:induction false} RunValid(ids: seq<string>, entries: seq<Entry>, n: nat, s: Tracking)
    requires n <= |entries|
    requires forall k :: 0 <= k < |entries| ==> entries[k].target < |ids|
    requires s.completed <= IdSet(ids)
    ensures Run(ids, entries, n, s).completed <= IdSet(ids)
  {
    if n > 0 {
      RunValid(ids, entries, n - 1, s);
      var e := entries[n - 1];
      assert ids[e.target] in IdSet(ids);
    }
  }

  class Tracker {
    /** The ids of `document.querySelectorAll('.section')`, in document order. */
    const ids: seq<string>
    /** `completedSections`. */
    var completed: set<string>
    /** The numbers of the `.reading-progress` text. */
    var progress: Progress

    /** Only observed sections are ever completed. */
    ghost predicate Valid()
      reads this
    {
      completed <= IdSet(ids)
    }

    /** Observing starts with nothing completed; the header starts at "0/0 sections (0%)". */
    constructor (ids: seq<string>)
      ensures Valid() && this.ids == ids && completed == {} && progress == Progress(0, 0, 0)
    {
      this.ids := ids;
      completed := {};
      progress := Progress(0, 0, 0);
    }

    /** The observer callback over one batch of entries. */
    method Observe(entries: seq<Entry>)
      requires Valid()
      requires forall k :: 0 <= k < |entries| ==> entries[k].target < |ids|
      modifies this
      ensures Valid() && old(completed) <= completed
      ensures Tracking(completed, progress)
              == Run(ids, entries, |entries|, old(Tracking(completed, progress)))
      ensures completed == old(completed) + Reached(ids, entries, |entries|)
      ensures progress == if AnyQualifies(entries, |entries|)
                          then Summary(|completed|, |ids|) else old(progress)
    {
      ghost var start := Tracking(completed, progress);
      var i := 0;
      while i < |entries|
        invariant 0 <= i <= |entries| && Valid()
        invariant Tracking(completed, progress) == Run(ids, entries, i, start)
      {
        ObserveEntry(entries[i]);
        i := i + 1;
      }
      RunCompleted(ids, entries, |entries|, start);
      RunProgress(ids, entries, |entries|, start);
    }

    /** The callback's body for one entry. */
    method ObserveEntry(e: Entry)
      requires Valid() && e.target < |ids|
      modifies this
      ensures Valid()
      ensures Tracking(completed, progress) == Step(ids, e, old(Tracking(completed, progress)))
    {
      if e.isIntersecting && e.ratio > 0.5 {
        completed := completed + {ids[e.target]};
        UpdateProgressStats();
      }
    }

    /** `updateProgressStats`. */
    method UpdateProgressStats()
      requires |ids| > 0
      modifies this
      ensures progress == Summary(|completed|, |ids|) && completed == old(completed)
      ensures progress.count == |completed| && progress.total == |ids|
      ensures (2 * progress.percentage - 1) * |ids| <= 200 * |completed|
                < (2 * progress.percentage + 1) * |ids|
    {
      PercentageRounds(|completed|, |ids|);
      var totalSections := |ids|;
      var completedCount := |completed|;
      progress := Progress(completedCount, totalSections, Percentage(completedCount, totalSections));
    }
  }
}
