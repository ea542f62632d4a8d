/** The overlapping-extent sweep over the files of a walk (forensic/src/analysis.rs). */
module Overlap {
  import opened Wrappers
  import opened Bytes
  import opened Directory
  import opened Names
  import opened Selections
  import opened Walk

  const U32_MAX: u32 := 0xFFFF_FFFF

  /** The sectors [start, end) of a file. */
  datatype Span = Span(start: u32, end: u32, path: Name)

  datatype Finding = Finding(path: Name, lba: u32, overlapsPath: Name, overlapsLba: u32)

  function SaturatingAdd(a: u32, b: u32): u32 {
    if a + b > U32_MAX then U32_MAX else a + b
  }

  function SpanOf(e: WalkEntry): Span {
    Span(e.record.lba, SaturatingAdd(e.record.lba, (e.record.size + 2047) / 2048), e.path)
  }

  function Spans(entries: seq<WalkEntry>): (spans: seq<Span>)
    ensures forall s :: s in spans ==> Proper(s)
  {
    if |entries| == 0 then []
    else
      var e := entries[|entries| - 1];
      Spans(entries[..|entries| - 1]) + if !e.record.IsDir() && e.record.size > 0 then [SpanOf(e)] else []
  }

  /** A span is empty only where the end of the address range cut it off. */
  predicate Proper(s: Span) {
    s.start < s.end || s.start == s.end == U32_MAX
  }

  predicate Same(a: Span, b: Span) {
    a.start == b.start && a.end == b.end
  }

  predicate Intersect(a: Span, b: Span) {
    a.start < b.end && b.start < a.end
  }

  /** Ordered by start, then by end. */
  predicate Sorted(spans: seq<Span>) {
    forall i, j :: 0 <= i < j < |spans| ==> Before(spans[i], spans[j])
  }

  predicate Before(a: Span, b: Span) {
    a.start < b.start || (a.start == b.start && a.end <= b.end)
  }

  // ---- the sweep ------------------------------------------------------------------------

  /** Which of the first n spans, n > 0, covers furthest: the first with the largest end. */
  function CoverAt(spans: seq<Span>, n: nat): (c: nat)
    requires 0 < n <= |spans|
    ensures c < n
    ensures forall i :: 0 <= i < n ==> spans[i].end <= spans[c].end
    ensures forall i :: 0 <= i < c ==> spans[i].end < spans[c].end
  {
    if n == 1 then 0
    else
      var c := CoverAt(spans, n - 1);
      if spans[n - 1].end > spans[c].end then n - 1 else c
  }

  predicate Reported(spans: seq<Span>, j: nat)
    requires j < |spans|
  {
    && j > 0
    && spans[j].start < spans[CoverAt(spans, j)].end
    && !Same(spans[j], spans[CoverAt(spans, j)])
  }

  function FindingAt(spans: seq<Span>, j: nat): Finding
    requires 0 < j < |spans|
  {
    var c := spans[CoverAt(spans, j)];
    Finding(spans[j].path, spans[j].start, c.path, c.start)
  }

  function Findings(spans: seq<Span>, n: nat): seq<Finding>
    requires n <= |spans|
  {
    if n == 0 then []
    else Findings(spans, n - 1) + if Reported(spans, n - 1) then [FindingAt(spans, n - 1)] else []
  }

  method Sweep(spans: seq<Span>) returns (overlaps: seq<Finding>)
    ensures overlaps == Findings(spans, |spans|)
  {
    var cover: Option<Span> := None;
    overlaps := [];
    for j := 0 to |spans|
      invariant cover == if j == 0 then None else Some(spans[CoverAt(spans, j)])
      invariant overlaps == Findings(spans, j)
    {
      var s := spans[j];
      if cover.Some? {
        var c := cover.value;
        if s.start < c.end && !(s.start == c.start && s.end == c.end) {
          overlaps := overlaps + [Finding(s.path, s.start, c.path, c.start)];
        }
      }
      if cover.None? || s.end > cover.value.end {
        cover := Some(s);
      }
    }
  }

  // ---- the sweep is exact ------------------------------------------------------------------

  ghost predicate AllProper(spans: seq<Span>) {
    forall i :: 0 <= i < |spans| ==> Proper(spans[i])
  }

  /** A reported span really intersects the one it is reported against, and is another extent. */
  lemma ReportsAreReal(spans: seq<Span>, j: nat)
    requires Sorted(spans) && AllProper(spans) && j < |spans| && Reported(spans, j)
    ensures CoverAt(spans, j) < j
    ensures Intersect(spans[CoverAt(spans, j)], spans[j]) && !Same(spans[CoverAt(spans, j)], spans[j])
  {
    assert Before(spans[CoverAt(spans, j)], spans[j]) && Proper(spans[j]);
  }

  /** The first copy of an extent is reported exactly when it intersects an earlier extent. */
  lemma FirstCopyReportedIff(spans: seq<Span>, j: nat)
    requires Sorted(spans) && AllProper(spans) && j < |spans|
    requires forall i :: 0 <= i < j ==> !Same(spans[i], spans[j])
    ensures Reported(spans, j) <==> exists i :: 0 <= i < j && Intersect(spans[i], spans[j])
  {
    if i :| 0 <= i < j && Intersect(spans[i], spans[j]) {
      assert spans[i].end <= spans[CoverAt(spans, j)].end;
    }
    if Reported(spans, j) {
      ReportsAreReal(spans, j);
    }
  }

  predicate Apart(a: Span, b: Span) {
    Same(a, b) || !Intersect(a, b)
  }

  ghost predicate AllApart(spans: seq<Span>) {
    forall a, b :: a in spans && b in spans ==> Apart(a, b)
  }

  /** Between two copies of an extent the order leaves no other extent. */
  lemma CopiesAreTogether(spans: seq<Span>, c: nat, i: nat, j: nat)
    requires Sorted(spans) && i < j < |spans| && c < j && Same(spans[c], spans[j])
    ensures c <= i ==> Same(spans[i], spans[j])
  {
    assert Before(spans[i], spans[j]);
    assert c < i ==> Before(spans[c], spans[i]);
  }

  /** Two distinct intersecting extents make the sweep report one, if not the later of the two
      then the first copy of its extent. */
  lemma SomeReported(spans: seq<Span>, i: nat, j: nat)
    requires Sorted(spans) && AllProper(spans)
    requires i < j < |spans| && Intersect(spans[i], spans[j]) && !Same(spans[i], spans[j])
    ensures exists n :: 0 <= n < |spans| && Reported(spans, n)
  {
    var c := CoverAt(spans, j);
    if Same(spans[c], spans[j]) {
      CopiesAreTogether(spans, c, i, j);
      assert spans[i].end < spans[c].end;
      var n := CoverAt(spans, c);
      assert spans[i].end <= spans[n].end < spans[c].end;
      assert Reported(spans, c);
    } else {
      assert spans[i].end <= spans[c].end;
      assert Reported(spans, j);
    }
  }

  lemma {:induction false} FindingsNonEmpty(spans: seq<Span>, n: nat)
    requires n <= |spans|
    ensures Findings(spans, n) != [] <==> exists j :: 0 <= j < n && Reported(spans, j)
  {
    hide Reported;
    if n > 0 {
      FindingsNonEmpty(spans, n - 1);
    }
  }

  /** Whatever order ties are sorted in, the sweep reports nothing exactly when the extents of
      all files are pairwise identical or disjoint. */
  lemma SweepIsExact(entries: seq<WalkEntry>, spans: seq<Span>)
    requires multiset(spans) == multiset(Spans(entries)) && Sorted(spans)
    ensures Findings(spans, |spans|) == [] <==> AllApart(Spans(entries))
  {
    hide Reported, Same, Intersect, Before, Proper, Spans, Findings, CoverAt;
    SameMembers(spans, Spans(entries));
    FindingsNonEmpty(spans, |spans|);
    if j :| 0 <= j < |spans| && Reported(spans, j) {
      ReportsAreReal(spans, j);
      assert !Apart(spans[CoverAt(spans, j)], spans[j]);
    }
    if !AllApart(spans) {
      var a, b :| a in spans && b in spans && !Apart(a, b);
      var i :| 0 <= i < |spans| && spans[i] == a;
      var j :| 0 <= j < |spans| && spans[j] == b;
      Symmetric(a, b);
      if i == j {
        assert false;
      } else if i < j {
        SomeReported(spans, i, j);
      } else {
        SomeReported(spans, j, i);
      }
    }
  }

  lemma SameMembers(s: seq<Span>, t: seq<Span>)
    requires multiset(s) == multiset(t)
    ensures forall x :: x in s <==> x in t
  {
    forall x
      ensures x in s <==> x in t
    {
      assert x in multiset(s) <==> x in s;
      assert x in multiset(t) <==> x in t;
    }
  }

  lemma Symmetric(a: Span, b: Span)
    ensures Intersect(a, b) == Intersect(b, a) && Same(a, b) == Same(b, a) && Same(a, a)
  {
  }

  // ---- the spans and the findings, one by one -----------------------------------------------------

  /** A file's span starts at its extent and has as many sectors as hold its bytes, cut off at the end
      of the address range. */
  lemma SpanHoldsFile(e: WalkEntry, sectors: nat)
    requires e.record.size > 0 && 2048 * sectors >= e.record.size > 2048 * (sectors - 1)
    ensures SpanOf(e) == Span(e.record.lba, Min(e.record.lba + sectors, 0xFFFF_FFFF), e.path)
  {
    assert (e.record.size + 2047) / 2048 == sectors;
  }

  function AllSpans(entries: seq<WalkEntry>): (spans: seq<Span>)
    ensures |spans| == |entries|
  {
    seq(|entries|, i requires 0 <= i < |entries| => SpanOf(entries[i]))
  }

  predicate IsFile(e: WalkEntry) {
    !e.record.IsDir() && e.record.size > 0
  }

  lemma SpansOn(entries: seq<WalkEntry>)
    requires |entries| > 0
    ensures var n := |entries| - 1;
      && Spans(entries) == Spans(entries[..n]) + (if IsFile(entries[n]) then [SpanOf(entries[n])] else [])
      && AllSpans(entries)[..n] == AllSpans(entries[..n]) && AllSpans(entries)[n] == SpanOf(entries[n])
  {
    hide SpanOf;
  }

  /** The spans are those of the files that are not empty, in order. */
  lemma {:induction false} SpansPicked(entries: seq<WalkEntry>) returns (ks: seq<nat>)
    ensures Picks(AllSpans(entries), Spans(entries), ks)
    ensures forall k: nat :: k < |entries| ==> (k in ks <==> IsFile(entries[k]))
  {
    hide SpanOf, Spans, IsFile, AllSpans;
    if |entries| == 0 {
      ks := [];
      NoSpans(entries);
    } else {
      var n := |entries| - 1;
      var ks' := SpansPicked(entries[..n]);
      var pick := IsFile(entries[n]);
      SpansOn(entries);
      PicksOn(AllSpans(entries), Spans(entries[..n]), ks', pick);
      ks := ks' + if pick then [n] else [];
      PlacesBelow(AllSpans(entries[..n]), Spans(entries[..n]), ks');
      assert forall k: nat :: k < n ==> entries[..n][k] == entries[k];
    }
  }

  lemma NoSpans(entries: seq<WalkEntry>)
    requires |entries| == 0
    ensures Picks(AllSpans(entries), Spans(entries), [])
  {
  }

  lemma PlacesBelow(all: seq<Span>, chosen: seq<Span>, ks: seq<nat>)
    requires Picks(all, chosen, ks)
    ensures |all| !in ks
  {
  }

  /** Span c is the first of those before j that reach furthest. */
  ghost predicate IsCover(spans: seq<Span>, j: nat, c: nat) {
    && c < j <= |spans|
    && (forall i :: 0 <= i < j ==> spans[i].end <= spans[c].end)
    && (forall i :: 0 <= i < c ==> spans[i].end < spans[c].end)
  }

  /** Span j starts before the end of the cover c and is another extent. */
  ghost predicate Collides(spans: seq<Span>, j: nat, c: nat) {
    && IsCover(spans, j, c) && j < |spans|
    && spans[j].start < spans[c].end
    && !(spans[j].start == spans[c].start && spans[j].end == spans[c].end)
  }

  /** The finding names the span k and then the cover c it collides with. */
  ghost predicate Tells(spans: seq<Span>, f: Finding, k: nat, c: nat) {
    && Collides(spans, k, c)
    && f == Finding(spans[k].path, spans[k].start, spans[c].path, spans[c].start)
  }

  /** The findings name the spans at these places and their covers. */
  ghost predicate AllNamed(spans: seq<Span>, fs: seq<Finding>, ks: seq<nat>, cs: seq<nat>) {
    |ks| == |cs| == |fs| && forall i :: 0 <= i < |fs| ==> Tells(spans, fs[i], ks[i], cs[i])
  }

  lemma FindingsOn(spans: seq<Span>, n: nat)
    requires 0 < n <= |spans|
    ensures Reported(spans, n - 1) ==>
      && Findings(spans, n) == Findings(spans, n - 1) + [FindingAt(spans, n - 1)]
      && Tells(spans, FindingAt(spans, n - 1), n - 1, CoverAt(spans, n - 1))
    ensures !Reported(spans, n - 1) ==> Findings(spans, n) == Findings(spans, n - 1)
  {
    CollidesIff(spans, n - 1);
  }

  /** The findings are one for each span that collides with its cover, in order, and name the span and
      then the cover. */
  lemma {:induction false} FindingsPicked(spans: seq<Span>, n: nat) returns (ks: seq<nat>, cs: seq<nat>)
    requires n <= |spans|
    ensures AllNamed(spans, Findings(spans, n), ks, cs) && Ascending(ks, n)
    ensures forall k: nat :: k < n ==> (k in ks <==> exists c: nat :: Collides(spans, k, c))
  {
    hide Reported, CoverAt, Collides, Tells, FindingAt;
    ks, cs := [], [];
    if n > 0 {
      ks, cs := FindingsPicked(spans, n - 1);
      CollidesIff(spans, n - 1);
      FindingsOn(spans, n);
      assert n - 1 !in ks;
      if Reported(spans, n - 1) {
        ks, cs := ks + [n - 1], cs + [CoverAt(spans, n - 1)];
      }
    }
  }

  lemma CollidesIff(spans: seq<Span>, j: nat)
    requires j < |spans|
    ensures Reported(spans, j) <==> exists c: nat :: Collides(spans, j, c)
    ensures Reported(spans, j) ==> Collides(spans, j, CoverAt(spans, j))
  {
    if c: nat :| Collides(spans, j, c) {
      var d := CoverAt(spans, j);
      assert spans[c].end == spans[d].end;
      assert c == d;
    }
    if Reported(spans, j) {
      assert Collides(spans, j, CoverAt(spans, j));
    }
  }
}
