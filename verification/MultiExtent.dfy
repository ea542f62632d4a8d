/** Merging of multi-extent records while a directory is read (core/src/lib.rs). */
module MultiExtent {
  import opened Bytes
  import opened Directory

  /** The record with one more extent and the flag cleared. */
  function Extended(rec: DirRecord, next: DirRecord): DirRecord {
    var flags: int := rec.flags;
    rec.(extraExtents := rec.extraExtents + [(next.lba, next.size)],
         flags := if flags >= 0x80 then flags - 0x80 else flags)
  }

  predicate Joins(rec: DirRecord, rs: seq<DirRecord>, i: nat) {
    i < |rs| && rs[i].nameBytes == rec.nameBytes
  }

  /** The record after it took in its continuations from place i on, and the place after them. */
  function Absorb(rec: DirRecord, rs: seq<DirRecord>, i: nat): (r: (DirRecord, nat))
    requires i <= |rs|
    ensures i <= r.1 <= |rs|
    decreases |rs| - i
  {
    if !Joins(rec, rs, i) then (rec, i)
    else if rs[i].IsMultiExtent() then Absorb(Extended(rec, rs[i]), rs, i + 1)
    else (Extended(rec, rs[i]), i + 1)
  }

  /** The first record from place i on, merged with its continuations, and the place after. */
  function TakeOne(rs: seq<DirRecord>, i: nat): (r: (DirRecord, nat))
    requires i < |rs|
    ensures i < r.1 <= |rs|
  {
    if rs[i].IsMultiExtent() then Absorb(rs[i], rs, i + 1) else (rs[i], i + 1)
  }

  function MergedFrom(rs: seq<DirRecord>, i: nat): (m: seq<DirRecord>)
    requires i <= |rs|
    decreases |rs| - i
  {
    if i == |rs| then [] else [TakeOne(rs, i).0] + MergedFrom(rs, TakeOne(rs, i).1)
  }

  function Merged(rs: seq<DirRecord>): seq<DirRecord> {
    MergedFrom(rs, 0)
  }

  method MergeExtents(records: seq<DirRecord>) returns (merged: seq<DirRecord>)
    ensures merged == Merged(records)
  {
    merged := [];
    var next := 0;
    while next < |records|
      invariant 0 <= next <= |records|
      invariant merged + MergedFrom(records, next) == Merged(records)
    {
      var rec := records[next];
      ghost var one := TakeOne(records, next);
      assert merged + ([one.0] + MergedFrom(records, one.1)) == merged + [one.0] + MergedFrom(records, one.1);
      next := next + 1;
      if rec.IsMultiExtent() {
        rec, next := TakeContinuations(rec, records, next);
      }
      merged := merged + [rec];
    }
  }

  /** The inner loop: peek, and take the next record as long as it belongs to the chain. */
  method TakeContinuations(first: DirRecord, records: seq<DirRecord>, start: nat) returns (rec: DirRecord, next: nat)
    requires start <= |records|
    ensures (rec, next) == Absorb(first, records, start)
  {
    rec, next := first, start;
    while next < |records|
      invariant next <= |records|
      invariant Absorb(rec, records, next) == Absorb(first, records, start)
    {
      if records[next].nameBytes != rec.nameBytes {
        break;
      }
      var follow := records[next];
      next := next + 1;
      rec := Extended(rec, follow);
      if !follow.IsMultiExtent() {
        return;
      }
    }
  }

  // ---- what merging keeps --------------------------------------------------------

  function Extents(rec: DirRecord): seq<(u32, u32)> {
    [(rec.lba, rec.size)] + rec.extraExtents
  }

  function AllExtents(rs: seq<DirRecord>): seq<(u32, u32)> {
    if |rs| == 0 then [] else Extents(rs[0]) + AllExtents(rs[1..])
  }

  /** Records as the parser delivers them. */
  predicate SingleExtents(rs: seq<DirRecord>) {
    forall i :: 0 <= i < |rs| ==> rs[i].extraExtents == []
  }

  /** The extents of the records from place i on. */
  function ExtentsFrom(rs: seq<DirRecord>, i: nat): seq<(u32, u32)>
    requires i <= |rs|
    decreases |rs| - i
  {
    if i == |rs| then [] else Extents(rs[i]) + ExtentsFrom(rs, i + 1)
  }

  lemma {:induction false} ExtentsFromIsAll(rs: seq<DirRecord>, i: nat)
    requires i <= |rs|
    ensures ExtentsFrom(rs, i) == AllExtents(rs[i..])
    decreases |rs| - i
  {
    if i < |rs| {
      ExtentsFromIsAll(rs, i + 1);
      assert rs[i..][1..] == rs[i + 1..];
    }
  }

  lemma {:induction false} AbsorbConserves(rec: DirRecord, rs: seq<DirRecord>, i: nat)
    requires SingleExtents(rs) && i <= |rs|
    ensures var (r, n) := Absorb(rec, rs, i);
      Extents(r) + ExtentsFrom(rs, n) == Extents(rec) + ExtentsFrom(rs, i)
    decreases |rs| - i
  {
    if Joins(rec, rs, i) {
      var longer := Extended(rec, rs[i]);
      assert Extents(longer) == Extents(rec) + Extents(rs[i]);
      assert Extents(longer) + ExtentsFrom(rs, i + 1) == Extents(rec) + ExtentsFrom(rs, i);
      if rs[i].IsMultiExtent() {
        AbsorbConserves(longer, rs, i + 1);
      }
    }
  }

  lemma {:induction false} MergeConservesFrom(rs: seq<DirRecord>, i: nat)
    requires SingleExtents(rs) && i <= |rs|
    ensures AllExtents(MergedFrom(rs, i)) == ExtentsFrom(rs, i)
    decreases |rs| - i
  {
    if i < |rs| {
      var (r, n) := TakeOne(rs, i);
      AbsorbConserves(rs[i], rs, i + 1);
      MergeConservesFrom(rs, n);
      assert MergedFrom(rs, i)[1..] == MergedFrom(rs, n);
    }
  }

  /** The extents of the merged records, in order, are the extents of the records read. */
  lemma MergeConservesExtents(rs: seq<DirRecord>)
    requires SingleExtents(rs)
    ensures AllExtents(Merged(rs)) == AllExtents(rs)
  {
    MergeConservesFrom(rs, 0);
    ExtentsFromIsAll(rs, 0);
    assert rs[0..] == rs;
  }

  /** No flagged record is followed by one of the same name. */
  predicate NoChain(rs: seq<DirRecord>) {
    forall i :: 0 <= i < |rs| - 1 && rs[i].IsMultiExtent() ==> rs[i + 1].nameBytes != rs[i].nameBytes
  }

  lemma {:induction false} AbsorbNames(rec: DirRecord, rs: seq<DirRecord>, i: nat)
    requires i <= |rs|
    ensures var (r, n) := Absorb(rec, rs, i);
      && r.nameBytes == rec.nameBytes
      && (r.IsMultiExtent() ==> rec.IsMultiExtent() && n == i && !Joins(rec, rs, i))
    decreases |rs| - i
  {
    if Joins(rec, rs, i) && rs[i].IsMultiExtent() {
      AbsorbNames(Extended(rec, rs[i]), rs, i + 1);
    }
  }

  /** A record still flagged after merging is never followed by one of the same name. */
  lemma {:induction false} MergeLeavesNoChain(rs: seq<DirRecord>, i: nat)
    requires i <= |rs|
    ensures NoChain(MergedFrom(rs, i))
    ensures i < |rs| ==> |MergedFrom(rs, i)| > 0 && MergedFrom(rs, i)[0].nameBytes == rs[i].nameBytes
    decreases |rs| - i
  {
    if i < |rs| {
      var (r, n) := TakeOne(rs, i);
      AbsorbNames(rs[i], rs, i + 1);
      MergeLeavesNoChain(rs, n);
      var m, rest := MergedFrom(rs, i), MergedFrom(rs, n);
      assert m == [r] + rest;
      forall k | 0 <= k < |m| - 1 && m[k].IsMultiExtent()
        ensures m[k + 1].nameBytes != m[k].nameBytes
      {
        if k > 0 {
          assert m[k] == rest[k - 1] && m[k + 1] == rest[k];
        }
      }
    }
  }

  lemma {:induction false} NothingToMerge(rs: seq<DirRecord>, i: nat)
    requires NoChain(rs) && i <= |rs|
    ensures MergedFrom(rs, i) == rs[i..]
    decreases |rs| - i
  {
    if i < |rs| {
      NothingToMerge(rs, i + 1);
      assert rs[i..] == [rs[i]] + rs[i + 1..];
    }
  }

  /** Merging a second time changes nothing. */
  lemma MergeTwice(rs: seq<DirRecord>)
    ensures Merged(Merged(rs)) == Merged(rs)
  {
    MergeLeavesNoChain(rs, 0);
    NothingToMerge(Merged(rs), 0);
    assert Merged(rs)[0..] == Merged(rs);
  }

  lemma {:induction false} AbsorbKeepsUse(rec: DirRecord, rs: seq<DirRecord>, i: nat)
    requires i <= |rs|
    ensures Absorb(rec, rs, i).0.systemUse == rec.systemUse
    decreases |rs| - i
  {
    if Joins(rec, rs, i) && rs[i].IsMultiExtent() {
      AbsorbKeepsUse(Extended(rec, rs[i]), rs, i + 1);
    }
  }

  /** A merged record keeps the System Use field of the first record of its chain. */
  lemma {:induction false} MergeKeepsUse(rs: seq<DirRecord>, i: nat)
    requires i <= |rs|
    ensures forall m :: m in MergedFrom(rs, i) ==> exists k :: 0 <= k < |rs| && rs[k].systemUse == m.systemUse
    decreases |rs| - i
  {
    if i < |rs| {
      AbsorbKeepsUse(rs[i], rs, i + 1);
      MergeKeepsUse(rs, TakeOne(rs, i).1);
    }
  }

  // ---- the chains ---------------------------------------------------------------------

  /** The records from place i up to n are one file: an unflagged record alone, or a flagged one with
      the records of its name that follow, up to the first unflagged one or the next other name. */
  predicate IsChain(rs: seq<DirRecord>, i: nat, n: nat) {
    && i < n <= |rs|
    && if rs[i].flags < 0x80 then n == i + 1
       else
         && (forall k :: i < k < n ==> rs[k].nameBytes == rs[i].nameBytes)
         && (forall k :: i < k < n - 1 ==> rs[k].flags >= 0x80)
         && (n == |rs| || rs[n].nameBytes != rs[i].nameBytes || (n > i + 1 && rs[n - 1].flags < 0x80))
  }

  /** The extents of the records from place i up to n. */
  function Pairs(rs: seq<DirRecord>, i: nat, n: nat): seq<(u32, u32)>
    requires i <= n <= |rs|
    decreases n - i
  {
    if i == n then [] else [(rs[i].lba, rs[i].size)] + Pairs(rs, i + 1, n)
  }

  /** The first record of the chain with the extents of the others; if there are others, it is not
      flagged any more. */
  ghost predicate IsChainMerged(rs: seq<DirRecord>, i: nat, n: nat, m: DirRecord)
    requires i < n <= |rs|
  {
    && m.lba == rs[i].lba && m.size == rs[i].size && m.nameBytes == rs[i].nameBytes
    && m.systemUse == rs[i].systemUse && m.recorded == rs[i].recorded
    && m.extraExtents == rs[i].extraExtents + Pairs(rs, i + 1, n)
    && m.flags == (if n > i + 1 then rs[i].flags % 0x80 else rs[i].flags)
  }

  lemma {:induction false} AbsorbTakesChain(rec: DirRecord, rs: seq<DirRecord>, i: nat)
    requires i <= |rs|
    ensures var (r, n) := Absorb(rec, rs, i);
      && (forall k :: i <= k < n ==> rs[k].nameBytes == rec.nameBytes)
      && (forall k :: i <= k < n - 1 ==> rs[k].flags >= 0x80)
      && (n == |rs| || rs[n].nameBytes != rec.nameBytes || (n > i && rs[n - 1].flags < 0x80))
      && r.lba == rec.lba && r.size == rec.size && r.nameBytes == rec.nameBytes
      && r.systemUse == rec.systemUse && r.recorded == rec.recorded
      && r.extraExtents == rec.extraExtents + Pairs(rs, i, n)
      && r.flags == (if n > i then rec.flags % 0x80 else rec.flags)
    decreases |rs| - i
  {
    if Joins(rec, rs, i) {
      var longer := Extended(rec, rs[i]);
      var flags: int := rec.flags;
      assert longer.flags == flags % 0x80;
      if rs[i].IsMultiExtent() {
        AbsorbTakesChain(longer, rs, i + 1);
        var n := Absorb(longer, rs, i + 1).1;
        assert longer.extraExtents + Pairs(rs, i + 1, n) == rec.extraExtents + Pairs(rs, i, n);
      } else {
        assert Pairs(rs, i, i + 1) == [(rs[i].lba, rs[i].size)] + Pairs(rs, i + 1, i + 1);
      }
    } else {
      assert rec.extraExtents + [] == rec.extraExtents;
    }
  }

  lemma TakesChain(rs: seq<DirRecord>, i: nat)
    requires i < |rs|
    ensures IsChain(rs, i, TakeOne(rs, i).1) && IsChainMerged(rs, i, TakeOne(rs, i).1, TakeOne(rs, i).0)
  {
    if rs[i].IsMultiExtent() {
      AbsorbTakesChain(rs[i], rs, i + 1);
    } else {
      assert rs[i].extraExtents + [] == rs[i].extraExtents;
    }
  }

  /** Where the chains of a list begin and end. */
  ghost predicate AreChains(rs: seq<DirRecord>, from: nat, cuts: seq<nat>, ms: seq<DirRecord>) {
    && |cuts| == |ms| + 1 && cuts[0] == from && cuts[|ms|] == |rs|
    && forall j :: 0 <= j < |ms| ==> ChainAt(rs, cuts[j], cuts[j + 1], ms[j])
  }

  ghost predicate ChainAt(rs: seq<DirRecord>, i: nat, n: nat, m: DirRecord) {
    IsChain(rs, i, n) && IsChainMerged(rs, i, n, m)
  }

  lemma {:induction false} MergedChainsFrom(rs: seq<DirRecord>, i: nat) returns (cuts: seq<nat>)
    requires i <= |rs|
    ensures AreChains(rs, i, cuts, MergedFrom(rs, i))
    decreases |rs| - i
  {
    hide ChainAt, TakeOne;
    if i == |rs| {
      cuts := [i];
    } else {
      var (m, n) := TakeOne(rs, i);
      ChainTaken(rs, i);
      var more := MergedChainsFrom(rs, n);
      cuts := [i] + more;
    }
  }

  lemma ChainTaken(rs: seq<DirRecord>, i: nat)
    requires i < |rs|
    ensures ChainAt(rs, i, TakeOne(rs, i).1, TakeOne(rs, i).0)
  {
    TakesChain(rs, i);
  }

  /** Merging cuts the list into chains, each as long as it can be, and makes one record of each. */
  lemma MergesChains(rs: seq<DirRecord>) returns (cuts: seq<nat>)
    ensures AreChains(rs, 0, cuts, Merged(rs))
  {
    cuts := MergedChainsFrom(rs, 0);
  }
}
