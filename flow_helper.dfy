/** `src/network/main_execs/flow_helper.rs`: the bookkeeping of a shock job,
    an ascending list of exporters with their export fractions and the
    ascending list of the remaining ("unrestricted") node ids. The slices of
    original imports and exports the job borrows are not modelled. */
module FlowHelper {
  import opened Common
  import opened Sorting
  import opened FlowIds

  /** The filter closure of both constructors (lines 68-82 and 118-133): it
      walks `0..n` with a cursor on `sorted`; an id equal to the cursor's
      element is dropped and moves the cursor on when there is a next
      element, every other id is kept. Only ids in `sorted` are ever
      dropped, and on a strictly ascending list exactly those are. */
  method FreeIds(sorted: seq<nat>, n: nat) returns (free: seq<nat>)
    requires sorted != []
    ensures StrictlyIncreasing(free)
    ensures forall x :: x in free ==> x < n
    ensures forall x: nat :: x < n && x !in sorted ==> x in free
    ensures StrictlyIncreasing(sorted) ==> free == Complement(n, sorted)
  {
    var p := 0;
    free := [];
    for id := 0 to n
      invariant FilterState(sorted, p, id, free)
    {
      if id == sorted[p] {
        FilterDrop(sorted, p, id, free);
        if p + 1 < |sorted| {
          p := p + 1;
        }
      } else {
        FilterKeep(sorted, p, id, free);
        free := free + [id];
      }
    }
  }

  class CalcShockMultiJob {
    var exporter: seq<ExportShockItem>
    var unrestricted: seq<nat>
    var iterations: nat

    constructor (exporter: seq<ExportShockItem>, unrestricted: seq<nat>, iterations: nat)
      ensures this.exporter == exporter && this.unrestricted == unrestricted
      ensures this.iterations == iterations
    {
      this.exporter := exporter;
      this.unrestricted := unrestricted;
      this.iterations := iterations;
    }

    /** `change_export_frac`: every exporter gets fraction `frac`; ids and
        their order stay. */
    method ChangeExportFrac(frac: real)
      modifies this
      ensures |exporter| == |old(exporter)|
      ensures forall k :: 0 <= k < |exporter| ==> exporter[k] == ExportShockItem(old(exporter)[k].exportId, frac)
      ensures unrestricted == old(unrestricted) && iterations == old(iterations)
    {
      for k := 0 to |exporter|
        invariant |exporter| == |old(exporter)|
        invariant forall j :: 0 <= j < k ==> exporter[j] == ExportShockItem(old(exporter)[j].exportId, frac)
        invariant forall j :: k <= j < |exporter| ==> exporter[j] == old(exporter)[j]
        invariant unrestricted == old(unrestricted) && iterations == old(iterations)
      {
        exporter := exporter[k := exporter[k].(exportFrac := frac)];
      }
    }

    /** `add_exporter`: the id must be unrestricted (the `unwrap` of
        `position` fails otherwise, before anything changes); it leaves the
        unrestricted ids and the exporters are sorted again with `e`
        added. */
    method AddExporter(e: ExportShockItem) returns (r: Result<()>)
      modifies this
      ensures r.Abort? <==> e.exportId !in old(unrestricted)
      ensures r.Abort? ==> exporter == old(exporter) && unrestricted == old(unrestricted)
      ensures r.Ok? ==> unrestricted == Without(old(unrestricted), e.exportId)
      ensures r.Ok? ==> exporter == Resorted(old(exporter), e)
      ensures iterations == old(iterations)
    {
      var pos := Position(unrestricted, e.exportId);
      if pos.None? {
        return Abort("called `Option::unwrap()` on a `None` value");
      }
      unrestricted := RemoveAt(unrestricted, pos.value);
      exporter := Resorted(exporter, e);
      r := Ok(());
    }

    /** `reduce_or_add`: an existing exporter's fraction is multiplied by
        `factor`; an id that is no exporter yet is added with fraction
        `factor`, which fails when it is not unrestricted either. */
    method ReduceOrAdd(id: nat, factor: real) returns (r: Result<()>)
      modifies this
      ensures Position(Ids(old(exporter)), id).Some? ==>
        var p := Position(Ids(old(exporter)), id).value;
        r.Ok? && unrestricted == old(unrestricted) &&
        exporter == old(exporter)[p := ExportShockItem(id, Scale(old(exporter)[p].exportFrac, factor))]
      ensures Position(Ids(old(exporter)), id).None? ==>
        (r.Abort? <==> id !in old(unrestricted)) &&
        (r.Ok? ==> exporter == Resorted(old(exporter), ExportShockItem(id, factor)) &&
                   unrestricted == Without(old(unrestricted), id))
      ensures iterations == old(iterations)
    {
      var pos := Position(Ids(exporter), id);
      match pos {
        case None =>
          r := AddExporter(ExportShockItem(id, factor));
        case Some(idx) =>
          assert exporter[idx].exportId == Ids(exporter)[idx];
          exporter := exporter[idx := exporter[idx].(exportFrac := Scale(exporter[idx].exportFrac, factor))];
          r := Ok(());
      }
    }
  }

  /** `new_exporter`: the exporters sorted by id (`sort_unstable_by_key`),
      the unrestricted ids from the filter; an empty list panics. With
      distinct exporter ids the job starts partitioned. */
  method NewExporter(exporter: seq<ExportShockItem>, iterations: nat, n: nat) returns (r: Result<CalcShockMultiJob>)
    ensures r.Abort? <==> exporter == []
    ensures r.Ok? ==> fresh(r.value) && r.value.iterations == iterations
    ensures r.Ok? ==> SortedBy(r.value.exporter, IdKey) && multiset(r.value.exporter) == multiset(exporter)
    ensures r.Ok? ==> forall x: nat :: x < n && x !in Ids(r.value.exporter) ==> x in r.value.unrestricted
    ensures r.Ok? && Distinct(Ids(exporter)) ==> Partitioned(r.value.exporter, r.value.unrestricted, n)
  {
    var sorted := SortByKey(exporter, IdKey);
    if sorted == [] {
      return Abort("ERROR");
    }
    var free := FreeIds(Ids(sorted), n);
    if Distinct(Ids(exporter)) {
      assert forall i, j :: 0 <= i < j < |exporter| ==> Ids(exporter)[i] != Ids(exporter)[j];
      SortedKeysStrict(exporter, sorted, IdKey);
      assert forall i, j :: 0 <= i < j < |sorted| ==> Ids(sorted)[i] < Ids(sorted)[j];
      ComplementPartition(sorted, n);
    }
    var job := new CalcShockMultiJob(sorted, free, iterations);
    r := Ok(job);
  }

  /** `new_const_export`: the ids sorted, each an exporter with fraction
      `frac`; empty ids fail the `unwrap` of `split_first`. With distinct
      ids the job starts partitioned. */
  method NewConstExport(ids: seq<nat>, frac: real, iterations: nat, n: nat) returns (r: Result<CalcShockMultiJob>)
    ensures r.Abort? <==> ids == []
    ensures r.Ok? ==> fresh(r.value) && r.value.iterations == iterations
    ensures r.Ok? ==> SortedBy(Ids(r.value.exporter), NatKey) && multiset(Ids(r.value.exporter)) == multiset(ids)
    ensures r.Ok? ==> forall k :: 0 <= k < |r.value.exporter| ==> r.value.exporter[k].exportFrac == frac
    ensures r.Ok? ==> forall x: nat :: x < n && x !in ids ==> x in r.value.unrestricted
    ensures r.Ok? && Distinct(ids) ==> Partitioned(r.value.exporter, r.value.unrestricted, n)
  {
    var sorted := SortByKey(ids, NatKey);
    if sorted == [] {
      return Abort("called `Option::unwrap()` on a `None` value");
    }
    var free := FreeIds(sorted, n);
    var exporter := WithFrac(sorted, frac);
    forall x | x in sorted
      ensures x in ids
    {
      assert x in multiset(sorted);
    }
    if Distinct(ids) {
      assert forall i, j :: 0 <= i < j < |ids| ==> NatKey(ids[i]) != NatKey(ids[j]);
      SortedKeysStrict(ids, sorted, NatKey);
      assert StrictlyIncreasing(sorted) by {
        assert forall i, j :: 0 <= i < j < |sorted| ==> NatKey(sorted[i]) < NatKey(sorted[j]);
      }
      ComplementPartition(exporter, n);
    }
    var job := new CalcShockMultiJob(exporter, free, iterations);
    r := Ok(job);
  }

  /** The unrestricted ids the filter computes make a partition with
      strictly ascending exporter ids. */
  lemma {:induction false} ComplementPartition(ex: seq<ExportShockItem>, n: nat)
    requires StrictlyIncreasing(Ids(ex))
    ensures Partitioned(ex, Complement(n, Ids(ex)), n)
  {
  }

  /** `add_exporter` keeps the partition: the id leaves the unrestricted list
      and joins the exporters. */
  lemma {:induction false} AddKeepsPartition(ex: seq<ExportShockItem>, un: seq<nat>, n: nat, e: ExportShockItem)
    requires Partitioned(ex, un, n) && e.exportId in un
    ensures Partitioned(Resorted(ex, e), Without(un, e.exportId), n)
    ensures e.exportId in Ids(Resorted(ex, e)) && e.exportId !in Without(un, e.exportId)
  {
    InsertedIds(ex, e);
    RemovedIds(un, Position(un, e.exportId).value);
  }

  /** Changing fractions keeps the partition, since the ids stay. */
  lemma {:induction false} SameIdsPartition(ex: seq<ExportShockItem>, ex': seq<ExportShockItem>, un: seq<nat>, n: nat)
    requires Partitioned(ex, un, n)
    requires |ex'| == |ex| && forall k :: 0 <= k < |ex| ==> ex'[k].exportId == ex[k].exportId
    ensures Partitioned(ex', un, n)
  {
    assert Ids(ex') == Ids(ex);
  }

  /** `reduce_or_add` keeps the partition on both of its paths: multiplying
      an exporter's fraction changes no id, and adding goes through
      `add_exporter`. */
  lemma {:induction false} ReduceOrAddKeepsPartition(ex: seq<ExportShockItem>, un: seq<nat>, n: nat, id: nat, factor: real)
    requires Partitioned(ex, un, n)
    ensures Position(Ids(ex), id).Some? ==>
      var p := Position(Ids(ex), id).value;
      Partitioned(ex[p := ExportShockItem(id, Scale(ex[p].exportFrac, factor))], un, n)
    ensures Position(Ids(ex), id).None? && id in un ==>
      Partitioned(Resorted(ex, ExportShockItem(id, factor)), Without(un, id), n)
  {
    var pos := Position(Ids(ex), id);
    if pos.Some? {
      var p := pos.value;
      var ex' := ex[p := ExportShockItem(id, Scale(ex[p].exportFrac, factor))];
      assert ex[p].exportId == Ids(ex)[p];
      SameIdsPartition(ex, ex', un, n);
    } else if id in un {
      AddKeepsPartition(ex, un, n, ExportShockItem(id, factor));
    }
  }

  /** Under the partition an id is unrestricted exactly when it is below
      `n` and no exporter, so `add_exporter` of an id below `n` fails
      exactly for an existing exporter. */
  lemma {:induction false} AddFailsForExporters(ex: seq<ExportShockItem>, un: seq<nat>, n: nat, id: nat)
    requires Partitioned(ex, un, n) && id < n
    ensures id !in un <==> Position(Ids(ex), id).Some?
  {
  }
}
