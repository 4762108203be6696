/** `worst_integral_sorting` in `src/other_exec.rs`, driving the per-file
    steps of `IntegralSort` over all the input files. */
module IntegralRun {
  import opened Common
  import opened IntegralSort

  /** One later file of the run: sorted and added to the outputs, or the
      reason the run fails. */
  method SortFile(files: seq<string>, read: string -> seq<string>, ghost cs: seq<seq<string>>, f: nat,
                  sorting: map<string, nat>, counter: nat, ghost outs: seq<(string, seq<string>)>)
    returns (s: Result<((string, seq<string>), map<string, nat>, nat)>)
    requires cs == Contents(files, read) && 1 <= f < |files|
    requires Running(files, cs, f, sorting, counter, outs)
    ensures s.Abort? ==> !Sortable(cs)
    ensures s.Ok? ==> Running(files, cs, f + 1, s.value.1, s.value.2, outs + [s.value.0])
  {
    var lines := read(files[f]);
    assert cs[f] == lines;
    var sorted := SortLater(lines, sorting, counter);
    if sorted.Abort? {
      Unsortable(cs, f);
      return Abort(sorted.reason);
    }
    var (out, m', c') := sorted.value;
    RunStep(files, cs, f, sorting, counter, outs, out, m', c');
    return Ok(((SortedName(files[f]), out), m', c'));
  }

  /** The whole run: one rewritten file per later input, each in the
      numbering after its own ids were added. */
  method WorstIntegralSorting(files: seq<string>, read: string -> seq<string>)
    returns (r: Result<seq<(string, seq<string>)>>)
    ensures r.Abort? <==> !Sortable(Contents(files, read))
    ensures r.Ok? ==> |r.value| == |files| - 1
    ensures r.Ok? ==> Sortable(Contents(files, read))
    ensures r.Ok? ==>
      forall j :: 0 <= j < |r.value| ==> Done(files, Contents(files, read), j, r.value[j])
  {
    ghost var cs := Contents(files, read);
    if |files| < 2 {
      return Abort("Nothing to sort, specify more files!");
    }
    var first := FirstOrders(read(files[0]));
    if first.Abort? {
      Unsortable(cs, 0);
      return Abort(first.reason);
    }
    var (sorting, counter) := first.value;
    OrdersValid(cs, 1);
    var outs: seq<(string, seq<string>)> := [];
    for f := 1 to |files|
      invariant Running(files, cs, f, sorting, counter, outs)
    {
      var s := SortFile(files, read, cs, f, sorting, counter, outs);
      if s.Abort? {
        return Abort(s.reason);
      }
      var (out, m', c') := s.value;
      outs := outs + [out];
      sorting, counter := m', c';
    }
    RunDone(files, cs, sorting, counter, outs);
    return Ok(outs);
  }
}
