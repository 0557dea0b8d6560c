/** Building runs of the data queue step by step. */
module QueueRuns {
  import opened QueueLayout
  import opened QueuePromises
  import opened QueueThreads

  function Last(tr: seq<Sys>): Sys
    requires tr != []
  {
    tr[|tr| - 1]
  }

  lemma Extend(tr: seq<Sys>, t: Sys) returns (tr': seq<Sys>)
    requires Run(tr) && Pointers(Last(tr).q) && Next(Last(tr), t)
    ensures Run(tr') && Last(tr') == t
  {
    tr' := tr + [t];
    forall i | 0 <= i < |tr'| - 1 ensures StepAt(tr', i) {
      if i < |tr| - 1 {
        assert StepAt(tr, i);
      }
    }
  }
}
