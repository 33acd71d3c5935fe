/** How a subscription to the hub ends, in every run. */
module HubEndings {
  import opened Hub

  /** The subscriber's own cancel, a shutdown of its shard, or a publish of an event
      it is cleared for that meets a full queue of undelivered events. */
  ghost predicate EndsBy(s: HubState, step: Step, id: int) {
    || step == Cancel(id)
    || step == ShutdownShard(ShardOf(id))
    || (&& step.PublishShard? && step.shard == ShardOf(id)
        && id in s.clearance && step.event.classification in s.clearance[id]
        && id in s.channels && |s.channels[id].queue| == 64)
  }

  lemma PublishEnds(s: HubState, i: nat, e: Event, id: int)
    requires Inv(s) && i < SHARDS && Live(s, id)
    ensures Live(Publish1(s, i, e), id) <==> !EndsBy(s, PublishShard(i, e), id)
  {
    assert id in s.channels && Served(s, id);
  }

  /** A live subscription ends in exactly these steps. */
  lemma EndsExactlyBy(s: HubState, step: Step, id: int)
    requires Inv(s) && Enabled(s, step) && Live(s, id)
    ensures !Live(Next(s, step), id) <==> EndsBy(s, step, id)
  {
    if step.PublishShard? {
      hide Publish1;
      PublishEnds(s, step.shard, step.event, id);
    } else {
      assert id in s.channels && Served(s, id);
      hide Served;
    }
  }

  /** An ended subscription stays ended: its id is never handed out again. */
  lemma EndedForGood(s: HubState, step: Step, id: int)
    requires Inv(s) && Enabled(s, step) && id in s.channels && !Live(s, id)
    ensures id in Next(s, step).channels && !Live(Next(s, step), id)
  {
    hide Served;
  }

  lemma JoinsLive(s: HubState, step: Step, id: int)
    requires Inv(s) && Enabled(s, step) && id !in s.channels && id in Next(s, step).channels
    ensures Live(Next(s, step), id)
  {
    hide Served;
  }

  ghost predicate EndedAt(steps: seq<Step>, k: nat, id: int) {
    && k < |steps|
    && var s := After(steps[..k]);
    Enabled(s, steps[k]) && Live(s, id) && EndsBy(s, steps[k], id)
  }

  /** In every run, a subscription that is no longer live was ended at some step by
      its own cancel, a shutdown of its shard, or a publish that met a full queue. */
  lemma {:induction false} EndedOnlyBy(steps: seq<Step>, id: int)
    requires id in After(steps).channels && !Live(After(steps), id)
    ensures exists k: nat :: EndedAt(steps, k, id)
  {
    if steps != [] {
      var n := |steps| - 1;
      var s := After(steps[..n]);
      EveryRunServes(steps[..n]);
      assert After(steps) == if Enabled(s, steps[n]) then Next(s, steps[n]) else s;
      hide After, Inv, Next, Live, EndsBy, Enabled;
      if id in s.channels && !Live(s, id) {
        EndedOnlyBy(steps[..n], id);
        var k: nat :| EndedAt(steps[..n], k, id);
        assert steps[..n][..k] == steps[..k];
        assert EndedAt(steps, k, id);
      } else if id in s.channels {
        EndsExactlyBy(s, steps[n], id);
        assert EndedAt(steps, n, id);
      } else {
        JoinsLive(s, steps[n], id);
      }
    }
  }
}
