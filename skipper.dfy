/**
  gym_breakout_pygame/wrappers/skipper.py: `BreakoutSkipper.step` repeats the action while
  the new observation compares equal to the one seen before the call and the episode is
  not over, summing the rewards. The wrapped environment is a finite trace of the replies
  its successive `step` calls give.
*/
module Skipper {
  import opened Wrappers

  /**
    The `compare` a concrete skipper supplies: the multi-discrete and the encoded
    observation wrappers test for equality, the dictionary wrapper never reports equal.
  */
  datatype Compare = ExactEqual | NeverEqual

  /** `compare(obs, previous)`. A missing previous observation equals nothing. */
  predicate Same<O(==)>(cmp: Compare, obs: O, previous: Option<O>)
  {
    match cmp
    case ExactEqual => previous == Some(obs)
    case NeverEqual => false
  }

  /** One reply of the wrapped `step`: observation, reward, finished. */
  datatype Reply<O> = Reply(obs: O, reward: int, done: bool)

  /** The loop condition evaluated on a reply. */
  predicate Continues<O(==)>(cmp: Compare, previous: Option<O>, r: Reply<O>)
  {
    Same(cmp, r.obs, previous) && !r.done
  }

  /** The index of the first reply on which the loop stops (|replies| if there is none). */
  function StopIndex<O(==)>(cmp: Compare, previous: Option<O>, replies: seq<Reply<O>>): (k: nat)
    ensures k <= |replies|
    ensures forall i :: 0 <= i < k ==> Continues(cmp, previous, replies[i])
    ensures k < |replies| ==> !Continues(cmp, previous, replies[k])
  {
    if |replies| == 0 then 0
    else if !Continues(cmp, previous, replies[0]) then 0
    else 1 + StopIndex(cmp, previous, replies[1..])
  }

  /** The stopping index is the only one before which the loop goes on and at which it stops. */
  lemma StopIndexUnique<O>(cmp: Compare, previous: Option<O>, replies: seq<Reply<O>>, n: nat)
    requires n <= |replies|
    requires forall i :: 0 <= i < n ==> Continues(cmp, previous, replies[i])
    requires n < |replies| ==> !Continues(cmp, previous, replies[n])
    ensures StopIndex(cmp, previous, replies) == n
  {
  }

  function TotalReward<O>(replies: seq<Reply<O>>): int
  {
    if |replies| == 0 then 0 else TotalReward(replies[..|replies| - 1]) + replies[|replies| - 1].reward
  }

  function AnyDone<O>(replies: seq<Reply<O>>): bool
  {
    |replies| > 0 && (AnyDone(replies[..|replies| - 1]) || replies[|replies| - 1].done)
  }

  /** Rewards add up over consecutive stretches of calls. */
  lemma {:induction false} TotalRewardAppend<O>(a: seq<Reply<O>>, b: seq<Reply<O>>)
    ensures TotalReward(a + b) == TotalReward(a) + TotalReward(b)
    decreases |b|
  {
    if |b| == 0 {
      assert a + b == a;
    } else {
      var b' := b[..|b| - 1];
      assert (a + b)[..|a + b| - 1] == a + b';
      TotalRewardAppend(a, b');
    }
  }

  /**
    The reward of a prefix, split after its first n replies. Two consecutive `Step` calls
    of the skipper consume the first n replies and then the next m, and return
    `TotalReward` of each stretch, so together they earn the reward of the first n + m.
  */
  lemma TotalRewardOfSplit<O>(replies: seq<Reply<O>>, n: nat, m: nat)
    requires n + m <= |replies|
    ensures TotalReward(replies[..n]) + TotalReward(replies[n..][..m]) == TotalReward(replies[..n + m])
  {
    assert replies[..n] + replies[n..][..m] == replies[..n + m];
    TotalRewardAppend(replies[..n], replies[n..][..m]);
  }

  /** Some call in a stretch finished the episode exactly when a reply says so. */
  lemma {:induction false} AnyDoneIffSome<O>(replies: seq<Reply<O>>)
    ensures AnyDone(replies) <==> exists i :: 0 <= i < |replies| && replies[i].done
    decreases |replies|
  {
    if |replies| > 0 {
      var init := replies[..|replies| - 1];
      AnyDoneIffSome(init);
      if AnyDone(init) {
        var i :| 0 <= i < |init| && init[i].done;
        assert replies[i].done;
      }
      if exists i :: 0 <= i < |replies| && replies[i].done {
        var i :| 0 <= i < |replies| && replies[i].done;
        if i < |init| {
          assert init[i].done;
        }
      }
    }
  }

  /** What the skipper's `step` returns, and how many wrapped calls it made. */
  datatype Response<O> = Response(obs: O, reward: int, done: bool, calls: nat)

  /**
    The loop of `step` over a trace of wrapped replies. `None` when the trace runs out
    before the loop stops.
  */
  method RepeatUntilChanged<O(==)>(cmp: Compare, previous: Option<O>, replies: seq<Reply<O>>)
    returns (r: Option<Response<O>>)
    ensures r.None? <==> StopIndex(cmp, previous, replies) == |replies|
    ensures r.Some? ==>
              var n := r.value.calls;
              && n == StopIndex(cmp, previous, replies) + 1
              && r.value.obs == replies[n - 1].obs
              && r.value.reward == TotalReward(replies[..n])
              && r.value.done == AnyDone(replies[..n])
    ensures r.Some? ==> !Same(cmp, r.value.obs, previous) || r.value.done
    ensures cmp == NeverEqual && |replies| > 0 ==>
              r == Some(Response(replies[0].obs, replies[0].reward, replies[0].done, 1))
  {
    if |replies| == 0 {
      return None;
    }
    var obs, reward, done := replies[0].obs, replies[0].reward, replies[0].done;
    var n := 1;
    assert replies[..1][..0] == [];
    while Same(cmp, obs, previous) && !done
      invariant 1 <= n <= |replies|
      invariant obs == replies[n - 1].obs && done == replies[n - 1].done
      invariant reward == TotalReward(replies[..n])
      invariant done == AnyDone(replies[..n])
      invariant forall i :: 0 <= i < n - 1 ==> Continues(cmp, previous, replies[i])
      decreases |replies| - n
    {
      if n == |replies| {
        StopIndexUnique(cmp, previous, replies, |replies|);
        return None;
      }
      var next := replies[n];
      assert replies[..n + 1][..n] == replies[..n];
      obs := next.obs;
      reward := reward + next.reward;
      done := done || next.done;
      n := n + 1;
    }
    StopIndexUnique(cmp, previous, replies, n - 1);
    return Some(Response(obs, reward, done, n));
  }

  function Repeat(action: int, n: nat): (s: seq<int>)
    ensures |s| == n && forall i :: 0 <= i < n ==> s[i] == action
  {
    if n == 0 then [] else Repeat(action, n - 1) + [action]
  }

  class BreakoutSkipper<O(==)> {
    const compare: Compare
    /** `_previous_obs` */
    var previousObs: Option<O>
    /** The replies the wrapped environment gives to its next `step` calls. */
    var pending: seq<Reply<O>>
    /** Every action passed to the wrapped `step`, in order. */
    ghost var issued: seq<int>

    constructor (compare: Compare)
      ensures this.compare == compare && previousObs == None && pending == [] && issued == []
    {
      this.compare := compare;
      previousObs := None;
      pending := [];
      issued := [];
    }

    /** `reset`: the wrapped reset's observation becomes the one to compare against. */
    method Reset(initial: O, replies: seq<Reply<O>>)
      modifies this
      ensures previousObs == Some(initial) && pending == replies && issued == old(issued)
    {
      previousObs := Some(initial);
      pending := replies;
    }

    /** `step` */
    method Step(action: int) returns (r: Option<Response<O>>)
      modifies this
      ensures var k := StopIndex(compare, old(previousObs), old(pending));
              && (r.None? <==> k == |old(pending)|)
              && (r.None? ==> pending == [] && previousObs == old(previousObs)
                              && issued == old(issued) + Repeat(action, |old(pending)|))
              && (r.Some? ==>
                    && r.value.calls == k + 1
                    && r.value.obs == old(pending)[k].obs
                    && r.value.reward == TotalReward(old(pending)[..k + 1])
                    && r.value.done == AnyDone(old(pending)[..k + 1])
                    && pending == old(pending)[k + 1..]
                    && previousObs == Some(r.value.obs)
                    && issued == old(issued) + Repeat(action, k + 1))
    {
      r := RepeatUntilChanged(compare, previousObs, pending);
      if r.Some? {
        issued := issued + Repeat(action, r.value.calls);
        pending := pending[r.value.calls..];
        previousObs := Some(r.value.obs);
      } else {
        issued := issued + Repeat(action, |pending|);
        pending := [];
      }
    }
  }
}
