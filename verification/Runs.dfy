/** Runs of a machine that takes one step per event, if it can. */
module Runs {
  import opened Collections

  ghost function Follow<S(!new), E(!new)>(step: (S, E) -> Option<S>, s: S, run: seq<E>): Option<S>
    decreases |run|
  {
    if run == [] then Some(s)
    else
      match step(s, run[0])
      case None => None
      case Some(next) => Follow(step, next, run[1..])
  }

  lemma FollowFirst<S(!new), E(!new)>(step: (S, E) -> Option<S>, s: S, e: E, run: seq<E>)
    ensures step(s, e).Some? ==> Follow(step, s, [e] + run) == Follow(step, step(s, e).value, run)
  {
    assert ([e] + run)[1..] == run;
  }

  /** Two runs, one after the other. */
  lemma {:induction false} FollowJoin<S(!new), E(!new)>(step: (S, E) -> Option<S>, s: S, run: seq<E>, more: seq<E>)
    ensures Follow(step, s, run).Some? ==> Follow(step, s, run + more) == Follow(step, Follow(step, s, run).value, more)
    decreases |run|
  {
    if run == [] {
      assert run + more == more;
    } else if step(s, run[0]).Some? {
      FollowJoin(step, step(s, run[0]).value, run[1..], more);
      assert run + more == [run[0]] + (run[1..] + more);
      FollowFirst(step, s, run[0], run[1..] + more);
    }
  }

  lemma FollowOne<S(!new), E(!new)>(step: (S, E) -> Option<S>, s: S, e: E)
    ensures Follow(step, s, [e]) == step(s, e)
  {
    assert [e][1..] == [];
  }

  /** What the steps of a run let an observer see. */
  ghost function Watch<S(!new), E(!new), O>(step: (S, E) -> Option<S>, see: (S, E) -> seq<O>, s: S, run: seq<E>): seq<O>
    decreases |run|
  {
    if run == [] then []
    else
      match step(s, run[0])
      case None => []
      case Some(next) => see(s, run[0]) + Watch(step, see, next, run[1..])
  }

  lemma WatchFirst<S(!new), E(!new), O>(step: (S, E) -> Option<S>, see: (S, E) -> seq<O>, s: S, e: E, run: seq<E>)
    ensures step(s, e).Some? ==>
      Watch(step, see, s, [e] + run) == see(s, e) + Watch(step, see, step(s, e).value, run)
  {
    assert ([e] + run)[1..] == run;
  }

  /** What two runs show, one after the other. */
  lemma {:induction false} WatchJoin<S(!new), E(!new), O>(step: (S, E) -> Option<S>, see: (S, E) -> seq<O>, s: S,
      run: seq<E>, more: seq<E>)
    ensures Follow(step, s, run).Some? ==>
      Watch(step, see, s, run + more) == Watch(step, see, s, run) + Watch(step, see, Follow(step, s, run).value, more)
    decreases |run|
  {
    if run == [] {
      assert run + more == more;
    } else if step(s, run[0]).Some? {
      WatchJoin(step, see, step(s, run[0]).value, run[1..], more);
      assert run + more == [run[0]] + (run[1..] + more);
      WatchFirst(step, see, s, run[0], run[1..] + more);
    }
  }
}
