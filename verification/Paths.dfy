/** Sequences of steps between states. */
module Paths {

  /** The actions lead from one state to the other, step by step. */
  ghost predicate Path<S(!new), A>(step: (S, A, S) -> bool, from: S, acts: seq<A>, to: S)
    decreases |acts|
  {
    if acts == [] then from == to else exists mid: S :: step(from, acts[0], mid) && Path(step, mid, acts[1..], to)
  }

  lemma FirstStep<S(!new), A>(step: (S, A, S) -> bool, from: S, a: A, mid: S, acts: seq<A>, to: S)
    requires step(from, a, mid) && Path(step, mid, acts, to)
    ensures Path(step, from, [a] + acts, to)
  {
    assert ([a] + acts)[1..] == acts;
  }

  lemma FourSteps<S(!new), A>(step: (S, A, S) -> bool, s0: S, a0: A, s1: S, a1: A, s2: S, a2: A, s3: S, a3: A, s4: S)
    requires step(s0, a0, s1) && step(s1, a1, s2) && step(s2, a2, s3) && step(s3, a3, s4)
    ensures Path(step, s0, [a0, a1, a2, a3], s4)
  {
    FirstStep(step, s3, a3, s4, [], s4);
    FirstStep(step, s2, a2, s3, [a3] + [], s4);
    FirstStep(step, s1, a1, s2, [a2] + ([a3] + []), s4);
    FirstStep(step, s0, a0, s1, [a1] + ([a2] + ([a3] + [])), s4);
    assert [a0] + ([a1] + ([a2] + ([a3] + []))) == [a0, a1, a2, a3];
  }
}
