/** What the number of tokens does to a run: running out and resuming, and counting without a token array. */
module JsmnCapacity {
  import opened JsmnSpec

  // ---------------------------------------------------------------- resuming after NOMEM

  /** A larger array takes the same turn, unless the smaller one was full. */
  lemma StepGrows(build: Build, small: nat, large: nat, js: string, p: Parser)
    requires Valid(p) && !AtEnd(js, p.pos) && small <= large
    ensures var s := Step(build, small, js, p);
      s == Stop(NOMEM, p) || s == Step(build, large, js, p)
  {
  }

  /** A run that stopped with NOMEM goes on, in a larger array, to where that array would have led from the start;
      a run that did not stop so is the run of every larger array. */
  lemma {:induction false} ResumeRun(build: Build, small: nat, large: nat, js: string, p: Parser)
    requires Valid(p) && small <= large
    ensures var r := Run(build, small, js, p);
      Run(build, large, js, p) == if r.code == NOMEM then Run(build, large, js, r.parser) else r
    decreases |js| - p.pos
  {
    if !AtEnd(js, p.pos) {
      StepGrows(build, small, large, js, p);
      var s := Step(build, small, js, p);
      if s.Next? {
        ResumeRun(build, small, large, js, s.parser);
      }
    }
  }

  /** `jsmn_parse` called again with the next array as long as it stops with NOMEM. */
  function Restarts(build: Build, js: string, p: Parser, capacities: seq<nat>): (r: Outcome)
    requires Valid(p) && capacities != []
    decreases |capacities|
  {
    var first := Run(build, capacities[0], js, p);
    if first.code != NOMEM || |capacities| == 1 then first
    else Restarts(build, js, first.parser, capacities[1..])
  }

  predicate Growing(capacities: seq<nat>) {
    forall i, j :: 0 <= i < j < |capacities| ==> capacities[i] <= capacities[j]
  }

  /** Restarting any number of times in ever larger arrays is one run with the largest. */
  lemma {:induction false} RestartsAreOneRun(build: Build, js: string, p: Parser, capacities: seq<nat>)
    requires Valid(p) && capacities != [] && Growing(capacities)
    ensures Restarts(build, js, p, capacities) == Run(build, capacities[|capacities| - 1], js, p)
    decreases |capacities|
  {
    ResumeRun(build, capacities[0], capacities[|capacities| - 1], js, p);
    var first := Run(build, capacities[0], js, p);
    if first.code == NOMEM && |capacities| > 1 {
      RestartsAreOneRun(build, js, first.parser, capacities[1..]);
    }
  }

  // ---------------------------------------------------------------- the exact dry run

  /** A turn that succeeds adds as many tokens as the dry turn counts, and both go on at the same place. */
  lemma StepIsDryStep(build: Build, capacity: nat, js: string, p: Parser)
    requires Valid(p) && !AtEnd(js, p.pos)
    ensures var s, d := Step(build, capacity, js, p), DryStep(js, p.pos);
      s.Next? ==> d.DryNext? && s.parser.pos == d.pos && |s.parser.toks| == |p.toks| + d.counted
    ensures var s, d := Step(build, capacity, js, p), DryStep(js, p.pos);
      d.DryStop? ==> s == Stop(d.code, p)
  {
  }

  /** An accepting run needs exactly as many tokens as it returns: the dry run counts them, and fewer are NOMEM. */
  lemma {:induction false} RunNeeds(build: Build, capacity: nat, js: string, p: Parser)
    requires Valid(p)
    requires Run(build, capacity, js, p).code >= 0
    ensures var n := Run(build, capacity, js, p).code;
      && n == |Run(build, capacity, js, p).parser.toks|
      && |p.toks| <= n
      && DryRun(js, p.pos, |p.toks|).code == n
      && (n <= capacity || n == |p.toks|)
    ensures forall other: nat :: |p.toks| <= other ==>
      Run(build, other, js, p) ==
        if Run(build, capacity, js, p).code <= other then Run(build, capacity, js, p)
        else Outcome(NOMEM, Run(build, other, js, p).parser)
    decreases |js| - p.pos
  {
    if !AtEnd(js, p.pos) {
      StepIsDryStep(build, capacity, js, p);
      var s := Step(build, capacity, js, p);
      RunNeeds(build, capacity, js, s.parser);
      forall other: nat | |p.toks| <= other
        ensures Run(build, other, js, p) ==
          if Run(build, capacity, js, p).code <= other then Run(build, capacity, js, p)
          else Outcome(NOMEM, Run(build, other, js, p).parser)
      {
        StepAtRoom(build, capacity, other, js, p);
        if |s.parser.toks| <= other {
          assert Run(build, other, js, p) == Run(build, other, js, s.parser);
        }
      }
    }
  }

  /** Whether a turn that succeeded in one array succeeds in another depends on the room for its token only. */
  lemma StepAtRoom(build: Build, capacity: nat, other: nat, js: string, p: Parser)
    requires Valid(p) && !AtEnd(js, p.pos) && |p.toks| <= other
    requires Step(build, capacity, js, p).Next?
    ensures var s := Step(build, capacity, js, p);
      Step(build, other, js, p) == if |s.parser.toks| <= other then s else Stop(NOMEM, p)
  {
  }

  /** The count of the dry run is exact: the text that some array is enough for returns n without one; every array
      of n tokens or more gives the very same tokens and every smaller one is refused with NOMEM. */
  lemma {:induction false} DryRunIsExact(build: Build, capacity: nat, js: string, other: nat)
    requires Run(build, capacity, js, INIT).code >= 0
    ensures DryRun(js, 0, 0).code == Run(build, capacity, js, INIT).code <= capacity
    ensures other >= DryRun(js, 0, 0).code ==> Run(build, other, js, INIT) == Run(build, capacity, js, INIT)
    ensures other < DryRun(js, 0, 0).code ==> Run(build, other, js, INIT).code == NOMEM
  {
    RunNeeds(build, capacity, js, INIT);
  }
}
