/** The cursor discipline of the segmenter, apart from what the lines say.
    At every position the segmenter decides a shape and possibly a record;
    the shape alone fixes the stride, and the cursor jumps by it. Here that
    walk is defined over a table holding the decision at every position, so
    its ordering and counting properties are proved once, whatever the
    records are. */
module Cursor {
  import opened Wrappers

  /** What the segmenter recognises at one position. */
  datatype Shape =
    | DatedTriplet    // timestamp, page and path lines; the date resolves
    | UndatedTriplet  // the same three lines; the date does not resolve
    | BrokenTriplet   // a timestamp line without page and path after it
    | CorpPair        // a CORP tag line and its path line
    | Unrecognised    // anything else

  /** How far the cursor moves after each shape. */
  function Stride(shape: Shape): (n: nat)
    ensures 1 <= n <= 3
    ensures n == 3 <==> shape in {DatedTriplet, UndatedTriplet}
    ensures n == 2 <==> shape == CorpPair
  {
    match shape
    case DatedTriplet => 3
    case UndatedTriplet => 3
    case BrokenTriplet => 1
    case CorpPair => 2
    case Unrecognised => 1
  }

  /** The shapes that produce a record. */
  predicate Emits(shape: Shape) {
    shape == DatedTriplet || shape == CorpPair
  }

  /** The decision at one position. */
  datatype Step<R> = Step(shape: Shape, record: Option<R>)

  /** Every stride stays inside the table, and a record comes exactly with
      the shapes that emit one. */
  predicate ValidSteps<R>(steps: seq<Step<R>>) {
    forall j :: 0 <= j < |steps| ==>
      && j + Stride(steps[j].shape) <= |steps|
      && (steps[j].record.Some? <==> Emits(steps[j].shape))
  }

  /** A record together with the position of the line that produced it. */
  datatype Emitted<R> = Emitted(at: nat, record: R)

  /** The records the cursor emits from position `i` on, in order. */
  function Walk<R>(steps: seq<Step<R>>, i: nat): (r: seq<Emitted<R>>)
    requires ValidSteps(steps) && i <= |steps|
    ensures forall k :: 0 <= k < |r| ==>
      && i <= r[k].at < |steps|
      && steps[r[k].at].record == Some(r[k].record)
    ensures forall k, l :: 0 <= k < l < |r| ==> r[k].at + 2 <= r[l].at
    ensures 2 * |r| <= |steps| - i
    decreases |steps| - i
  {
    if i == |steps| then []
    else
      var s := steps[i];
      var rest := Walk(steps, i + Stride(s.shape));
      if s.record.None? then rest
      else [Emitted(i, s.record.value)] + rest
  }

  /** The cursor, started at `i`, stops at `j`: either it is already
      there, or `j` lies ahead and the jump from `i` leads on to it. */
  predicate Lands<R>(steps: seq<Step<R>>, i: nat, j: nat)
    decreases j - i
  {
    i == j || (i < j && i < |steps| && Lands(steps, i + Stride(steps[i].shape), j))
  }

  /** The cursor never stops behind where it started. */
  lemma {:induction false} LandsAhead<R>(steps: seq<Step<R>>, i: nat, j: nat)
    requires Lands(steps, i, j)
    ensures i <= j
    decreases j - i
  {
    if i != j {
      LandsAhead(steps, i + Stride(steps[i].shape), j);
    }
  }

  /** The walk from `i` emits exactly the records of the positions the
      cursor stops at: a record appears, with its position, if and only if
      the cursor lands on that position and the decision there has it. */
  lemma {:induction false} WalkEmitsExactly<R>(steps: seq<Step<R>>, i: nat, j: nat, x: R)
    requires ValidSteps(steps) && i <= |steps|
    ensures Emitted(j, x) in Walk(steps, i) <==>
            Lands(steps, i, j) && j < |steps| && steps[j].record == Some(x)
    decreases |steps| - i
  {
    if i < |steps| {
      var n := i + Stride(steps[i].shape);
      var emitsLater := Emitted(j, x) in Walk(steps, n);
      var landsLater := Lands(steps, n, j);
      WalkEmitsExactly(steps, n, j, x);
      LandsStep(steps, i, j);
      WalkStep(steps, i, j, x);
      assert emitsLater <==> landsLater && j < |steps| && steps[j].record == Some(x);
      assert landsLater ==> i != j;
    } else if Lands(steps, i, j) {
      assert i == j;
    }
  }

  /** The cursor stops at `j` from `i` when `j` is `i` or it stops there
      from the next landing position. */
  lemma LandsStep<R>(steps: seq<Step<R>>, i: nat, j: nat)
    requires i < |steps|
    ensures Lands(steps, i, j) <==> i == j || Lands(steps, i + Stride(steps[i].shape), j)
    ensures Lands(steps, i + Stride(steps[i].shape), j) ==> i < j
  {
    if Lands(steps, i + Stride(steps[i].shape), j) {
      LandsAhead(steps, i + Stride(steps[i].shape), j);
    }
  }

  /** One step of the walk: `Emitted(j, x)` is the record at `i` itself or
      one emitted from the next landing position on. */
  lemma WalkStep<R>(steps: seq<Step<R>>, i: nat, j: nat, x: R)
    requires ValidSteps(steps) && i < |steps|
    ensures Emitted(j, x) in Walk(steps, i) <==>
            (j == i && steps[i].record == Some(x)) || Emitted(j, x) in Walk(steps, i + Stride(steps[i].shape))
  {
    if steps[i].record.Some? {
      EmittingStepLeads(steps, i);
    } else {
      SilentStepSkips(steps, i);
    }
  }

  /** The records alone, in the order they were emitted. */
  function Records<R>(es: seq<Emitted<R>>): (r: seq<R>)
    ensures |r| == |es|
  {
    if |es| == 0 then [] else [es[0].record] + Records(es[1..])
  }

  /** Dropping the positions keeps each record in its place. */
  lemma {:induction false} RecordsAt<R>(es: seq<Emitted<R>>)
    ensures forall k :: 0 <= k < |es| ==> Records(es)[k] == es[k].record
  {
    if |es| > 0 {
      RecordsAt(es[1..]);
    }
  }

  /** A position that emits nothing is passed over by its whole stride: in
      particular an undated triplet skips its page and path lines. */
  lemma {:induction false} SilentStepSkips<R>(steps: seq<Step<R>>, i: nat)
    requires ValidSteps(steps) && i < |steps| && steps[i].record.None?
    ensures Walk(steps, i) == Walk(steps, i + Stride(steps[i].shape))
  {
  }

  /** A position that emits is reported first, at its own position. */
  lemma {:induction false} EmittingStepLeads<R>(steps: seq<Step<R>>, i: nat)
    requires ValidSteps(steps) && i < |steps| && steps[i].record.Some?
    ensures Walk(steps, i) == [Emitted(i, steps[i].record.value)] + Walk(steps, i + Stride(steps[i].shape))
  {
  }

  /** One step of the walk on the records alone: the record at `i`, if
      any, followed by the records from the next landing position. */
  lemma RecordsStep<R>(steps: seq<Step<R>>, i: nat)
    requires ValidSteps(steps) && i < |steps|
    ensures Records(Walk(steps, i)) ==
      (if steps[i].record.Some? then [steps[i].record.value] else []) + Records(Walk(steps, i + Stride(steps[i].shape)))
  {
    var rest := Walk(steps, i + Stride(steps[i].shape));
    if steps[i].record.Some? {
      EmittingStepLeads(steps, i);
      assert Walk(steps, i)[1..] == rest;
    } else {
      SilentStepSkips(steps, i);
    }
  }

  /** The cursor loop: start at 0, take the decision at the cursor, keep
      its record if it has one, and jump by its stride until the end. */
  method CollectWalk<R>(steps: seq<Step<R>>) returns (records: seq<R>)
    requires ValidSteps(steps)
    ensures records == Records(Walk(steps, 0))
  {
    records := [];
    var i := 0;
    while i < |steps|
      invariant i <= |steps|
      invariant records + Records(Walk(steps, i)) == Records(Walk(steps, 0))
      decreases |steps| - i
    {
      var s := steps[i];
      var next := i + Stride(s.shape);
      RecordsStep(steps, i);
      if s.record.Some? {
        var rest := Records(Walk(steps, next));
        assert (records + [s.record.value]) + rest == records + ([s.record.value] + rest);
        records := records + [s.record.value];
      }
      i := next;
    }
  }
}
