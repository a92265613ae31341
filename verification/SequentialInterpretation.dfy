/** Interpreting a list of formula cells one after another, the reference that
    the threaded run is measured against. */
module SequentialInterpretation {
  import opened Address
  import opened Recalculation
  import opened DepthFirstSearch
  import opened AdaptiveReading

  /** entries in the order they are pushed; how the interpretation of each one
      reads; the results that exist before any of them starts (cells outside the
      entries, and circular entries); and the bound on the queue. */
  datatype Config = Config(entries: seq<AbsAddress>, readers: AbsAddress -> Reader, preset: Results, maxQueue: nat)
  {
    function NextStep(t: nat, got: seq<Value>): Step {
      if t < |entries| then readers(entries[t])(got) else Answer(PLACEHOLDER)
    }

    predicate Preset(t: nat) {
      t < |entries| && entries[t] in preset
    }

    /** Every entry without a result finishes on the results of the entries
        before it; in particular it asks for no other. */
    ghost predicate Valid() {
      && maxQueue >= 1
      && Distinct(entries)
      && forall t :: 0 <= t < |entries| && !Preset(t) ==> CanFinish(readers(entries[t]), SequentialRun(this, t))
    }
  }

  /** What a reader would take a placeholder for. */
  const PLACEHOLDER := Numeric(0.0)

  /** One more entry interpreted after those in m. */
  ghost function InterpretNext(c: Config, e: AbsAddress, m: Results): Results {
    if e in m then m else m[e := ResultFrom(c.readers(e), m)]
  }

  /** The results after interpreting the first k entries one after another. */
  ghost function SequentialRun(c: Config, k: nat): Results
    requires k <= |c.entries|
  {
    if k == 0 then c.preset else InterpretNext(c, c.entries[k - 1], SequentialRun(c, k - 1))
  }

  ghost function SequentialResult(c: Config, a: AbsAddress): Value {
    var m := SequentialRun(c, |c.entries|);
    if a in m then m[a] else PLACEHOLDER
  }

  ghost predicate KeptIn(m: Results, n: Results) {
    forall a :: a in m ==> a in n && n[a] == m[a]
  }

  lemma KeptOn(x: Results, y: Results, z: Results)
    requires KeptIn(x, y) && KeptIn(y, z)
    ensures KeptIn(x, z)
  {
  }

  lemma StepKeeps(c: Config, e: AbsAddress, m: Results)
    ensures KeptIn(m, InterpretNext(c, e, m))
  {
  }

  lemma {:induction false} RunGrows(c: Config, j: nat, k: nat)
    requires j <= k <= |c.entries|
    ensures KeptIn(SequentialRun(c, j), SequentialRun(c, k))
    decreases k - j
  {
    if j == k {
    } else {
      var before := SequentialRun(c, k - 1);
      RunGrows(c, j, k - 1);
      StepKeeps(c, c.entries[k - 1], before);
      KeptOn(SequentialRun(c, j), before, InterpretNext(c, c.entries[k - 1], before));
    }
  }

  lemma {:induction false} RunKeys(c: Config, k: nat, a: AbsAddress)
    requires k <= |c.entries|
    ensures a in SequentialRun(c, k) <==> a in c.preset || a in c.entries[..k]
    decreases k
  {
    if k == 0 {
    } else {
      RunKeys(c, k - 1, a);
      assert c.entries[..k] == c.entries[..k - 1] + [c.entries[k - 1]];
    }
  }

  lemma ResultSoFar(c: Config, k: nat, a: AbsAddress)
    requires k <= |c.entries| && a in SequentialRun(c, k)
    ensures SequentialRun(c, k)[a] == SequentialResult(c, a)
  {
    RunGrows(c, k, |c.entries|);
  }

  lemma PresetResult(c: Config, a: AbsAddress)
    requires a in c.preset
    ensures SequentialResult(c, a) == c.preset[a]
  {
    ResultSoFar(c, 0, a);
  }

  // ---- one entry among the sequential results ----

  /** What entry t has read are the sequential results of what it asked for. */
  ghost predicate OnTrack(c: Config, t: nat, got: seq<Value>)
    requires t < |c.entries|
  {
    ReadFrom(c.readers(c.entries[t]), SequentialRun(c, t), got)
  }

  /** How often entry t reads in the sequential run. */
  ghost function ReadCount(c: Config, t: nat): nat {
    if t < |c.entries| && CanFinish(c.readers(c.entries[t]), SequentialRun(c, t))
    then |AllRead(c.readers(c.entries[t]), SequentialRun(c, t))| else 0
  }

  lemma NothingRead(c: Config, t: nat)
    requires t < |c.entries|
    ensures OnTrack(c, t, [])
  {
  }

  /** An entry on track asks for a result given beforehand or that of an earlier
      entry, and stays on track when it is told the sequential one. */
  lemma AsksForEarlier(c: Config, t: nat, got: seq<Value>)
    requires c.Valid() && t < |c.entries| && !c.Preset(t) && OnTrack(c, t, got) && c.NextStep(t, got).Ask?
    ensures var x := c.NextStep(t, got).a;
      && (x in c.preset || x in c.entries[..t])
      && |got| < ReadCount(c, t)
      && OnTrack(c, t, got + [SequentialResult(c, x)])
  {
    var r, m := c.readers(c.entries[t]), SequentialRun(c, t);
    OnTheWay(r, m, got, AllRead(r, m));
    ReadOneMore(r, m, got);
    RunKeys(c, t, r(got).a);
    ResultSoFar(c, t, r(got).a);
  }

  /** The answer of an entry on track is its sequential result. */
  lemma AnswersSequentially(c: Config, t: nat, got: seq<Value>)
    requires c.Valid() && t < |c.entries| && !c.Preset(t) && OnTrack(c, t, got) && c.NextStep(t, got).Answer?
    ensures c.NextStep(t, got).v == SequentialResult(c, c.entries[t])
  {
    var r, m, e := c.readers(c.entries[t]), SequentialRun(c, t), c.entries[t];
    ResultIs(r, m, got);
    RunKeys(c, t, e);
    assert e !in m;
    assert SequentialRun(c, t + 1) == m[e := ResultFrom(r, m)];
    ResultSoFar(c, t + 1, e);
  }
}
