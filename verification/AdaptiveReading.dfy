/** Interpretations that read the results of other cells one after another.
    What is read next, and whether anything is, depends on what has been read
    before: a condition selects a branch, an error ends the interpretation. */
module AdaptiveReading {
  import opened Address
  import opened Recalculation

  /** The next cell to read, or the result. */
  datatype Step = Ask(a: AbsAddress) | Answer(v: Value)

  /** What an interpretation does after the values it has read. */
  type Reader = seq<Value> -> Step

  type Results = map<AbsAddress, Value>

  /** These values are read, in this order, when m holds the results. */
  ghost predicate ReadFrom(r: Reader, m: Results, got: seq<Value>)
    decreases |got|
  {
    got == [] ||
    var before, last := got[..|got| - 1], got[|got| - 1];
    ReadFrom(r, m, before) && r(before).Ask? && r(before).a in m && m[r(before).a] == last
  }

  ghost predicate Finishes(r: Reader, m: Results, got: seq<Value>) {
    ReadFrom(r, m, got) && r(got).Answer?
  }

  lemma ReadOneMore(r: Reader, m: Results, got: seq<Value>)
    requires ReadFrom(r, m, got) && r(got).Ask? && r(got).a in m
    ensures ReadFrom(r, m, got + [m[r(got).a]])
  {
    var more := got + [m[r(got).a]];
    assert more[..|more| - 1] == got;
  }

  lemma {:induction false} ReadPrefix(r: Reader, m: Results, got: seq<Value>, k: nat)
    requires ReadFrom(r, m, got) && k <= |got|
    ensures ReadFrom(r, m, got[..k])
    ensures k < |got| ==> r(got[..k]).Ask? && r(got[..k]).a in m && m[r(got[..k]).a] == got[k]
    decreases |got|
  {
    if k == |got| {
      assert got[..k] == got;
    } else {
      var before := got[..|got| - 1];
      ReadPrefix(r, m, before, k);
      assert before[..k] == got[..k];
    }
  }

  /** Reading is determined by the results. */
  lemma {:induction false} ReadOnce(r: Reader, m: Results, got: seq<Value>, full: seq<Value>)
    requires ReadFrom(r, m, got) && ReadFrom(r, m, full) && |got| <= |full|
    ensures got == full[..|got|]
    decreases |got|
  {
    if got == [] {
    } else {
      var before := got[..|got| - 1];
      ReadOnce(r, m, before, full);
      ReadPrefix(r, m, full, |before|);
      assert full[..|got|] == before + [full[|before|]];
      assert got == before + [got[|before|]];
    }
  }

  /** On the way to its result, an interpretation asks only for results there
      are, and a bounded number of times. */
  lemma OnTheWay(r: Reader, m: Results, got: seq<Value>, full: seq<Value>)
    requires ReadFrom(r, m, got) && Finishes(r, m, full)
    ensures |got| <= |full|
    ensures r(got).Ask? ==> |got| < |full| && r(got).a in m
    ensures r(got).Answer? ==> got == full
  {
    if |full| < |got| {
      ReadOnce(r, m, full, got);
      ReadPrefix(r, m, got, |full|);
      assert false;
    }
    ReadOnce(r, m, got, full);
    ReadPrefix(r, m, full, |got|);
    assert full[..|full|] == full;
  }

  /** The same values are read from more results. */
  lemma {:induction false} ReadFromMore(r: Reader, m: Results, m': Results, got: seq<Value>)
    requires ReadFrom(r, m, got) && forall a :: a in m ==> a in m' && m'[a] == m[a]
    ensures ReadFrom(r, m', got)
    decreases |got|
  {
    if got == [] {
    } else {
      ReadFromMore(r, m, m', got[..|got| - 1]);
    }
  }

  // ---- the result ----

  ghost predicate CanFinish(r: Reader, m: Results) {
    exists full :: Finishes(r, m, full)
  }

  /** What is read all in all. */
  ghost function AllRead(r: Reader, m: Results): (full: seq<Value>)
    requires CanFinish(r, m)
    ensures Finishes(r, m, full)
  {
    var full :| Finishes(r, m, full);
    full
  }

  /** A reader that never finishes has no result; any value stands for it. */
  ghost function ResultFrom(r: Reader, m: Results): Value {
    if CanFinish(r, m) then r(AllRead(r, m)).v else Numeric(0.0)
  }

  lemma ResultIs(r: Reader, m: Results, full: seq<Value>)
    requires Finishes(r, m, full)
    ensures CanFinish(r, m) && AllRead(r, m) == full && ResultFrom(r, m) == r(full).v
  {
    OnTheWay(r, m, full, AllRead(r, m));
  }
}
