/** Write-once memoisation of the moments a distribution computes by
    numerical integration. Each moment has a cell that starts empty; the
    first read computes the value and stores it (the `??=` of the source),
    every later read returns the stored value, and a read touches no other
    cell. The object holding the cells is modelled as a value threaded
    through the reads. */
module MomentCache {
  import opened ExtReal
  import opened Wrappers

  /** The five memoised statistics. */
  datatype Moment = Mean | Variance | Skewness | Kurtosis | Entropy

  datatype Cache = Cache(
    mean: Option<XReal>,
    variance: Option<XReal>,
    skewness: Option<XReal>,
    kurtosis: Option<XReal>,
    entropy: Option<XReal>
  )

  /** The state of a freshly constructed object: nothing computed yet. */
  const Empty: Cache := Cache(None, None, None, None, None)

  /** The cell holding moment q. */
  function Cell(c: Cache, q: Moment): Option<XReal>
  {
    match q
    case Mean => c.mean
    case Variance => c.variance
    case Skewness => c.skewness
    case Kurtosis => c.kurtosis
    case Entropy => c.entropy
  }

  /** Fills the cell of q with v. */
  function Store(c: Cache, q: Moment, v: XReal): (r: Cache)
    ensures Cell(r, q) == Some(v)
    ensures forall q': Moment :: q' != q ==> Cell(r, q') == Cell(c, q')
  {
    match q
    case Mean => c.(mean := Some(v))
    case Variance => c.(variance := Some(v))
    case Skewness => c.(skewness := Some(v))
    case Kurtosis => c.(kurtosis := Some(v))
    case Entropy => c.(entropy := Some(v))
  }

  /** One read of moment q: the stored value if there is one, otherwise
      compute(q), which is then stored. Returns the value and the cache
      after the read. */
  function Read(c: Cache, q: Moment, compute: Moment -> XReal): (r: (XReal, Cache))
    ensures Cell(r.1, q) == Some(r.0)
    ensures Cell(c, q).Some? ==> r.0 == Cell(c, q).value && r.1 == c
    ensures Cell(c, q).None? ==> r.0 == compute(q)
    ensures forall q': Moment :: q' != q ==> Cell(r.1, q') == Cell(c, q')
  {
    match Cell(c, q)
    case Some(v) => (v, c)
    case None => (compute(q), Store(c, q, compute(q)))
  }

  /** Every filled cell holds what compute gives for its moment. */
  predicate Consistent(c: Cache, compute: Moment -> XReal)
  {
    forall q: Moment :: Cell(c, q).Some? ==> Cell(c, q).value == compute(q)
  }

  /** Memoisation is invisible: from a consistent cache a read returns
      exactly compute(q) and leaves the cache consistent. */
  lemma ReadIsTransparent(c: Cache, q: Moment, compute: Moment -> XReal)
    requires Consistent(c, compute)
    ensures Read(c, q, compute).0 == compute(q)
    ensures Consistent(Read(c, q, compute).1, compute)
  {
    var r := Read(c, q, compute);
    forall q': Moment ensures Cell(r.1, q').Some? ==> Cell(r.1, q').value == compute(q') {
      if q' != q {
        assert Cell(r.1, q') == Cell(c, q');
      }
    }
  }

  /** A second read of the same moment returns the first value and leaves
      the cache as the first read left it. */
  lemma ReadTwice(c: Cache, q: Moment, compute: Moment -> XReal)
    ensures Read(Read(c, q, compute).1, q, compute) == Read(c, q, compute)
  {
  }

  /** A sequence of reads, in order: the values returned and the final
      cache. */
  function ReadAll(c: Cache, qs: seq<Moment>, compute: Moment -> XReal): (r: (seq<XReal>, Cache))
    ensures |r.0| == |qs|
    decreases |qs|
  {
    if |qs| == 0 then ([], c)
    else
      var first := Read(c, qs[0], compute);
      var rest := ReadAll(first.1, qs[1..], compute);
      ([first.0] + rest.0, rest.1)
  }

  /** A filled cell is never overwritten, whatever is read afterwards. */
  lemma {:induction false} FilledCellsPersist(c: Cache, qs: seq<Moment>, compute: Moment -> XReal, q: Moment)
    requires Cell(c, q).Some?
    ensures Cell(ReadAll(c, qs, compute).1, q) == Cell(c, q)
    decreases |qs|
  {
    if |qs| > 0 {
      var first := Read(c, qs[0], compute);
      assert Cell(first.1, q) == Cell(c, q);
      FilledCellsPersist(first.1, qs[1..], compute, q);
    }
  }

  /** Every value a sequence of reads returns is the one the final cache
      holds for its moment, so two reads of the same moment agree however
      many reads lie between them. */
  lemma {:induction false} ReadsAgreeWithFinalCache(c: Cache, qs: seq<Moment>, compute: Moment -> XReal)
    ensures forall i :: 0 <= i < |qs| ==>
      Cell(ReadAll(c, qs, compute).1, qs[i]) == Some(ReadAll(c, qs, compute).0[i])
    decreases |qs|
  {
    if |qs| > 0 {
      var first := Read(c, qs[0], compute);
      var rest := ReadAll(first.1, qs[1..], compute);
      var r := ReadAll(c, qs, compute);
      assert r.1 == rest.1 && r.0 == [first.0] + rest.0;
      ReadsAgreeWithFinalCache(first.1, qs[1..], compute);
      FilledCellsPersist(first.1, qs[1..], compute, qs[0]);
      forall i | 0 <= i < |qs| ensures Cell(r.1, qs[i]) == Some(r.0[i]) {
        if i > 0 {
          assert qs[i] == qs[1..][i - 1];
          assert r.0[i] == rest.0[i - 1];
        }
      }
    }
  }

  /** Two reads of the same moment in one sequence return the same value. */
  lemma RepeatedReadsAgree(c: Cache, qs: seq<Moment>, compute: Moment -> XReal, i: nat, j: nat)
    requires i < |qs| && j < |qs| && qs[i] == qs[j]
    ensures ReadAll(c, qs, compute).0[i] == ReadAll(c, qs, compute).0[j]
  {
    ReadsAgreeWithFinalCache(c, qs, compute);
  }

  /** From a consistent cache (in particular the empty one) every read of a
      sequence returns compute of its moment. */
  lemma {:induction false} ReadAllIsTransparent(c: Cache, qs: seq<Moment>, compute: Moment -> XReal)
    requires Consistent(c, compute)
    ensures forall i :: 0 <= i < |qs| ==> ReadAll(c, qs, compute).0[i] == compute(qs[i])
    ensures Consistent(ReadAll(c, qs, compute).1, compute)
    decreases |qs|
  {
    if |qs| > 0 {
      var first := Read(c, qs[0], compute);
      ReadIsTransparent(c, qs[0], compute);
      var rest := ReadAll(first.1, qs[1..], compute);
      ReadAllIsTransparent(first.1, qs[1..], compute);
      var r := ReadAll(c, qs, compute);
      assert r.0 == [first.0] + rest.0;
      forall i | 0 <= i < |qs| ensures r.0[i] == compute(qs[i]) {
        if i > 0 {
          assert qs[i] == qs[1..][i - 1];
          assert r.0[i] == rest.0[i - 1];
        }
      }
    }
  }
}
