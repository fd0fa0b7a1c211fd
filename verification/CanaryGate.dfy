/** `percentile` and the verdict of `check_health` in `scripts/canary_gate.py`, with exact arithmetic. */
module CanaryGate {
  import opened Prelude

  datatype Error = GateError | IndexError | ZeroDivisionError
  datatype Result<T> = Ok(value: T) | Err(error: Error)

  // ---- Sorting and counting ----------------------------------------------------------------------

  predicate IsSorted(s: seq<real>) {
    forall i, j :: 0 <= i < j < |s| ==> s[i] <= s[j]
  }

  function Insert(x: real, s: seq<real>): (r: seq<real>)
    ensures |r| == |s| + 1
  {
    if s == [] || x <= s[0] then [x] + s else [s[0]] + Insert(x, s[1..])
  }

  /** `sorted(values)` */
  function Sort(s: seq<real>): (r: seq<real>)
    ensures |r| == |s|
  {
    if s == [] then [] else Insert(s[0], Sort(s[1..]))
  }

  /** How many samples are at most `v`. */
  function CountLe(s: seq<real>, v: real): (n: nat)
    ensures n <= |s|
  {
    if s == [] then 0 else (if s[0] <= v then 1 else 0) + CountLe(s[1..], v)
  }

  /** How many samples are below `v`. */
  function CountLt(s: seq<real>, v: real): (n: nat)
    ensures n <= |s|
  {
    if s == [] then 0 else (if s[0] < v then 1 else 0) + CountLt(s[1..], v)
  }

  lemma {:induction false} InsertSorted(x: real, s: seq<real>)
    requires IsSorted(s)
    ensures IsSorted(Insert(x, s))
    ensures forall y :: y in Insert(x, s) <==> y == x || y in s
  {
    if s != [] && x > s[0] {
      InsertSorted(x, s[1..]);
      assert s == [s[0]] + s[1..];
      ConsSorted(s[0], Insert(x, s[1..]), x, s);
    } else {
      assert s != [] ==> forall i :: 0 <= i < |s| ==> s[0] <= s[i];
    }
  }

  lemma ConsSorted(first: real, rest: seq<real>, x: real, s: seq<real>)
    requires IsSorted(rest) && IsSorted(s) && s != [] && s[0] == first && first < x
    requires forall y :: y in rest ==> y == x || y in s
    ensures IsSorted([first] + rest)
  {
    var all := [first] + rest;
    forall i, j | 0 <= i < j < |all| ensures all[i] <= all[j] {
      assert rest[j - 1] in rest;
      if i > 0 {
        assert rest[i - 1] <= rest[j - 1];
      } else if rest[j - 1] in s {
        var k :| 0 <= k < |s| && s[k] == rest[j - 1];
        assert s[0] <= s[k];
      }
    }
  }

  lemma {:induction false} InsertCounts(x: real, s: seq<real>, v: real)
    ensures CountLe(Insert(x, s), v) == CountLe(s, v) + if x <= v then 1 else 0
    ensures CountLt(Insert(x, s), v) == CountLt(s, v) + if x < v then 1 else 0
  {
    if s == [] || x <= s[0] {
      assert ([x] + s)[1..] == s;
    } else {
      InsertCounts(x, s[1..], v);
      assert ([s[0]] + Insert(x, s[1..]))[1..] == Insert(x, s[1..]);
    }
  }

  lemma {:induction false} SortMeans(s: seq<real>, v: real)
    ensures IsSorted(Sort(s))
    ensures forall y :: y in Sort(s) <==> y in s
    ensures CountLe(Sort(s), v) == CountLe(s, v) && CountLt(Sort(s), v) == CountLt(s, v)
  {
    if s != [] {
      SortMeans(s[1..], v);
      InsertSorted(s[0], Sort(s[1..]));
      InsertCounts(s[0], Sort(s[1..]), v);
      assert s == [s[0]] + s[1..];
    }
  }

  lemma {:induction false} CountConcat(a: seq<real>, b: seq<real>, v: real)
    ensures CountLe(a + b, v) == CountLe(a, v) + CountLe(b, v)
    ensures CountLt(a + b, v) == CountLt(a, v) + CountLt(b, v)
  {
    if a == [] {
      assert a + b == b;
    } else {
      assert (a + b)[1..] == a[1..] + b;
      CountConcat(a[1..], b, v);
    }
  }

  /** Counting does not depend on the order of the samples. */
  lemma {:induction false} CountPermuted(a: seq<real>, b: seq<real>, v: real)
    requires multiset(a) == multiset(b)
    ensures |a| == |b| && CountLe(a, v) == CountLe(b, v) && CountLt(a, v) == CountLt(b, v)
  {
    assert |a| == |multiset(a)| == |multiset(b)| == |b|;
    if a != [] {
      var x := a[0];
      assert x in multiset(a);
      assert x in b;
      var i :| 0 <= i < |b| && b[i] == x;
      var head, tail := b[..i], b[i + 1..];
      RemoveOne(a, b, i);
      CountPermuted(a[1..], head + tail, v);
      CountSplit(head, x, tail, v);
      assert head + [x] + tail == b;
    }
  }

  lemma RemoveOne(a: seq<real>, b: seq<real>, i: nat)
    requires a != [] && i < |b| && b[i] == a[0] && multiset(a) == multiset(b)
    ensures multiset(a[1..]) == multiset(b[..i] + b[i + 1..])
  {
    assert a == [a[0]] + a[1..];
    assert b == b[..i] + [b[i]] + b[i + 1..];
    assert multiset(a) == multiset{a[0]} + multiset(a[1..]);
    assert multiset(b) == multiset(b[..i]) + multiset{b[i]} + multiset(b[i + 1..]);
    assert multiset(b[..i] + b[i + 1..]) == multiset(b[..i]) + multiset(b[i + 1..]);
    assert multiset(a[1..]) == multiset(a) - multiset{a[0]};
    assert multiset(b[..i] + b[i + 1..]) == multiset(b) - multiset{a[0]};
  }

  lemma CountSplit(head: seq<real>, x: real, tail: seq<real>, v: real)
    ensures CountLe(head + [x] + tail, v) == CountLe(head + tail, v) + if x <= v then 1 else 0
    ensures CountLt(head + [x] + tail, v) == CountLt(head + tail, v) + if x < v then 1 else 0
  {
    CountConcat(head + [x], tail, v);
    CountConcat(head, [x], v);
    CountConcat(head, tail, v);
    assert CountLe([x], v) == (if x <= v then 1 else 0) && CountLt([x], v) == if x < v then 1 else 0;
  }

  /** The `k`-th smallest sample has at least `k` samples up to it and fewer than `k` below it. */
  lemma RankInSorted(s: seq<real>, k: nat)
    requires IsSorted(s) && 1 <= k <= |s|
    ensures CountLe(s, s[k - 1]) >= k && CountLt(s, s[k - 1]) < k
  {
    var v := s[k - 1];
    assert s == s[..k] + s[k..] && s == s[..k - 1] + s[k - 1..];
    CountConcat(s[..k], s[k..], v);
    CountConcat(s[..k - 1], s[k - 1..], v);
    AllCounted(s[..k], v);
    NoneCounted(s[k - 1..], v);
  }

  lemma {:induction false} AllCounted(s: seq<real>, v: real)
    requires forall x :: x in s ==> x <= v
    ensures CountLe(s, v) == |s|
  {
    if s != [] {
      assert s[0] in s && forall x :: x in s[1..] ==> x in s;
      AllCounted(s[1..], v);
    }
  }

  lemma {:induction false} NoneCounted(s: seq<real>, v: real)
    requires forall x :: x in s ==> x >= v
    ensures CountLt(s, v) == 0
  {
    if s != [] {
      assert s[0] in s && forall x :: x in s[1..] ==> x in s;
      NoneCounted(s[1..], v);
    }
  }

  // ---- The percentile ----------------------------------------------------------------------------

  function Ceil(x: real): (n: int)
    ensures x <= n as real < x + 1.0
  {
    -((-x).Floor)
  }

  /** `percentile(values, fraction)`; a fraction above one runs off the end of the list. */
  function Percentile(values: seq<real>, fraction: real): Result<real> {
    if values == [] then Err(GateError)
    else
      var index := Ceil(|values| as real * fraction) - 1;
      if index < 0 then Ok(Sort(values)[0])
      else if index >= |values| then Err(IndexError)
      else Ok(Sort(values)[index])
  }

  /** The rank that the fraction asks for: at least one. */
  function Rank(n: nat, fraction: real): (k: nat)
    ensures k >= 1
  {
    var c := Ceil(n as real * fraction);
    if c < 1 then 1 else c
  }

  /** `v` is the sample of rank `k`. */
  ghost predicate HasRank(values: seq<real>, v: real, k: nat) {
    v in values && CountLe(values, v) >= k && CountLt(values, v) < k
  }

  lemma RankWithin(n: nat, fraction: real)
    requires n > 0 && fraction <= 1.0
    ensures 1 <= Rank(n, fraction) <= n
  {
    assert n as real * fraction <= n as real;
  }

  /** The rank is ceil(n * fraction) exactly for positive fractions; it is one for the others. No sample has
      it, and `percentile` fails with an index error, exactly for fractions above one. */
  lemma RankExactly(values: seq<real>, fraction: real)
    requires values != []
    ensures Rank(|values|, fraction) == Ceil(|values| as real * fraction) <==> fraction > 0.0
    ensures fraction <= 0.0 ==> Rank(|values|, fraction) == 1
    ensures Percentile(values, fraction) == Err(IndexError) <==> fraction > 1.0
    ensures fraction > 1.0 <==> Rank(|values|, fraction) > |values|
  {
    ScaledCeil(|values|, fraction);
  }

  lemma ScaledCeil(n: nat, x: real)
    requires n > 0
    ensures Ceil(n as real * x) > 0 <==> x > 0.0
    ensures Ceil(n as real * x) > n <==> x > 1.0
  {
    ScaledAbove(n as real, x, 0.0);
    ScaledAbove(n as real, x, 1.0);
    CeilAbove(n as real * x, 0);
    CeilAbove(n as real * x, n);
  }

  lemma CeilAbove(x: real, n: int)
    ensures Ceil(x) > n <==> x > n as real
  {
  }

  lemma ScaledAbove(n: real, x: real, y: real)
    requires n > 0.0
    ensures n * x > n * y <==> x > y
  {
    ScaledSign(n, x - y);
    assert n * (x - y) == n * x - n * y;
  }

  lemma ScaledSign(n: real, x: real)
    requires n > 0.0
    ensures n * x > 0.0 <==> x > 0.0
  {
    if x < 0.0 {
      assert n * -x > 0.0;
    }
  }

  /** The percentile is a sample of rank max(1, ceil(n * fraction)), and a sample with that rank is the
      percentile. */
  lemma PercentileExactly(values: seq<real>, fraction: real, v: real)
    requires values != []
    ensures Percentile(values, fraction) == Ok(v) <==> HasRank(values, v, Rank(|values|, fraction))
  {
    var k, s := Rank(|values|, fraction), Sort(values);
    RankExactly(values, fraction);
    if fraction <= 1.0 {
      var p := s[k - 1];
      assert Percentile(values, fraction) == Ok(p);
      SortMeans(values, p);
      RankInSorted(s, k);
      assert p in s;
      assert HasRank(values, p, k);
      if HasRank(values, v, k) {
        RankUnique(values, p, v, k);
      }
    }
  }

  lemma RankUnique(values: seq<real>, v: real, w: real, k: nat)
    requires HasRank(values, v, k) && HasRank(values, w, k)
    ensures v == w
  {
    if v < w {
      LeWithinLt(values, v, w);
    } else if w < v {
      LeWithinLt(values, w, v);
    }
  }

  lemma {:induction false} LeWithinLt(s: seq<real>, v: real, w: real)
    requires v < w
    ensures CountLe(s, v) <= CountLt(s, w)
  {
    if s != [] {
      LeWithinLt(s[1..], v, w);
    }
  }

  lemma PercentileFails(values: seq<real>, fraction: real)
    requires values == [] || fraction > 1.0
    ensures Percentile(values, fraction) == Err(if values == [] then GateError else IndexError)
  {
    if values != [] {
      RankExactly(values, fraction);
    }
  }

  lemma PercentileSucceeds(values: seq<real>, fraction: real)
    requires values != [] && fraction <= 1.0
    ensures Percentile(values, fraction).Ok?
  {
    RankExactly(values, fraction);
  }

  lemma RankPermuted(a: seq<real>, b: seq<real>, v: real, k: nat)
    requires multiset(a) == multiset(b) && HasRank(a, v, k)
    ensures HasRank(b, v, k)
  {
    CountPermuted(a, b, v);
    assert v in multiset(b);
  }

  /** The order of the samples does not matter. */
  lemma PercentilePermuted(a: seq<real>, b: seq<real>, fraction: real)
    requires multiset(a) == multiset(b)
    ensures Percentile(a, fraction) == Percentile(b, fraction)
  {
    assert |a| == |multiset(a)| && |b| == |multiset(b)|;
    if a == [] || fraction > 1.0 {
      PercentileFails(a, fraction);
      PercentileFails(b, fraction);
    } else {
      PercentileSucceeds(a, fraction);
      var v := Percentile(a, fraction).value;
      PercentileExactly(a, fraction, v);
      RankPermuted(a, b, v, Rank(|a|, fraction));
      PercentileExactly(b, fraction, v);
    }
  }

  ghost predicate Dominated(a: seq<real>, b: seq<real>) {
    |a| == |b| && forall i :: 0 <= i < |a| ==> a[i] <= b[i]
  }

  lemma {:induction false} DominatedCounts(a: seq<real>, b: seq<real>, w: real, v: real)
    requires Dominated(a, b) && w < v
    ensures CountLe(b, w) <= CountLt(a, v)
  {
    if a != [] {
      DominatedCounts(a[1..], b[1..], w, v);
    }
  }

  lemma RankMonotone(a: seq<real>, b: seq<real>, v: real, w: real, k: nat)
    requires Dominated(a, b) && HasRank(a, v, k) && HasRank(b, w, k)
    ensures v <= w
  {
    if w < v {
      DominatedCounts(a, b, w, v);
    }
  }

  /** Samples that are pointwise no larger have a percentile that is no larger, or fail alike. */
  lemma PercentileMonotone(a: seq<real>, b: seq<real>, fraction: real)
    requires Dominated(a, b)
    ensures match Percentile(a, fraction)
            case Ok(v) => Percentile(b, fraction).Ok? && v <= Percentile(b, fraction).value
            case Err(e) => Percentile(b, fraction) == Err(e)
  {
    if a == [] || fraction > 1.0 {
      PercentileFails(a, fraction);
      PercentileFails(b, fraction);
    } else {
      PercentileSucceeds(a, fraction);
      PercentileSucceeds(b, fraction);
      var v, w := Percentile(a, fraction).value, Percentile(b, fraction).value;
      PercentileExactly(a, fraction, v);
      PercentileExactly(b, fraction, w);
      RankMonotone(a, b, v, w, Rank(|a|, fraction));
    }
  }

  const P95 := 0.95

  ghost predicate IsMaximum(values: seq<real>, v: real) {
    v in values && forall x :: x in values ==> x <= v
  }

  lemma {:induction false} CountLeFull(s: seq<real>, v: real)
    ensures CountLe(s, v) == |s| <==> forall x :: x in s ==> x <= v
  {
    if s != [] {
      CountLeFull(s[1..], v);
      assert forall x :: x in s <==> x == s[0] || x in s[1..] by {
        assert s == [s[0]] + s[1..];
      }
      assert s[0] in s;
    }
  }

  /** Rank `|values|` is the maximum. */
  lemma TopRankIsMaximum(values: seq<real>, v: real)
    requires values != []
    ensures IsMaximum(values, v) <==> HasRank(values, v, |values|)
  {
    CountLeFull(values, v);
    if IsMaximum(values, v) {
      LtMissesMember(values, v);
    }
  }

  lemma {:induction false} LtMissesMember(s: seq<real>, v: real)
    requires v in s
    ensures CountLt(s, v) < |s|
  {
    if s[0] != v {
      assert v in s[1..];
      LtMissesMember(s[1..], v);
    }
  }

  /** `n - 1` zeros and a one. */
  function OneSpike(n: nat): (s: seq<real>)
    requires n > 0
    ensures |s| == n && 1.0 in s
  {
    [1.0] + seq(n - 1, _ => 0.0)
  }

  lemma SpikeRank(n: nat, k: nat)
    requires 1 <= k < n
    ensures HasRank(OneSpike(n), 0.0, k)
  {
    var zeros := seq(n - 1, _ => 0.0);
    CountConcat([1.0], zeros, 0.0);
    AllCounted(zeros, 0.0);
    NoneCounted(OneSpike(n), 0.0);
    assert OneSpike(n)[1] == 0.0;
  }

  /** At 0.95 the percentile of `n` samples is always their maximum exactly when there are fewer than twenty. */
  lemma P95IsMaximumExactly(n: nat)
    requires n > 0
    ensures n < 20 <==> forall s, v :: |s| == n && Percentile(s, P95) == Ok(v) ==> IsMaximum(s, v)
  {
    var k := Rank(n, P95);
    RankWithin(n, P95);
    if n < 20 {
      assert k == n;
      forall s, v | |s| == n && Percentile(s, P95) == Ok(v) ensures IsMaximum(s, v) {
        PercentileExactly(s, P95, v);
        TopRankIsMaximum(s, v);
      }
    } else {
      assert k < n;
      SpikeRank(n, k);
      PercentileExactly(OneSpike(n), P95, 0.0);
      assert !IsMaximum(OneSpike(n), 0.0);
    }
  }

  // ---- The verdict -------------------------------------------------------------------------------

  /** The two comparisons at the end of `check_health`. The message for a slow candidate divides by the
      stable percentile. `maxMillis` is the optional absolute cap. */
  function Compare(s: real, c: real, maxRatio: real, maxMillis: Option<real>): Result<(real, real)> {
    if c > s * maxRatio then Err(if s == 0.0 then ZeroDivisionError else GateError)
    else if maxMillis.Some? && c * 1000.0 > maxMillis.value then Err(GateError)
    else Ok((s, c))
  }

  /** The percentiles of both sides compared. */
  function Verdict(stable: seq<real>, candidate: seq<real>, maxRatio: real, maxMillis: Option<real>)
    : Result<(real, real)>
  {
    match (Percentile(stable, P95), Percentile(candidate, P95))
    case (Err(e), _) => Err(e)
    case (Ok(_), Err(e)) => Err(e)
    case (Ok(s), Ok(c)) => Compare(s, c, maxRatio, maxMillis)
  }

  /** `c` may pass beside `s`: within the ratio and, if there is one, within the cap. */
  predicate Within(s: real, c: real, maxRatio: real, maxMillis: Option<real>) {
    c <= s * maxRatio && (maxMillis.Some? ==> c * 1000.0 <= maxMillis.value)
  }

  /** The samples that 95 per cent of each side do not exceed: they pass if the candidate's is within ratio
      and cap, and they are what the gate reports; otherwise it fails, by a division when stable took no
      time and the candidate some. */
  ghost predicate GateAnswers(verdict: Result<(real, real)>, stable: seq<real>, candidate: seq<real>,
                              maxRatio: real, maxMillis: Option<real>) {
    exists s, c ::
      && HasRank(stable, s, Rank(|stable|, 0.95)) && HasRank(candidate, c, Rank(|candidate|, 0.95))
      && (if Within(s, c, maxRatio, maxMillis) then verdict == Ok((s, c))
          else verdict == Err(if s == 0.0 && c > 0.0 then ZeroDivisionError else GateError))
  }

  lemma VerdictMeans(stable: seq<real>, candidate: seq<real>, maxRatio: real, maxMillis: Option<real>)
    requires stable != [] && candidate != []
    ensures GateAnswers(Verdict(stable, candidate, maxRatio, maxMillis), stable, candidate, maxRatio, maxMillis)
  {
    var s := P95Sample(stable);
    var c := P95Sample(candidate);
    CompareMeans(s, c, maxRatio, maxMillis);
    Judged(Compare(s, c, maxRatio, maxMillis), stable, candidate, s, c, maxRatio, maxMillis);
  }

  lemma CompareMeans(s: real, c: real, maxRatio: real, maxMillis: Option<real>)
    ensures Compare(s, c, maxRatio, maxMillis)
         == if Within(s, c, maxRatio, maxMillis) then Ok((s, c))
            else Err(if s == 0.0 && c > 0.0 then ZeroDivisionError else GateError)
  {
  }

  lemma P95Sample(values: seq<real>) returns (v: real)
    requires values != []
    ensures Percentile(values, P95) == Ok(v) && HasRank(values, v, Rank(|values|, 0.95))
  {
    PercentileSucceeds(values, P95);
    v := Percentile(values, P95).value;
    PercentileExactly(values, P95, v);
  }

  lemma Judged(verdict: Result<(real, real)>, stable: seq<real>, candidate: seq<real>, s: real, c: real,
               maxRatio: real, maxMillis: Option<real>)
    requires HasRank(stable, s, Rank(|stable|, 0.95)) && HasRank(candidate, c, Rank(|candidate|, 0.95))
    requires verdict == if Within(s, c, maxRatio, maxMillis) then Ok((s, c))
                        else Err(if s == 0.0 && c > 0.0 then ZeroDivisionError else GateError)
    ensures GateAnswers(verdict, stable, candidate, maxRatio, maxMillis)
  {
  }

  /** A gate that answers at all passes exactly the candidates whose sample of that rank is within bounds,
      whichever samples are meant: the two are determined. */
  lemma GatePassesExactly(verdict: Result<(real, real)>, stable: seq<real>, candidate: seq<real>,
                          maxRatio: real, maxMillis: Option<real>, s: real, c: real)
    requires GateAnswers(verdict, stable, candidate, maxRatio, maxMillis)
    requires HasRank(stable, s, Rank(|stable|, 0.95)) && HasRank(candidate, c, Rank(|candidate|, 0.95))
    ensures verdict == Ok((s, c)) <==> Within(s, c, maxRatio, maxMillis)
    ensures verdict.Ok? ==> verdict == Ok((s, c))
    ensures verdict == Err(ZeroDivisionError) <==> !Within(s, c, maxRatio, maxMillis) && s == 0.0 && c > 0.0
  {
    var s', c' :|
      && HasRank(stable, s', Rank(|stable|, 0.95)) && HasRank(candidate, c', Rank(|candidate|, 0.95))
      && (if Within(s', c', maxRatio, maxMillis) then verdict == Ok((s', c'))
          else verdict == Err(if s' == 0.0 && c' > 0.0 then ZeroDivisionError else GateError));
    RankUnique(stable, s, s', Rank(|stable|, 0.95));
    RankUnique(candidate, c, c', Rank(|candidate|, 0.95));
  }

  /** A candidate that is never slower than stable passes, at any permitted ratio and without a cap. */
  lemma DominatedCandidatePasses(stable: seq<real>, candidate: seq<real>, maxRatio: real)
    requires candidate != [] && Dominated(candidate, stable) && maxRatio >= 1.0
    requires forall x :: x in stable ==> x >= 0.0
    ensures Verdict(stable, candidate, maxRatio, None).Ok?
  {
    PercentileMonotone(candidate, stable, P95);
    PercentileIsSample(candidate, P95);
    PercentileIsSample(stable, P95);
    RatioGrows(Percentile(stable, P95).value, maxRatio);
  }

  lemma PercentileIsSample(values: seq<real>, fraction: real)
    requires values != [] && fraction <= 1.0
    ensures Percentile(values, fraction).Ok? && Percentile(values, fraction).value in values
  {
    PercentileSucceeds(values, fraction);
    PercentileExactly(values, fraction, Percentile(values, fraction).value);
  }

  lemma RatioGrows(s: real, ratio: real)
    requires s >= 0.0 && ratio >= 1.0
    ensures s * ratio >= s
  {
    assert s * (ratio - 1.0) >= 0.0;
  }

  /** What one timed health request came to. */
  datatype Probe = Failed | Unsuccessful | Timed(elapsed: real)
  datatype Variant = Stable | Candidate

  function Timings(probe: (Variant, nat) -> Probe, variant: Variant, n: nat): (r: seq<real>)
    ensures |r| == n
    ensures forall i :: 0 <= i < n && probe(variant, i).Timed? ==> r[i] == probe(variant, i).elapsed
  {
    seq(n, i requires 0 <= i < n => if probe(variant, i).Timed? then probe(variant, i).elapsed else 0.0)
  }

  /** The timed part of `check_health`: stable and candidate are sampled in turn, and the first request that
      fails or reports no success is the verdict. */
  method CheckHealth(probe: (Variant, nat) -> Probe, samples: nat, maxRatio: real, maxMillis: Option<real>)
    returns (verdict: Result<(real, real)>)
    ensures samples == 0 ==> verdict == Err(GateError)
    ensures samples > 0 && (forall v, i :: 0 <= i < samples ==> probe(v, i).Timed?)
            ==> GateAnswers(verdict, Timings(probe, Stable, samples), Timings(probe, Candidate, samples),
                            maxRatio, maxMillis)
    ensures (exists v, i :: 0 <= i < samples && !probe(v, i).Timed?) ==> verdict == Err(GateError)
  {
    var stable, candidate: seq<real> := [], [];
    for i := 0 to samples
      invariant stable == Timings(probe, Stable, i) && candidate == Timings(probe, Candidate, i)
      invariant forall v, j :: 0 <= j < i ==> probe(v, j).Timed?
    {
      if !probe(Stable, i).Timed? {
        return Err(GateError);
      }
      stable := stable + [probe(Stable, i).elapsed];
      if !probe(Candidate, i).Timed? {
        return Err(GateError);
      }
      candidate := candidate + [probe(Candidate, i).elapsed];
      forall v ensures probe(v, i).Timed? {
        match v case Stable => case Candidate =>
      }
    }
    verdict := Verdict(stable, candidate, maxRatio, maxMillis);
    if samples > 0 {
      VerdictMeans(stable, candidate, maxRatio, maxMillis);
    }
  }
}
