/**
 * The greedy, rank-gated matcher as a specification: parte rows are taken
 * in order, and each one consumes the first lista row that is still free,
 * has the same normalised rank and whose name similarity reaches the
 * threshold. The similarity score (fuzz.token_set_ratio) is a parameter.
 */
module Matching {
  import opened Util

  /** One roster row after cleaning: normalised rank and cleaned name. */
  datatype Entry = Entry(rank: string, name: string)

  /**
   * The state of the matcher: the `match_encontrado` flag of every lista
   * row, and for every parte row handled so far the lista row it consumed.
   */
  datatype Outcome = Outcome(taken: seq<bool>, partner: seq<Option<nat>>)

  /** The gate a candidate must pass, flags aside: same rank, and a score of at least the threshold. */
  predicate Matches(p: Entry, l: Entry, threshold: int, ratio: (string, string) -> int) {
    l.rank == p.rank && ratio(p.name, l.name) >= threshold
  }

  /** The first lista row at or after `from` that is free and passes the gate. */
  function FirstEligible(p: Entry, lista: seq<Entry>, taken: seq<bool>, threshold: int,
                         ratio: (string, string) -> int, from: nat): (r: Option<nat>)
    requires |taken| == |lista| && from <= |lista|
    ensures r.Some? ==> from <= r.value < |lista| && !taken[r.value]
                        && Matches(p, lista[r.value], threshold, ratio)
    ensures forall k :: from <= k < |lista| && (r.None? || k < r.value) ==>
              taken[k] || !Matches(p, lista[k], threshold, ratio)
    decreases |lista| - from
  {
    if from == |lista| then None
    else if !taken[from] && Matches(p, lista[from], threshold, ratio) then Some(from)
    else FirstEligible(p, lista, taken, threshold, ratio, from + 1)
  }

  /** Handling one parte row: consume its first eligible lista row, if there is one. */
  function Step(o: Outcome, p: Entry, lista: seq<Entry>, threshold: int,
                ratio: (string, string) -> int): (r: Outcome)
    requires |o.taken| == |lista|
    ensures |r.taken| == |lista| && |r.partner| == |o.partner| + 1
    ensures r.partner[..|o.partner|] == o.partner
    ensures forall k :: 0 <= k < |lista| && o.taken[k] ==> r.taken[k]
  {
    match FirstEligible(p, lista, o.taken, threshold, ratio, 0)
    case None => Outcome(o.taken, o.partner + [None])
    case Some(k) => Outcome(o.taken[k := true], o.partner + [Some(k)])
  }

  /** The matcher run over the whole parte, starting with every flag false. */
  function Assign(parte: seq<Entry>, lista: seq<Entry>, threshold: int,
                  ratio: (string, string) -> int): (r: Outcome)
    ensures |r.taken| == |lista| && |r.partner| == |parte|
    decreases |parte|
  {
    if parte == [] then Outcome(seq(|lista|, _ => false), [])
    else
      var n := |parte| - 1;
      Step(Assign(parte[..n], lista, threshold, ratio), parte[n], lista, threshold, ratio)
  }

  function Unmatched(x: Option<nat>): bool {
    x.None?
  }

  function Free(b: bool): bool {
    !b
  }

  /** `ausentes`: the parte rows that consumed nothing, in parte order. */
  function Absent(o: Outcome): (r: seq<nat>)
    ensures forall i: nat :: i in r <==> i < |o.partner| && o.partner[i].None?
  {
    IndicesWhere(o.partner, Unmatched)
  }

  /** `sobran_final`: the lista rows whose flag is still false, in lista order. */
  function Leftover(o: Outcome): (r: seq<nat>)
    ensures forall k: nat :: k in r <==> k < |o.taken| && !o.taken[k]
  {
    IndicesWhere(o.taken, Free)
  }

  /** Lista row k was consumed by one of the parte rows handled so far. */
  predicate ConsumedBefore(partner: seq<Option<nat>>, k: nat, n: nat)
    requires n <= |partner|
  {
    exists i :: 0 <= i < n && partner[i] == Some(k)
  }

  /** Gating: every pairing made passes the gate. */
  predicate Gated(parte: seq<Entry>, lista: seq<Entry>, threshold: int,
                  ratio: (string, string) -> int, partner: seq<Option<nat>>)
    requires |partner| == |parte|
  {
    forall i :: 0 <= i < |parte| && partner[i].Some? ==>
      partner[i].value < |lista| && Matches(parte[i], lista[partner[i].value], threshold, ratio)
  }

  /** Single consumption: no lista row is paired with two parte rows. */
  predicate SingleUse(partner: seq<Option<nat>>) {
    forall i, j :: 0 <= i < j < |partner| && partner[i].Some? && partner[j].Some? ==>
      partner[i].value != partner[j].value
  }

  /** A flag is true exactly when some parte row consumed that lista row. */
  predicate FlagsExact(taken: seq<bool>, partner: seq<Option<nat>>) {
    forall k :: 0 <= k < |taken| ==> (taken[k] <==> ConsumedBefore(partner, k, |partner|))
  }

  /**
   * First match: every lista row passing the gate that lies before a parte
   * row's pick (or anywhere, when that row found nothing) had already been
   * consumed by an earlier parte row.
   */
  predicate Greedy(parte: seq<Entry>, lista: seq<Entry>, threshold: int,
                   ratio: (string, string) -> int, partner: seq<Option<nat>>)
    requires |partner| == |parte|
  {
    forall i, k :: 0 <= i < |parte| && 0 <= k < |lista| && Matches(parte[i], lista[k], threshold, ratio)
                   && (partner[i].None? || k < partner[i].value)
                   ==> ConsumedBefore(partner, k, i)
  }

  /** What the matcher guarantees about its state after the parte rows `parte`. */
  predicate Consistent(parte: seq<Entry>, lista: seq<Entry>, threshold: int,
                       ratio: (string, string) -> int, o: Outcome) {
    && |o.taken| == |lista| && |o.partner| == |parte|
    && Gated(parte, lista, threshold, ratio, o.partner)
    && SingleUse(o.partner)
    && FlagsExact(o.taken, o.partner)
    && Greedy(parte, lista, threshold, ratio, o.partner)
  }

  /** A consumption recorded among the first m rows stays recorded when the list grows. */
  lemma ConsumedBeforeExtend(partner: seq<Option<nat>>, x: Option<nat>, k: nat, m: nat)
    requires m <= |partner| && ConsumedBefore(partner, k, m)
    ensures ConsumedBefore(partner + [x], k, m)
  {
    var i :| 0 <= i < m && partner[i] == Some(k);
    assert (partner + [x])[i] == Some(k);
  }

  lemma StepGated(parte: seq<Entry>, p: Entry, lista: seq<Entry>, threshold: int,
                  ratio: (string, string) -> int, o: Outcome)
    requires |o.taken| == |lista| && |o.partner| == |parte|
    requires Gated(parte, lista, threshold, ratio, o.partner)
    ensures Gated(parte + [p], lista, threshold, ratio, Step(o, p, lista, threshold, ratio).partner)
  {
    var o' := Step(o, p, lista, threshold, ratio);
    assert forall i :: 0 <= i < |parte| ==> (parte + [p])[i] == parte[i] && o'.partner[i] == o.partner[i];
  }

  lemma StepSingleUse(p: Entry, lista: seq<Entry>, threshold: int,
                      ratio: (string, string) -> int, o: Outcome)
    requires |o.taken| == |lista| && SingleUse(o.partner) && FlagsExact(o.taken, o.partner)
    ensures SingleUse(Step(o, p, lista, threshold, ratio).partner)
  {
    var n := |o.partner|;
    var o' := Step(o, p, lista, threshold, ratio);
    var pick := FirstEligible(p, lista, o.taken, threshold, ratio, 0);
    forall i, j | 0 <= i < j < n + 1 && o'.partner[i].Some? && o'.partner[j].Some?
      ensures o'.partner[i].value != o'.partner[j].value
    {
      assert o'.partner[i] == o.partner[i];
      if j == n {
        assert o'.partner[j] == pick && !o.taken[pick.value];
      } else {
        assert o'.partner[j] == o.partner[j];
      }
    }
  }

  lemma StepFlagsExact(p: Entry, lista: seq<Entry>, threshold: int,
                       ratio: (string, string) -> int, o: Outcome)
    requires |o.taken| == |lista| && FlagsExact(o.taken, o.partner)
    ensures FlagsExact(Step(o, p, lista, threshold, ratio).taken, Step(o, p, lista, threshold, ratio).partner)
  {
    var n := |o.partner|;
    var o' := Step(o, p, lista, threshold, ratio);
    var pick := FirstEligible(p, lista, o.taken, threshold, ratio, 0);
    assert o'.partner == o.partner + [pick];
    forall k | 0 <= k < |lista|
      ensures o'.taken[k] <==> ConsumedBefore(o'.partner, k, n + 1)
    {
      if ConsumedBefore(o.partner, k, n) {
        ConsumedBeforeExtend(o.partner, pick, k, n);
      }
      if ConsumedBefore(o'.partner, k, n + 1) && !ConsumedBefore(o.partner, k, n) {
        var i :| 0 <= i < n + 1 && o'.partner[i] == Some(k);
      }
      if pick == Some(k) {
        assert o'.partner[n] == Some(k);
      }
    }
  }

  lemma StepGreedy(parte: seq<Entry>, p: Entry, lista: seq<Entry>, threshold: int,
                   ratio: (string, string) -> int, o: Outcome)
    requires |o.taken| == |lista| && |o.partner| == |parte|
    requires FlagsExact(o.taken, o.partner) && Greedy(parte, lista, threshold, ratio, o.partner)
    ensures Greedy(parte + [p], lista, threshold, ratio, Step(o, p, lista, threshold, ratio).partner)
  {
    var n := |parte|;
    var parte' := parte + [p];
    var o' := Step(o, p, lista, threshold, ratio);
    var pick := FirstEligible(p, lista, o.taken, threshold, ratio, 0);
    assert o'.partner == o.partner + [pick];
    forall i, k | 0 <= i < n + 1 && 0 <= k < |lista| && Matches(parte'[i], lista[k], threshold, ratio)
                 && (o'.partner[i].None? || k < o'.partner[i].value)
      ensures ConsumedBefore(o'.partner, k, i)
    {
      if i < n {
        assert parte'[i] == parte[i] && o'.partner[i] == o.partner[i];
        ConsumedBeforeExtend(o.partner, pick, k, i);
      } else {
        assert o.taken[k];
        ConsumedBeforeExtend(o.partner, pick, k, n);
      }
    }
  }

  /** One step keeps the matcher consistent. */
  lemma StepConsistent(parte: seq<Entry>, p: Entry, lista: seq<Entry>, threshold: int,
                       ratio: (string, string) -> int, o: Outcome)
    requires Consistent(parte, lista, threshold, ratio, o)
    ensures Consistent(parte + [p], lista, threshold, ratio, Step(o, p, lista, threshold, ratio))
  {
    StepGated(parte, p, lista, threshold, ratio, o);
    StepSingleUse(p, lista, threshold, ratio, o);
    StepFlagsExact(p, lista, threshold, ratio, o);
    StepGreedy(parte, p, lista, threshold, ratio, o);
  }

  /** The matcher's state after any prefix of the parte is consistent. */
  lemma {:induction false} AssignConsistent(parte: seq<Entry>, lista: seq<Entry>, threshold: int,
                                            ratio: (string, string) -> int)
    ensures Consistent(parte, lista, threshold, ratio, Assign(parte, lista, threshold, ratio))
    decreases |parte|
  {
    if parte != [] {
      var n := |parte| - 1;
      AssignConsistent(parte[..n], lista, threshold, ratio);
      StepConsistent(parte[..n], parte[n], lista, threshold, ratio, Assign(parte[..n], lista, threshold, ratio));
      assert parte[..n] + [parte[n]] == parte;
    }
  }

  /** The number of lista rows left over is the number of false flags. */
  lemma {:induction false} LeftoverCount(taken: seq<bool>)
    ensures |IndicesWhere(taken, Free)| == multiset(taken)[false]
    decreases |taken|
  {
    if taken != [] {
      var n := |taken| - 1;
      LeftoverCount(taken[..n]);
      assert taken == taken[..n] + [taken[n]];
    }
  }

  /** Before the first parte row every lista row is free. */
  lemma {:induction false} AllFreeCount(m: nat)
    ensures multiset(seq(m, _ => false))[false] == m
  {
    if m > 0 {
      AllFreeCount(m - 1);
      assert seq(m, _ => false) == seq(m - 1, _ => false) + [false];
    }
  }

  /** Raising one false flag removes exactly one row from the leftovers. */
  lemma ConsumeCount(taken: seq<bool>, k: nat)
    requires k < |taken| && !taken[k]
    ensures multiset(taken[k := true])[false] == multiset(taken)[false] - 1
  {
    assert taken == taken[..k] + [false] + taken[k + 1..];
    assert taken[k := true] == taken[..k] + [true] + taken[k + 1..];
  }

  /**
   * Partition: every parte row is either absent or consumed exactly one lista
   * row, so len(ausentes) + (#lista - len(sobran_final)) == #parte.
   */
  lemma {:induction false} AssignCount(parte: seq<Entry>, lista: seq<Entry>, threshold: int,
                                       ratio: (string, string) -> int)
    ensures var o := Assign(parte, lista, threshold, ratio);
      |Absent(o)| + (|lista| - |Leftover(o)|) == |parte|
    decreases |parte|
  {
    var o := Assign(parte, lista, threshold, ratio);
    LeftoverCount(o.taken);
    if parte == [] {
      AllFreeCount(|lista|);
    } else {
      var n := |parte| - 1;
      var prev := Assign(parte[..n], lista, threshold, ratio);
      AssignCount(parte[..n], lista, threshold, ratio);
      LeftoverCount(prev.taken);
      var pick := FirstEligible(parte[n], lista, prev.taken, threshold, ratio, 0);
      IndicesWhereSnoc(prev.partner, pick, Unmatched);
      if pick.Some? {
        ConsumeCount(prev.taken, pick.value);
      }
    }
  }

  /** A consumed flag stays true for the rest of the run. */
  lemma {:induction false} ConsumedStaysConsumed(parte: seq<Entry>, lista: seq<Entry>, threshold: int,
                                                 ratio: (string, string) -> int, m: nat, k: nat)
    requires m <= |parte| && k < |lista|
    requires Assign(parte[..m], lista, threshold, ratio).taken[k]
    ensures Assign(parte, lista, threshold, ratio).taken[k]
    decreases |parte|
  {
    if m < |parte| {
      var n := |parte| - 1;
      assert parte[..n][..m] == parte[..m];
      ConsumedStaysConsumed(parte[..n], lista, threshold, ratio, m, k);
    } else {
      assert parte[..m] == parte;
    }
  }

  /** Scores for the two-by-two roster below: A/X 60, A/Y 80, B/X 90, B/Y 0. */
  function SampleScore(a: string, b: string): int {
    if a == "A" then (if b == "X" then 60 else 80)
    else if b == "X" then 90 else 0
  }

  const SampleParte := [Entry("cabo", "A"), Entry("cabo", "B")]
  const SampleLista := [Entry("cabo", "X"), Entry("cabo", "Y")]

  /** At threshold 50, A takes X (its first candidate) and B is left without a partner. */
  lemma SampleAtFifty()
    ensures Absent(Assign(SampleParte, SampleLista, 50, SampleScore)) == [1]
  {
    var start := Assign([], SampleLista, 50, SampleScore);
    assert start.taken == [false, false];
    assert SampleParte[..1][..0] == [];
    assert FirstEligible(SampleParte[0], SampleLista, [false, false], 50, SampleScore, 0) == Some(0);
    var first := Assign(SampleParte[..1], SampleLista, 50, SampleScore);
    assert first == Outcome([true, false], [Some(0)]);
    assert !Matches(SampleParte[1], SampleLista[1], 50, SampleScore);
    assert FirstEligible(SampleParte[1], SampleLista, [true, false], 50, SampleScore, 0) == None;
    assert Assign(SampleParte, SampleLista, 50, SampleScore).partner == [Some(0), None];
    IndicesWhereSnoc([Some(0)], None, Unmatched);
    IndicesWhereSnoc([], Some(0), Unmatched);
  }

  /** At threshold 70, A passes over X for Y, which leaves X for B: nobody is absent. */
  lemma SampleAtSeventy()
    ensures Absent(Assign(SampleParte, SampleLista, 70, SampleScore)) == []
  {
    var start := Assign([], SampleLista, 70, SampleScore);
    assert start.taken == [false, false];
    assert SampleParte[..1][..0] == [];
    assert !Matches(SampleParte[0], SampleLista[0], 70, SampleScore);
    assert FirstEligible(SampleParte[0], SampleLista, [false, false], 70, SampleScore, 0) == Some(1);
    var first := Assign(SampleParte[..1], SampleLista, 70, SampleScore);
    assert first == Outcome([false, true], [Some(1)]);
    assert FirstEligible(SampleParte[1], SampleLista, [false, true], 70, SampleScore, 0) == Some(0);
    assert Assign(SampleParte, SampleLista, 70, SampleScore).partner == [Some(1), Some(0)];
    IndicesWhereSnoc([Some(1)], Some(0), Unmatched);
    IndicesWhereSnoc([], Some(1), Unmatched);
  }

  /**
   * Greedy first-match is not monotone in the threshold: a stricter
   * threshold can leave fewer parte rows absent.
   */
  lemma ThresholdNotMonotone()
    ensures exists parte, lista, low: int, high: int ::
      low < high && |Absent(Assign(parte, lista, high, SampleScore))| < |Absent(Assign(parte, lista, low, SampleScore))|
  {
    SampleAtFifty();
    SampleAtSeventy();
    assert |Absent(Assign(SampleParte, SampleLista, 70, SampleScore))| < |Absent(Assign(SampleParte, SampleLista, 50, SampleScore))|;
  }
}
