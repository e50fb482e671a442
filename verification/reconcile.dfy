/**
 * The comparison block run on a parte and a lista: both rosters are
 * cleaned (rank normalised, name cleaned), then every parte row scans the
 * lista rows of its rank for the first one still unmatched whose name
 * scores at least the threshold, marking it matched; parte rows that find
 * none are the absentees, and lista rows never marked are the leftovers.
 */
module Reconciliation {
  import opened Util
  import opened Ranks
  import opened Names
  import opened Matching
  import RankCases
  import Text

  /** A pasted row: its rank cell and its name cell, None where the cell is empty (NaN). */
  datatype Row = Row(rank: Option<string>, name: Option<string>)

  /**
   * The cleaning pass: `jerarquia_norm` and `nombre_limpio` for every row,
   * with ranks normalised over the synonym table `table` (EQUIVALENCIAS as
   * written, or the corrected table).
   */
  function Prepare(table: seq<Synonym>, rows: seq<Row>): (r: seq<Entry>)
    requires WellFormed(table)
    ensures |r| == |rows|
  {
    seq(|rows|, i requires 0 <= i < |rows| => Entry(NormalizeRankIn(table, rows[i].rank), CleanName(rows[i].name)))
  }

  /**
   * The comparison block: both rosters are cleaned, then matched. `table`
   * is the synonym table ranks are normalised over (`Equivalencias` is the
   * program as written), `ratio` stands for fuzz.token_set_ratio and
   * `threshold` for the slider value `umbral`. The result is the list of
   * absent parte rows and the list of leftover lista rows, as indices, and
   * they are the ones the greedy matcher specifies.
   */
  method Reconcile(table: seq<Synonym>, parte: seq<Row>, lista: seq<Row>, threshold: int,
                   ratio: (string, string) -> int)
    returns (absent: seq<nat>, leftover: seq<nat>)
    requires WellFormed(table)
    ensures var o := Assign(Prepare(table, parte), Prepare(table, lista), threshold, ratio);
      absent == Absent(o) && leftover == Leftover(o)
    ensures |absent| + (|lista| - |leftover|) == |parte|
  {
    var ps := Prepare(table, parte);
    var ls := Prepare(table, lista);
    absent, leftover := MatchRows(ps, ls, threshold, ratio);
  }

  /**
   * The scan for one parte row: the first lista row of the same rank that is
   * not yet matched and whose name scores at least the threshold.
   */
  method FindCandidate(target: Entry, ls: seq<Entry>, taken: array<bool>, threshold: int,
                       ratio: (string, string) -> int) returns (pick: Option<nat>)
    requires taken.Length == |ls|
    ensures pick == FirstEligible(target, ls, taken[..], threshold, ratio, 0)
  {
    var j := 0;
    while j < |ls|
      invariant 0 <= j <= |ls|
      invariant FirstEligible(target, ls, taken[..], threshold, ratio, 0)
             == FirstEligible(target, ls, taken[..], threshold, ratio, j)
    {
      if ls[j].rank == target.rank {
        if !taken[j] {
          if ratio(target.name, ls[j].name) >= threshold {
            return Some(j);
          }
        }
      }
      j := j + 1;
    }
    return None;
  }

  /** The matcher run on cleaned rows, with the flags kept in an array. */
  method MatchRows(ps: seq<Entry>, ls: seq<Entry>, threshold: int, ratio: (string, string) -> int)
    returns (absent: seq<nat>, leftover: seq<nat>)
    ensures var o := Assign(ps, ls, threshold, ratio);
      absent == Absent(o) && leftover == Leftover(o)
    ensures |absent| + (|ls| - |leftover|) == |ps|
  {
    var taken := new bool[|ls|](_ => false);
    assert taken[..] == seq(|ls|, _ => false);
    ghost var partner: seq<Option<nat>> := [];
    absent := [];
    var i := 0;
    while i < |ps|
      invariant 0 <= i <= |ps| && taken.Length == |ls|
      invariant Assign(ps[..i], ls, threshold, ratio) == Outcome(taken[..], partner)
      invariant absent == Absent(Outcome(taken[..], partner))
    {
      var pick := FindCandidate(ps[i], ls, taken, threshold, ratio);
      AssignNext(ps, ls, threshold, ratio, i);
      IndicesWhereSnoc(partner, pick, Unmatched);
      partner := partner + [pick];
      match pick {
        case Some(j) =>
          taken[j] := true;
        case None =>
          absent := absent + [i];
      }
      i := i + 1;
    }
    assert ps[..i] == ps;
    leftover := IndicesWhere(taken[..], Free);
    AssignCount(ps, ls, threshold, ratio);
  }

  /** Handling the parte row at index i extends the run over the rows before it by one step. */
  lemma AssignNext(ps: seq<Entry>, ls: seq<Entry>, threshold: int, ratio: (string, string) -> int, i: nat)
    requires i < |ps|
    ensures Assign(ps[..i + 1], ls, threshold, ratio)
         == Step(Assign(ps[..i], ls, threshold, ratio), ps[i], ls, threshold, ratio)
  {
    assert ps[..i + 1][..i] == ps[..i];
  }

  /** A row that scores its own name at least the threshold is matched with its copy. */
  lemma SelfMatch(e: Entry, threshold: int, ratio: (string, string) -> int)
    requires ratio(e.name, e.name) >= threshold
    ensures var o := Assign([e], [e], threshold, ratio);
      Absent(o) == [] && Leftover(o) == []
  {
    assert [e][..0] == [];
    var start := Assign([], [e], threshold, ratio);
    assert start.taken == [false];
    assert FirstEligible(e, [e], [false], threshold, ratio, 0) == Some(0);
    var o := Assign([e], [e], threshold, ratio);
    assert o == Outcome([true], [Some(0)]);
    IndicesWhereSnoc([], Some(0), Unmatched);
    IndicesWhereSnoc([], true, Free);
  }

  /** Cleaning a one-row roster. */
  lemma PrepareSingle(table: seq<Synonym>, rows: seq<Row>, rank: string, name: string)
    requires WellFormed(table)
    requires |rows| == 1 && NormalizeRankIn(table, rows[0].rank) == rank && CleanName(rows[0].name) == name
    ensures Prepare(table, rows) == [Entry(rank, name)]
  {
  }

  /** "cabo 1ro / Núñez (3)" cleans to ("cabo primero", "NUNEZ") over either table. */
  lemma SampleParteRow(table: seq<Synonym>, rows: seq<Row>, rank: string, name: string)
    requires table == Equivalencias || table == EquivalenciasFixed
    requires rank == "cabo 1ro" && name == "N\U{FA}\U{F1}ez (3)"
    requires rows == [Row(Some(rank), Some(name))]
    ensures WellFormed(table) && Prepare(table, rows) == [Entry("cabo primero", "NUNEZ")]
  {
    EquivalenciasWellFormed();
    RankCases.CaboUnoRo();
    RankCases.CaboUnoRoFixed();
    CleanNameNunez(name);
    PrepareSingle(table, rows, "cabo primero", "NUNEZ");
  }

  /** "NUNEZ" is already a cleaned name. */
  lemma NunezIsClean(name: string)
    requires name == "NUNEZ"
    ensures CleanName(Some(name)) == name
  {
    assert CapitalsAndSpace(name) && Text.Trimmed(name);
    CleanTextFixes(name);
  }

  /** Over the corrected table, "cabo primero / NUNEZ" is already clean. */
  lemma SampleListaRowFixed(rows: seq<Row>, rank: string, name: string)
    requires rank == "cabo primero" && name == "NUNEZ"
    requires rows == [Row(Some(rank), Some(name))]
    ensures WellFormed(EquivalenciasFixed) && Prepare(EquivalenciasFixed, rows) == [Entry("cabo primero", "NUNEZ")]
  {
    EquivalenciasWellFormed();
    RankCases.CaboPrimeroStable(rank);
    NunezIsClean(name);
    PrepareSingle(EquivalenciasFixed, rows, rank, name);
  }

  /** Over EQUIVALENCIAS as written, "cabo primero / NUNEZ" cleans to ("cabo", "NUNEZ"). */
  lemma SampleListaRowAsWritten(rows: seq<Row>, rank: string, name: string)
    requires rank == "cabo primero" && name == "NUNEZ"
    requires rows == [Row(Some(rank), Some(name))]
    ensures WellFormed(Equivalencias) && Prepare(Equivalencias, rows) == [Entry("cabo", "NUNEZ")]
  {
    EquivalenciasWellFormed();
    RankCases.RankNotIdempotentAsWritten();
    NunezIsClean(name);
    PrepareSingle(Equivalencias, rows, "cabo", name);
  }

  /** Two one-row rosters whose ranks differ: the parte row is absent and the lista row is left over, whatever the names score. */
  lemma RankMismatch(p: Entry, l: Entry, threshold: int, ratio: (string, string) -> int)
    requires p.rank != l.rank
    ensures var o := Assign([p], [l], threshold, ratio);
      Absent(o) == [0] && Leftover(o) == [0]
  {
    assert [p][..0] == [];
    var start := Assign([], [l], threshold, ratio);
    assert start.taken == [false];
    assert !Matches(p, l, threshold, ratio);
    assert FirstEligible(p, [l], [false], threshold, ratio, 0) == None;
    var o := Assign([p], [l], threshold, ratio);
    assert o == Outcome([false], [None]);
    IndicesWhereSnoc([], None, Unmatched);
    IndicesWhereSnoc([], false, Free);
  }

  /**
   * With the corrected table, "cabo 1ro / Núñez (3)" in the parte and
   * "cabo primero / NUNEZ" in the lista are the same person: after
   * cleaning, neither roster has anything left to report.
   */
  lemma SpellingsReconcile(parte: seq<Row>, lista: seq<Row>, threshold: int, ratio: (string, string) -> int)
    requires parte == [Row(Some("cabo 1ro"), Some("N\U{FA}\U{F1}ez (3)"))]
    requires lista == [Row(Some("cabo primero"), Some("NUNEZ"))]
    requires ratio("NUNEZ", "NUNEZ") >= threshold
    ensures WellFormed(EquivalenciasFixed)
    ensures var o := Assign(Prepare(EquivalenciasFixed, parte), Prepare(EquivalenciasFixed, lista), threshold, ratio);
      Absent(o) == [] && Leftover(o) == []
  {
    SampleParteRow(EquivalenciasFixed, parte, "cabo 1ro", "N\U{FA}\U{F1}ez (3)");
    SampleListaRowFixed(lista, "cabo primero", "NUNEZ");
    SelfMatch(Entry("cabo primero", "NUNEZ"), threshold, ratio);
  }

  /**
   * With EQUIVALENCIAS as written, the same two rows land in different ranks
   * ("cabo primero" and "cabo"), so the parte row is reported absent and the
   * lista row left over, however well the names score.
   */
  lemma SpellingsMissAsWritten(parte: seq<Row>, lista: seq<Row>, threshold: int, ratio: (string, string) -> int)
    requires parte == [Row(Some("cabo 1ro"), Some("N\U{FA}\U{F1}ez (3)"))]
    requires lista == [Row(Some("cabo primero"), Some("NUNEZ"))]
    ensures WellFormed(Equivalencias)
    ensures var o := Assign(Prepare(Equivalencias, parte), Prepare(Equivalencias, lista), threshold, ratio);
      Absent(o) == [0] && Leftover(o) == [0]
  {
    SampleParteRow(Equivalencias, parte, "cabo 1ro", "N\U{FA}\U{F1}ez (3)");
    SampleListaRowAsWritten(lista, "cabo primero", "NUNEZ");
    RankMismatch(Entry("cabo primero", "NUNEZ"), Entry("cabo", "NUNEZ"), threshold, ratio);
  }
}
