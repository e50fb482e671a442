/**
 * Rank normalisation (normalizar_jerarquia): a rank label is trimmed and
 * lower-cased, then looked up in the ordered synonym table EQUIVALENCIAS,
 * first by exact key and then by the first key, in table order, that occurs
 * inside the label. A label no key occurs in is returned cleaned but
 * otherwise unchanged.
 */
module Ranks {
  import opened Util
  import opened Text

  /** One entry of the synonym table: a label spelling and the canonical rank it stands for. */
  datatype Synonym = Synonym(key: string, canonical: string)

  /** EQUIVALENCIAS, in its insertion order (which the substring scan depends on). */
  const Equivalencias: seq<Synonym> := [
    Synonym("of ayte", "oficial ayudante"),
    Synonym("of jefe", "oficial jefe"),
    Synonym("of mayor", "oficial mayor"),
    Synonym("of ppal", "oficial principal"),
    Synonym("oficial ayudante", "oficial ayudante"),
    Synonym("oficial jefe", "oficial jefe"),
    Synonym("oficial mayor", "oficial mayor"),
    Synonym("oficial principal", "oficial principal"),
    Synonym("inspector", "inspector"),
    Synonym("cabo 1", "cabo primero"),
    Synonym("cabo", "cabo"),
    Synonym("aux", "auxiliar"),
    Synonym("ayte", "ayudante")
  ]

  /**
   * The corrected table: EQUIVALENCIAS with the canonical rank
   * "cabo primero" listed as a key of its own, ahead of the shorter "cabo".
   */
  const EquivalenciasFixed: seq<Synonym> :=
    Equivalencias[..10] + [Synonym("cabo primero", "cabo primero")] + Equivalencias[10..]

  /** The canonical ranks both tables map to. */
  const CanonicalRanks: set<string> := {
    "oficial ayudante", "oficial jefe", "oficial mayor", "oficial principal",
    "inspector", "cabo primero", "cabo", "auxiliar", "ayudante"
  }

  /** A usable table: keys and canonical ranks are non-empty. */
  predicate WellFormed(table: seq<Synonym>) {
    forall i :: 0 <= i < |table| ==> table[i].key != [] && table[i].canonical != []
  }

  /** No key appears twice, as in a dictionary. */
  predicate DistinctKeys(table: seq<Synonym>) {
    forall i, j :: 0 <= i < j < |table| ==> table[i].key != table[j].key
  }

  /** `str(texto).strip().lower()` */
  function Clean(raw: string): string {
    Lower(Strip(raw))
  }

  /** The first position at or after `from` whose key is `s`, if any (the dictionary hit). */
  function ExactIndex(table: seq<Synonym>, s: string, from: nat): (r: Option<nat>)
    requires from <= |table|
    ensures r.Some? ==> from <= r.value < |table| && table[r.value].key == s
    ensures r.Some? ==> forall i :: from <= i < r.value ==> table[i].key != s
    ensures r.None? ==> forall i :: from <= i < |table| ==> table[i].key != s
    decreases |table| - from
  {
    if from == |table| then None
    else if table[from].key == s then Some(from)
    else ExactIndex(table, s, from + 1)
  }

  /** The first position at or after `from` whose key occurs inside `s`, if any. */
  function SubstringIndex(table: seq<Synonym>, s: string, from: nat): (r: Option<nat>)
    requires from <= |table|
    ensures r.Some? ==> from <= r.value < |table| && Contains(s, table[r.value].key)
    ensures r.Some? ==> forall i :: from <= i < r.value ==> !Contains(s, table[i].key)
    ensures r.None? ==> forall i :: from <= i < |table| ==> !Contains(s, table[i].key)
    decreases |table| - from
  {
    if from == |table| then None
    else if Contains(s, table[from].key) then Some(from)
    else SubstringIndex(table, s, from + 1)
  }

  /**
   * normalizar_jerarquia over a given synonym table. A missing cell (NaN)
   * gives ""; otherwise the label is cleaned, looked up as a key, then
   * scanned for the first key it contains, and returned cleaned when
   * neither finds anything.
   */
  function NormalizeRankIn(table: seq<Synonym>, cell: Option<string>): string
    requires WellFormed(table)
  {
    match cell
    case None => ""
    case Some(raw) =>
      var clean := Clean(raw);
      match ExactIndex(table, clean, 0)
      case Some(i) => table[i].canonical
      case None =>
        match SubstringIndex(table, clean, 0)
        case Some(i) => table[i].canonical
        case None => clean
  }

  /** normalizar_jerarquia as written: the lookup over EQUIVALENCIAS. */
  function NormalizeRank(cell: Option<string>): string {
    EquivalenciasWellFormed();
    NormalizeRankIn(Equivalencias, cell)
  }

  /** normalizar_jerarquia over the corrected table; the reconciliation uses this one. */
  function NormalizeRankFixed(cell: Option<string>): string {
    EquivalenciasWellFormed();
    NormalizeRankIn(EquivalenciasFixed, cell)
  }

  lemma EquivalenciasWellFormed()
    ensures WellFormed(Equivalencias) && WellFormed(EquivalenciasFixed)
  {
  }

  /**
   * A fingerprint of a key: its length and its next-to-last character. The
   * keys of both tables have pairwise different fingerprints, so facts
   * about which keys differ come down to comparing the small integers
   * listed in KeyTags and FixedKeyTags, instead of comparing every pair of
   * key strings character by character.
   */
  function KeyTag(key: string): (r: int)
    ensures |key| >= 2 ==> r >= 256
  {
    if |key| < 2 then 0 else |key| * 256 + key[|key| - 2] as int
  }

  /** Keys whose fingerprints differ pairwise are distinct. */
  lemma DistinctByTag(table: seq<Synonym>)
    requires forall i, j :: 0 <= i < j < |table| ==> KeyTag(table[i].key) != KeyTag(table[j].key)
    ensures DistinctKeys(table)
  {
    forall i, j | 0 <= i < j < |table|
      ensures table[i].key != table[j].key
    {
      assert KeyTag(table[i].key) != KeyTag(table[j].key);
    }
  }

  /** The fingerprints of EQUIVALENCIAS's keys, in table order. */
  const KeyTags: seq<int> := [1908, 1894, 2159, 1889, 4212, 3174, 3439, 4449, 2415, 1568, 1122, 885, 1140]

  /** The fingerprints of the corrected table's keys, in table order. */
  const FixedKeyTags: seq<int> := [1908, 1894, 2159, 1889, 4212, 3174, 3439, 4449, 2415, 1568, 3186, 1122, 885, 1140]

  lemma EquivalenciasTags()
    ensures |KeyTags| == |Equivalencias|
    ensures forall i :: 0 <= i < |Equivalencias| ==> KeyTag(Equivalencias[i].key) == KeyTags[i]
  {
    assert KeyTag(Equivalencias[0].key) == 1908;
    assert KeyTag(Equivalencias[1].key) == 1894;
    assert KeyTag(Equivalencias[2].key) == 2159;
    assert KeyTag(Equivalencias[3].key) == 1889;
    assert KeyTag(Equivalencias[4].key) == 4212;
    assert KeyTag(Equivalencias[5].key) == 3174;
    assert KeyTag(Equivalencias[6].key) == 3439;
    assert KeyTag(Equivalencias[7].key) == 4449;
    assert KeyTag(Equivalencias[8].key) == 2415;
    assert KeyTag(Equivalencias[9].key) == 1568;
    assert KeyTag(Equivalencias[10].key) == 1122;
    assert KeyTag(Equivalencias[11].key) == 885;
    assert KeyTag(Equivalencias[12].key) == 1140;
  }

  lemma FixedTags()
    ensures |FixedKeyTags| == |EquivalenciasFixed|
    ensures forall i :: 0 <= i < |EquivalenciasFixed| ==> KeyTag(EquivalenciasFixed[i].key) == FixedKeyTags[i]
  {
    assert KeyTag(EquivalenciasFixed[0].key) == 1908;
    assert KeyTag(EquivalenciasFixed[1].key) == 1894;
    assert KeyTag(EquivalenciasFixed[2].key) == 2159;
    assert KeyTag(EquivalenciasFixed[3].key) == 1889;
    assert KeyTag(EquivalenciasFixed[4].key) == 4212;
    assert KeyTag(EquivalenciasFixed[5].key) == 3174;
    assert KeyTag(EquivalenciasFixed[6].key) == 3439;
    assert KeyTag(EquivalenciasFixed[7].key) == 4449;
    assert KeyTag(EquivalenciasFixed[8].key) == 2415;
    assert KeyTag(EquivalenciasFixed[9].key) == 1568;
    assert KeyTag(EquivalenciasFixed[10].key) == 3186;
    assert KeyTag(EquivalenciasFixed[11].key) == 1122;
    assert KeyTag(EquivalenciasFixed[12].key) == 885;
    assert KeyTag(EquivalenciasFixed[13].key) == 1140;
  }

  /** A label whose fingerprint no key has is no key of the table. */
  lemma ExactMissByTag(table: seq<Synonym>, tags: seq<int>, s: string)
    requires |tags| == |table|
    requires forall i :: 0 <= i < |table| ==> KeyTag(table[i].key) == tags[i]
    requires KeyTag(s) !in tags
    ensures ExactIndex(table, s, 0) == None
  {
    forall i | 0 <= i < |table|
      ensures table[i].key != s
    {
      assert KeyTag(table[i].key) == tags[i];
    }
  }

  lemma EquivalenciasDistinct()
    ensures DistinctKeys(Equivalencias)
  {
    EquivalenciasTags();
    DistinctByTag(Equivalencias);
  }

  lemma EquivalenciasFixedDistinct()
    ensures DistinctKeys(EquivalenciasFixed)
  {
    FixedTags();
    DistinctByTag(EquivalenciasFixed);
  }

  // ---------------------------------------------------------------------
  // What the lookup returns

  /** The result is empty exactly for a missing cell or a blank label. */
  lemma RankEmptyIffBlank(table: seq<Synonym>, cell: Option<string>)
    requires WellFormed(table)
    ensures NormalizeRankIn(table, cell) == []
        <==> cell.None? || forall i :: 0 <= i < |cell.value| ==> IsSpace(cell.value[i])
  {
    if cell.Some? {
      StripSpec(cell.value);
    }
  }

  /** A present label yields one of the table's canonical ranks or the cleaned label itself. */
  lemma RankCanonicalOrLabel(table: seq<Synonym>, raw: string)
    requires WellFormed(table)
    ensures var r := NormalizeRankIn(table, Some(raw));
      r == Clean(raw) || exists i :: 0 <= i < |table| && r == table[i].canonical
  {
  }

  /** Position i holds the first key equal to s. */
  lemma FirstExact(table: seq<Synonym>, s: string, i: nat)
    requires i < |table| && table[i].key == s
    requires forall j :: 0 <= j < i ==> table[j].key != s
    ensures ExactIndex(table, s, 0) == Some(i)
  {
  }

  /** Position i holds the first key occurring in s. */
  lemma FirstContained(table: seq<Synonym>, s: string, i: nat)
    requires i < |table| && Contains(s, table[i].key)
    requires forall j :: 0 <= j < i ==> !Contains(s, table[j].key)
    ensures SubstringIndex(table, s, 0) == Some(i)
  {
  }

  /** A label with no exact hit whose scan stops at position i normalises to that entry's rank. */
  lemma RankViaScan(table: seq<Synonym>, raw: string, i: nat)
    requires WellFormed(table)
    requires ExactIndex(table, Clean(raw), 0) == None
    requires SubstringIndex(table, Clean(raw), 0) == Some(i)
    ensures i < |table| && NormalizeRankIn(table, Some(raw)) == table[i].canonical
  {
  }

  /** An exact key hit on the cleaned label yields that key's canonical rank. */
  lemma RankExactHit(table: seq<Synonym>, raw: string, i: nat)
    requires WellFormed(table) && DistinctKeys(table)
    requires i < |table| && Clean(raw) == table[i].key
    ensures NormalizeRankIn(table, Some(raw)) == table[i].canonical
  {
    FirstExact(table, Clean(raw), i);
  }

  /**
   * Without an exact hit, the result is the canonical rank of the first key,
   * in table order, occurring inside the cleaned label; an earlier short key
   * shadows a later, more specific one.
   */
  lemma RankFirstSubstring(table: seq<Synonym>, raw: string, i: nat)
    requires WellFormed(table) && i < |table|
    requires forall j :: 0 <= j < |table| ==> table[j].key != Clean(raw)
    requires Contains(Clean(raw), table[i].key)
    requires forall j :: 0 <= j < i ==> !Contains(Clean(raw), table[j].key)
    ensures NormalizeRankIn(table, Some(raw)) == table[i].canonical
  {
    FirstContained(table, Clean(raw), i);
  }

  /** When no key occurs in the cleaned label, the cleaned label itself is the result. */
  lemma RankFallback(table: seq<Synonym>, raw: string)
    requires WellFormed(table)
    requires forall j :: 0 <= j < |table| ==> !Contains(Clean(raw), table[j].key)
    ensures NormalizeRankIn(table, Some(raw)) == Clean(raw)
  {
    forall j | 0 <= j < |table| ensures table[j].key != Clean(raw) {
      ContainsWitness(table[j].key, table[j].key, 0);
    }
  }

  // ---------------------------------------------------------------------
  // Idempotence

  /** Cleaning twice is cleaning once. */
  lemma CleanIdempotent(raw: string)
    ensures Clean(Clean(raw)) == Clean(raw)
  {
    var s := Strip(raw);
    StripSpec(raw);
    StripStripped(s);
    LowerKeepsStripped(s);
    LowerIdempotent(s);
  }

  /**
   * Normalising is idempotent over any table whose canonical ranks all lie
   * in a set of labels that normalise to themselves; an unrecognised label
   * comes back cleaned, and cleaning it again changes nothing.
   */
  lemma {:induction false} RankIdempotentIn(table: seq<Synonym>, stable: set<string>, cell: Option<string>)
    requires WellFormed(table)
    requires forall i :: 0 <= i < |table| ==> table[i].canonical in stable
    requires forall v :: v in stable ==> NormalizeRankIn(table, Some(v)) == v
    ensures NormalizeRankIn(table, Some(NormalizeRankIn(table, cell))) == NormalizeRankIn(table, cell)
  {
    match cell
    case None =>
      RankEmptyIffBlank(table, Some(""));
    case Some(raw) =>
      CleanIdempotent(raw);
  }

  /** A label with no capitals and no whitespace at its ends is its own cleaning. */
  lemma CleanLiteral(s: string)
    requires s != [] ==> !IsSpace(s[0]) && !IsSpace(s[|s| - 1])
    requires forall i :: 0 <= i < |s| ==> LowerChar(s[i]) == s[i]
    ensures Clean(s) == s
  {
    StripStripped(s);
  }

  // ---------------------------------------------------------------------
  // Keys ruled out by a character

  /** Keys that all contain a character the label lacks do not occur in it. */
  lemma KeysLacking(table: seq<Synonym>, s: string, lo: nat, hi: nat, c: char)
    requires lo <= hi <= |table| && c !in s
    requires forall j :: lo <= j < hi ==> c in table[j].key
    ensures forall j :: lo <= j < hi ==> !Contains(s, table[j].key)
  {
    forall j | lo <= j < hi ensures !Contains(s, table[j].key) {
      AbsentChar(s, table[j].key, c);
    }
  }

  // ---------------------------------------------------------------------
  // The correction only touches labels that contain the new key

  /** Where position i of a table lands once an entry is inserted at k. */
  function Shifted(r: Option<nat>, k: nat): Option<nat> {
    match r
    case None => None
    case Some(i) => Some(if i < k then i else i + 1)
  }

  lemma InsertLayout(table: seq<Synonym>, k: nat, e: Synonym)
    requires k <= |table|
    ensures var t' := table[..k] + [e] + table[k..];
      && |t'| == |table| + 1 && t'[k] == e
      && (forall j :: 0 <= j < k ==> t'[j] == table[j])
      && (forall j :: k < j < |t'| ==> t'[j] == table[j - 1])
  {
  }

  lemma InsertWellFormed(table: seq<Synonym>, k: nat, e: Synonym)
    requires WellFormed(table) && k <= |table|
    requires e.key != [] && e.canonical != []
    ensures WellFormed(table[..k] + [e] + table[k..])
  {
    InsertLayout(table, k, e);
  }

  /** Inserting an entry with a different key moves the dictionary hit along with its entry. */
  lemma InsertKeepsExact(table: seq<Synonym>, k: nat, e: Synonym, s: string)
    requires k <= |table| && e.key != s
    ensures ExactIndex(table[..k] + [e] + table[k..], s, 0) == Shifted(ExactIndex(table, s, 0), k)
  {
    var t' := table[..k] + [e] + table[k..];
    InsertLayout(table, k, e);
    match ExactIndex(table, s, 0)
    case Some(i) =>
      var i' := if i < k then i else i + 1;
      assert t'[i'] == table[i];
      forall j | 0 <= j < i'
        ensures t'[j].key != s
      {
        if j > k {
          assert t'[j] == table[j - 1];
        }
      }
      FirstExact(t', s, i');
    case None =>
      forall j | 0 <= j < |t'|
        ensures t'[j].key != s
      {
        if j > k {
          assert t'[j] == table[j - 1];
        }
      }
  }

  /** Inserting an entry whose key does not occur in s moves the first scan hit along with its entry. */
  lemma InsertKeepsScan(table: seq<Synonym>, k: nat, e: Synonym, s: string)
    requires k <= |table| && !Contains(s, e.key)
    ensures SubstringIndex(table[..k] + [e] + table[k..], s, 0) == Shifted(SubstringIndex(table, s, 0), k)
  {
    var t' := table[..k] + [e] + table[k..];
    InsertLayout(table, k, e);
    match SubstringIndex(table, s, 0)
    case Some(i) =>
      var i' := if i < k then i else i + 1;
      assert t'[i'] == table[i];
      forall j | 0 <= j < i'
        ensures !Contains(s, t'[j].key)
      {
        if j > k {
          assert t'[j] == table[j - 1];
        }
      }
      FirstContained(t', s, i');
    case None =>
      forall j | 0 <= j < |t'|
        ensures !Contains(s, t'[j].key)
      {
        if j > k {
          assert t'[j] == table[j - 1];
        }
      }
  }

  /**
   * Inserting an entry whose key does not occur in the cleaned label, at any
   * position, leaves that label's normalisation unchanged.
   */
  lemma InsertUnmatched(table: seq<Synonym>, k: nat, e: Synonym, raw: string)
    requires WellFormed(table) && k <= |table|
    requires e.key != [] && e.canonical != []
    requires !Contains(Clean(raw), e.key)
    ensures WellFormed(table[..k] + [e] + table[k..])
    ensures NormalizeRankIn(table[..k] + [e] + table[k..], Some(raw)) == NormalizeRankIn(table, Some(raw))
  {
    var s := Clean(raw);
    InsertWellFormed(table, k, e);
    if e.key == s {
      ContainsWitness(s, s, 0);
    }
    var t' := table[..k] + [e] + table[k..];
    InsertLayout(table, k, e);
    InsertKeepsExact(table, k, e, s);
    InsertKeepsScan(table, k, e, s);
    match ExactIndex(table, s, 0)
    case Some(i) =>
      assert t'[if i < k then i else i + 1] == table[i];
    case None =>
      match SubstringIndex(table, s, 0)
      case Some(i) =>
        assert t'[if i < k then i else i + 1] == table[i];
      case None =>
  }

  /**
   * The correction is conservative: every label that does not contain
   * "cabo primero" normalises exactly as before.
   */
  lemma FixAgreesElsewhere(raw: string)
    requires !Contains(Clean(raw), "cabo primero")
    ensures NormalizeRankFixed(Some(raw)) == NormalizeRank(Some(raw))
  {
    EquivalenciasWellFormed();
    InsertUnmatched(Equivalencias, 10, Synonym("cabo primero", "cabo primero"), raw);
  }
}
