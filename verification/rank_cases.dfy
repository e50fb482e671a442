/**
 * Rank labels worked through the synonym tables: how the ordered substring
 * scan treats particular spellings, the as-written table's failure to map
 * "cabo primero" to itself, and the corrected table's fixed points, from
 * which idempotence of the corrected normalisation follows.
 *
 * Each example is split into the facts it rests on (the label is already
 * clean, it is no key, which keys it lacks) so that no single proof has to
 * evaluate the whole table against a literal label.
 */
module RankCases {
  import opened Util
  import opened Text
  import opened Ranks

  // ---------------------------------------------------------------------
  // "cabo 1ro" on the table as written

  /** A label without 'f' or 'n' contains none of the first nine keys. */
  lemma MissesFirstNine(s: string)
    requires 'f' !in s && 'n' !in s
    ensures forall j :: 0 <= j < 9 ==> !Contains(s, Equivalencias[j].key)
  {
    KeysLacking(Equivalencias, s, 0, 8, 'f');
    AbsentChar(s, Equivalencias[8].key, 'n');
  }

  /** A label without 'f', 'n' or '1' contains none of the first ten keys. */
  lemma MissesFirstTen(s: string)
    requires 'f' !in s && 'n' !in s && '1' !in s
    ensures forall j :: 0 <= j < 10 ==> !Contains(s, Equivalencias[j].key)
  {
    MissesFirstNine(s);
    AbsentChar(s, Equivalencias[9].key, '1');
  }

  lemma CaboUnoRoClean(v: string)
    requires v == "cabo 1ro"
    ensures Clean(v) == v
  {
    CleanLiteral(v);
  }

  lemma CaboUnoRoNoKey(v: string)
    requires v == "cabo 1ro"
    ensures ExactIndex(Equivalencias, v, 0) == None
  {
    EquivalenciasTags();
    assert KeyTag(v) == 2162;
    ExactMissByTag(Equivalencias, KeyTags, v);
  }

  lemma CaboUnoRoScan(v: string)
    requires v == "cabo 1ro"
    ensures SubstringIndex(Equivalencias, v, 0) == Some(9)
  {
    MissesFirstNine(v);
    ContainsWitness(v, Equivalencias[9].key, 0);
    FirstContained(Equivalencias, v, 9);
  }

  /** "cabo 1ro" is "cabo primero": the key "cabo 1" is listed before "cabo", which also occurs in it. */
  lemma CaboUnoRo()
    ensures NormalizeRank(Some("cabo 1ro")) == "cabo primero"
  {
    CaboUnoRoIs("cabo 1ro");
  }

  lemma CaboUnoRoIs(v: string)
    requires v == "cabo 1ro"
    ensures NormalizeRank(Some(v)) == "cabo primero"
  {
    EquivalenciasWellFormed();
    CaboUnoRoClean(v);
    CaboUnoRoNoKey(v);
    CaboUnoRoScan(v);
    RankViaScan(Equivalencias, v, 9);
  }

  // ---------------------------------------------------------------------
  // "oficial ayte" on the table as written

  /** A label without 'j', 'm' or 'p' contains none of the abbreviated keys after "of ayte". */
  lemma MissesAbbreviations(s: string)
    requires 'j' !in s && 'm' !in s && 'p' !in s
    ensures forall j :: 1 <= j < 4 ==> !Contains(s, Equivalencias[j].key)
  {
    AbsentChar(s, Equivalencias[1].key, 'j');
    AbsentChar(s, Equivalencias[2].key, 'm');
    AbsentChar(s, Equivalencias[3].key, 'p');
  }

  /** A label without 'j', 'm', 'p' or 'u' contains none of the spelled-out "oficial ..." keys. */
  lemma MissesSpelledOut(s: string)
    requires 'j' !in s && 'm' !in s && 'p' !in s && 'u' !in s
    ensures forall j :: 4 <= j < 8 ==> !Contains(s, Equivalencias[j].key)
  {
    AbsentChar(s, Equivalencias[4].key, 'u');
    AbsentChar(s, Equivalencias[5].key, 'j');
    AbsentChar(s, Equivalencias[6].key, 'm');
    AbsentChar(s, Equivalencias[7].key, 'p');
  }

  /** A label without "of ayte" and without 'j', 'm', 'p', 'u', 'n', 'b' contains none of the first twelve keys. */
  lemma MissesFirstTwelve(s: string)
    requires !Contains(s, "of ayte")
    requires 'j' !in s && 'm' !in s && 'p' !in s && 'u' !in s && 'n' !in s && 'b' !in s
    ensures forall j :: 0 <= j < 12 ==> !Contains(s, Equivalencias[j].key)
  {
    MissesAbbreviations(s);
    MissesSpelledOut(s);
    AbsentChar(s, Equivalencias[8].key, 'n');
    KeysLacking(Equivalencias, s, 9, 11, 'b');
    AbsentChar(s, Equivalencias[11].key, 'u');
  }

  /**
   * "of ayte" does not occur in "oficial ayte": wherever it would start, either
   * its 'o' or the space after "of" meets another character.
   */
  lemma OficialAyteLacksOfAyte()
    ensures !Contains("oficial ayte", "of ayte")
  {
    LacksOfAyte("oficial ayte", "of ayte");
  }

  lemma LacksOfAyte(s: string, key: string)
    requires s == "oficial ayte" && key == "of ayte"
    ensures !Contains(s, key)
  {
    forall i | 0 <= i <= |s| - |key|
      ensures !OccursAt(s, key, i)
    {
      assert s[i..i + |key|][0] == s[i] && s[i..i + |key|][2] == s[i + 2];
    }
  }

  lemma OficialAyteClean()
    ensures Clean("oficial ayte") == "oficial ayte"
  {
    CleanLiteral("oficial ayte");
  }

  lemma OficialAyteNoKey()
    ensures ExactIndex(Equivalencias, "oficial ayte", 0) == None
  {
    EquivalenciasTags();
    assert KeyTag("oficial ayte") == 3188;
    ExactMissByTag(Equivalencias, KeyTags, "oficial ayte");
  }

  lemma OficialAyteScan()
    ensures SubstringIndex(Equivalencias, "oficial ayte", 0) == Some(12)
  {
    OficialAyteLacksOfAyte();
    MissesFirstTwelve("oficial ayte");
    ContainsWitness("oficial ayte", Equivalencias[12].key, 8);
    FirstContained(Equivalencias, "oficial ayte", 12);
  }

  /**
   * "oficial ayte" is "ayudante", not "oficial ayudante": no "of ..." key
   * occurs in it, and the late key "ayte" is the first that does.
   */
  lemma OficialAyte()
    ensures NormalizeRank(Some("oficial ayte")) == "ayudante"
  {
    EquivalenciasWellFormed();
    OficialAyteClean();
    OficialAyteNoKey();
    OficialAyteScan();
    RankViaScan(Equivalencias, "oficial ayte", 12);
  }

  // ---------------------------------------------------------------------
  // "cabo primero" on the table as written

  lemma CaboPrimeroClean()
    ensures Clean("cabo primero") == "cabo primero"
  {
    CleanLiteral("cabo primero");
  }

  lemma CaboPrimeroNoKey()
    ensures ExactIndex(Equivalencias, "cabo primero", 0) == None
  {
    EquivalenciasTags();
    assert KeyTag("cabo primero") == 3186;
    ExactMissByTag(Equivalencias, KeyTags, "cabo primero");
  }

  lemma CaboPrimeroHasCabo()
    ensures Contains("cabo primero", Equivalencias[10].key)
  {
    ContainsWitness("cabo primero", Equivalencias[10].key, 0);
  }

  lemma CaboPrimeroScan()
    ensures SubstringIndex(Equivalencias, "cabo primero", 0) == Some(10)
  {
    MissesFirstTen("cabo primero");
    CaboPrimeroHasCabo();
    FirstContained(Equivalencias, "cabo primero", 10);
  }

  /**
   * As written, the canonical rank "cabo primero" itself normalises to
   * "cabo": the table has no key "cabo primero", and "cabo" occurs in it.
   * So normalising is not idempotent, and a "Cabo Primero" on one roster
   * never meets the same person written "Cabo 1ro" on the other.
   */
  lemma RankNotIdempotentAsWritten()
    ensures NormalizeRank(Some("cabo 1ro")) == "cabo primero"
    ensures NormalizeRank(Some("cabo primero")) == "cabo"
  {
    CaboUnoRo();
    EquivalenciasWellFormed();
    CaboPrimeroClean();
    CaboPrimeroNoKey();
    CaboPrimeroScan();
    RankViaScan(Equivalencias, "cabo primero", 10);
  }

  // ---------------------------------------------------------------------
  // The corrected table

  /** A canonical rank that is also a key of the corrected table is its own normalisation. */
  lemma StableExact(k: nat)
    requires k < |EquivalenciasFixed|
    requires EquivalenciasFixed[k].key == EquivalenciasFixed[k].canonical
    requires Clean(EquivalenciasFixed[k].key) == EquivalenciasFixed[k].key
    ensures NormalizeRankFixed(Some(EquivalenciasFixed[k].canonical)) == EquivalenciasFixed[k].canonical
  {
    EquivalenciasWellFormed();
    EquivalenciasFixedDistinct();
    RankExactHit(EquivalenciasFixed, EquivalenciasFixed[k].key, k);
  }

  lemma OficialAyudanteClean()
    ensures Clean("oficial ayudante") == "oficial ayudante"
  {
    CleanLiteral("oficial ayudante");
  }

  lemma OficialAyudanteStable(v: string)
    requires v == "oficial ayudante"
    ensures NormalizeRankFixed(Some(v)) == v
  {
    OficialAyudanteClean();
    StableExact(4);
  }

  lemma OficialJefeClean()
    ensures Clean("oficial jefe") == "oficial jefe"
  {
    CleanLiteral("oficial jefe");
  }

  lemma OficialJefeStable(v: string)
    requires v == "oficial jefe"
    ensures NormalizeRankFixed(Some(v)) == v
  {
    OficialJefeClean();
    StableExact(5);
  }

  lemma OficialMayorClean()
    ensures Clean("oficial mayor") == "oficial mayor"
  {
    CleanLiteral("oficial mayor");
  }

  lemma OficialMayorStable(v: string)
    requires v == "oficial mayor"
    ensures NormalizeRankFixed(Some(v)) == v
  {
    OficialMayorClean();
    StableExact(6);
  }

  lemma OficialPrincipalClean()
    ensures Clean("oficial principal") == "oficial principal"
  {
    CleanLiteral("oficial principal");
  }

  lemma OficialPrincipalStable(v: string)
    requires v == "oficial principal"
    ensures NormalizeRankFixed(Some(v)) == v
  {
    OficialPrincipalClean();
    StableExact(7);
  }

  lemma InspectorClean()
    ensures Clean("inspector") == "inspector"
  {
    CleanLiteral("inspector");
  }

  lemma InspectorStable(v: string)
    requires v == "inspector"
    ensures NormalizeRankFixed(Some(v)) == v
  {
    InspectorClean();
    StableExact(8);
  }

  lemma CaboPrimeroStable(v: string)
    requires v == "cabo primero"
    ensures NormalizeRankFixed(Some(v)) == v
  {
    CaboPrimeroClean();
    StableExact(10);
  }

  lemma CaboClean()
    ensures Clean("cabo") == "cabo"
  {
    CleanLiteral("cabo");
  }

  lemma CaboStable(v: string)
    requires v == "cabo"
    ensures NormalizeRankFixed(Some(v)) == v
  {
    CaboClean();
    StableExact(11);
  }

  /** A label without 'f' or 'c' contains none of the corrected table's first twelve keys. */
  lemma FixedMissesFirstTwelve(s: string)
    requires 'f' !in s && 'c' !in s
    ensures forall j :: 0 <= j < 12 ==> !Contains(s, EquivalenciasFixed[j].key)
  {
    KeysLacking(EquivalenciasFixed, s, 0, 8, 'f');
    KeysLacking(EquivalenciasFixed, s, 8, 12, 'c');
  }

  lemma AuxiliarClean()
    ensures Clean("auxiliar") == "auxiliar"
  {
    CleanLiteral("auxiliar");
  }

  lemma AuxiliarNoKey()
    ensures ExactIndex(EquivalenciasFixed, "auxiliar", 0) == None
  {
    FixedTags();
    assert KeyTag("auxiliar") == 2145;
    ExactMissByTag(EquivalenciasFixed, FixedKeyTags, "auxiliar");
  }

  lemma AuxiliarScan()
    ensures SubstringIndex(EquivalenciasFixed, "auxiliar", 0) == Some(12)
  {
    FixedMissesFirstTwelve("auxiliar");
    ContainsWitness("auxiliar", EquivalenciasFixed[12].key, 0);
    FirstContained(EquivalenciasFixed, "auxiliar", 12);
  }

  /** "auxiliar" is no key, but the key "aux" occurs in it and stands for it. */
  lemma AuxiliarStable(v: string)
    requires v == "auxiliar"
    ensures NormalizeRankFixed(Some(v)) == v
  {
    EquivalenciasWellFormed();
    AuxiliarClean();
    AuxiliarNoKey();
    AuxiliarScan();
    RankViaScan(EquivalenciasFixed, "auxiliar", 12);
  }

  lemma AyudanteClean()
    ensures Clean("ayudante") == "ayudante"
  {
    CleanLiteral("ayudante");
  }

  /** "ayte" can only start where the label's one 'y' allows, and does not. */
  lemma AyudanteLacksAyte()
    ensures !Contains("ayudante", "ayte")
  {
    assert "ayudante"[0..4][2] != "ayte"[2];
    OnlyPlacement("ayudante", "ayte", 1, 1);
  }

  lemma AyudanteMissesAll()
    ensures forall j :: 0 <= j < |EquivalenciasFixed| ==> !Contains("ayudante", EquivalenciasFixed[j].key)
  {
    FixedMissesFirstTwelve("ayudante");
    AbsentChar("ayudante", EquivalenciasFixed[12].key, 'x');
    AyudanteLacksAyte();
  }

  /** No key occurs in "ayudante" (it lacks the 'x' of "aux"), so it is returned as it is. */
  lemma AyudanteStable(v: string)
    requires v == "ayudante"
    ensures NormalizeRankFixed(Some(v)) == v
  {
    EquivalenciasWellFormed();
    AyudanteClean();
    AyudanteMissesAll();
    RankFallback(EquivalenciasFixed, "ayudante");
  }

  lemma FixedCanonicalsListed()
    ensures forall i :: 0 <= i < |EquivalenciasFixed| ==> EquivalenciasFixed[i].canonical in CanonicalRanks
  {
  }

  /** Every canonical rank normalises to itself under the corrected table. */
  lemma CanonicalRanksStable()
    ensures forall v :: v in CanonicalRanks ==> NormalizeRankFixed(Some(v)) == v
  {
    forall v | v in CanonicalRanks ensures NormalizeRankFixed(Some(v)) == v {
      if v == "oficial ayudante" {
        OficialAyudanteStable(v);
      } else if v == "oficial jefe" {
        OficialJefeStable(v);
      } else if v == "oficial mayor" {
        OficialMayorStable(v);
      } else if v == "oficial principal" {
        OficialPrincipalStable(v);
      } else if v == "inspector" {
        InspectorStable(v);
      } else if v == "cabo primero" {
        CaboPrimeroStable(v);
      } else if v == "cabo" {
        CaboStable(v);
      } else if v == "auxiliar" {
        AuxiliarStable(v);
      } else {
        AyudanteStable(v);
      }
    }
  }

  /**
   * With the correction, normalising is idempotent: a normalised rank read
   * back in (from the other roster, or a second pass) is left as it is.
   */
  lemma NormalizeRankFixedIdempotent(cell: Option<string>)
    ensures NormalizeRankFixed(Some(NormalizeRankFixed(cell))) == NormalizeRankFixed(cell)
  {
    EquivalenciasWellFormed();
    FixedCanonicalsListed();
    CanonicalRanksStable();
    RankIdempotentIn(EquivalenciasFixed, CanonicalRanks, cell);
  }

  lemma CaboUnoRoLacksCaboPrimero()
    ensures !Contains(Clean("cabo 1ro"), "cabo primero")
  {
    CaboUnoRoClean("cabo 1ro");
    AbsentChar("cabo 1ro", "cabo primero", 'p');
  }

  /** "cabo 1ro" lacks the 'p' of the inserted key, so the correction leaves it at "cabo primero". */
  lemma CaboUnoRoFixed()
    ensures NormalizeRankFixed(Some("cabo 1ro")) == "cabo primero"
  {
    CaboUnoRoLacksCaboPrimero();
    FixAgreesElsewhere("cabo 1ro");
    CaboUnoRo();
  }

  /** With the correction, "cabo 1ro" and "cabo primero" both normalise to "cabo primero". */
  lemma CaboSpellingsAgreeFixed()
    ensures NormalizeRankFixed(Some("cabo 1ro")) == "cabo primero"
    ensures NormalizeRankFixed(Some("cabo primero")) == "cabo primero"
  {
    CaboUnoRoFixed();
    CaboPrimeroStable("cabo primero");
  }
}
