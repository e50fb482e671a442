# Roster reconciliation ("Comparador de Listas de Servicio"), modelled in Dafny

The program compares two pasted rosters of police personnel. One is the
official *parte* and the other is the *lista* someone typed. Every row has a
rank cell (*jerarquía*) and a name cell. The comparison has two steps:

1. **Cleaning.**
   - `normalizar_jerarquia` trims and lower-cases a rank label. It then maps
     the label through the ordered synonym table `EQUIVALENCIAS`: first by
     exact key, then by the first key in table order that occurs inside the
     label.
   - `limpiar_nombre` deletes `( … )` annotations and strips accents. It keeps
     only ASCII letters and whitespace, then trims and upper-cases the result.
2. **Matching.** Each parte row, in order, scans the lista rows of the same
   normalised rank. It takes the first one that is not yet matched and whose
   name scores at least the threshold (`umbral`). That lista row is marked
   matched.
   - Parte rows that find nothing are the absentees (`ausentes`, "add to the
     list").
   - Lista rows never marked are the leftovers (`sobran_final`, "delete from
     the list").

The model has these modules, one file each:

- `Util` (util.dfy): `Option`, and the indices of a sequence that satisfy a
  test.
- `Text` (text.dfy): Python's `isspace`, `strip()`, `lower()`, `upper()` and
  `key in text`.
- `Ranks` (ranks.dfy): `EQUIVALENCIAS` and `normalizar_jerarquia` over any
  synonym table, with their general properties. It also holds the corrected
  table (see Findings).
- `RankCases` (rank_cases.dfy): particular labels worked through both tables,
  and idempotence of the corrected normalisation.
- `Names` (names.dfy): `limpiar_nombre`, step by step, with its properties.
- `Matching` (matching.dfy): the greedy rank-gated matcher as functions over
  cleaned rows, with its invariants and the counting identity.
- `Reconciliation` (reconcile.dfy): the comparison block as an imperative
  method. The matched flags live in an array that the loop updates in place.
  The method is proved to compute what `Matching` specifies.

Absentees and leftovers are reported as row indices, in roster order. The
source builds display strings from the same rows in the same order.

Facts of the code that the model keeps:

- Canonical ranks are lower-case (main.py:23-35).
- A rank label that no key matches comes back cleaned, not empty (main.py:46).
- The threshold is an integer, and a score passes when it is `>=` the
  threshold (main.py:127).
- The comparison block takes the synonym table as a parameter.
  `Reconcile` over `Equivalencias` is the program as written. Over
  `EquivalenciasFixed` it is the program with the correction described
  under Findings.

## Model

| member | source | states |
|---|---|---|
| Ranks.NormalizeRankIn | main.py:38-46 | The normaliser over a given ordered table: a missing cell gives `""`, otherwise the cleaned label is looked up exactly, then scanned for the first contained key, then returned as is (the properties are the lemmas below) |
| Ranks.ExactIndex | main.py:41-42 | The dictionary hit: when it finds an index, that key equals the label and no earlier key does; when it finds none, no key equals the label |
| Ranks.SubstringIndex | main.py:43-45 | The scan in insertion order: when it finds an index, that key occurs in the label and no earlier key does; when it finds none, no key occurs in it |
| Ranks.EquivalenciasDistinct | main.py:22-36 | The table's keys are pairwise distinct, as the keys of a dictionary are |
| Ranks.RankEmptyIffBlank | main.py:39-40 | The result is empty exactly when the cell is missing (NaN) or the label is all whitespace |
| Ranks.RankCanonicalOrLabel | main.py:41-46 | The result is always one of the table's canonical ranks or the cleaned label |
| Ranks.RankExactHit | main.py:41-42 | A cleaned label equal to a key yields that key's canonical rank |
| Ranks.RankFirstSubstring | main.py:43-45 | With no exact hit, the result is the canonical rank of the first key in table order that occurs in the cleaned label |
| Ranks.RankFallback | main.py:46 | When no key occurs in the cleaned label, the cleaned label itself is returned |
| Ranks.CleanIdempotent | main.py:40 | `strip().lower()` applied twice equals applying it once |
| Ranks.RankIdempotentIn | main.py:38-46 | Normalising is idempotent over any table whose canonical ranks all normalise to themselves |
| Ranks.InsertUnmatched | main.py:41-45 | Inserting a key that does not occur in the cleaned label, at any position, leaves that label's normalisation unchanged |
| Ranks.FixAgreesElsewhere | main.py:22-46 | The corrected table normalises every label not containing "cabo primero" exactly as the table as written does |
| RankCases.CaboUnoRo | main.py:32-45 | "cabo 1ro" normalises to "cabo primero": the key "cabo 1" comes before "cabo", which also occurs in it |
| RankCases.OficialAyte | main.py:43-45 | "oficial ayte" normalises to "ayudante", not "oficial ayudante": no "of …" key occurs in it, and the late key "ayte" is the first that does |
| RankCases.RankNotIdempotentAsWritten | main.py:32-45 | As written, "cabo 1ro" gives "cabo primero", but "cabo primero" gives "cabo", so the normaliser is not idempotent |
| RankCases.CanonicalRanksStable | main.py:22-46 | With the corrected table, each canonical rank normalises to itself |
| RankCases.NormalizeRankFixedIdempotent | main.py:38-46 | With the corrected table, normalising is idempotent for every cell |
| RankCases.CaboSpellingsAgreeFixed | main.py:32-46 | With the corrected table, "cabo 1ro" and "cabo primero" both normalise to "cabo primero" |
| Names.DropAnnotations | main.py:51 | Deleting `(…)` segments never lengthens the text (what it removes is stated by the lemmas below) |
| Names.DropAnnotationsLeavesNoPair | main.py:51 | After deletion, no `(` is followed anywhere later by a `)` |
| Names.AnnotationVanishes | main.py:51 | A closed `(…)` segment after a prefix without `(` is removed entirely, and the rest is processed on its own |
| Names.DropAnnotationsPlainPrefix | main.py:51 | Text before the first `(` passes through unchanged |
| Names.BaseLetter | main.py:52 | Mapping a character to its base letter gives the character itself or an ASCII letter, and fixes letters, whitespace and combining marks |
| Names.StripAccentsLeavesNone | main.py:52 | After accent removal, no combining mark is left and no character has a different base letter |
| Names.StripAccentsKeepsPlain | main.py:52 | Text of ASCII letters and whitespace passes accent removal unchanged |
| Names.KeepLettersAndSpace | main.py:53 | The filter leaves only ASCII letters and whitespace, and keeps every one of them as often as it occurred |
| Names.KeepLettersAndSpaceAppend | main.py:53 | The filter keeps order: filtering a concatenation is concatenating the filtered parts |
| Names.KeepLettersAndSpaceSingle | main.py:53 | A single character is kept exactly when it is an ASCII letter or whitespace |
| Names.DropAnnotationsUnclosed | main.py:51 | A text without `)` passes annotation removal unchanged, including any unclosed `(` |
| Names.CleanName | main.py:48-54 | A cleaned name holds only `A`–`Z` and whitespace, with no whitespace at either end; a missing cell gives `""` |
| Names.CleanNameIdempotent | main.py:48-54 | Cleaning a cleaned name changes nothing |
| Names.AnnotationIgnored | main.py:48-54 | A closed `(…)` annotation in a name, after a prefix without `(`, does not affect the cleaned name |
| Names.CleanNameNunez | main.py:48-54 | "Núñez (3)" cleans to "NUNEZ" |
| Matching.FirstEligible | main.py:120-130 | The candidate a parte row takes is in range, unmatched, same rank and scores at least the threshold, and every earlier lista row is matched already or fails the rank or score gate; when there is none, every row fails |
| Matching.Step | main.py:115-133 | Handling one parte row keeps all earlier pairings and never clears a matched flag |
| Matching.Absent | main.py:132-133 | Exactly the parte rows that found no partner are reported |
| Matching.Leftover | main.py:151 | Exactly the lista rows whose flag is still false are reported |
| Matching.AssignConsistent | main.py:115-133 | After any number of parte rows: every pairing passes the gate, no lista row is paired twice, a flag is set exactly when its row was paired, and every eligible lista row before a row's pick (or anywhere, when it found none) was taken by an earlier parte row |
| Matching.AssignCount | main.py:115-151 | Absentees plus matched lista rows equal the number of parte rows |
| Matching.ConsumedStaysConsumed | main.py:123-129 | Once a lista row is matched it stays matched for the rest of the loop |
| Matching.ThresholdNotMonotone | main.py:122-130 | Raising the threshold (the slider value) can lower the number of absentees, because greedy first-match is not monotone (a two-by-two sample at thresholds 50 and 70) |
| Reconciliation.Reconcile | main.py:103-151 | Over a given synonym table (`Equivalencias` for the program as written), the comparison block returns exactly the absentees and leftovers the greedy matcher specifies on the cleaned rows, and absentees plus matched lista rows equal the parte's length |
| Reconciliation.MatchRows | main.py:103-151 | The loop over parte rows with an in-place flag array computes the specified absentees and leftovers |
| Reconciliation.FindCandidate | main.py:120-130 | The inner scan over the flag array returns the specified first eligible lista row |
| Reconciliation.SelfMatch | main.py:115-133 | A one-row roster compared with itself leaves nothing to report when the name scores at least the threshold against itself |
| Reconciliation.SpellingsMissAsWritten | main.py:108-133 | As written: "cabo 1ro / Núñez (3)" on the parte and "cabo primero / NUNEZ" on the list land in ranks "cabo primero" and "cabo". The parte row is reported absent and the list row left over, whatever the names score |
| Reconciliation.RankMismatch | main.py:120-133 | A parte row and a lista row of different ranks are never matched: the parte row is absent and the lista row left over |
| Reconciliation.SpellingsReconcile | main.py:108-133 | With the corrected table, the same two rows are matched, so nothing is left to report |

## Left out

- The Streamlit page is not modelled: layout, text areas, button, result colours, balloons, and the error banner for exceptions (main.py:11-19, 77-101, 135-160).
- `procesar_texto_pegado` is not modelled: tab-separated parsing through pandas, header detection and column renaming (main.py:56-75). Rows come in already split into a rank cell and a name cell, with `None` for an empty (NaN) cell.
- The absentee and leftover display strings (`"<rank> - <name>"`) are not modelled. The model returns the indices of those rows, in the same order.
- `fuzz.token_set_ratio` is a foreign library function. It is a parameter `ratio` of every matching member, and no property of it is assumed, not even the 0–100 range.
- The slider range 50..100 (default 85) is not assumed. Every matching result holds for any integer threshold.
- `candidatos` in the source is a filtered copy of `sobran` taken before the inner loop. The inner loop stops right after its only write, so the copy never disagrees with `sobran` where it is read. The model scans the live flags instead.
- Names.BaseLetter: Unicode NFD decomposition with removal of category Mn is modelled only for Latin-1 letters with diacritics. Those map to their ASCII base letter, and the combining marks U+0300–U+036F are dropped. Other scripts' decompositions and other nonspacing marks are not covered.
- Text.Lower: `str.lower()` is modelled for ASCII and Latin-1 capitals only. Other Unicode case mappings are not covered.
- `str(texto)` on non-string cells, such as numbers read by pandas, is not modelled. Every present cell is already a string.

## Findings

| source | as written | input that shows it | evidently intended | confidence | as-written member | corrected member |
|---|---|---|---|---|---|---|
| main.py:32-45 | `EQUIVALENCIAS` has the key "cabo 1" for "cabo primero" but no key "cabo primero". So the canonical value "cabo primero" is scanned for substrings and hits "cabo". | rank "cabo primero" gives "cabo", while "cabo 1ro" gives "cabo primero". A "Cabo Primero" on one roster and the same person as "Cabo 1ro" on the other land in different ranks and never match (Reconciliation.SpellingsMissAsWritten). | every canonical rank normalises to itself, so normalising is idempotent | not executed | RankCases.RankNotIdempotentAsWritten | RankCases.NormalizeRankFixedIdempotent |

The corrected table (`Ranks.EquivalenciasFixed`) adds the entry "cabo primero" → "cabo primero" just before "cabo". Ranks.FixAgreesElsewhere proves that this changes nothing for any label that does not contain "cabo primero".
