/** The keyboard-layout repair of the T9 engine: two mutually inverse tables between QWERTY and ЙЦУКЕН. */
module KeyboardLayout {

  const EN_LOWER: string := "qwertyuiop[]asdfghjkl;'zxcvbnm,."
  const EN_UPPER: string := "QWERTYUIOP{}ASDFGHJKL:\"ZXCVBNM<>"
  const RU_LOWER: string := "йцукенгшщзхъфывапролджэячсмитьбю"
  const RU_UPPER: string := "ЙЦУКЕНГШЩЗХЪФЫВАПРОЛДЖЭЯЧСМИТЬБЮ"

  const EN: string := EN_LOWER + EN_UPPER
  const RU: string := RU_LOWER + RU_UPPER

  type Table = map<char, char>

  /** Every entry of either table is undone by the other, and no character is in both. */
  ghost predicate Inverse(en: Table, ru: Table) {
    && (forall c | c in en :: c !in ru && en[c] in ru && ru[en[c]] == c)
    && (forall d | d in ru :: d !in en && ru[d] in en && en[ru[d]] == d)
  }

  function Repair(en: Table, ru: Table, c: char): char {
    if c in en then en[c] else if c in ru then ru[c] else c
  }

  function Normalize(en: Table, ru: Table, input: string): (output: string)
    ensures |output| == |input|
    ensures forall i | 0 <= i < |input| :: output[i] == Repair(en, ru, input[i])
  {
    if input == [] then [] else [Repair(en, ru, input[0])] + Normalize(en, ru, input[1..])
  }

  /** With inverse tables, repairing twice gives back every string. */
  lemma NormalizeIsInvolution(en: Table, ru: Table, input: string)
    requires Inverse(en, ru)
    ensures Normalize(en, ru, Normalize(en, ru, input)) == input
  {
  }

  /** The table built from the first n pairs of two rows of keys. */
  function Pairs(from: string, to: string, n: nat): Table
    requires n <= |from| && n <= |to|
  {
    if n == 0 then map[] else Pairs(from, to, n - 1)[from[n - 1] := to[n - 1]]
  }

  // ---------- No key occurs twice ----------

  ghost predicate Distinct(s: string) {
    forall i, j | 0 <= i < j < |s| :: s[i] != s[j]
  }

  ghost predicate Apart(s: string, t: string) {
    forall i, j | 0 <= i < |s| && 0 <= j < |t| :: s[i] != t[j]
  }

  ghost predicate Within(s: string, low: char, high: char) {
    forall i | 0 <= i < |s| :: low <= s[i] <= high
  }

  lemma EnLowerDistinct()
    ensures |EN_LOWER| == 32 && Distinct(EN_LOWER)
  {
  }

  lemma EnUpperDistinct()
    ensures |EN_UPPER| == 32 && Distinct(EN_UPPER)
  {
  }

  lemma RuLowerDistinct()
    ensures |RU_LOWER| == 32 && Distinct(RU_LOWER)
  {
  }

  lemma RuUpperDistinct()
    ensures |RU_UPPER| == 32 && Distinct(RU_UPPER)
  {
  }

  lemma EnCasesApart()
    ensures Apart(EN_LOWER, EN_UPPER)
  {
    EnCasesApartFirst();
    EnCasesApartLast();
  }

  lemma EnCasesApartFirst()
    ensures forall i, j | 0 <= i < 16 && 0 <= j < |EN_UPPER| :: EN_LOWER[i] != EN_UPPER[j]
  {
  }

  lemma EnCasesApartLast()
    ensures |EN_LOWER| == 32
    ensures forall i, j | 16 <= i < 32 && 0 <= j < |EN_UPPER| :: EN_LOWER[i] != EN_UPPER[j]
  {
  }

  lemma EnLowerRange()
    ensures Within(EN_LOWER, '!', '~')
  {
  }

  lemma EnUpperRange()
    ensures Within(EN_UPPER, '!', '~')
  {
  }

  lemma RuLowerRange()
    ensures Within(RU_LOWER, 'а', 'я')
  {
  }

  lemma RuUpperRange()
    ensures Within(RU_UPPER, 'А', 'Я')
  {
  }

  lemma DistinctRows(a: string, b: string)
    requires Distinct(a) && Distinct(b) && Apart(a, b)
    ensures Distinct(a + b)
  {
  }

  lemma TablesDistinct()
    ensures |EN| == |RU| == 64 && Distinct(EN) && Distinct(RU) && Apart(EN, RU)
  {
    EnLowerDistinct();
    EnUpperDistinct();
    RuLowerDistinct();
    RuUpperDistinct();
    EnCasesApart();
    EnLowerRange();
    EnUpperRange();
    RuLowerRange();
    RuUpperRange();
    DistinctRows(EN_LOWER, EN_UPPER);
    DistinctRows(RU_LOWER, RU_UPPER);
  }

  lemma {:induction false} PairsInverse(en: string, ru: string, n: nat)
    requires n <= |en| == |ru| && Distinct(en) && Distinct(ru) && Apart(en, ru)
    ensures Inverse(Pairs(en, ru, n), Pairs(ru, en, n))
    ensures forall c | c in Pairs(en, ru, n) :: c in en[..n]
    ensures forall d | d in Pairs(ru, en, n) :: d in ru[..n]
  {
    if n > 0 {
      PairsInverse(en, ru, n - 1);
      assert en[n - 1] !in en[..n - 1] && ru[n - 1] !in ru[..n - 1];
      assert en[n - 1] !in ru[..n - 1] && ru[n - 1] !in en[..n - 1];
      assert en[..n] == en[..n - 1] + [en[n - 1]] && ru[..n] == ru[..n - 1] + [ru[n - 1]];
    }
  }

  lemma {:induction false} PairsAreEntries(from: string, to: string, n: nat, i: nat)
    requires i < n <= |from| && n <= |to| && Distinct(from)
    ensures from[i] in Pairs(from, to, n) && Pairs(from, to, n)[from[i]] == to[i]
  {
    if i < n - 1 { PairsAreEntries(from, to, n - 1, i); }
  }

  /** The engine's two tables. */
  ghost function EnTable(): Table {
    TablesDistinct();
    Pairs(EN, RU, 64)
  }

  ghost function RuTable(): Table {
    TablesDistinct();
    Pairs(RU, EN, 64)
  }

  /** The built tables are inverse, so the engine's repair undoes itself. */
  lemma BuiltTablesInverse()
    ensures Inverse(EnTable(), RuTable())
  {
    TablesDistinct();
    PairsInverse(EN, RU, 64);
  }

  /** The repair swaps the two characters of every key. */
  lemma RepairSwapsKeys(i: nat)
    requires i < 64
    ensures |EN| == |RU| == 64
    ensures Repair(EnTable(), RuTable(), EN[i]) == RU[i]
    ensures Repair(EnTable(), RuTable(), RU[i]) == EN[i]
  {
    BuiltTablesInverse();
    TablesDistinct();
    PairsAreEntries(EN, RU, 64, i);
    PairsAreEntries(RU, EN, 64, i);
  }

  // ---------- Which key types which letter ----------

  /** The keys of the letters from а to я, in alphabetical order, and of the capital ones. */
  const KEYS: string := "f,dult;pbqrkvyjghcnea[wxio]sm'.z"
  const CAPITAL_KEYS: string := "F<DULT:PBQRKVYJGHCNEA{WXIO}SM\">Z"

  ghost predicate Types(keys: string, first: char, key: char, letter: char) {
    && 0 <= letter as int - first as int < |keys|
    && keys[letter as int - first as int] == key
  }

  lemma LowerKeysTypeFirst(i: nat)
    requires i < 16
    ensures |EN_LOWER| == |RU_LOWER| == 32 && Types(KEYS, 'а', EN_LOWER[i], RU_LOWER[i])
  {
  }

  lemma LowerKeysTypeLast(i: nat)
    requires 16 <= i < 32
    ensures |EN_LOWER| == |RU_LOWER| == 32 && Types(KEYS, 'а', EN_LOWER[i], RU_LOWER[i])
  {
  }

  lemma UpperKeysTypeFirst(i: nat)
    requires i < 16
    ensures |EN_UPPER| == |RU_UPPER| == 32 && Types(CAPITAL_KEYS, 'А', EN_UPPER[i], RU_UPPER[i])
  {
  }

  lemma UpperKeysTypeLast(i: nat)
    requires 16 <= i < 32
    ensures |EN_UPPER| == |RU_UPPER| == 32 && Types(CAPITAL_KEYS, 'А', EN_UPPER[i], RU_UPPER[i])
  {
  }

  /** The keys repaired to Cyrillic letters are those of the ЙЦУКЕН layout, and the other way round. */
  lemma KeysTypeLetters(i: nat)
    requires i < 64
    ensures |EN| == 64
    ensures var key, letter := EN[i], Repair(EnTable(), RuTable(), EN[i]);
            && Repair(EnTable(), RuTable(), letter) == key
            && if i < 32 then Types("f,dult;pbqrkvyjghcnea[wxio]sm'.z", 'а', key, letter)
               else Types("F<DULT:PBQRKVYJGHCNEA{WXIO}SM\">Z", 'А', key, letter)
  {
    RepairSwapsKeys(i);
    hide Types, Repair;
    if i < 16 { LowerKeysTypeFirst(i); }
    else if i < 32 { LowerKeysTypeLast(i); }
    else if i < 48 { UpperKeysTypeFirst(i - 32); }
    else { UpperKeysTypeLast(i - 32); }
  }
}
