/** The compressed tables of lex.yy.c (lines 363-428) and the transition they encode: a missing entry
    is looked up along a chain of default states (lex.yy.c:658-664). */
module ScanTables {
  import opened Tokens

  const YY_ACCEPT: seq<int> := [0, 0, 0, 6, 4, 3, 5, 2, 1, 1, 3, 1, 0]
  const YY_META: seq<int> := [0, 1, 2, 1, 1, 1, 3]
  const YY_BASE: seq<int> := [0, 0, 0, 9, 10, 0, 10, 10, 10, 0, 0, 0, 10, 6, 4]
  const YY_DEF: seq<int> := [0, 12, 1, 12, 12, 13, 12, 12, 12, 14, 13, 14, 0, 12, 12]
  const YY_NXT: seq<int> := [0, 4, 5, 6, 7, 8, 9, 11, 10, 12, 3, 12, 12, 12, 12, 12, 12]
  const YY_CHK: seq<int> := [0, 1, 1, 1, 1, 1, 1, 14, 13, 3, 12, 12, 12, 12, 12, 12, 12]

  const YY_EC0: seq<int> := [
    0,
    1, 1, 1, 1, 1, 1, 1, 1, 2, 3,
    1, 1, 4, 1, 1, 1, 1, 1, 1, 1,
    1, 1, 1, 1, 1, 1, 1, 1, 1, 1]
  const YY_EC1: seq<int> := [
    1, 2, 1, 1, 1, 1, 1, 5, 1, 5,
    5, 5, 1, 1, 6, 6, 6, 6, 6, 6,
    6, 6, 6, 6, 6, 6, 6, 1, 5, 5]
  const YY_EC2: seq<int> := [
    1, 5, 1, 1, 6, 6, 6, 6, 6, 6,
    6, 6, 6, 6, 6, 6, 6, 6, 6, 6,
    6, 6, 6, 6, 6, 6, 6, 6, 6, 6]
  const YY_EC3: seq<int> := [
    1, 1, 1, 1, 1, 1, 6, 6, 6, 6,
    6, 6, 6, 6, 6, 6, 6, 6, 6, 6,
    6, 6, 6, 6, 6, 6, 6, 6, 6, 6]
  const YY_EC4: seq<int> := [
    6, 6, 1, 5, 1, 1, 1, 1, 1, 1,
    1, 1, 1, 1, 1, 1, 1, 1, 1, 1,
    1, 1, 1, 1, 1, 1, 1, 1, 1, 1]
  const YY_EC5: seq<int> := [
    1, 1, 1, 1, 1, 1, 1, 1, 1, 1,
    1, 1, 1, 1, 1, 1, 1, 1, 1, 1,
    1, 1, 1, 1, 1, 1, 1, 1, 1, 1]
  const YY_EC6: seq<int> := [
    1, 1, 1, 1, 1, 1, 1, 1, 1, 1,
    1, 1, 1, 1, 1, 1, 1, 1, 1, 1,
    1, 1, 1, 1, 1, 1, 1, 1, 1, 1]
  const YY_EC7: seq<int> := [
    1, 1, 1, 1, 1, 1, 1, 1, 1, 1,
    1, 1, 1, 1, 1, 1, 1, 1, 1, 1,
    1, 1, 1, 1, 1, 1, 1, 1, 1, 1]
  const YY_EC8: seq<int> := [
    1, 1, 1, 1, 1, 1, 1, 1, 1, 1,
    1, 1, 1, 1, 1]

  const YY_EC := YY_EC0 + (YY_EC1 + (YY_EC2 + (YY_EC3 + (YY_EC4 + (YY_EC5 + (YY_EC6 + (YY_EC7 + YY_EC8)))))))

  const CHARS := 256

  /** The equivalence class the rules need for a character. */
  function ClassOf(c: char): (k: nat)
    ensures k <= 6
  {
    if c == '\0' then 0
    else if BlankSet.Has(c) then 2
    else if c == '\n' then 3
    else if c == '\r' then 4
    else if SpecialSet.Has(c) then 5
    else if WordSet.Has(c) then 6
    else 1
  }

  /** One page of the table, starting with the entry of character `start`. */
  predicate PageAgrees(page: seq<int>, start: nat) {
    start + |page| <= CHARS && forall i :: 0 <= i < |page| ==> page[i] == ClassOf((start + i) as char)
  }

  lemma Page0Agrees()
    ensures PageAgrees(YY_EC0, 0) && |YY_EC0| == 31
  {
  }

  lemma Page1Agrees()
    ensures PageAgrees(YY_EC1, 31) && |YY_EC1| == 30
  {
  }

  lemma Page2Agrees()
    ensures PageAgrees(YY_EC2, 61) && |YY_EC2| == 30
  {
  }

  lemma Page3Agrees()
    ensures PageAgrees(YY_EC3, 91) && |YY_EC3| == 30
  {
  }

  lemma Page4Agrees()
    ensures PageAgrees(YY_EC4, 121) && |YY_EC4| == 30
  {
  }

  lemma Page5Agrees()
    ensures PageAgrees(YY_EC5, 151) && |YY_EC5| == 30
  {
  }

  lemma Page6Agrees()
    ensures PageAgrees(YY_EC6, 181) && |YY_EC6| == 30
  {
  }

  lemma Page7Agrees()
    ensures PageAgrees(YY_EC7, 211) && |YY_EC7| == 30
  {
  }

  lemma Page8Agrees()
    ensures PageAgrees(YY_EC8, 241) && |YY_EC8| == 15
  {
  }

  lemma PagesAgree(a: seq<int>, b: seq<int>, start: nat)
    requires PageAgrees(a, start) && PageAgrees(b, start + |a|)
    ensures PageAgrees(a + b, start)
  {
  }

  /** The table gives every character the class the rules need. */
  lemma EcIsClass()
    ensures PageAgrees(YY_EC, 0) && |YY_EC| == CHARS
  {
    hide PageAgrees;
    Page0Agrees();
    Page1Agrees();
    Page2Agrees();
    Page3Agrees();
    Page4Agrees();
    Page5Agrees();
    Page6Agrees();
    Page7Agrees();
    Page8Agrees();
    var tail := YY_EC8;
    PagesAgree(YY_EC7, tail, 211);
    tail := YY_EC7 + tail;
    PagesAgree(YY_EC6, tail, 181);
    tail := YY_EC6 + tail;
    PagesAgree(YY_EC5, tail, 151);
    tail := YY_EC5 + tail;
    PagesAgree(YY_EC4, tail, 121);
    tail := YY_EC4 + tail;
    PagesAgree(YY_EC3, tail, 91);
    tail := YY_EC3 + tail;
    PagesAgree(YY_EC2, tail, 61);
    tail := YY_EC2 + tail;
    PagesAgree(YY_EC1, tail, 31);
    tail := YY_EC1 + tail;
    PagesAgree(YY_EC0, tail, 0);
  }

  // ---------- transitions ----------

  predicate IsState(s: int) { 1 <= s <= 14 }

  /** How many default states are still to be tried behind a state. */
  function Rank(s: int): nat {
    if s == 12 then 0 else if s == 2 || s == 5 || s == 9 || s == 10 || s == 11 then 2 else 1
  }

  /** The entry a state has of its own for a class. */
  predicate Owns(s: int, k: int)
    requires IsState(s) && 0 <= k <= 6
  {
    YY_CHK[YY_BASE[s] + k] == s
  }

  /** Every lookup stays within the tables, and a state without an entry of its own has a default
      of smaller rank: the chains end, at the latest in state 12. */
  lemma DefaultsDescend(s: int, k: int)
    requires IsState(s) && 0 <= k <= 6
    ensures 0 <= YY_BASE[s] + k < |YY_CHK| == |YY_NXT|
    ensures !Owns(s, k) ==> IsState(YY_DEF[s]) && Rank(YY_DEF[s]) < Rank(s)
    ensures 0 <= YY_META[k] <= 6
    ensures Owns(s, k) ==> IsState(YY_NXT[YY_BASE[s] + k]) || s >= 13
  {
  }

  /** The next state: the entry of the state or of the first default state that has one. Template
      states, 13 and up, are looked up by the class's template class. */
  function Chase(s: int, k: int): (next: int)
    requires IsState(s) && 0 <= k <= 6
    ensures 3 <= next <= 12
    decreases Rank(s)
  {
    DefaultsDescend(s, k);
    if Owns(s, k) then YY_NXT[YY_BASE[s] + k]
    else Chase(YY_DEF[s], if YY_DEF[s] >= 13 then YY_META[k] else k)
  }

  /** yy_base is 10 exactly for the states without transitions. */
  predicate IsStuck(s: int)
    requires IsState(s)
  {
    YY_BASE[s] == 10
  }

  lemma StartTransitions()
    ensures Chase(1, 0) == 3 && Chase(1, 1) == 4 && Chase(1, 2) == 5 && Chase(1, 3) == 6
    ensures Chase(1, 4) == 7 && Chase(1, 5) == 8 && Chase(1, 6) == 9
  {
  }

  lemma EndTransition()
    ensures Chase(3, 0) == 12
  {
  }

  lemma BlankTransitions(s: int, k: int)
    requires (s == 5 || s == 10) && 0 <= k <= 6
    ensures Chase(s, k) == if k == 2 then 10 else if k == 0 then 3 else 12
  {
    DefaultOnce(13, 2, 10, k);
  }

  lemma WordTransitions(s: int, k: int)
    requires (s == 9 || s == 11) && 0 <= k <= 6
    ensures Chase(s, k) == if k == 6 then 11 else if k == 0 then 3 else 12
  {
    DefaultOnce(14, 6, 11, k);
  }

  /** The template states: one entry of their own, state 12 for the rest. */
  lemma DefaultOnce(t: int, own: int, next: int, k: int)
    requires (t == 13 && own == 2 && next == 10) || (t == 14 && own == 6 && next == 11)
    requires 0 <= k <= 6
    ensures Chase(t, YY_META[k]) == if k == own then next else if k == 0 then 3 else 12
  {
  }
}
