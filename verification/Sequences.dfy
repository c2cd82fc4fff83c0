/** Steps on sequences that are stated once, for goals in which the parts are large. */
module Sequences {
  lemma Regroup<T>(a: seq<T>, b: seq<T>, c: seq<T>)
    ensures (a + b) + c == a + (b + c)
  {
  }

  lemma OneFurther<T>(s: seq<T>, from: nat, i: nat)
    requires from <= i < |s|
    ensures s[i..][0] == s[i] && s[i..][1..] == s[i + 1..] && s[from..i + 1] == s[from..i] + [s[i]]
  {
  }
}
