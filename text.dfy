/** String helpers used by the catalog queries: ASCII lower-casing (standing in for
    String.prototype.toLowerCase) and substring search (String.prototype.indexOf and
    String.prototype.includes). */
module Text {

  /** Lower-cases one character; only the ASCII letters 'A'..'Z' change. */
  function LowerChar(c: char): char
  {
    if 'A' <= c <= 'Z' then (c as int + 32) as char else c
  }

  /** The string with every ASCII upper-case letter replaced by its lower-case form. */
  function Lower(s: string): (r: string)
    ensures |r| == |s|
    ensures forall i :: 0 <= i < |s| ==> r[i] == LowerChar(s[i])
    ensures forall i :: 0 <= i < |s| ==> !('A' <= r[i] <= 'Z')
  {
    if s == [] then [] else [LowerChar(s[0])] + Lower(s[1..])
  }

  /** Lower-casing twice is lower-casing once. */
  lemma LowerIdempotent(s: string)
    ensures Lower(Lower(s)) == Lower(s)
  {
    var once := Lower(s);
    var twice := Lower(once);
    forall i | 0 <= i < |s| ensures twice[i] == once[i] {
      assert !('A' <= once[i] <= 'Z');
    }
  }

  /** `t` occurs in `s` starting at position `i`. */
  predicate OccursAt(s: string, t: string, i: int)
  {
    0 <= i && i + |t| <= |s| && s[i..i + |t|] == t
  }

  /** The first position at or after `from` where `t` occurs in `s`, or -1 when there is none. */
  function IndexFrom(s: string, t: string, from: nat): (k: int)
    decreases |s| - from
    ensures k == -1 || (from <= k && OccursAt(s, t, k))
    ensures k == -1 ==> forall j :: from <= j ==> !OccursAt(s, t, j)
    ensures k != -1 ==> forall j :: from <= j < k ==> !OccursAt(s, t, j)
  {
    if from + |t| > |s| then -1
    else if s[from..from + |t|] == t then from
    else IndexFrom(s, t, from + 1)
  }

  /** The first position where `t` occurs in `s`, or -1 (String.prototype.indexOf). */
  function IndexOf(s: string, t: string): (k: int)
    ensures k == -1 || 0 <= k <= |s| - |t|
    ensures k == -1 <==> forall j :: !OccursAt(s, t, j)
    ensures k != -1 ==> OccursAt(s, t, k) && forall j :: 0 <= j < k ==> !OccursAt(s, t, j)
  {
    IndexFrom(s, t, 0)
  }

  /** `s` contains `t` as a contiguous substring (String.prototype.includes). */
  predicate Includes(s: string, t: string): (b: bool)
    ensures b <==> exists i :: OccursAt(s, t, i)
  {
    IndexOf(s, t) != -1
  }

  /** `t` occurs in `s` at position `i` when letter case is ignored. */
  predicate OccursIgnoringCase(s: string, t: string, i: int)
  {
    0 <= i && i + |t| <= |s| && forall k :: 0 <= k < |t| ==> LowerChar(s[i + k]) == LowerChar(t[k])
  }

  /** Searching the lower-cased strings finds exactly the case-insensitive occurrences. */
  lemma LowerOccursAt(s: string, t: string)
    ensures forall i :: OccursAt(Lower(s), Lower(t), i) <==> OccursIgnoringCase(s, t, i)
  {
    var ls, lt := Lower(s), Lower(t);
    forall i ensures OccursAt(ls, lt, i) <==> OccursIgnoringCase(s, t, i) {
      if 0 <= i && i + |t| <= |s| {
        if OccursAt(ls, lt, i) {
          forall k | 0 <= k < |t| ensures LowerChar(s[i + k]) == LowerChar(t[k]) {
            assert ls[i..i + |t|][k] == ls[i + k];
          }
        }
        if OccursIgnoringCase(s, t, i) {
          assert ls[i..i + |t|] == lt;
        }
      }
    }
  }

  /** Every string includes the empty string. */
  lemma IncludesEmpty(s: string)
    ensures Includes(s, "")
  {
    assert OccursAt(s, "", 0);
  }
}
