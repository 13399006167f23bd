/** Small definitions that several modules share. */
module Common {

  datatype Option<T> = None | Some(value: T)

  const WORD := 0x1_0000_0000_0000_0000  // 2^64

  ghost predicate Distinct(s: seq<nat>) {
    forall i, j :: 0 <= i < j < |s| ==> s[i] != s[j]
  }

  /** s[i], and 0 (the null pointer) outside the sequence. */
  ghost function At(s: seq<nat>, i: int): nat {
    if 0 <= i < |s| then s[i] else 0
  }

  ghost function Remove(s: seq<nat>, i: int): (r: seq<nat>)
    requires 0 <= i < |s|
  {
    s[..i] + s[i + 1..]
  }

  lemma RemoveMembers(s: seq<nat>, i: int)
    requires Distinct(s) && 0 <= i < |s|
    ensures Distinct(Remove(s, i)) && forall c :: c in Remove(s, i) <==> c in s && c != s[i]
  {
    var r := Remove(s, i);
    forall c | c in s && c != s[i] ensures c in r {
      var j :| 0 <= j < |s| && s[j] == c;
      assert r[if j < i then j else j - 1] == c;
    }
    forall c | c in r ensures c in s && c != s[i] {
      var j :| 0 <= j < |r| && r[j] == c;
      assert c == s[if j < i then j else j + 1];
    }
  }

  /** Different numbers below m are at most m many. */
  lemma {:induction false} Pigeonhole(s: seq<nat>, m: nat)
    requires Distinct(s) && forall i :: 0 <= i < |s| ==> s[i] < m
    ensures |s| <= m
  {
    assert |s| > 0 ==> s[0] < m;
    if m > 0 {
      if i :| 0 <= i < |s| && s[i] == m - 1 {
        RemoveMembers(s, i);
        forall j | 0 <= j < |s| - 1 ensures Remove(s, i)[j] < m - 1 { assert Remove(s, i)[j] in s; }
        Pigeonhole(Remove(s, i), m - 1);
      } else {
        Pigeonhole(s, m - 1);
      }
    }
  }
}
