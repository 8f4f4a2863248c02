/** Strictly ascending key sequences, the shape of an in-order walk of an ordered tree. */
module KeySequences {

  ghost predicate Increasing(s: seq<int>) {
    forall i, j :: 0 <= i < j < |s| ==> s[i] < s[j]
  }

  /** Every element of `s` lies below `k`. */
  ghost predicate AllBelow(s: seq<int>, k: int) {
    forall i :: 0 <= i < |s| ==> s[i] < k
  }

  /** Every element of `s` lies above `k`. */
  ghost predicate AllAbove(s: seq<int>, k: int) {
    forall i :: 0 <= i < |s| ==> k < s[i]
  }

  ghost predicate SetBelow(keys: set<int>, k: int) {
    forall j :: j in keys ==> j < k
  }

  ghost predicate SetAbove(keys: set<int>, k: int) {
    forall j :: j in keys ==> k < j
  }

  lemma IncreasingConcat(a: seq<int>, x: int, b: seq<int>)
    ensures Increasing(a + [x] + b) <==> (Increasing(a) && Increasing(b) && AllBelow(a, x) && AllAbove(b, x))
  {
    var s := a + [x] + b;
    if Increasing(a) && Increasing(b) && AllBelow(a, x) && AllAbove(b, x) {
      forall i, j | 0 <= i < j < |s| ensures s[i] < s[j] {
        if j < |a| {
          assert s[i] == a[i] && s[j] == a[j];
        } else if j == |a| {
          assert s[i] == a[i] && s[j] == x;
        } else if i < |a| {
          assert s[i] == a[i] && s[j] == b[j - |a| - 1];
        } else if i == |a| {
          assert s[i] == x && s[j] == b[j - |a| - 1];
        } else {
          assert s[i] == b[i - |a| - 1] && s[j] == b[j - |a| - 1];
        }
      }
    }
    if Increasing(s) {
      forall i, j | 0 <= i < j < |a| ensures a[i] < a[j] {
        assert a[i] == s[i] && a[j] == s[j];
      }
      forall i, j | 0 <= i < j < |b| ensures b[i] < b[j] {
        assert b[i] == s[|a| + 1 + i] && b[j] == s[|a| + 1 + j];
      }
      forall i | 0 <= i < |a| ensures a[i] < x {
        assert a[i] == s[i] && x == s[|a|];
      }
      forall i | 0 <= i < |b| ensures x < b[i] {
        assert b[i] == s[|a| + 1 + i] && x == s[|a|];
      }
    }
  }

  /** A set and a sequence with the same members have the same bounds. */
  lemma SameMembersBounds(keys: set<int>, s: seq<int>, k: int)
    requires forall j :: j in keys <==> j in s
    ensures SetBelow(keys, k) <==> AllBelow(s, k)
    ensures SetAbove(keys, k) <==> AllAbove(s, k)
  {
    if AllBelow(s, k) {
      forall j | j in keys ensures j < k {
        var i :| 0 <= i < |s| && s[i] == j;
      }
    } else {
      var i :| 0 <= i < |s| && !(s[i] < k);
      assert s[i] in s;
    }
    if AllAbove(s, k) {
      forall j | j in keys ensures k < j {
        var i :| 0 <= i < |s| && s[i] == j;
      }
    } else {
      var i :| 0 <= i < |s| && !(k < s[i]);
      assert s[i] in s;
    }
  }
}
