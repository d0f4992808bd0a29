/** Small sequence helpers shared by the room model: first-occurrence
    lookup (JavaScript's `indexOf` / `findIndex`), removal at an index
    (`splice(i, 1)`), duplicate-freedom and order-preserving sublists. */
module Lists {

  datatype Option<+T> = None | Some(value: T)

  /** Index of the first occurrence of `x` in `s`, or -1 when `x` is absent. */
  function IndexOf<T(==)>(s: seq<T>, x: T): (i: int)
    ensures -1 <= i < |s|
    ensures i == -1 <==> x !in s
    ensures 0 <= i ==> s[i] == x && x !in s[..i]
  {
    if |s| == 0 then -1
    else if s[0] == x then 0
    else
      var j := IndexOf(s[1..], x);
      assert s[1..][..if j < 0 then 0 else j] == s[1..if j < 0 then 1 else j + 1];
      if j == -1 then -1 else j + 1
  }

  /** The sequence without its element at index `i`. */
  function RemoveAt<T>(s: seq<T>, i: int): (r: seq<T>)
    requires 0 <= i < |s|
    ensures |r| == |s| - 1
    ensures forall k :: 0 <= k < i ==> r[k] == s[k]
    ensures forall k :: i <= k < |r| ==> r[k] == s[k + 1]
  {
    s[..i] + s[i + 1..]
  }

  predicate NoDup<T(==)>(s: seq<T>) {
    forall i, j :: 0 <= i < j < |s| ==> s[i] != s[j]
  }

  /** In a duplicate-free sequence the first occurrence of `s[i]` is at `i`. */
  lemma IndexOfDistinct<T>(s: seq<T>, i: int)
    requires NoDup(s) && 0 <= i < |s|
    ensures IndexOf(s, s[i]) == i
  {
  }

  /** Removing one element of a duplicate-free sequence removes exactly
      that value and keeps the sequence duplicate-free. */
  lemma RemoveAtDistinct<T>(s: seq<T>, i: int)
    requires NoDup(s) && 0 <= i < |s|
    ensures NoDup(RemoveAt(s, i))
    ensures s[i] !in RemoveAt(s, i)
    ensures forall x :: x in RemoveAt(s, i) <==> x in s && x != s[i]
  {
    var r := RemoveAt(s, i);
    forall x | x in s && x != s[i]
      ensures x in r
    {
      var k :| 0 <= k < |s| && s[k] == x;
      if k < i { assert r[k] == x; } else { assert r[k - 1] == x; }
    }
  }

  /** `a` is `b` with some elements left out, the rest kept in order. */
  ghost predicate IsSublist<T>(a: seq<T>, b: seq<T>)
    decreases |b|
  {
    if |a| == 0 then true
    else if |b| == 0 then false
    else (a[0] == b[0] && IsSublist(a[1..], b[1..])) || IsSublist(a, b[1..])
  }

  lemma {:induction false} SublistRefl<T>(s: seq<T>)
    ensures IsSublist(s, s)
    decreases |s|
  {
    if |s| > 0 {
      SublistRefl(s[1..]);
    }
  }

  /** Removing one element leaves the others in order. */
  lemma {:induction false} RemoveAtSublist<T>(s: seq<T>, i: int)
    requires 0 <= i < |s|
    ensures IsSublist(RemoveAt(s, i), s)
    decreases i
  {
    if i == 0 {
      assert RemoveAt(s, 0) == s[1..];
      SublistRefl(s[1..]);
    } else {
      RemoveAtSublist(s[1..], i - 1);
      assert RemoveAt(s, i)[1..] == RemoveAt(s[1..], i - 1);
    }
  }

  lemma {:induction false} SublistTrans<T>(a: seq<T>, b: seq<T>, c: seq<T>)
    requires IsSublist(a, b) && IsSublist(b, c)
    ensures IsSublist(a, c)
    decreases |c|
  {
    if |a| == 0 {
    } else if |c| == 0 {
    } else if b[0] == c[0] && IsSublist(b[1..], c[1..]) {
      if a[0] == b[0] && IsSublist(a[1..], b[1..]) {
        SublistTrans(a[1..], b[1..], c[1..]);
      } else {
        SublistTrans(a, b[1..], c[1..]);
      }
    } else {
      SublistTrans(a, b, c[1..]);
    }
  }

  lemma {:induction false} SublistMembers<T>(a: seq<T>, b: seq<T>)
    requires IsSublist(a, b)
    ensures |a| <= |b|
    ensures forall x :: x in a ==> x in b
    decreases |b|
  {
    if |a| == 0 {
    } else if a[0] == b[0] && IsSublist(a[1..], b[1..]) {
      SublistMembers(a[1..], b[1..]);
      assert forall x :: x in a ==> x == a[0] || x in a[1..];
    } else {
      SublistMembers(a, b[1..]);
    }
  }

  /** A sublist of a duplicate-free sequence is duplicate-free. */
  lemma {:induction false} SublistNoDup<T>(a: seq<T>, b: seq<T>)
    requires IsSublist(a, b) && NoDup(b)
    ensures NoDup(a)
    decreases |b|
  {
    if |a| == 0 {
    } else {
      assert NoDup(b[1..]) by {
        forall i, j | 0 <= i < j < |b[1..]| ensures b[1..][i] != b[1..][j] {
          assert b[1..][i] == b[i + 1] && b[1..][j] == b[j + 1];
        }
      }
      if a[0] == b[0] && IsSublist(a[1..], b[1..]) {
        SublistNoDup(a[1..], b[1..]);
        SublistMembers(a[1..], b[1..]);
        assert b[0] !in b[1..];
        forall i, j | 0 <= i < j < |a| ensures a[i] != a[j] {
          if i == 0 {
            assert a[j] == a[1..][j - 1];
          } else {
            assert a[i] == a[1..][i - 1] && a[j] == a[1..][j - 1];
          }
        }
      } else {
        SublistNoDup(a, b[1..]);
      }
    }
  }

  /** The JavaScript idiom `new Set(s).size === s.length` holds exactly when
      `s` has no repeated element. */
  lemma {:induction false} DistinctBySize<T>(s: seq<T>)
    ensures |set x | x in s| == |s| <==> NoDup(s)
  {
    if |s| == 0 {
      assert (set x | x in s) == {};
    } else {
      var t := s[1..];
      DistinctBySize(t);
      assert (set x | x in s) == (set x | x in t) + {s[0]};
      SetSizeAtMostLength(t);
      if s[0] in t {
        assert (set x | x in s) == (set x | x in t);
        var k :| 0 <= k < |t| && t[k] == s[0];
        assert s[0] == s[k + 1];
      } else {
        assert NoDup(s) <==> NoDup(t) by {
          if NoDup(t) {
            forall i, j | 0 <= i < j < |s| ensures s[i] != s[j] {
              if i > 0 { assert s[i] == t[i - 1] && s[j] == t[j - 1]; }
              else { assert s[j] == t[j - 1]; }
            }
          }
          if NoDup(s) {
            forall i, j | 0 <= i < j < |t| ensures t[i] != t[j] {
              assert t[i] == s[i + 1] && t[j] == s[j + 1];
            }
          }
        }
      }
    }
  }

  lemma {:induction false} SetSizeAtMostLength<T>(s: seq<T>)
    ensures |set x | x in s| <= |s|
  {
    if |s| == 0 {
      assert (set x | x in s) == {};
    } else {
      SetSizeAtMostLength(s[1..]);
      assert (set x | x in s) == (set x | x in s[1..]) + {s[0]};
    }
  }
}
