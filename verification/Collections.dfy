/** Small shared notions: optional values, sequences without repetition, and removal from a sequence. */
module Collections {

  datatype Option<T> = None | Some(value: T)

  predicate Distinct<T(==)>(s: seq<T>)
  {
    forall i, j :: 0 <= i < j < |s| ==> s[i] != s[j]
  }

  function Repeat<T>(x: T, n: nat): (s: seq<T>)
    ensures |s| == n
  {
    seq(n, _ => x)
  }

  function Elements<T(==)>(s: seq<T>): set<T> { set x | x in s }

  lemma Associate<T>(a: seq<T>, b: seq<T>, c: seq<T>)
    ensures a + (b + c) == (a + b) + c
  {
  }

  /** The first position of `x`, or the length: `std::find`. */
  function IndexOf<T(==)>(s: seq<T>, x: T): (i: nat)
    ensures i <= |s| && (i < |s| <==> x in s)
    ensures i < |s| ==> s[i] == x
    ensures x !in s[..i]
  {
    if s == [] || s[0] == x then 0 else
      var i := 1 + IndexOf(s[1..], x);
      assert s == [s[0]] + s[1..];
      assert s[..i] == [s[0]] + s[1..][..i - 1];
      i
  }

  /** Erasing the first occurrence of `x`, if there is one. */
  function RemoveFirst<T(==)>(s: seq<T>, x: T): seq<T>
  {
    var i := IndexOf(s, x);
    if i < |s| then s[..i] + s[i + 1..] else s
  }

  /** Erasing every occurrence of `x`: `std::remove` followed by `erase`. */
  function Without<T(==)>(s: seq<T>, x: T): (r: seq<T>)
    ensures forall y :: y in s ==> (y in r <==> y != x)
    ensures forall i :: 0 <= i < |r| ==> r[i] in s && r[i] != x
  {
    if s == [] then [] else
      assert s == [s[0]] + s[1..];
      (if s[0] == x then [] else [s[0]]) + Without(s[1..], x)
  }

  lemma WithoutMember<T>(s: seq<T>, x: T, y: T)
    ensures y in Without(s, x) <==> y in s && y != x
  {
  }

  lemma {:induction false} WithoutAppend<T>(s: seq<T>, y: T, x: T)
    ensures Without(s + [y], x) == Without(s, x) + if y == x then [] else [y]
    decreases |s|
  {
    if s == [] {
      assert [] + [y] == [y] && [y][1..] == [];
    } else {
      assert (s + [y])[1..] == s[1..] + [y];
      WithoutAppend(s[1..], y, x);
    }
  }

  lemma {:induction false} WithoutAbsent<T>(s: seq<T>, x: T)
    requires x !in s
    ensures Without(s, x) == s
    decreases |s|
  {
    if s == [] {
    } else {
      assert s == [s[0]] + s[1..];
      WithoutAbsent(s[1..], x);
    }
  }

  lemma {:induction false} WithoutDistinct<T>(s: seq<T>, x: T)
    requires Distinct(s)
    ensures Distinct(Without(s, x))
    decreases |s|
  {
    if s == [] {
    } else {
      DistinctSlice(s, 1, |s|);
      WithoutDistinct(s[1..], x);
      var r := Without(s[1..], x);
      forall k | 0 <= k < |r| ensures r[k] in s[1..] && r[k] != s[0] {
        assert r[k] in r;
        var j :| 0 <= j < |s[1..]| && s[1..][j] == r[k];
        assert s[j + 1] == r[k];
      }
    }
  }

  lemma DistinctSlice<T>(s: seq<T>, lo: nat, hi: nat)
    requires Distinct(s) && lo <= hi <= |s|
    ensures Distinct(s[lo..hi])
  {
    forall i, j | 0 <= i < j < hi - lo ensures s[lo..hi][i] != s[lo..hi][j] {
      assert s[lo + i] != s[lo + j];
    }
  }

  lemma AppendDistinct<T>(s: seq<T>, x: T)
    requires Distinct(s) && x !in s
    ensures Distinct(s + [x])
  {
  }

  /** Without repetitions, erasing the first occurrence erases the element. */
  lemma RemoveFirstDistinct<T>(s: seq<T>, x: T)
    requires Distinct(s)
    ensures RemoveFirst(s, x) == Without(s, x) && Distinct(RemoveFirst(s, x))
  {
    hide Without, Distinct;
    var i := IndexOf(s, x);
    WithoutDistinct(s, x);
    if i < |s| {
      AbsentBehind(s, i);
      assert s == s[..i] + ([x] + s[i + 1..]);
      WithoutOne(s[..i], s[i + 1..], x);
    } else {
      WithoutAbsent(s, x);
    }
  }

  lemma WithoutOne<T>(front: seq<T>, back: seq<T>, x: T)
    requires x !in front && x !in back
    ensures Without(front + ([x] + back), x) == front + back
  {
    hide Without;
    WithoutSplit(front, [x] + back, x);
    WithoutAbsent(front, x);
    WithoutHead(back, x);
    WithoutAbsent(back, x);
  }

  lemma AbsentBehind<T>(s: seq<T>, i: nat)
    requires Distinct(s) && i < |s|
    ensures s[i] !in s[i + 1..]
  {
  }

  lemma WithoutHead<T>(s: seq<T>, x: T)
    ensures Without([x] + s, x) == Without(s, x)
  {
    assert ([x] + s)[1..] == s;
  }

  lemma {:induction false} WithoutSplit<T>(a: seq<T>, b: seq<T>, x: T)
    ensures Without(a + b, x) == Without(a, x) + Without(b, x)
    decreases |a|
  {
    if a == [] {
      assert a + b == b;
    } else {
      assert (a + b)[1..] == a[1..] + b;
      WithoutSplit(a[1..], b, x);
    }
  }
}
