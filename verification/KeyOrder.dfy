/** Byte strings in the order the flattener emits them: by bytes, then by length. */
module KeyOrder {
  import opened Bytes

  type Key = seq<byte>

  predicate Below(a: Key, b: Key) {
    b != [] && (a == [] || a[0] < b[0] || (a[0] == b[0] && Below(a[1..], b[1..])))
  }

  lemma {:induction false} BelowTotal(a: Key, b: Key)
    ensures Below(a, b) || a == b || Below(b, a)
    ensures !(Below(a, b) && Below(b, a)) && !Below(a, a)
  {
    if a != [] && b != [] {
      BelowTotal(a[1..], b[1..]);
      BelowTotal(a[1..], a[1..]);
      assert a == [a[0]] + a[1..] && b == [b[0]] + b[1..];
    } else if a != [] {
      BelowTotal(a[1..], a[1..]);
    }
  }

  lemma {:induction false} BelowTransitive(a: Key, b: Key, c: Key)
    requires Below(a, b) && Below(b, c)
    ensures Below(a, c)
  {
    if a != [] && a[0] == b[0] == c[0] {
      BelowTransitive(a[1..], b[1..], c[1..]);
    }
  }

  predicate Increasing(ks: seq<Key>) {
    forall i, j :: 0 <= i < j < |ks| ==> Below(ks[i], ks[j])
  }

  function Elements<T>(s: seq<T>): set<T> {
    set x | x in s
  }

  lemma NoElements<T>(s: seq<T>)
    ensures s == [] <==> Elements(s) == {}
  {
    assert s != [] ==> s[0] in Elements(s);
  }

  /** A set of keys has at most one increasing enumeration. */
  lemma {:induction false} IncreasingUnique(a: seq<Key>, b: seq<Key>)
    requires Increasing(a) && Increasing(b) && Elements(a) == Elements(b)
    ensures a == b
  {
    NoElements(a);
    NoElements(b);
    if a != [] {
      SameLeast(a, b);
      DropLeast(a);
      DropLeast(b);
      IncreasingUnique(a[1..], b[1..]);
      assert a == [a[0]] + a[1..] && b == [b[0]] + b[1..];
    }
  }

  lemma SameLeast(a: seq<Key>, b: seq<Key>)
    requires Increasing(a) && Increasing(b) && Elements(a) == Elements(b) && a != [] && b != []
    ensures a[0] == b[0]
  {
    assert a[0] in Elements(b) && b[0] in Elements(a);
    var i :| 0 <= i < |b| && b[i] == a[0];
    var j :| 0 <= j < |a| && a[j] == b[0];
    BelowTotal(a[0], b[0]);
  }

  lemma DropLeast(a: seq<Key>)
    requires Increasing(a) && a != []
    ensures Elements(a[1..]) == Elements(a) - {a[0]}
  {
    forall x | x in a[1..]
      ensures x != a[0]
    {
      var i :| 0 <= i < |a[1..]| && a[1..][i] == x;
      assert Below(a[0], a[i + 1]);
      BelowTotal(x, x);
    }
    forall x | x in a && x != a[0]
      ensures x in a[1..]
    {
      var i :| 0 <= i < |a| && a[i] == x;
      assert a[1..][i - 1] == x;
    }
  }

  /** `key_cmp`. */
  method KeyCmp(a: Key, b: Key) returns (r: int)
    ensures r < 0 <==> Below(a, b)
    ensures r == 0 <==> a == b
    ensures r > 0 <==> Below(b, a)
  {
    BelowTotal(a, b);
    var n := if |a| < |b| then |a| else |b|;
    var i := 0;
    while i < n
      invariant i <= n && a[..i] == b[..i]
      invariant Below(a, b) <==> Below(a[i..], b[i..])
      invariant Below(b, a) <==> Below(b[i..], a[i..])
    {
      if a[i] != b[i] {
        return a[i] as int - b[i] as int;
      }
      assert a[i..][1..] == a[i + 1..] && b[i..][1..] == b[i + 1..];
      i := i + 1;
    }
    if |a| != |b| {
      return |a| - |b|;
    }
    return 0;
  }

  /** One step of the insertion sort: cur moves left past every greater key. */
  method Insert(arr: array<Key>, i: nat)
    requires 0 < i < arr.Length && Increasing(arr[..i]) && arr[i] !in arr[..i]
    modifies arr
    ensures Increasing(arr[..i + 1]) && Elements(arr[..i + 1]) == Elements(old(arr[..i + 1]))
    ensures arr[i + 1..] == old(arr[i + 1..])
  {
    ghost var p, whole := arr[..i], arr[..];
    var cur := arr[i];
    var j := i;  // one more than the source's j
    while j > 0
      invariant 0 <= j <= i
      invariant arr[..j] == p[..j] && arr[j + 1..i + 1] == p[j..] && arr[i + 1..] == whole[i + 1..]
      invariant forall k :: j <= k < i ==> Below(cur, p[k])
    {
      var c := KeyCmp(arr[j - 1], cur);
      if c <= 0 {
        break;
      }
      assert arr[j - 1] == p[j - 1];
      arr[j] := arr[j - 1];
      j := j - 1;
    }
    arr[j] := cur;
    assert arr[..i + 1] == p[..j] + [cur] + p[j..];
    assert whole[..i + 1] == p + [cur];
    InsertedIncreasing(p, j, cur);
  }

  lemma InsertedIncreasing(p: seq<Key>, j: nat, cur: Key)
    requires Increasing(p) && j <= |p|
    requires j > 0 ==> Below(p[j - 1], cur)
    requires forall k :: j <= k < |p| ==> Below(cur, p[k])
    ensures Increasing(p[..j] + [cur] + p[j..])
    ensures Elements(p[..j] + [cur] + p[j..]) == Elements(p + [cur])
  {
    var q := p[..j] + [cur] + p[j..];
    forall k | 0 <= k < j
      ensures Below(p[k], cur)
    {
      if k < j - 1 {
        BelowTransitive(p[k], p[j - 1], cur);
      }
    }
    forall m, n | 0 <= m < n < |q|
      ensures Below(q[m], q[n])
    {
      assert q[m] == if m < j then p[m] else if m == j then cur else p[m - 1];
      assert q[n] == if n < j then p[n] else if n == j then cur else p[n - 1];
    }
    assert p == p[..j] + p[j..];
    assert forall x :: x in q <==> x in p[..j] || x == cur || x in p[j..];
  }

  predicate DistinctKeys(ks: seq<Key>) {
    forall i, j :: 0 <= i < j < |ks| ==> ks[i] != ks[j]
  }

  /** `key_sort`: the first n keys end up in increasing order. */
  method KeySort(arr: array<Key>, n: nat)
    requires n <= arr.Length && DistinctKeys(arr[..n])
    modifies arr
    ensures Increasing(arr[..n]) && Elements(arr[..n]) == Elements(old(arr[..n]))
  {
    ghost var whole := arr[..];
    var i := 1;
    while i < n
      invariant n == 0 || 1 <= i <= n
      invariant n > 0 ==> Increasing(arr[..i]) && Elements(arr[..i]) == Elements(whole[..i])
      invariant arr[..] == whole || n > 0
      invariant n > 0 ==> arr[i..] == whole[i..]
    {
      assert arr[i] == arr[i..][0] == whole[i];
      assert arr[i] !in arr[..i] by { NotAmong(whole[..n], arr[..i], i); }
      Insert(arr, i);
      assert Elements(arr[..i + 1]) == Elements(whole[..i + 1]) by {
        SameFront(whole, i);
      }
      i := i + 1;
    }
  }

  lemma NotAmong(ks: seq<Key>, front: seq<Key>, i: nat)
    requires DistinctKeys(ks) && i < |ks| && Elements(front) == Elements(ks[..i])
    ensures ks[i] !in front
  {
    assert forall x :: x in front <==> x in Elements(ks[..i]);
    assert forall k :: 0 <= k < i ==> ks[..i][k] != ks[i];
  }

  lemma SameFront(whole: seq<Key>, i: nat)
    requires i < |whole|
    ensures Elements(whole[..i + 1]) == Elements(whole[..i]) + {whole[i]}
  {
    assert whole[..i + 1] == whole[..i] + [whole[i]];
  }
}
