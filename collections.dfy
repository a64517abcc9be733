/** Generic facts about sequences that the grouping engine leans on: duplicate-free
    sequences, first-occurrence de-duplication, sums and their invariance under
    reordering, a lexicographic order on strings with an insertion sort, and
    `join`. */
module Collections {

  /** No element occurs twice. */
  predicate NoDup<T(==)>(s: seq<T>) {
    forall p, q | 0 <= p < q < |s| :: s[p] != s[q]
  }

  /** The elements of `s`, each once, in the order of their first occurrence. */
  function Distinct<T(==, !new)>(s: seq<T>): (d: seq<T>)
    ensures NoDup(d)
    ensures forall x :: x in d <==> x in s
    ensures |d| <= |s|
  {
    if |s| == 0 then []
    else
      var d := Distinct(s[..|s| - 1]);
      assert s == s[..|s| - 1] + [s[|s| - 1]];
      if s[|s| - 1] in d then d else d + [s[|s| - 1]]
  }

  /** In a duplicate-free sequence every element is counted once. */
  lemma {:induction false} NoDupCount<T>(s: seq<T>, x: T)
    requires NoDup(s)
    ensures multiset(s)[x] == if x in s then 1 else 0
  {
    if |s| > 0 {
      assert s == [s[0]] + s[1..];
      assert s[0] !in s[1..] by {
        forall q | 0 <= q < |s[1..]| ensures s[1..][q] != s[0] {
          assert s[1..][q] == s[q + 1];
        }
      }
      NoDupCount(s[1..], x);
    }
  }

  /** Writing a value that is not yet present keeps a sequence duplicate-free. */
  lemma NoDupUpdate<T>(s: seq<T>, p: nat, v: T)
    requires NoDup(s) && p < |s| && v !in s
    ensures NoDup(s[p := v])
  {
  }

  /** A value found at two positions is counted at least twice. */
  lemma RepeatCount<T>(s: seq<T>, p: nat, q: nat)
    requires p < q < |s| && s[p] == s[q]
    ensures multiset(s)[s[p]] >= 2
  {
    assert s == s[..q] + s[q..];
    assert s[p] in s[..q];
    assert s[q] in s[q..];
  }

  /** Being duplicate-free depends only on the multiset of elements. */
  lemma NoDupPerm<T>(a: seq<T>, b: seq<T>)
    requires NoDup(a) && multiset(a) == multiset(b)
    ensures NoDup(b)
  {
    forall p, q | 0 <= p < q < |b| ensures b[p] != b[q] {
      if b[p] == b[q] {
        RepeatCount(b, p, q);
        NoDupCount(a, b[p]);
      }
    }
  }

  /** Two duplicate-free sequences with the same elements are permutations of each other. */
  lemma NoDupSameElements<T>(a: seq<T>, b: seq<T>)
    requires NoDup(a) && NoDup(b)
    requires forall x :: x in a <==> x in b
    ensures multiset(a) == multiset(b)
  {
    forall x ensures multiset(a)[x] == multiset(b)[x] {
      NoDupCount(a, x);
      NoDupCount(b, x);
    }
  }

  /** Removing position `k` from `s` removes one copy of `s[k]` from its multiset. */
  lemma RemoveAt<T>(s: seq<T>, k: nat)
    requires k < |s|
    ensures multiset(s) == multiset(s[..k] + s[k + 1..]) + multiset{s[k]}
  {
    assert s == s[..k] + [s[k]] + s[k + 1..];
  }

  /** The tail of a sequence and `t` with one copy of its head removed are permutations. */
  lemma TailPerm<T>(s: seq<T>, t: seq<T>, k: nat)
    requires |s| > 0 && k < |t| && t[k] == s[0] && multiset(s) == multiset(t)
    ensures multiset(s[1..]) == multiset(t[..k] + t[k + 1..])
  {
    RemoveAt(t, k);
    assert s == [s[0]] + s[1..];
    var a, b := multiset(s[1..]), multiset(t[..k] + t[k + 1..]);
    assert a + multiset{s[0]} == b + multiset{s[0]};
    forall x ensures a[x] == b[x] {
      assert (a + multiset{s[0]})[x] == (b + multiset{s[0]})[x];
    }
  }

  /** If two sequences are permutations of each other, so are their images under
      any function; the function is given by its values `fs` and `ft` on `s` and
      `t`, which must agree wherever `s` and `t` hold the same element. */
  lemma {:induction false} PermImage<A, B>(s: seq<A>, t: seq<A>, fs: seq<B>, ft: seq<B>)
    requires multiset(s) == multiset(t)
    requires |fs| == |s| && |ft| == |t|
    requires forall p, q :: 0 <= p < |s| && 0 <= q < |t| && s[p] == t[q] ==> fs[p] == ft[q]
    ensures multiset(fs) == multiset(ft)
  {
    if |s| == 0 {
      assert |t| == |multiset(t)| == 0;
    } else {
      assert s[0] in multiset(t);
      var k :| 0 <= k < |t| && t[k] == s[0];
      var t', ft' := t[..k] + t[k + 1..], ft[..k] + ft[k + 1..];
      TailPerm(s, t, k);
      RemoveAt(ft, k);
      assert fs == [fs[0]] + fs[1..];
      forall p, q | 0 <= p < |s[1..]| && 0 <= q < |t'| && s[1..][p] == t'[q]
        ensures fs[1..][p] == ft'[q]
      {
        if q < k {
          assert t'[q] == t[q] && ft'[q] == ft[q];
        } else {
          assert t'[q] == t[q + 1] && ft'[q] == ft[q + 1];
        }
      }
      PermImage(s[1..], t', fs[1..], ft');
    }
  }

  /** Sum of a sequence of reals. */
  function SumReal(s: seq<real>): real {
    if |s| == 0 then 0.0 else s[0] + SumReal(s[1..])
  }

  lemma {:induction false} SumRealRemove(s: seq<real>, k: nat)
    requires k < |s|
    ensures SumReal(s) == s[k] + SumReal(s[..k] + s[k + 1..])
  {
    if k == 0 {
      assert s[..k] + s[k + 1..] == s[1..];
    } else {
      SumRealRemove(s[1..], k - 1);
      assert s[..k] + s[k + 1..] == [s[0]] + (s[1..][..k - 1] + s[1..][k..]);
    }
  }

  /** A sum does not depend on the order of its terms. */
  lemma {:induction false} SumRealPerm(a: seq<real>, b: seq<real>)
    requires multiset(a) == multiset(b)
    ensures SumReal(a) == SumReal(b)
  {
    if |a| == 0 {
      assert |b| == |multiset(b)| == 0;
    } else {
      assert a[0] in multiset(b);
      var k :| 0 <= k < |b| && b[k] == a[0];
      SumRealRemove(b, k);
      TailPerm(a, b, k);
      SumRealPerm(a[1..], b[..k] + b[k + 1..]);
    }
  }

  /** A sum of non-negative terms is non-negative, and it is zero exactly when every term is. */
  lemma {:induction false} SumRealZero(s: seq<real>)
    requires forall k :: 0 <= k < |s| ==> s[k] >= 0.0
    ensures SumReal(s) >= 0.0
    ensures SumReal(s) == 0.0 <==> forall k :: 0 <= k < |s| ==> s[k] == 0.0
  {
    if |s| > 0 {
      SumRealZero(s[1..]);
      assert forall k :: 0 <= k < |s[1..]| ==> s[1..][k] == s[k + 1];
    }
  }

  /** Sum of a sequence of integers. */
  function SumInt(s: seq<int>): int {
    if |s| == 0 then 0 else s[0] + SumInt(s[1..])
  }

  lemma {:induction false} SumIntRemove(s: seq<int>, k: nat)
    requires k < |s|
    ensures SumInt(s) == s[k] + SumInt(s[..k] + s[k + 1..])
  {
    if k == 0 {
      assert s[..k] + s[k + 1..] == s[1..];
    } else {
      SumIntRemove(s[1..], k - 1);
      assert s[..k] + s[k + 1..] == [s[0]] + (s[1..][..k - 1] + s[1..][k..]);
    }
  }

  lemma {:induction false} SumIntPerm(a: seq<int>, b: seq<int>)
    requires multiset(a) == multiset(b)
    ensures SumInt(a) == SumInt(b)
  {
    if |a| == 0 {
      assert |b| == |multiset(b)| == 0;
    } else {
      assert a[0] in multiset(b);
      var k :| 0 <= k < |b| && b[k] == a[0];
      SumIntRemove(b, k);
      TailPerm(a, b, k);
      SumIntPerm(a[1..], b[..k] + b[k + 1..]);
    }
  }

  /** `parts.join(sep)`: the parts with `sep` between neighbours, "" for no parts. */
  function Join(parts: seq<string>, sep: string): string {
    if |parts| == 0 then ""
    else if |parts| == 1 then parts[0]
    else parts[0] + sep + Join(parts[1..], sep)
  }

  lemma AppendAssoc<T>(a: seq<T>, b: seq<T>, c: seq<T>)
    ensures (a + b) + c == a + (b + c)
  {
  }

  /** The blocks of `xss` one after the other. */
  function Flatten<T>(xss: seq<seq<T>>): seq<T> {
    if |xss| == 0 then [] else Flatten(xss[..|xss| - 1]) + xss[|xss| - 1]
  }

  /** Flattening one more block appends that block. */
  lemma FlattenSnoc<T>(xss: seq<seq<T>>, xs: seq<T>)
    ensures Flatten(xss + [xs]) == Flatten(xss) + xs
  {
    assert (xss + [xs])[..|xss|] == xss;
  }

  lemma MulSucc(a: nat, k: nat)
    ensures (a + 1) * k == a * k + k
  {
  }

  /** Blocks of `k` elements each flatten to `k` elements per block. */
  lemma {:induction false} FlattenUniform<T>(xss: seq<seq<T>>, k: nat)
    requires forall i | 0 <= i < |xss| :: |xss[i]| == k
    ensures |Flatten(xss)| == |xss| * k
  {
    if |xss| > 0 {
      FlattenUniform(xss[..|xss| - 1], k);
      MulSucc(|xss| - 1, k);
    }
  }

  /** With blocks of `k` elements each, element `p` of block `i` lands at
      position `i * k + p` of the flattened sequence. */
  lemma {:induction false} FlattenAt<T>(xss: seq<seq<T>>, k: nat, i: nat, p: nat)
    requires forall j | 0 <= j < |xss| :: |xss[j]| == k
    requires i < |xss| && p < k
    ensures i * k + p < |Flatten(xss)| && Flatten(xss)[i * k + p] == xss[i][p]
  {
    var front := xss[..|xss| - 1];
    FlattenUniform(front, k);
    MulSucc(|front|, k);
    if i < |front| {
      FlattenAt(front, k, i, p);
      MulBelow(i, |front|, k);
    }
  }

  lemma MulBelow(i: nat, n: nat, k: nat)
    requires i < n
    ensures i * k + k <= n * k
  {
    MulSucc(i, k);
    assert (i + 1) * k <= n * k by {
      var d := n - (i + 1);
      assert n * k == (i + 1) * k + d * k;
    }
  }

  /** Lexicographic order on strings by character code. */
  predicate LexLeq(a: string, b: string) {
    |a| == 0 || (|b| > 0 && (a[0] < b[0] || (a[0] == b[0] && LexLeq(a[1..], b[1..]))))
  }

  lemma {:induction false} LexLeqTotal(a: string, b: string)
    ensures LexLeq(a, b) || LexLeq(b, a)
  {
    if |a| > 0 && |b| > 0 && a[0] == b[0] {
      LexLeqTotal(a[1..], b[1..]);
    }
  }

  lemma {:induction false} LexLeqTransitive(a: string, b: string, c: string)
    requires LexLeq(a, b) && LexLeq(b, c)
    ensures LexLeq(a, c)
  {
    if |a| > 0 && a[0] == b[0] && b[0] == c[0] {
      LexLeqTransitive(a[1..], b[1..], c[1..]);
    }
  }

  predicate SortedLex(s: seq<string>) {
    forall p, q | 0 <= p < q < |s| :: LexLeq(s[p], s[q])
  }

  function Insert(x: string, s: seq<string>): (r: seq<string>)
    requires SortedLex(s)
    ensures SortedLex(r)
    ensures multiset(r) == multiset(s) + multiset{x}
  {
    if |s| == 0 then [x]
    else if LexLeq(x, s[0]) then
      assert SortedLex([x] + s) by {
        forall q | 0 < q < |s| + 1 ensures LexLeq(([x] + s)[0], ([x] + s)[q]) {
          if q > 1 { LexLeqTransitive(x, s[0], s[q - 1]); }
        }
      }
      [x] + s
    else
      LexLeqTotal(x, s[0]);
      var r := [s[0]] + Insert(x, s[1..]);
      assert s == [s[0]] + s[1..];
      assert SortedLex(r) by {
        forall q | 0 < q < |r| ensures LexLeq(r[0], r[q]) {
          assert r[q] in multiset(s[1..]) + multiset{x};
          if r[q] != x {
            var k :| 0 <= k < |s[1..]| && s[1..][k] == r[q];
            assert s[k + 1] == r[q];
          }
        }
      }
      r
  }

  /** `Array.prototype.sort` on strings, as an insertion sort: sorted and a permutation. */
  function SortStrings(s: seq<string>): (r: seq<string>)
    ensures SortedLex(r)
    ensures multiset(r) == multiset(s)
  {
    if |s| == 0 then []
    else
      assert s == [s[0]] + s[1..];
      Insert(s[0], SortStrings(s[1..]))
  }
}
