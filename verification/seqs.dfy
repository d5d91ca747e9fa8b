/** The loop shape shared by header naming and row cleaning: walk a list in
    order, `continue` past some items, and append a transformed copy of the
    others. */
module Seqs {

  /** The elements of `s` satisfying `keep`, each mapped through `f`, in their
      original order. */
  function FilterMap<A, B>(s: seq<A>, keep: A -> bool, f: A -> B): (r: seq<B>)
    ensures |r| <= |s|
    ensures forall y :: y in r ==> exists x :: x in s && keep(x) && y == f(x)
  {
    if s == [] then []
    else (if keep(s[0]) then [f(s[0])] else []) + FilterMap(s[1..], keep, f)
  }

  lemma {:induction false} FilterMapAppend<A, B>(a: seq<A>, b: seq<A>, keep: A -> bool, f: A -> B)
    ensures FilterMap(a + b, keep, f) == FilterMap(a, keep, f) + FilterMap(b, keep, f)
    decreases |a|
  {
    if a != [] {
      assert (a + b)[1..] == a[1..] + b;
      FilterMapAppend(a[1..], b, keep, f);
    } else {
      assert a + b == b;
    }
  }

  /** Extending the input by one item extends the output by at most that item. */
  lemma FilterMapSnoc<A, B>(s: seq<A>, keep: A -> bool, f: A -> B, i: nat)
    requires i < |s|
    ensures FilterMap(s[..i + 1], keep, f)
         == FilterMap(s[..i], keep, f) + (if keep(s[i]) then [f(s[i])] else [])
  {
    assert s[..i + 1] == s[..i] + [s[i]];
    FilterMapAppend(s[..i], [s[i]], keep, f);
    assert [s[i]][1..] == [];
  }

  /** A kept item lands right after the outputs of the items before it. */
  lemma FilterMapKept<A, B>(s: seq<A>, keep: A -> bool, f: A -> B, i: nat)
    requires i < |s| && keep(s[i])
    ensures |FilterMap(s[..i], keep, f)| < |FilterMap(s, keep, f)|
    ensures FilterMap(s, keep, f)[|FilterMap(s[..i], keep, f)|] == f(s[i])
  {
    FilterMapSnoc(s, keep, f, i);
    assert s == s[..i + 1] + s[i + 1..];
    FilterMapAppend(s[..i + 1], s[i + 1..], keep, f);
  }

  /** Every output comes from a kept item, and the outputs keep the items'
      order: output `k` comes from the item with exactly `k` outputs before it. */
  lemma {:induction false} FilterMapOrigin<A, B>(s: seq<A>, keep: A -> bool, f: A -> B, k: nat)
    requires k < |FilterMap(s, keep, f)|
    ensures exists i :: 0 <= i < |s| && keep(s[i])
                        && |FilterMap(s[..i], keep, f)| == k
                        && FilterMap(s, keep, f)[k] == f(s[i])
    decreases |s|
  {
    var n := |s| - 1;
    assert s[..n + 1] == s;
    FilterMapSnoc(s, keep, f, n);
    var before := FilterMap(s[..n], keep, f);
    if k < |before| {
      FilterMapOrigin(s[..n], keep, f, k);
      var i :| 0 <= i < n && keep(s[..n][i])
               && |FilterMap(s[..n][..i], keep, f)| == k
               && before[k] == f(s[..n][i]);
      assert s[..n][..i] == s[..i];
      assert s[..n][i] == s[i];
    } else {
      assert keep(s[n]) && k == |before|;
    }
  }

  /** A list none of whose items is kept yields nothing. */
  lemma {:induction false} FilterMapNoneKept<A, B>(s: seq<A>, keep: A -> bool, f: A -> B)
    requires forall i :: 0 <= i < |s| ==> !keep(s[i])
    ensures FilterMap(s, keep, f) == []
    decreases |s|
  {
    if s != [] {
      assert !keep(s[0]);
      FilterMapNoneKept(s[1..], keep, f);
    }
  }
}
