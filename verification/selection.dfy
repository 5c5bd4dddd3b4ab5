/** Subsequences described by the indices that survive. Every erase-in-place
    loop of the converter keeps some entries of a list in their original
    order; the model computes the surviving indices and picks them. */
module Selection {

  /** `idx` lists positions of a list of length `n`, strictly increasing. */
  ghost predicate IsSelection(idx: seq<nat>, n: nat) {
    && (forall k :: 0 <= k < |idx| ==> idx[k] < n)
    && (forall k, l :: 0 <= k < l < |idx| ==> idx[k] < idx[l])
  }

  /** The entries of `s` at positions `idx`. */
  function Pick<T>(s: seq<T>, idx: seq<nat>): (r: seq<T>)
    requires forall k :: 0 <= k < |idx| ==> idx[k] < |s|
    ensures |r| == |idx|
    ensures forall k :: 0 <= k < |idx| ==> r[k] == s[idx[k]]
  {
    seq(|idx|, k requires 0 <= k < |idx| => s[idx[k]])
  }

  /** Selecting `inner` out of a selection `outer` is a selection of the
      original positions. */
  lemma ComposeIsSelection(outer: seq<nat>, inner: seq<nat>, n: nat)
    requires IsSelection(outer, n)
    requires IsSelection(inner, |outer|)
    ensures IsSelection(Pick(outer, inner), n)
  {
  }

  /** Picking twice is picking once through the composed selection. */
  lemma PickCompose<T>(s: seq<T>, outer: seq<nat>, inner: seq<nat>)
    requires forall k :: 0 <= k < |outer| ==> outer[k] < |s|
    requires forall k :: 0 <= k < |inner| ==> inner[k] < |outer|
    ensures Pick(s, Pick(outer, inner)) == Pick(Pick(s, outer), inner)
  {
  }

  /** `a` is obtained from `b` by erasing entries. */
  ghost predicate SubsequenceOf<T>(a: seq<T>, b: seq<T>) {
    exists idx :: IsSelection(idx, |b|) && |idx| == |a| && a == Pick(b, idx)
  }

  lemma SubsequenceReflexive<T>(a: seq<T>)
    ensures SubsequenceOf(a, a)
  {
    var idx := seq(|a|, k => k);
    assert a == Pick(a, idx);
  }

  lemma {:induction false} SubsequenceTransitive<T>(a: seq<T>, b: seq<T>, c: seq<T>)
    requires SubsequenceOf(a, b) && SubsequenceOf(b, c)
    ensures SubsequenceOf(a, c)
  {
    var ib :| IsSelection(ib, |b|) && |ib| == |a| && a == Pick(b, ib);
    var ic :| IsSelection(ic, |c|) && |ic| == |b| && b == Pick(c, ic);
    var idx := Pick(ic, ib);
    assert IsSelection(idx, |c|);
    assert a == Pick(c, idx);
  }

  /** The identity selection of the first `n` positions. */
  function All(n: nat): (r: seq<nat>)
    ensures |r| == n
    ensures forall k :: 0 <= k < n ==> r[k] == k
  {
    seq(n, k => k)
  }

  /** A selection is determined by its members. */
  lemma {:induction false} SelectionsAgree(a: seq<nat>, b: seq<nat>, n: nat)
    requires IsSelection(a, n) && IsSelection(b, n)
    requires forall j :: 0 <= j < n ==> (j in a <==> j in b)
    ensures a == b
    decreases |a|
  {
    SelectionLastBelow(a, b, n);
    SelectionLastBelow(b, a, n);
    if |a| > 0 {
      var x := a[|a| - 1];
      var a', b' := a[..|a| - 1], b[..|b| - 1];
      assert a == a' + [x] && b == b' + [x];
      forall j | 0 <= j < x ensures (j in a' <==> j in b') {
        assert j in a <==> j in a';
        assert j in b <==> j in b';
      }
      SelectionsAgree(a', b', x);
    }
  }

  /** The last member of `a` is also a member of `b`, so it is at most `b`'s last. */
  lemma SelectionLastBelow(a: seq<nat>, b: seq<nat>, n: nat)
    requires IsSelection(a, n) && IsSelection(b, n)
    requires forall j :: 0 <= j < n ==> (j in a <==> j in b)
    ensures |a| > 0 ==> |b| > 0 && a[|a| - 1] <= b[|b| - 1]
  {
    if |a| > 0 {
      var x := a[|a| - 1];
      assert x in a;
      var i :| 0 <= i < |b| && b[i] == x;
      if i < |b| - 1 {
        assert b[i] < b[|b| - 1];
      }
    }
  }

  /** Dropping the last member of a selection that ends at `n - 1`. */
  lemma SelectionDropLast(kept: seq<nat>, n: nat)
    requires IsSelection(kept, n) && |kept| > 0 && kept[|kept| - 1] == n - 1
    ensures IsSelection(kept[..|kept| - 1], n)
    ensures forall j :: j in kept[..|kept| - 1] <==> j in kept && j != n - 1
  {
    var front := kept[..|kept| - 1];
    assert kept == front + [n - 1];
    assert forall j :: j in front ==> j < n - 1;
  }

  /** The positions whose flag is set, in increasing order. */
  function Where(flags: seq<bool>): (r: seq<nat>)
    ensures IsSelection(r, |flags|)
    ensures forall j :: 0 <= j < |flags| ==> (j in r <==> flags[j])
  {
    if |flags| == 0 then []
    else
      var n := |flags| - 1;
      var front := Where(flags[..n]);
      var r := front + (if flags[n] then [n] else []);
      forall j | 0 <= j < |flags| ensures (j in r <==> flags[j]) {
        if j < n {
          assert flags[..n][j] == flags[j];
        }
      }
      r
  }

  /** Some position is picked exactly when some flag is set. */
  lemma WhereNonEmpty(flags: seq<bool>)
    ensures |Where(flags)| > 0 <==> exists j :: 0 <= j < |flags| && flags[j]
  {
    var r := Where(flags);
    if |r| > 0 {
      assert r[0] in r;
    }
  }
}
