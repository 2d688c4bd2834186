/** Order-preserving selection: a list obtained from another by leaving elements out. */
module Subsequences {

  /** f lists, in increasing order, the positions of b that make up a. */
  ghost predicate Embeds<T>(a: seq<T>, b: seq<T>, f: seq<nat>) {
    && |f| == |a|
    && (forall i :: 0 <= i < |f| ==> f[i] < |b| && a[i] == b[f[i]])
    && (forall i, j :: 0 <= i < j < |f| ==> f[i] < f[j])
  }

  ghost predicate Subsequence<T>(a: seq<T>, b: seq<T>) {
    exists f :: Embeds(a, b, f)
  }

  lemma SubsequenceRefl<T>(a: seq<T>)
    ensures Subsequence(a, a)
  {
    assert Embeds(a, a, seq(|a|, i => i));
  }

  lemma SubsequenceTrans<T>(a: seq<T>, b: seq<T>, c: seq<T>)
    requires Subsequence(a, b) && Subsequence(b, c)
    ensures Subsequence(a, c)
  {
    var f :| Embeds(a, b, f);
    var g :| Embeds(b, c, g);
    var h := seq(|a|, i requires 0 <= i < |a| => g[f[i]]);
    assert Embeds(a, c, h);
  }

  lemma SubsequenceDelete<T>(s: seq<T>, k: nat)
    requires k < |s|
    ensures Subsequence(s[..k] + s[k + 1..], s)
  {
    assert Embeds(s[..k] + s[k + 1..], s, seq(|s| - 1, i => if i < k then i else i + 1));
  }

  lemma SubsequenceTail<T>(s: seq<T>)
    requires s != []
    ensures Subsequence(s[1..], s)
  {
    assert Embeds(s[1..], s, seq(|s| - 1, i => i + 1));
  }

  lemma SubsequenceSnoc<T>(a: seq<T>, b: seq<T>, x: T)
    requires Subsequence(a, b)
    ensures Subsequence(a + [x], b + [x])
  {
    var f: seq<nat> :| Embeds(a, b, f);
    var g: seq<nat> := f + [|b|];
    assert Embeds(a + [x], b + [x], g);
  }

  lemma SubsequenceWiden<T>(a: seq<T>, b: seq<T>, x: T)
    requires Subsequence(a, b)
    ensures Subsequence(a, b + [x])
  {
    var f: seq<nat> :| Embeds(a, b, f);
    assert Embeds(a, b + [x], f);
  }

  /** Dropping the first positions of an embedding. */
  lemma EmbedsTail<T>(a: seq<T>, b: seq<T>, f: seq<nat>)
    requires Embeds(a, b, f) && b != []
    ensures a != [] && f[0] == 0 ==> a[0] == b[0] && Subsequence(a[1..], b[1..])
    ensures a == [] || f[0] != 0 ==> Subsequence(a, b[1..])
  {
    if a != [] && f[0] == 0 {
      var g := seq(|a| - 1, i requires 0 <= i < |a| - 1 => f[i + 1] - 1);
      assert Embeds(a[1..], b[1..], g);
    } else {
      var g := seq(|a|, i requires 0 <= i < |a| => f[i] - 1);
      assert Embeds(a, b[1..], g);
    }
  }
}
