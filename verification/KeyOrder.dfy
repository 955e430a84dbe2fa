/** The key order of the index: Go's strings.Compare on byte strings. */
module KeyOrder {

  // One char stands for one byte of the Go string.
  type Key = string

  // strings.Compare: three-way lexicographic comparison.
  function Compare(a: Key, b: Key): (r: int)
    ensures -1 <= r <= 1
    ensures r == 0 <==> a == b
  {
    if a == [] then
      if b == [] then 0 else -1
    else if b == [] then 1
    else if a[0] < b[0] then -1
    else if a[0] > b[0] then 1
    else
      assert a == [a[0]] + a[1..] && b == [b[0]] + b[1..];
      Compare(a[1..], b[1..])
  }

  predicate Less(a: Key, b: Key) {
    Compare(a, b) < 0
  }

  lemma {:induction false} CompareAntisymmetric(a: Key, b: Key)
    ensures Compare(a, b) == -Compare(b, a)
  {
    if a != [] && b != [] && a[0] == b[0] {
      CompareAntisymmetric(a[1..], b[1..]);
    }
  }

  lemma {:induction false} LessTransitive(a: Key, b: Key, c: Key)
    requires Less(a, b) && Less(b, c)
    ensures Less(a, c)
  {
    if a != [] && c != [] && a[0] == b[0] && b[0] == c[0] {
      LessTransitive(a[1..], b[1..], c[1..]);
    }
  }

  // Strict total order: exactly one of a < b, a == b, b < a.
  lemma LessTrichotomy(a: Key, b: Key)
    ensures Less(a, b) <==> a != b && !Less(b, a)
  {
    CompareAntisymmetric(a, b);
  }

  /** The keys agree up to i and have different bytes there, the smaller one in a. */
  ghost predicate SmallerAt(a: Key, b: Key, i: int) {
    0 <= i < |a| && i < |b| && a[..i] == b[..i] && a[i] < b[i]
  }

  /** The order is lexicographic: a proper prefix comes first, otherwise the first difference decides. */
  lemma {:induction false} LessIsLexicographic(a: Key, b: Key)
    ensures Less(a, b) <==> a < b || exists i :: SmallerAt(a, b, i)
  {
    if a != [] && b != [] && a[0] == b[0] {
      LessIsLexicographic(a[1..], b[1..]);
      assert a == [a[0]] + a[1..] && b == [a[0]] + b[1..];
      forall i ensures i > 0 ==> (SmallerAt(a, b, i) <==> SmallerAt(a[1..], b[1..], i - 1)) {
        if 0 < i < |a| && i < |b| {
          assert a[..i] == [a[0]] + a[1..][..i - 1] && b[..i] == [a[0]] + b[1..][..i - 1];
        }
      }
      if i :| SmallerAt(a[1..], b[1..], i) { assert SmallerAt(a, b, i + 1); }
    } else if a != [] && b != [] {
      assert a[0] < b[0] ==> SmallerAt(a, b, 0);
      forall i | 0 < i < |a| && i < |b| ensures a[..i] != b[..i] {
        assert a[..i][0] == a[0] && b[..i][0] == b[0];
      }
    }
  }

  /** Every key of `s` is strictly below `k`. */
  ghost predicate AllBelow(s: set<Key>, k: Key) {
    forall x :: x in s ==> Less(x, k)
  }

  /** Every key of `s` is strictly above `k`. */
  ghost predicate AllAbove(k: Key, s: set<Key>) {
    forall x :: x in s ==> Less(k, x)
  }

  lemma BelowWeaken(s: set<Key>, k: Key, k': Key)
    requires AllBelow(s, k) && (k == k' || Less(k, k'))
    ensures AllBelow(s, k') && k' !in s
  {
    forall x | x in s ensures Less(x, k') && x != k' {
      if k != k' { LessTransitive(x, k, k'); }
    }
  }

  lemma AboveWeaken(k: Key, s: set<Key>, k': Key)
    requires AllAbove(k, s) && (k == k' || Less(k', k))
    ensures AllAbove(k', s) && k' !in s
  {
    forall x | x in s ensures Less(k', x) && x != k' {
      if k != k' { LessTransitive(k', k, x); }
    }
  }
}
