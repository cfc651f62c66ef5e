/** Facts about finite sets and sequences that the termination measures and list proofs share. */
module Collections {

  /** A subset is never larger: the fact behind every termination measure here. */
  lemma {:induction false} SubsetCard<T>(a: set<T>, b: set<T>)
    requires a <= b
    ensures |a| <= |b|
    decreases |a|
  {
    if a != {} {
      var x :| x in a;
      SubsetCard(a - {x}, b - {x});
    }
  }

  lemma ConsParts<T>(x: T, s: seq<T>)
    ensures ([x] + s)[0] == x && ([x] + s)[1..] == s
  {
  }

  lemma AppendParts<T>(a: seq<T>, b: seq<T>)
    requires a != []
    ensures (a + b)[0] == a[0] && (a + b)[1..] == a[1..] + b
  {
  }

  lemma Associative<T>(x: seq<T>, y: seq<T>, z: seq<T>)
    ensures x + (y + z) == x + y + z
  {
  }

  lemma PrefixStep<T>(s: seq<T>, k: nat)
    requires k < |s|
    ensures s[..k + 1] == s[..k] + [s[k]]
  {
  }

  lemma PrefixOfPrefix<T>(all: seq<T>, done: seq<T>, k: nat)
    requires |done| <= |all| && all[..|done|] == done && k < |done|
    ensures all[k] == done[k] && all[..k] == done[..k]
  {
    assert all[..|done|][k] == all[k];
    assert all[..|done|][..k] == all[..k];
  }
}
