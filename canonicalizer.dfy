/** The canonical payload that a request's signature is computed over: the
    request parameters without the signature field (`array_filter` with the
    controller's `filter` predicate), ordered by key (`ksort` with
    `SORT_NATURAL`). The natural order on keys is a parameter `less`. */
module Canonicalizer {
  import opened PhpStrings

  /** One request parameter: key and value. A request is an ordered PHP array. */
  type Param = (string, string)

  /** PHP arrays hold each key once. */
  predicate UniqueKeys(s: seq<Param>) {
    forall i, j :: 0 <= i < j < |s| ==> s[i].0 != s[j].0
  }

  /** Two entries of `s` with the same key are the same entry. Unlike
      `UniqueKeys`, this only depends on the multiset of entries. */
  ghost predicate KeyDetermines(s: seq<Param>) {
    forall x, y :: x in s && y in s && x.0 == y.0 ==> x == y
  }

  ghost predicate Asymmetric(less: (string, string) -> bool) {
    forall a, b :: less(a, b) ==> !less(b, a)
  }

  /** What the natural key order of `ksort` is taken to be. */
  ghost predicate StrictTotalOrder(less: (string, string) -> bool) {
    && Asymmetric(less)
    && (forall a, b, c :: less(a, b) && less(b, c) ==> less(a, c))
    && (forall a, b :: a != b ==> less(a, b) || less(b, a))
  }

  /** What `ksort` guarantees: no key sorts before the key preceding it. */
  predicate SortedByKey(s: seq<Param>, less: (string, string) -> bool) {
    forall k :: 0 < k < |s| ==> !less(s[k].0, s[k - 1].0)
  }

  /** Every key sorts strictly before every later key. */
  ghost predicate Ascending(s: seq<Param>, less: (string, string) -> bool) {
    forall i, j :: 0 <= i < j < |s| ==> less(s[i].0, s[j].0)
  }

  /** The field left out of the payload: the configured `signatureStr`, or
      "signature" when that setting is falsy. */
  function ExcludedKey(signatureStr: string): (k: string)
    ensures Truthy(signatureStr) ==> k == signatureStr
    ensures !Truthy(signatureStr) ==> k == "signature"
  {
    if Truthy(signatureStr) then signatureStr else "signature"
  }

  /** The controller's `filter` callback: keep every key but the excluded one. */
  predicate Keep(signatureStr: string, name: string) {
    name != ExcludedKey(signatureStr)
  }

  /** `array_filter` with `Keep` on the keys: the kept entries, in request order. */
  function Filtered(s: seq<Param>, signatureStr: string): seq<Param> {
    if s == [] then []
    else (if Keep(signatureStr, s[0].0) then [s[0]] else []) + Filtered(s[1..], signatureStr)
  }

  /** The filter keeps exactly the entries whose key is not the excluded one. */
  lemma {:induction false} FilteredMembers(s: seq<Param>, signatureStr: string)
    ensures forall x :: x in Filtered(s, signatureStr) <==> x in s && Keep(signatureStr, x.0)
  {
    if s != [] {
      FilteredMembers(s[1..], signatureStr);
      assert s == [s[0]] + s[1..];
    }
  }

  /** Filtering keeps keys unique. */
  lemma {:induction false} FilteredUniqueKeys(s: seq<Param>, signatureStr: string)
    requires UniqueKeys(s)
    ensures UniqueKeys(Filtered(s, signatureStr))
  {
    if s != [] {
      var rest := Filtered(s[1..], signatureStr);
      assert UniqueKeys(s[1..]) by {
        forall i, j | 0 <= i < j < |s[1..]| ensures s[1..][i].0 != s[1..][j].0 {
          assert s[1..][i] == s[i + 1] && s[1..][j] == s[j + 1];
        }
      }
      FilteredUniqueKeys(s[1..], signatureStr);
      FilteredMembers(s[1..], signatureStr);
      forall j | 0 <= j < |rest| ensures rest[j].0 != s[0].0 {
        assert rest[j] in s[1..];
        var m :| 0 <= m < |s[1..]| && s[1..][m] == rest[j];
        assert s[m + 1] == rest[j];
      }
    }
  }

  lemma {:induction false} FilteredAppend(a: seq<Param>, b: seq<Param>, signatureStr: string)
    ensures Filtered(a + b, signatureStr) == Filtered(a, signatureStr) + Filtered(b, signatureStr)
  {
    if a == [] {
      assert a + b == b;
    } else {
      assert (a + b)[0] == a[0];
      assert (a + b)[1..] == a[1..] + b;
      FilteredAppend(a[1..], b, signatureStr);
    }
  }

  /** One step of insertion: `x` goes in front of the first entry whose key
      does not sort before its own. */
  function InsertByKey(x: Param, s: seq<Param>, less: (string, string) -> bool): (r: seq<Param>)
    ensures multiset(r) == multiset(s) + multiset{x}
    ensures r[0] == x || (|s| > 0 && r[0] == s[0])
    ensures Asymmetric(less) && SortedByKey(s, less) ==> SortedByKey(r, less)
  {
    if s == [] || !less(s[0].0, x.0) then [x] + s
    else
      assert s == [s[0]] + s[1..];
      [s[0]] + InsertByKey(x, s[1..], less)
  }

  /** A reference sort by key (insertion sort). */
  function SortByKey(s: seq<Param>, less: (string, string) -> bool): (r: seq<Param>)
    ensures multiset(r) == multiset(s)
    ensures Asymmetric(less) ==> SortedByKey(r, less)
  {
    if s == [] then []
    else
      assert s == [s[0]] + s[1..];
      InsertByKey(s[0], SortByKey(s[1..], less), less)
  }

  /** The canonical payload of a request: its parameters minus the
      signature field, ordered by key. It holds exactly the kept entries
      (as a multiset, so each as often as the request has it). */
  function Canonical(s: seq<Param>, signatureStr: string, less: (string, string) -> bool): (r: seq<Param>)
    ensures multiset(r) == multiset(Filtered(s, signatureStr))
    ensures forall x :: x in r <==> x in s && Keep(signatureStr, x.0)
    ensures Asymmetric(less) ==> SortedByKey(r, less)
  {
    var kept := Filtered(s, signatureStr);
    var r := SortByKey(kept, less);
    FilteredMembers(s, signatureStr);
    assert forall x :: x in r <==> x in multiset(kept);
    r
  }

  /** `ksort`: sorts the array by key in place (modelled by insertion sort;
      only its contract matters to the caller). */
  method KSort(a: array<Param>, less: (string, string) -> bool)
    requires Asymmetric(less)
    modifies a
    ensures SortedByKey(a[..], less)
    ensures multiset(a[..]) == multiset(old(a[..]))
  {
    var i := 0;
    while i < a.Length
      invariant 0 <= i <= a.Length
      invariant forall k :: 0 < k < i ==> !less(a[k].0, a[k - 1].0)
      invariant multiset(a[..]) == multiset(old(a[..]))
    {
      var j := i;
      while 0 < j && less(a[j].0, a[j - 1].0)
        invariant 0 <= j <= i
        invariant forall k :: 0 < k < j ==> !less(a[k].0, a[k - 1].0)
        invariant forall k :: j < k <= i ==> !less(a[k].0, a[k - 1].0)
        invariant 0 < j < i ==> !less(a[j + 1].0, a[j - 1].0)
        invariant multiset(a[..]) == multiset(old(a[..]))
      {
        SwapAdjacent(a, j);
        j := j - 1;
      }
      i := i + 1;
    }
  }

  /** Exchanges `a[j - 1]` and `a[j]`. */
  method SwapAdjacent(a: array<Param>, j: int)
    requires 0 < j < a.Length
    modifies a
    ensures a[j - 1] == old(a[j]) && a[j] == old(a[j - 1])
    ensures forall k :: 0 <= k < a.Length && k != j - 1 && k != j ==> a[k] == old(a[k])
    ensures multiset(a[..]) == multiset(old(a[..]))
  {
    ghost var before := a[..];
    a[j - 1], a[j] := a[j], a[j - 1];
    assert a[..] == before[j - 1 := before[j]][j := before[j - 1]];
  }

  /** "Does not sort before" is transitive under a strict total order. */
  lemma NotBeforeTransitive(less: (string, string) -> bool, a: string, b: string, c: string)
    requires StrictTotalOrder(less)
    requires !less(c, b) && !less(b, a)
    ensures !less(c, a)
  {
    if a != b {
      assert less(a, b);
    }
  }

  /** In a key-sorted sequence no entry's key sorts before the first key. */
  lemma {:induction false} SortedFirstIsLeast(s: seq<Param>, less: (string, string) -> bool, j: nat)
    requires StrictTotalOrder(less)
    requires SortedByKey(s, less)
    requires j < |s|
    ensures !less(s[j].0, s[0].0)
  {
    if j > 0 {
      SortedFirstIsLeast(s, less, j - 1);
      NotBeforeTransitive(less, s[0].0, s[j - 1].0, s[j].0);
    }
  }

  /** Ordering by key is unique: two key-sorted arrangements of the same
      entries, where a key determines its entry, are equal. */
  lemma {:induction false} SortedArrangementUnique(s: seq<Param>, t: seq<Param>, less: (string, string) -> bool)
    requires StrictTotalOrder(less)
    requires SortedByKey(s, less) && SortedByKey(t, less)
    requires multiset(s) == multiset(t)
    requires KeyDetermines(s)
    ensures s == t
  {
    assert |t| == |multiset(t)| == |multiset(s)| == |s|;
    if s != [] {
      SameLeast(s, t, less);
      assert s == [s[0]] + s[1..] && t == [t[0]] + t[1..];
      assert multiset(s) == multiset{s[0]} + multiset(s[1..]);
      assert multiset(t) == multiset{t[0]} + multiset(t[1..]);
      assert multiset(s[1..]) == multiset(s) - multiset{s[0]};
      assert multiset(t[1..]) == multiset(t) - multiset{t[0]};
      KeyDeterminesTail(s);
      SortedTail(s, less);
      SortedTail(t, less);
      SortedArrangementUnique(s[1..], t[1..], less);
    }
  }

  /** Two key-sorted arrangements of the same entries start alike. */
  lemma SameLeast(s: seq<Param>, t: seq<Param>, less: (string, string) -> bool)
    requires StrictTotalOrder(less)
    requires SortedByKey(s, less) && SortedByKey(t, less)
    requires multiset(s) == multiset(t)
    requires KeyDetermines(s)
    requires s != [] && t != []
    ensures s[0] == t[0]
  {
    assert s[0] in multiset(t) && t[0] in multiset(s);
    var k :| 0 <= k < |t| && t[k] == s[0];
    var m :| 0 <= m < |s| && s[m] == t[0];
    SortedFirstIsLeast(t, less, k);
    SortedFirstIsLeast(s, less, m);
    SameKeyWhenNeitherBefore(less, s[0].0, t[0].0);
  }

  lemma SameKeyWhenNeitherBefore(less: (string, string) -> bool, a: string, b: string)
    requires StrictTotalOrder(less)
    requires !less(a, b) && !less(b, a)
    ensures a == b
  {
  }

  lemma SortedTail(s: seq<Param>, less: (string, string) -> bool)
    requires s != [] && SortedByKey(s, less)
    ensures SortedByKey(s[1..], less)
  {
    forall k | 0 < k < |s[1..]| ensures !less(s[1..][k].0, s[1..][k - 1].0) {
      assert s[1..][k] == s[k + 1] && s[1..][k - 1] == s[k];
    }
  }

  lemma KeyDeterminesTail(s: seq<Param>)
    requires s != [] && KeyDetermines(s)
    ensures KeyDetermines(s[1..])
  {
    assert forall x :: x in s[1..] ==> x in s;
  }

  lemma UniqueKeysKeyDetermines(s: seq<Param>)
    requires UniqueKeys(s)
    ensures KeyDetermines(s)
  {
  }

  /** The canonical payload depends on nothing but the multiset of kept
      entries: not on the request's order, nor on the signature field. */
  lemma CanonicalDeterminedByKeptEntries(p: seq<Param>, q: seq<Param>, signatureStr: string,
                                         less: (string, string) -> bool)
    requires StrictTotalOrder(less)
    requires UniqueKeys(p)
    requires multiset(Filtered(p, signatureStr)) == multiset(Filtered(q, signatureStr))
    ensures Canonical(p, signatureStr, less) == Canonical(q, signatureStr, less)
  {
    var cp, cq := Canonical(p, signatureStr, less), Canonical(q, signatureStr, less);
    UniqueKeysKeyDetermines(p);
    assert forall x :: x in cp ==> x in p;
    SortedArrangementUnique(cp, cq, less);
  }

  /** Conversely, equal payloads come from the same kept entries. */
  lemma CanonicalReflectsKeptEntries(p: seq<Param>, q: seq<Param>, signatureStr: string,
                                     less: (string, string) -> bool)
    requires Canonical(p, signatureStr, less) == Canonical(q, signatureStr, less)
    ensures multiset(Filtered(p, signatureStr)) == multiset(Filtered(q, signatureStr))
  {
  }

  /** Any arrangement of the same request gives the same payload. */
  lemma CanonicalIgnoresOrder(p: seq<Param>, q: seq<Param>, signatureStr: string,
                              less: (string, string) -> bool)
    requires StrictTotalOrder(less)
    requires UniqueKeys(p)
    requires multiset(p) == multiset(q)
    ensures Canonical(p, signatureStr, less) == Canonical(q, signatureStr, less)
  {
    FilteredMultiset(p, q, signatureStr);
    CanonicalDeterminedByKeptEntries(p, q, signatureStr, less);
  }

  lemma {:induction false} FilteredCount(s: seq<Param>, signatureStr: string, x: Param)
    ensures multiset(Filtered(s, signatureStr))[x] == if Keep(signatureStr, x.0) then multiset(s)[x] else 0
  {
    if s != [] {
      FilteredCount(s[1..], signatureStr, x);
      assert s == [s[0]] + s[1..];
    }
  }

  lemma FilteredMultiset(p: seq<Param>, q: seq<Param>, signatureStr: string)
    requires multiset(p) == multiset(q)
    ensures multiset(Filtered(p, signatureStr)) == multiset(Filtered(q, signatureStr))
  {
    forall x ensures multiset(Filtered(p, signatureStr))[x] == multiset(Filtered(q, signatureStr))[x] {
      FilteredCount(p, signatureStr, x);
      FilteredCount(q, signatureStr, x);
    }
  }

  lemma {:induction false} UniqueKeysAtMostOnce(s: seq<Param>, x: Param)
    requires UniqueKeys(s)
    ensures multiset(s)[x] <= 1
  {
    if s != [] {
      assert UniqueKeys(s[1..]) by {
        forall i, j | 0 <= i < j < |s[1..]| ensures s[1..][i].0 != s[1..][j].0 {
          assert s[1..][i] == s[i + 1] && s[1..][j] == s[j + 1];
        }
      }
      UniqueKeysAtMostOnce(s[1..], x);
      assert s == [s[0]] + s[1..];
      if s[0] == x {
        forall m | 0 <= m < |s[1..]| ensures s[1..][m] != x {
          assert s[1..][m] == s[m + 1];
        }
        assert x !in s[1..];
      }
    }
  }

  /** Unique keys are a property of the entries, not of their order. */
  lemma UniqueKeysPermutation(s: seq<Param>, t: seq<Param>)
    requires UniqueKeys(s)
    requires multiset(s) == multiset(t)
    ensures UniqueKeys(t)
  {
    forall i, j | 0 <= i < j < |t| ensures t[i].0 != t[j].0 {
      UniqueKeysAtMostOnce(s, t[i]);
      RepeatedEntryCountsTwice(t, i, j);
      assert t[i] != t[j];
      assert t[i] in multiset(s) && t[j] in multiset(s);
      var p :| 0 <= p < |s| && s[p] == t[i];
      var q :| 0 <= q < |s| && s[q] == t[j];
    }
  }

  lemma RepeatedEntryCountsTwice(t: seq<Param>, i: nat, j: nat)
    requires i < j < |t|
    ensures t[i] == t[j] ==> multiset(t)[t[i]] >= 2
  {
    assert t == t[..j] + t[j..];
    assert t[i] == t[..j][i] && t[j] == t[j..][0];
    assert multiset(t)[t[i]] == multiset(t[..j])[t[i]] + multiset(t[j..])[t[i]];
  }

  lemma {:induction false} AscendingFromAdjacent(s: seq<Param>, less: (string, string) -> bool, i: nat, j: nat)
    requires StrictTotalOrder(less)
    requires forall k :: 0 < k < |s| ==> less(s[k - 1].0, s[k].0)
    requires i < j < |s|
    ensures less(s[i].0, s[j].0)
    decreases j - i
  {
    if i + 1 < j {
      AscendingFromAdjacent(s, less, i + 1, j);
    }
  }

  /** The canonical payload has every kept key exactly once, in strictly
      ascending key order. */
  lemma CanonicalAscending(p: seq<Param>, signatureStr: string, less: (string, string) -> bool)
    requires StrictTotalOrder(less)
    requires UniqueKeys(p)
    ensures UniqueKeys(Canonical(p, signatureStr, less))
    ensures Ascending(Canonical(p, signatureStr, less), less)
  {
    var c := Canonical(p, signatureStr, less);
    FilteredUniqueKeys(p, signatureStr);
    UniqueKeysPermutation(Filtered(p, signatureStr), c);
    forall k | 0 < k < |c| ensures less(c[k - 1].0, c[k].0) {
      assert c[k - 1].0 != c[k].0;
    }
    forall i, j | 0 <= i < j < |c| ensures less(c[i].0, c[j].0) {
      AscendingFromAdjacent(c, less, i, j);
    }
  }

  /** Changing the value of any kept parameter changes the payload. */
  lemma TamperedValueChangesPayload(p: seq<Param>, i: nat, v: string, signatureStr: string,
                                    less: (string, string) -> bool)
    requires UniqueKeys(p)
    requires i < |p| && Keep(signatureStr, p[i].0) && v != p[i].1
    ensures Canonical(p[i := (p[i].0, v)], signatureStr, less) != Canonical(p, signatureStr, less)
  {
    var q := p[i := (p[i].0, v)];
    forall m | 0 <= m < |q| ensures q[m] != p[i] {
      if m != i {
        assert q[m] == p[m];
      }
    }
    assert p[i] in Canonical(p, signatureStr, less);
    assert p[i] !in Canonical(q, signatureStr, less);
  }

  /** Whatever sort produced it, a key-sorted arrangement of the kept
      entries is the canonical payload. */
  lemma SortedKeptIsCanonical(s: seq<Param>, p: seq<Param>, signatureStr: string,
                              less: (string, string) -> bool)
    requires StrictTotalOrder(less)
    requires UniqueKeys(p)
    requires SortedByKey(s, less)
    requires multiset(s) == multiset(Filtered(p, signatureStr))
    ensures s == Canonical(p, signatureStr, less)
  {
    var c := Canonical(p, signatureStr, less);
    UniqueKeysKeyDetermines(p);
    assert forall x :: x in c ==> x in p;
    SortedArrangementUnique(c, s, less);
  }
}
