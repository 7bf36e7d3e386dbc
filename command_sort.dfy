/**
  The slash-command list of the help overlay before it is formatted: one entry
  per command, holding its "/name" key and its description, and the stable
  sort by key that `Vec::sort_by(|a, b| a.0.cmp(&b.0))` performs on it.

  `Sort` is the specification: a stable insertion sort written as a function.
  `SortByCommand` sorts an array in place and is proved to produce `Sort` of
  its old contents. The lemmas show that `Sort` orders by key, permutes its
  input, keeps equal keys in input order, and is the only sequence with those
  three properties, so that any stable sort (Rust's own among them) yields the
  same sequence.
 */
module CommandSort {
  import opened StrOrder

  /** One pair of `commands`: the key `"/" + name` and the description. */
  datatype Entry = Entry(key: string, desc: string)

  /** The comparator handed to `sort_by`: entries compare by key alone. */
  function CompareEntries(a: Entry, b: Entry): Ordering {
    Cmp(a.key, b.key)
  }

  /** Keys are in non-decreasing order. */
  predicate Sorted(s: seq<Entry>) {
    forall i, j :: 0 <= i < j < |s| ==> Le(s[i].key, s[j].key)
  }

  /** `[e]` when `e` has key `k`, otherwise nothing. */
  function OnKey(e: Entry, k: string): seq<Entry> {
    if e.key == k then [e] else []
  }

  /** The entries of `s` whose key is `k`, in the order they occur in `s`. */
  function WithKey(s: seq<Entry>, k: string): (r: seq<Entry>)
    ensures |r| <= |s|
  {
    if s == [] then [] else WithKey(s[..|s| - 1], k) + OnKey(s[|s| - 1], k)
  }

  /** `output` keeps, for every key, the entries of `input` with that key in their input order. */
  ghost predicate Stable(input: seq<Entry>, output: seq<Entry>) {
    forall k :: WithKey(output, k) == WithKey(input, k)
  }

  /**
    Inserts `x` into `t` the way one step of an insertion sort does: `x`
    moves left past every entry, counted from the end, whose key is greater
    than its own, and stops behind the first one that is not.
   */
  function Insert(x: Entry, t: seq<Entry>): (r: seq<Entry>)
    ensures |r| == |t| + 1
  {
    if t == [] then [x]
    else if CompareEntries(t[|t| - 1], x) == Greater then Insert(x, t[..|t| - 1]) + [t[|t| - 1]]
    else t + [x]
  }

  /** Stable sort by key: each entry, left to right, is inserted into the sorted prefix before it. */
  function Sort(s: seq<Entry>): (r: seq<Entry>)
    ensures |r| == |s|
  {
    if s == [] then [] else Insert(s[|s| - 1], Sort(s[..|s| - 1]))
  }

  /** Inserting adds `x` and keeps every entry of `t`, each as often as before. */
  lemma {:induction false} InsertPermutes(x: Entry, t: seq<Entry>)
    ensures multiset(Insert(x, t)) == multiset(t) + multiset{x}
    decreases |t|
  {
    if t != [] && CompareEntries(t[|t| - 1], x) == Greater {
      InsertPermutes(x, t[..|t| - 1]);
      assert t == t[..|t| - 1] + [t[|t| - 1]];
    }
  }

  /** `Sort` is a permutation of its input. */
  lemma {:induction false} SortPermutes(s: seq<Entry>)
    ensures multiset(Sort(s)) == multiset(s)
  {
    if s != [] {
      var f, l := s[..|s| - 1], s[|s| - 1];
      assert Sort(s) == Insert(l, Sort(f));
      SortPermutes(f);
      InsertPermutes(l, Sort(f));
      assert s == f + [l];
    }
  }

  /** The entries of `Insert(x, t)` are `x` and those of `t`. */
  lemma InsertMembers(x: Entry, t: seq<Entry>, e: Entry)
    ensures e in Insert(x, t) <==> e == x || e in t
  {
    InsertPermutes(x, t);
    assert e in Insert(x, t) <==> e in multiset(Insert(x, t));
    assert e in t <==> e in multiset(t);
  }

  /** The entries kept by `WithKey` are exactly those of `s` with key `k`. */
  lemma {:induction false} WithKeyMembers(s: seq<Entry>, k: string, e: Entry)
    ensures e in WithKey(s, k) <==> e in s && e.key == k
  {
    if s != [] {
      var f := s[..|s| - 1];
      WithKeyMembers(f, k, e);
      assert s == f + [s[|s| - 1]];
    }
  }

  /** Filtering by key distributes over concatenation. */
  lemma {:induction false} WithKeyAppend(p: seq<Entry>, q: seq<Entry>, k: string)
    ensures WithKey(p + q, k) == WithKey(p, k) + WithKey(q, k)
    decreases |q|
  {
    if q == [] {
      assert p + q == p;
    } else {
      var q' := q[..|q| - 1];
      assert (p + q)[..|p + q| - 1] == p + q';
      WithKeyAppend(p, q', k);
    }
  }

  /** Filtering a non-empty sequence by key looks at its first entry, then at the rest. */
  lemma WithKeyFront(s: seq<Entry>, k: string)
    requires s != []
    ensures WithKey(s, k) == OnKey(s[0], k) + WithKey(s[1..], k)
  {
    var h := [s[0]];
    assert h[..0] == [];
    assert WithKey(h, k) == WithKey([], k) + OnKey(s[0], k);
    assert h + s[1..] == s;
    WithKeyAppend(h, s[1..], k);
  }

  /** Appending an entry whose key is at least every key of a sorted sequence keeps it sorted. */
  lemma SortedSnoc(r: seq<Entry>, l: Entry)
    requires Sorted(r)
    requires forall i :: 0 <= i < |r| ==> Le(r[i].key, l.key)
    ensures Sorted(r + [l])
  {
    var r' := r + [l];
    forall i, j | 0 <= i < j < |r'|
      ensures Le(r'[i].key, r'[j].key)
    {
      assert r'[i] == r[i];
      if j < |r| {
        assert r'[j] == r[j];
      }
    }
  }

  /** Inserting keeps the keys sorted. */
  lemma {:induction false} InsertSorted(x: Entry, t: seq<Entry>)
    requires Sorted(t)
    ensures Sorted(Insert(x, t))
    decreases |t|
  {
    if t == [] {
    } else {
      var f, l := t[..|t| - 1], t[|t| - 1];
      if CompareEntries(l, x) == Greater {
        InsertSorted(x, f);
        var r := Insert(x, f);
        forall i | 0 <= i < |r|
          ensures Le(r[i].key, l.key)
        {
          InsertMembers(x, f, r[i]);
          if r[i] == x {
            CmpReverse(l.key, x.key);
          } else {
            var m :| 0 <= m < |f| && f[m] == r[i];
            assert t[m] == r[i];
          }
        }
        SortedSnoc(r, l);
      } else {
        forall i | 0 <= i < |t|
          ensures Le(t[i].key, x.key)
        {
          if i < |t| - 1 {
            LeTransitive(t[i].key, l.key, x.key);
          }
        }
        SortedSnoc(t, x);
      }
    }
  }

  /** `Sort` orders by key. */
  lemma {:induction false} SortSorted(s: seq<Entry>)
    ensures Sorted(Sort(s))
  {
    if s != [] {
      SortSorted(s[..|s| - 1]);
      InsertSorted(s[|s| - 1], Sort(s[..|s| - 1]));
    }
  }

  /** Filtering a sequence extended by one entry. */
  lemma WithKeySnoc(r: seq<Entry>, l: Entry, k: string)
    ensures WithKey(r + [l], k) == WithKey(r, k) + OnKey(l, k)
  {
    assert (r + [l])[..|r|] == r;
  }

  /** `x` moving left past an entry with a greater key keeps the order of `x`'s key and of that entry's. */
  lemma InsertPastOne(x: Entry, f: seq<Entry>, l: Entry, k: string)
    requires CompareEntries(l, x) == Greater
    requires WithKey(Insert(x, f), k) == WithKey(f, k) + OnKey(x, k)
    ensures WithKey(Insert(x, f + [l]), k) == WithKey(f + [l], k) + OnKey(x, k)
  {
    assert (f + [l])[..|f|] == f;
    assert Insert(x, f + [l]) == Insert(x, f) + [l];
    WithKeySnoc(Insert(x, f), l, k);
    WithKeySnoc(f, l, k);
    assert l.key != x.key;
    assert OnKey(x, k) == [] || OnKey(l, k) == [];
  }

  /** Inserting `x` places it behind every entry of `t` that has its key. */
  lemma {:induction false} InsertStable(x: Entry, t: seq<Entry>, k: string)
    ensures WithKey(Insert(x, t), k) == WithKey(t, k) + OnKey(x, k)
    decreases |t|
  {
    if t == [] {
      WithKeySnoc([], x, k);
      assert [] + [x] == [x];
    } else {
      var f, l := t[..|t| - 1], t[|t| - 1];
      assert t == f + [l];
      if CompareEntries(l, x) == Greater {
        InsertStable(x, f, k);
        InsertPastOne(x, f, l, k);
      } else {
        assert Insert(x, t) == t + [x];
        WithKeySnoc(t, x, k);
      }
    }
  }

  /** `Sort` keeps entries that share a key in their input order. */
  lemma {:induction false} SortStable(s: seq<Entry>)
    ensures Stable(s, Sort(s))
  {
    if s != [] {
      SortStable(s[..|s| - 1]);
      forall k
        ensures WithKey(Sort(s), k) == WithKey(s, k)
      {
        InsertStable(s[|s| - 1], Sort(s[..|s| - 1]), k);
      }
    }
  }

  /** In a sorted sequence the first key is the least. */
  lemma SortedFirstIsLeast(s: seq<Entry>, e: Entry)
    requires Sorted(s) && e in s
    ensures Le(s[0].key, e.key)
  {
    var m :| 0 <= m < |s| && s[m] == e;
    if m == 0 {
      assert Cmp(e.key, e.key) == Equal;
    }
  }

  /** Two sorted sequences that agree on every key's entries start with the same key. */
  lemma FirstKeysAgree(p: seq<Entry>, q: seq<Entry>)
    requires Sorted(p) && Sorted(q) && p != [] && q != []
    requires forall k :: WithKey(p, k) == WithKey(q, k)
    ensures p[0].key == q[0].key
  {
    WithKeyMembers(p, p[0].key, p[0]);
    WithKeyMembers(q, p[0].key, p[0]);
    SortedFirstIsLeast(q, p[0]);
    WithKeyMembers(q, q[0].key, q[0]);
    WithKeyMembers(p, q[0].key, q[0]);
    SortedFirstIsLeast(p, q[0]);
    LeAntisymmetric(p[0].key, q[0].key);
  }

  /** Two sequences that start with the same key and agree on every key's entries agree after their first entries. */
  lemma TailsAgree(p: seq<Entry>, q: seq<Entry>)
    requires p != [] && q != [] && p[0].key == q[0].key
    requires forall k :: WithKey(p, k) == WithKey(q, k)
    ensures p[0] == q[0]
    ensures forall k :: WithKey(p[1..], k) == WithKey(q[1..], k)
  {
    var k0 := p[0].key;
    WithKeyFront(p, k0);
    WithKeyFront(q, k0);
    assert (OnKey(p[0], k0) + WithKey(p[1..], k0))[0] == p[0];
    assert (OnKey(q[0], k0) + WithKey(q[1..], k0))[0] == q[0];
    forall k
      ensures WithKey(p[1..], k) == WithKey(q[1..], k)
    {
      WithKeyFront(p, k);
      WithKeyFront(q, k);
      assert OnKey(p[0], k) == OnKey(q[0], k);
      assert (OnKey(p[0], k) + WithKey(p[1..], k))[|OnKey(p[0], k)|..] == WithKey(p[1..], k);
      assert (OnKey(q[0], k) + WithKey(q[1..], k))[|OnKey(q[0], k)|..] == WithKey(q[1..], k);
    }
  }

  /** A non-empty sequence has an entry with the key of its first entry. */
  lemma FirstKeyKept(s: seq<Entry>)
    requires s != []
    ensures WithKey(s, s[0].key) != []
  {
    WithKeyMembers(s, s[0].key, s[0]);
  }

  /** Two sequences sorted by key that agree on every key's entries are the same sequence. */
  lemma {:induction false} SortedUnique(p: seq<Entry>, q: seq<Entry>)
    requires Sorted(p) && Sorted(q)
    requires forall k :: WithKey(p, k) == WithKey(q, k)
    ensures p == q
    decreases |p|
  {
    if p == [] && q != [] {
      FirstKeyKept(q);
      assert false;
    } else if p != [] && q == [] {
      FirstKeyKept(p);
      assert false;
    } else if p != [] {
      FirstKeysAgree(p, q);
      TailsAgree(p, q);
      SortedUnique(p[1..], q[1..]);
      assert p == [p[0]] + p[1..] && q == [q[0]] + q[1..];
    }
  }

  /**
    Whatever stable sort by key is applied, the result is `Sort(s)`: being
    sorted and keeping every key's entries in input order fixes the sequence.
   */
  lemma StableSortIsSort(s: seq<Entry>, t: seq<Entry>)
    requires Sorted(t) && Stable(s, t)
    ensures t == Sort(s)
  {
    SortSorted(s);
    SortStable(s);
    SortedUnique(t, Sort(s));
  }

  /** No two entries of `s` share a key. */
  predicate DistinctKeys(s: seq<Entry>) {
    forall i, j :: 0 <= i < j < |s| ==> s[i].key != s[j].key
  }

  /** When keys are distinct, two entries of `s` with the same key are the same entry. */
  lemma SameKeySameEntry(s: seq<Entry>, d: Entry, e: Entry)
    requires DistinctKeys(s)
    requires d in s && e in s && d.key == e.key
    ensures d == e
  {
    var i :| 0 <= i < |s| && s[i] == d;
    var j :| 0 <= j < |s| && s[j] == e;
    assert !(i < j) && !(j < i);
  }

  /** When keys are distinct, every key picks out at most one entry. */
  lemma {:induction false} WithKeyDistinct(s: seq<Entry>, k: string)
    requires DistinctKeys(s)
    ensures |WithKey(s, k)| <= 1
  {
    if s != [] {
      var f, l := s[..|s| - 1], s[|s| - 1];
      assert DistinctKeys(f);
      WithKeyDistinct(f, k);
      if l.key == k && WithKey(f, k) != [] {
        var d := WithKey(f, k)[0];
        WithKeyMembers(f, k, d);
        assert false;
      }
    }
  }

  /** With distinct keys, two sequences with the same entries pick out the same entry for every key. */
  lemma WithKeyAgree(s1: seq<Entry>, s2: seq<Entry>, k: string)
    requires DistinctKeys(s1) && DistinctKeys(s2)
    requires forall e :: e in s1 <==> e in s2
    ensures WithKey(s1, k) == WithKey(s2, k)
  {
    WithKeyDistinct(s1, k);
    WithKeyDistinct(s2, k);
    if WithKey(s1, k) != [] {
      var d := WithKey(s1, k)[0];
      WithKeyMembers(s1, k, d);
      WithKeyMembers(s2, k, d);
      var e := WithKey(s2, k)[0];
      WithKeyMembers(s2, k, e);
      SameKeySameEntry(s2, d, e);
    } else if WithKey(s2, k) != [] {
      var e := WithKey(s2, k)[0];
      WithKeyMembers(s2, k, e);
      WithKeyMembers(s1, k, e);
    }
  }

  /**
    When keys are distinct, `Sort` depends only on which entries there are,
    not on the order they come in.
   */
  lemma SortIgnoresOrder(s1: seq<Entry>, s2: seq<Entry>)
    requires DistinctKeys(s1) && DistinctKeys(s2)
    requires forall e :: e in s1 <==> e in s2
    ensures Sort(s1) == Sort(s2)
  {
    forall k ensures WithKey(s1, k) == WithKey(s2, k) {
      WithKeyAgree(s1, s2, k);
    }
    SortSorted(s1);
    SortStable(s1);
    SortStable(s2);
    StableSortIsSort(s2, Sort(s1));
  }

  /** `x` moves left past a block `u` of entries whose keys are all greater than its own. */
  lemma {:induction false} InsertPastGreater(x: Entry, p: seq<Entry>, u: seq<Entry>)
    requires forall i :: 0 <= i < |u| ==> CompareEntries(u[i], x) == Greater
    ensures Insert(x, p + u) == Insert(x, p) + u
    decreases |u|
  {
    if u == [] {
      assert p + u == p;
    } else {
      var u', l := u[..|u| - 1], u[|u| - 1];
      assert p + u == (p + u') + [l];
      InsertPastGreater(x, p, u');
      assert u == u' + [l];
    }
  }

  /** Where the insertion stops: behind an entry not greater than `x`, in front of the greater ones after it. */
  lemma InsertAt(x: Entry, t: seq<Entry>, j: nat)
    requires j <= |t|
    requires j > 0 ==> CompareEntries(t[j - 1], x) != Greater
    requires forall i :: j <= i < |t| ==> CompareEntries(t[i], x) == Greater
    ensures Insert(x, t) == t[..j] + [x] + t[j..]
  {
    assert t == t[..j] + t[j..];
    InsertPastGreater(x, t[..j], t[j..]);
  }

  /** The state the inner loop of `SortByCommand` leaves behind is the prefix `Insert(x, t)`. */
  lemma ShiftedIsInsert(s: seq<Entry>, t: seq<Entry>, x: Entry, j: nat)
    requires j <= |t| < |s|
    requires forall k :: 0 <= k < j ==> s[k] == t[k]
    requires s[j] == x
    requires forall k :: j < k <= |t| ==> s[k] == t[k - 1]
    requires j > 0 ==> CompareEntries(t[j - 1], x) != Greater
    requires forall k :: j <= k < |t| ==> CompareEntries(t[k], x) == Greater
    ensures s[..|t| + 1] == Insert(x, t)
  {
    InsertAt(x, t, j);
    assert s[..|t| + 1] == t[..j] + [x] + t[j..];
  }

  /** One pass of the insertion sort: moves `a[i]` left into the prefix `a[..i]`, shifting greater entries right. */
  method InsertInPlace(a: array<Entry>, i: nat)
    requires i < a.Length
    modifies a
    ensures a[..i + 1] == Insert(old(a[i]), old(a[..i]))
    ensures forall k :: i < k < a.Length ==> a[k] == old(a[k])
  {
    var x := a[i];
    ghost var t := a[..i];
    var j := i;
    while j > 0 && CompareEntries(a[j - 1], x) == Greater
      invariant 0 <= j <= i
      invariant forall k :: 0 <= k < j ==> a[k] == t[k]
      invariant forall k :: j < k <= i ==> a[k] == t[k - 1]
      invariant forall k :: i < k < a.Length ==> a[k] == old(a[k])
      invariant forall k :: j <= k < i ==> CompareEntries(t[k], x) == Greater
    {
      a[j] := a[j - 1];
      j := j - 1;
    }
    a[j] := x;
    ShiftedIsInsert(a[..], t, x, j);
  }

  /** `commands.sort_by(|a, b| a.0.cmp(&b.0))`, done in place as an insertion sort. */
  method SortByCommand(a: array<Entry>)
    modifies a
    ensures a[..] == Sort(old(a[..]))
  {
    ghost var orig := a[..];
    var i := 0;
    while i < a.Length
      invariant 0 <= i <= a.Length
      invariant a[..i] == Sort(orig[..i])
      invariant forall k :: i <= k < a.Length ==> a[k] == orig[k]
    {
      InsertInPlace(a, i);
      assert orig[..i + 1] == orig[..i] + [orig[i]];
      i := i + 1;
    }
    assert orig[..a.Length] == orig;
  }
}
