/** The newest-first ordering of date keys
    (popup/popup.js: `Object.keys(groups).sort((a, b) => new Date(b) - new Date(a))`).
    `Array.prototype.sort` is stable, so keys of equal date keep their
    `Object.keys` order; the model is a stable insertion sort. */
module DateOrder {
  import opened Snippets
  import opened Grouping

  /** Each key is dated no earlier than every key after it. */
  predicate NewestFirst(loc: Locale, ks: seq<string>) {
    forall i, j :: 0 <= i < j < |ks| ==> loc.dateOrd(ks[i]) >= loc.dateOrd(ks[j])
  }

  /** Puts `k` in front of the first key dated no later than it. */
  function Insert(loc: Locale, k: string, ks: seq<string>): seq<string> {
    if ks == [] || loc.dateOrd(ks[0]) <= loc.dateOrd(k) then
      [k] + ks
    else
      [ks[0]] + Insert(loc, k, ks[1..])
  }

  /** Inserting into a newest-first list keeps it newest first and adds
      exactly `k`. */
  lemma {:induction false} InsertSorted(loc: Locale, k: string, ks: seq<string>)
    requires NewestFirst(loc, ks)
    ensures NewestFirst(loc, Insert(loc, k, ks))
    ensures multiset(Insert(loc, k, ks)) == multiset(ks) + multiset{k}
    decreases |ks|
  {
    if ks == [] || loc.dateOrd(ks[0]) <= loc.dateOrd(k) {
      var r := [k] + ks;
      assert r == Insert(loc, k, ks);
      forall i, j | 0 <= i < j < |r|
        ensures loc.dateOrd(r[i]) >= loc.dateOrd(r[j])
      {
        assert r[j] == ks[j - 1];
        if i > 0 {
          assert r[i] == ks[i - 1];
        } else {
          assert loc.dateOrd(ks[0]) >= loc.dateOrd(ks[j - 1]) || j == 1;
        }
      }
    } else {
      var rest := Insert(loc, k, ks[1..]);
      InsertSorted(loc, k, ks[1..]);
      InsertBelowHead(loc, k, ks, rest);
    }
  }

  /** When `k` goes behind the head, the head still leads. */
  lemma {:induction false} InsertBelowHead(loc: Locale, k: string, ks: seq<string>, rest: seq<string>)
    requires ks != [] && NewestFirst(loc, ks) && loc.dateOrd(ks[0]) > loc.dateOrd(k)
    requires NewestFirst(loc, rest) && multiset(rest) == multiset(ks[1..]) + multiset{k}
    ensures NewestFirst(loc, [ks[0]] + rest)
    ensures multiset([ks[0]] + rest) == multiset(ks) + multiset{k}
  {
    forall j | 0 <= j < |rest|
      ensures loc.dateOrd(ks[0]) >= loc.dateOrd(rest[j])
    {
      assert rest[j] in multiset(rest);
      if rest[j] != k {
        assert rest[j] in multiset(ks[1..]);
        var i :| 0 <= i < |ks[1..]| && ks[1..][i] == rest[j];
        assert ks[i + 1] == rest[j];
      }
    }
    var r := [ks[0]] + rest;
    forall i, j | 0 <= i < j < |r|
      ensures loc.dateOrd(r[i]) >= loc.dateOrd(r[j])
    {
      if i == 0 {
        assert r[j] == rest[j - 1];
      } else {
        assert r[i] == rest[i - 1] && r[j] == rest[j - 1];
      }
    }
    assert ks == [ks[0]] + ks[1..];
  }

  /** Newest-first order of a key list, keeping the given order among keys
      of equal date. */
  function SortNewestFirst(loc: Locale, ks: seq<string>): (r: seq<string>)
    ensures NewestFirst(loc, r)
    ensures multiset(r) == multiset(ks)
  {
    if ks == [] then []
    else
      var sorted := SortNewestFirst(loc, ks[1..]);
      InsertSorted(loc, ks[0], sorted);
      assert ks == [ks[0]] + ks[1..];
      Insert(loc, ks[0], sorted)
  }

  /** A reordering of a duplicate-free list is duplicate-free. */
  lemma {:induction false} DistinctPermutation(a: seq<string>, b: seq<string>)
    requires Distinct(a) && multiset(a) == multiset(b)
    ensures Distinct(b)
  {
    forall i, j | 0 <= i < j < |b|
      ensures b[i] != b[j]
    {
      if b[i] == b[j] {
        assert multiset(b)[b[i]] >= 2 by {
          assert b == b[..j] + [b[j]] + b[j + 1..];
          assert b[i] in multiset(b[..j]);
        }
        var p :| 0 <= p < |a| && a[p] == b[i];
        DistinctCount(a, p);
      }
    }
  }

  /** In a duplicate-free list every element occurs once. */
  lemma {:induction false} DistinctCount(a: seq<string>, p: nat)
    requires Distinct(a) && p < |a|
    ensures multiset(a)[a[p]] == 1
  {
    assert a == a[..p] + [a[p]] + a[p + 1..];
    assert forall i :: 0 <= i < |a[..p]| ==> a[..p][i] != a[p];
    assert a[p] !in multiset(a[..p]);
    var tail := a[p + 1..];
    assert forall i :: 0 <= i < |tail| ==> tail[i] != a[p];
    assert a[p] !in multiset(tail);
  }

  /** A reordering has the same members. */
  lemma {:induction false} PermutationMembers(a: seq<string>, b: seq<string>)
    requires multiset(a) == multiset(b)
    ensures forall k :: k in a <==> k in b
  {
    forall k
      ensures k in a <==> k in b
    {
      assert k in a <==> k in multiset(a);
      assert k in b <==> k in multiset(b);
    }
  }

  /** The section order of the list view and the Markdown export: every date
      of the list once, newest first. */
  function SectionKeys(loc: Locale, xs: seq<Snippet>): (r: seq<string>)
    ensures NewestFirst(loc, r)
    ensures Distinct(r)
    ensures forall k {:trigger k in r} :: k in r <==> k in KeySet(loc, xs)
  {
    var ks := DateKeys(loc, xs);
    var r := SortNewestFirst(loc, ks);
    DistinctPermutation(ks, r);
    PermutationMembers(ks, r);
    r
  }

  /** Dropping a key keeps a list newest first. */
  lemma {:induction false} RemoveKeyNewestFirst(loc: Locale, ks: seq<string>, k: string)
    requires NewestFirst(loc, ks)
    ensures NewestFirst(loc, RemoveKey(ks, k))
    decreases |ks|
  {
    if ks != [] {
      var rest := RemoveKey(ks[1..], k);
      RemoveKeyNewestFirst(loc, ks[1..], k);
      if ks[0] != k {
        forall j | 0 <= j < |rest|
          ensures loc.dateOrd(ks[0]) >= loc.dateOrd(rest[j])
        {
          RemoveKeyMembers(ks[1..], k, rest[j]);
          var i :| 0 <= i < |ks[1..]| && ks[1..][i] == rest[j];
          assert ks[i + 1] == rest[j];
        }
        var r := [ks[0]] + rest;
        forall i, j | 0 <= i < j < |r|
          ensures loc.dateOrd(r[i]) >= loc.dateOrd(r[j])
        {
          assert r[j] == rest[j - 1];
          if i > 0 {
            assert r[i] == rest[i - 1];
          }
        }
      } else {
        assert RemoveKey(ks, k) == [] + rest;
        assert [] + rest == rest;
      }
    }
  }

  /** Inserting `k` and then dropping it is just dropping it. */
  lemma {:induction false} RemoveKeyInsertSame(loc: Locale, ks: seq<string>, k: string)
    ensures RemoveKey(Insert(loc, k, ks), k) == RemoveKey(ks, k)
    decreases |ks|
  {
    var ins := Insert(loc, k, ks);
    if ks == [] || loc.dateOrd(ks[0]) <= loc.dateOrd(k) {
      assert ins == [k] + ks;
      RemoveKeyAppend([k], ks, k);
      RemoveKeySingle(k, k);
      assert [] + RemoveKey(ks, k) == RemoveKey(ks, k);
    } else {
      var h, tail := ks[0], ks[1..];
      assert ins == [h] + Insert(loc, k, tail);
      assert ks == [h] + tail;
      RemoveKeyInsertSame(loc, tail, k);
      RemoveKeyAppend([h], Insert(loc, k, tail), k);
      RemoveKeyAppend([h], tail, k);
    }
  }

  /** Dropping another key after inserting is inserting after dropping. */
  lemma {:induction false} RemoveKeyInsertOther(loc: Locale, x: string, ks: seq<string>, k: string)
    requires x != k && NewestFirst(loc, ks)
    ensures RemoveKey(Insert(loc, x, ks), k) == Insert(loc, x, RemoveKey(ks, k))
    decreases |ks|
  {
    if ks == [] || loc.dateOrd(ks[0]) <= loc.dateOrd(x) {
      RemoveKeyInsertFront(loc, x, ks, k);
    } else {
      var h, tail := ks[0], ks[1..];
      var rt := RemoveKey(tail, k);
      assert Insert(loc, x, ks) == [h] + Insert(loc, x, tail);
      assert ks == [h] + tail;
      assert NewestFirst(loc, tail);
      RemoveKeyInsertOther(loc, x, tail, k);
      RemoveKeyAppend([h], Insert(loc, x, tail), k);
      RemoveKeyAppend([h], tail, k);
      RemoveKeySingle(h, k);
      if h == k {
        assert [] + rt == rt;
        assert [] + Insert(loc, x, rt) == Insert(loc, x, rt);
      } else {
        var l := [h] + rt;
        assert l[0] == h && l[1..] == rt;
      }
    }
  }

  /** The case where `x` goes in front. */
  lemma {:induction false} RemoveKeyInsertFront(loc: Locale, x: string, ks: seq<string>, k: string)
    requires x != k && NewestFirst(loc, ks)
    requires ks == [] || loc.dateOrd(ks[0]) <= loc.dateOrd(x)
    ensures RemoveKey(Insert(loc, x, ks), k) == Insert(loc, x, RemoveKey(ks, k))
  {
    var rk := RemoveKey(ks, k);
    assert Insert(loc, x, ks) == [x] + ks;
    RemoveKeyAppend([x], ks, k);
    RemoveKeySingle(x, k);
    if rk != [] {
      RemoveKeyMembers(ks, k, rk[0]);
      var i :| 0 <= i < |ks| && ks[i] == rk[0];
      assert loc.dateOrd(ks[0]) >= loc.dateOrd(ks[i]);
    }
  }

  lemma {:induction false} SortCons(loc: Locale, x: string, t: seq<string>)
    ensures SortNewestFirst(loc, [x] + t) == Insert(loc, x, SortNewestFirst(loc, t))
  {
    var xs := [x] + t;
    assert xs[0] == x && xs[1..] == t;
  }

  /** Sorting commutes with dropping a key. */
  lemma {:induction false} RemoveKeySort(loc: Locale, ks: seq<string>, k: string)
    ensures RemoveKey(SortNewestFirst(loc, ks), k) == SortNewestFirst(loc, RemoveKey(ks, k))
    decreases |ks|
  {
    if ks != [] {
      var x, t := ks[0], ks[1..];
      var st := SortNewestFirst(loc, t);
      var rt := RemoveKey(t, k);
      assert ks == [x] + t;
      SortCons(loc, x, t);
      RemoveKeySort(loc, t, k);
      RemoveKeyAppend([x], t, k);
      RemoveKeySingle(x, k);
      if x == k {
        RemoveKeyInsertSame(loc, st, k);
        assert RemoveKey(ks, k) == rt by {
          assert [] + rt == rt;
        }
      } else {
        RemoveKeyInsertOther(loc, x, st, k);
        assert RemoveKey(ks, k) == [x] + rt;
        SortCons(loc, x, rt);
      }
    }
  }

  /** After deleting date `k`, the sections keep their order, less `k`. */
  lemma {:induction false} SectionKeysWithout(loc: Locale, xs: seq<Snippet>, k: string)
    ensures SectionKeys(loc, WithoutDate(loc, xs, k)) == RemoveKey(SectionKeys(loc, xs), k)
  {
    DateKeysWithout(loc, xs, k);
    RemoveKeySort(loc, DateKeys(loc, xs), k);
  }
}
