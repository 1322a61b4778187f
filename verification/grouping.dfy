/** Grouping and deleting snippets by their calendar-date key
    (popup/popup.js: `groupSnippetsByDate`, `deleteSnippetsByDate`). */
module Grouping {
  import opened Snippets

  /** The snippets whose date key is `k`, in list order. */
  function OnDate(loc: Locale, xs: seq<Snippet>, k: string): (r: seq<Snippet>)
    ensures |r| <= |xs|
    ensures forall i :: 0 <= i < |r| ==> DateKey(loc, r[i]) == k
    ensures r == [] <==> k !in KeySet(loc, xs)
  {
    if xs == [] then []
    else
      var init := OnDate(loc, xs[..|xs| - 1], k);
      if DateKey(loc, xs[|xs| - 1]) == k then init + [xs[|xs| - 1]] else init
  }

  /** The snippets whose date key is not `k`, in list order: the filter
      `deleteSnippetsByDate(k)` writes back. */
  function WithoutDate(loc: Locale, xs: seq<Snippet>, k: string): (r: seq<Snippet>)
    ensures |r| <= |xs|
    ensures forall i :: 0 <= i < |r| ==> DateKey(loc, r[i]) != k
  {
    if xs == [] then []
    else
      var init := WithoutDate(loc, xs[..|xs| - 1], k);
      if DateKey(loc, xs[|xs| - 1]) != k then init + [xs[|xs| - 1]] else init
  }

  /** The date keys occurring in `xs`. */
  function KeySet(loc: Locale, xs: seq<Snippet>): set<string> {
    if xs == [] then {} else KeySet(loc, xs[..|xs| - 1]) + {DateKey(loc, xs[|xs| - 1])}
  }

  /** `KeySet` holds exactly the keys of the snippets in the list. */
  lemma {:induction false} KeySetMembers(loc: Locale, xs: seq<Snippet>, k: string)
    ensures k in KeySet(loc, xs) <==> exists i :: 0 <= i < |xs| && DateKey(loc, xs[i]) == k
    decreases |xs|
  {
    if xs != [] {
      var n := |xs| - 1;
      KeySetMembers(loc, xs[..n], k);
      if k in KeySet(loc, xs[..n]) {
        var i :| 0 <= i < n && DateKey(loc, xs[..n][i]) == k;
        assert xs[i] == xs[..n][i];
      }
      if exists i :: 0 <= i < |xs| && DateKey(loc, xs[i]) == k {
        var i :| 0 <= i < |xs| && DateKey(loc, xs[i]) == k;
        if i < n {
          assert xs[..n][i] == xs[i];
        }
      }
    }
  }

  predicate Distinct(ks: seq<string>) {
    forall i, j :: 0 <= i < j < |ks| ==> ks[i] != ks[j]
  }

  /** The keys of `groupSnippetsByDate`'s result object in `Object.keys`
      order: the order in which each date was first met. */
  function DateKeys(loc: Locale, xs: seq<Snippet>): (r: seq<string>)
    ensures Distinct(r)
    ensures forall k {:trigger k in r} :: k in r <==> k in KeySet(loc, xs)
  {
    if xs == [] then []
    else
      var init := DateKeys(loc, xs[..|xs| - 1]);
      var k := DateKey(loc, xs[|xs| - 1]);
      if k in init then init else init + [k]
  }

  /** A key list without `k`, otherwise in the same order. */
  function RemoveKey(ks: seq<string>, k: string): (r: seq<string>)
    ensures |r| <= |ks|
  {
    if ks == [] then [] else (if ks[0] == k then [] else [ks[0]]) + RemoveKey(ks[1..], k)
  }

  /** `RemoveKey` keeps exactly the other keys. */
  lemma {:induction false} RemoveKeyMembers(ks: seq<string>, k: string, x: string)
    ensures x in RemoveKey(ks, k) <==> x in ks && x != k
    decreases |ks|
  {
    if ks != [] {
      RemoveKeyMembers(ks[1..], k, x);
      assert x in ks <==> x == ks[0] || x in ks[1..] by {
        assert ks == [ks[0]] + ks[1..];
      }
    }
  }

  lemma {:induction false} RemoveKeyAppend(a: seq<string>, b: seq<string>, k: string)
    ensures RemoveKey(a + b, k) == RemoveKey(a, k) + RemoveKey(b, k)
    decreases |a|
  {
    if a == [] {
      assert a + b == b;
    } else {
      assert (a + b)[1..] == a[1..] + b;
      RemoveKeyAppend(a[1..], b, k);
    }
  }

  lemma {:induction false} RemoveKeySingle(x: string, k: string)
    ensures RemoveKey([x], k) == if x == k then [] else [x]
  {
    assert [x][1..] == [];
  }

  lemma {:induction false} DateKeysSnoc(loc: Locale, ys: seq<Snippet>, x: Snippet)
    ensures DateKeys(loc, ys + [x])
         == DateKeys(loc, ys) + (if DateKey(loc, x) in DateKeys(loc, ys) then [] else [DateKey(loc, x)])
  {
    var zs := ys + [x];
    assert zs[..|zs| - 1] == ys && zs[|zs| - 1] == x;
  }

  lemma {:induction false} WithoutDateSnoc(loc: Locale, ys: seq<Snippet>, x: Snippet, k: string)
    ensures WithoutDate(loc, ys + [x], k)
         == WithoutDate(loc, ys, k) + (if DateKey(loc, x) != k then [x] else [])
  {
    var zs := ys + [x];
    assert zs[..|zs| - 1] == ys && zs[|zs| - 1] == x;
  }

  /** After `deleteSnippetsByDate(k)` the dates are met in the same order
      as before, without `k`. */
  lemma {:induction false} DateKeysWithout(loc: Locale, xs: seq<Snippet>, k: string)
    ensures DateKeys(loc, WithoutDate(loc, xs, k)) == RemoveKey(DateKeys(loc, xs), k)
    decreases |xs|
  {
    if xs != [] {
      var n := |xs| - 1;
      var init, x := xs[..n], xs[n];
      assert xs == init + [x];
      var w := WithoutDate(loc, init, k);
      var d := DateKeys(loc, init);
      var kx := DateKey(loc, x);
      DateKeysWithout(loc, init, k);
      DateKeysSnoc(loc, init, x);
      WithoutDateSnoc(loc, init, x, k);
      var tail := if kx in d then [] else [kx];
      RemoveKeyAppend(d, tail, k);
      if kx == k {
        if tail != [] {
          RemoveKeySingle(kx, k);
        }
        assert RemoveKey(d, k) + [] == RemoveKey(d, k);
        assert WithoutDate(loc, xs, k) == w + [];
        assert w + [] == w;
      } else {
        DateKeysSnoc(loc, w, x);
        RemoveKeyMembers(d, k, kx);
        if tail != [] {
          RemoveKeySingle(kx, k);
        }
      }
    }
  }

  /** `groupSnippetsByDate`: each snippet is pushed, in list order, onto
      the array of its date key, created on first use. */
  function GroupByDate(loc: Locale, xs: seq<Snippet>): (r: map<string, seq<Snippet>>)
    ensures r.Keys == KeySet(loc, xs)
    ensures forall k {:trigger OnDate(loc, xs, k)} :: k in r ==> r[k] == OnDate(loc, xs, k)
  {
    if xs == [] then map[]
    else
      var g := GroupByDate(loc, xs[..|xs| - 1]);
      var x := xs[|xs| - 1];
      var k := DateKey(loc, x);
      g[k := (if k in g then g[k] else []) + [x]]
  }

  /** How often a snippet occurs among those of date `k`: as often as in
      the list when its key is `k`, never otherwise. */
  lemma {:induction false} OnDateCount(loc: Locale, xs: seq<Snippet>, k: string, s: Snippet)
    ensures multiset(OnDate(loc, xs, k))[s] == if DateKey(loc, s) == k then multiset(xs)[s] else 0
    decreases |xs|
  {
    if xs != [] {
      var n := |xs| - 1;
      OnDateCount(loc, xs[..n], k, s);
      assert xs == xs[..n] + [xs[n]];
    }
  }

  /** How often a snippet survives deletion of date `k`. */
  lemma {:induction false} WithoutDateCount(loc: Locale, xs: seq<Snippet>, k: string, s: Snippet)
    ensures multiset(WithoutDate(loc, xs, k))[s] == if DateKey(loc, s) != k then multiset(xs)[s] else 0
    decreases |xs|
  {
    if xs != [] {
      var n := |xs| - 1;
      WithoutDateCount(loc, xs[..n], k, s);
      assert xs == xs[..n] + [xs[n]];
    }
  }

  /** Deleting date `k` removes exactly that date's group: what is deleted
      and what is kept make up the list. */
  lemma {:induction false} DeleteRemovesExactlyTheGroup(loc: Locale, xs: seq<Snippet>, k: string)
    ensures multiset(WithoutDate(loc, xs, k)) + multiset(OnDate(loc, xs, k)) == multiset(xs)
    ensures |WithoutDate(loc, xs, k)| == |xs| - |OnDate(loc, xs, k)|
  {
    var w, o := WithoutDate(loc, xs, k), OnDate(loc, xs, k);
    forall s ensures (multiset(w) + multiset(o))[s] == multiset(xs)[s] {
      OnDateCount(loc, xs, k, s);
      WithoutDateCount(loc, xs, k, s);
    }
    assert multiset(WithoutDate(loc, xs, k)) + multiset(OnDate(loc, xs, k)) == multiset(xs);
    assert |multiset(WithoutDate(loc, xs, k)) + multiset(OnDate(loc, xs, k))| == |multiset(xs)|;
  }

  /** Order is kept: the filter of a concatenation is the concatenation of
      the filters. */
  lemma {:induction false} OnDateAppend(loc: Locale, xs: seq<Snippet>, ys: seq<Snippet>, k: string)
    ensures OnDate(loc, xs + ys, k) == OnDate(loc, xs, k) + OnDate(loc, ys, k)
    decreases |ys|
  {
    if ys == [] {
      assert xs + ys == xs;
    } else {
      var n := |ys| - 1;
      OnDateAppend(loc, xs, ys[..n], k);
      assert (xs + ys)[..|xs + ys| - 1] == xs + ys[..n];
      assert (xs + ys)[|xs + ys| - 1] == ys[n];
    }
  }

  lemma {:induction false} WithoutDateAppend(loc: Locale, xs: seq<Snippet>, ys: seq<Snippet>, k: string)
    ensures WithoutDate(loc, xs + ys, k) == WithoutDate(loc, xs, k) + WithoutDate(loc, ys, k)
    decreases |ys|
  {
    if ys == [] {
      assert xs + ys == xs;
    } else {
      var n := |ys| - 1;
      WithoutDateAppend(loc, xs, ys[..n], k);
      assert (xs + ys)[..|xs + ys| - 1] == xs + ys[..n];
      assert (xs + ys)[|xs + ys| - 1] == ys[n];
    }
  }

  /** Deleting a date no snippet has leaves the list unchanged. */
  lemma {:induction false} WithoutAbsentDate(loc: Locale, xs: seq<Snippet>, k: string)
    requires forall i :: 0 <= i < |xs| ==> DateKey(loc, xs[i]) != k
    ensures WithoutDate(loc, xs, k) == xs
    decreases |xs|
  {
    if xs != [] {
      var n := |xs| - 1;
      WithoutAbsentDate(loc, xs[..n], k);
      assert xs == xs[..n] + [xs[n]];
    }
  }

  /** Deleting a date twice is deleting it once. */
  lemma {:induction false} WithoutDateIdempotent(loc: Locale, xs: seq<Snippet>, k: string)
    ensures WithoutDate(loc, WithoutDate(loc, xs, k), k) == WithoutDate(loc, xs, k)
  {
    WithoutAbsentDate(loc, WithoutDate(loc, xs, k), k);
  }

  /** Deleting date `k` removes key `k` and no other key. */
  lemma {:induction false} KeySetWithout(loc: Locale, xs: seq<Snippet>, k: string)
    ensures KeySet(loc, WithoutDate(loc, xs, k)) == KeySet(loc, xs) - {k}
    decreases |xs|
  {
    if xs != [] {
      var n := |xs| - 1;
      KeySetWithout(loc, xs[..n], k);
    }
  }

  /** Deleting date `k` does not touch any other date's snippets. */
  lemma {:induction false} OnDateWithout(loc: Locale, xs: seq<Snippet>, k: string, k': string)
    requires k' != k
    ensures OnDate(loc, WithoutDate(loc, xs, k), k') == OnDate(loc, xs, k')
    decreases |xs|
  {
    if xs != [] {
      var n := |xs| - 1;
      OnDateWithout(loc, xs[..n], k, k');
      var w := WithoutDate(loc, xs[..n], k);
      if DateKey(loc, xs[n]) != k {
        assert WithoutDate(loc, xs, k) == w + [xs[n]];
        assert (w + [xs[n]])[..|w|] == w;
      }
    }
  }

  /** Regrouping after `deleteSnippetsByDate(k)` gives the old grouping
      without the group of `k`; every other group is unchanged. */
  lemma {:induction false} RegroupAfterDelete(loc: Locale, xs: seq<Snippet>, k: string)
    ensures GroupByDate(loc, WithoutDate(loc, xs, k)) == GroupByDate(loc, xs) - {k}
  {
    var before := GroupByDate(loc, xs);
    var after := GroupByDate(loc, WithoutDate(loc, xs, k));
    KeySetWithout(loc, xs, k);
    forall k' | k' in after
      ensures after[k'] == before[k']
    {
      OnDateWithout(loc, xs, k, k');
    }
    assert after.Keys == (before - {k}).Keys;
  }

  /** The groups listed for `ks`, concatenated: the order in which a list
      view or an export visits the snippets when it walks the keys `ks`. */
  function Flatten(ks: seq<string>, g: map<string, seq<Snippet>>): (r: seq<Snippet>)
    requires forall i :: 0 <= i < |ks| ==> ks[i] in g
  {
    if ks == [] then [] else g[ks[0]] + Flatten(ks[1..], g)
  }

  /** Walking distinct keys over the grouping visits each snippet whose key
      is among them exactly as often as it occurs in the list. */
  lemma {:induction false} FlattenCount(loc: Locale, xs: seq<Snippet>, ks: seq<string>, s: Snippet)
    requires Distinct(ks)
    requires forall i :: 0 <= i < |ks| ==> ks[i] in GroupByDate(loc, xs)
    ensures multiset(Flatten(ks, GroupByDate(loc, xs)))[s]
         == if DateKey(loc, s) in ks then multiset(xs)[s] else 0
    decreases |ks|
  {
    if ks != [] {
      var g := GroupByDate(loc, xs);
      var rest := ks[1..];
      assert Distinct(rest);
      assert DateKey(loc, s) in ks <==> DateKey(loc, s) == ks[0] || DateKey(loc, s) in rest;
      FlattenCount(loc, xs, rest, s);
      OnDateCount(loc, xs, ks[0], s);
    }
  }

  /** Every snippet is in the group of its own date and in no other. */
  lemma {:induction false} GroupOfEachSnippet(loc: Locale, xs: seq<Snippet>, k: string, s: Snippet)
    ensures k in GroupByDate(loc, xs) && s in GroupByDate(loc, xs)[k]
            <==> s in xs && DateKey(loc, s) == k
  {
    OnDateCount(loc, xs, k, s);
    if s in xs && DateKey(loc, s) == k {
      var i :| 0 <= i < |xs| && xs[i] == s;
      KeySetMembers(loc, xs, k);
    }
  }

  /** Walking all the date keys over the grouping visits every snippet as
      often as it occurs in the list, so the group sizes add up to the list
      length. */
  lemma {:induction false} GroupsCoverList(loc: Locale, xs: seq<Snippet>, ks: seq<string>)
    requires Distinct(ks)
    requires forall k :: k in ks <==> k in KeySet(loc, xs)
    ensures multiset(Flatten(ks, GroupByDate(loc, xs))) == multiset(xs)
    ensures |Flatten(ks, GroupByDate(loc, xs))| == |xs|
  {
    var g := GroupByDate(loc, xs);
    var f := Flatten(ks, g);
    forall s ensures multiset(f)[s] == multiset(xs)[s] {
      FlattenCount(loc, xs, ks, s);
      if s in xs {
        var i :| 0 <= i < |xs| && xs[i] == s;
        KeySetMembers(loc, xs, DateKey(loc, s));
      }
    }
    assert multiset(f) == multiset(xs);
    assert |multiset(f)| == |multiset(xs)|;
  }

  /** Three snippets over two dates form two groups, of two and one. */
  lemma {:induction false} TwoDatesExample(loc: Locale, a: Snippet, b: Snippet, c: Snippet)
    requires DateKey(loc, a) == DateKey(loc, b) != DateKey(loc, c)
    ensures var g := GroupByDate(loc, [a, b, c]);
            g.Keys == {DateKey(loc, a), DateKey(loc, c)}
            && g[DateKey(loc, a)] == [a, b] && g[DateKey(loc, c)] == [c]
  {
    var xs := [a, b, c];
    assert xs[..2] == [a, b];
    assert xs[..2][..1] == [a];
    assert [a][..0] == [];
    var ka, kc := DateKey(loc, a), DateKey(loc, c);
    assert OnDate(loc, [a], ka) == [a] && OnDate(loc, [a], kc) == [];
    assert OnDate(loc, [a, b], ka) == [a, b] && OnDate(loc, [a, b], kc) == [];
    assert OnDate(loc, xs, ka) == [a, b] && OnDate(loc, xs, kc) == [c];
  }
}
