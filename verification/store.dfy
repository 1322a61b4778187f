/** The `snippets` entry of the extension's local storage and the writes
    made to it: appending a captured snippet (content.js, save handler),
    deleting one date's snippets and deleting everything (popup/popup.js).
    The asynchronous storage calls are collapsed into functions from the
    stored value before to the stored value after. */
module Store {
  import opened Options
  import opened Snippets
  import opened Grouping

  /** The stored list; `None` when the key has never been written. */
  type Stored = Option<seq<Snippet>>

  /** `result.snippets || []`: a missing list reads as empty. */
  function Load(st: Stored): seq<Snippet> {
    st.GetOr([])
  }

  /** Reads the list, pushes `s` and writes the list back. */
  function Append(st: Stored, s: Snippet): (r: Stored)
    ensures r.Some?
    ensures |r.value| == |Load(st)| + 1
    ensures r.value[..|Load(st)|] == Load(st)
    ensures r.value[|Load(st)|] == s
  {
    Some(Load(st) + [s])
  }

  /** A save adds the snippet at the end of its own date's group and leaves
      every other group as it was. */
  lemma {:induction false} AppendJoinsOwnGroup(loc: Locale, st: Stored, s: Snippet, k: string)
    ensures OnDate(loc, Load(Append(st, s)), k)
         == OnDate(loc, Load(st), k) + (if DateKey(loc, s) == k then [s] else [])
  {
    var xs := Load(st);
    assert Load(Append(st, s)) == xs + [s];
    OnDateAppend(loc, xs, [s], k);
    assert [s][..0] == [];
  }

  /** `deleteSnippetsByDate(k)`: writes back the snippets whose date key
      is not `k`. */
  function DeleteByDate(loc: Locale, st: Stored, k: string): (r: Stored)
    ensures r.Some?
    ensures forall i :: 0 <= i < |r.value| ==> DateKey(loc, r.value[i]) != k
    ensures multiset(r.value) + multiset(OnDate(loc, Load(st), k)) == multiset(Load(st))
  {
    DeleteRemovesExactlyTheGroup(loc, Load(st), k);
    Some(WithoutDate(loc, Load(st), k))
  }

  /** Deleting a date twice is deleting it once. */
  lemma {:induction false} DeleteByDateIdempotent(loc: Locale, st: Stored, k: string)
    ensures DeleteByDate(loc, DeleteByDate(loc, st, k), k) == DeleteByDate(loc, st, k)
  {
    WithoutDateIdempotent(loc, Load(st), k);
  }

  /** Deleting a date no snippet has rewrites the same list. */
  lemma {:induction false} DeleteAbsentDate(loc: Locale, st: Stored, k: string)
    requires forall i :: 0 <= i < |Load(st)| ==> DateKey(loc, Load(st)[i]) != k
    ensures DeleteByDate(loc, st, k) == Some(Load(st))
  {
    WithoutAbsentDate(loc, Load(st), k);
  }

  /** After the delete, the list view has no section for `k` and every
      other section holds what it held before. */
  lemma {:induction false} DeleteByDateRegroups(loc: Locale, st: Stored, k: string)
    ensures GroupByDate(loc, Load(DeleteByDate(loc, st, k))) == GroupByDate(loc, Load(st)) - {k}
  {
    RegroupAfterDelete(loc, Load(st), k);
  }

  /** `deleteAllSnippets`: writes the empty list if the user confirms,
      and touches nothing otherwise. */
  function DeleteAll(st: Stored, confirmed: bool): (r: Stored)
    ensures confirmed ==> r == Some([])
    ensures !confirmed ==> r == st
  {
    if confirmed then Some([]) else st
  }

  /** A click on a date's delete button: `deleteSnippetsByDate` runs only
      when the user confirms. */
  function DeleteDateClick(loc: Locale, st: Stored, k: string, confirmed: bool): (r: Stored)
    ensures !confirmed ==> r == st
    ensures confirmed ==> Load(r) == WithoutDate(loc, Load(st), k)
  {
    if confirmed then DeleteByDate(loc, st, k) else st
  }
}
