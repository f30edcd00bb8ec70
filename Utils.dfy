/**
 * Selection of content entries (src/utils.js): the `isPublished` and
 * `isPinned` predicates and the conjunctive filter behind
 * `getFilteredEntries` and `getPublishedEntries`.  The collection arrives as
 * a sequence; loading it is outside the model.
 */
module Utils {
  import opened Wrappers

  /**
   * An entry's frontmatter, shaped by the collection schema.  `draft` and
   * `pinned` are absent (`None`) where an entry does not set them.
   */
  datatype EntryData = EntryData(
    title: string,
    slug: string,
    date: int,
    description: Option<string>,
    tags: seq<string>,
    draft: Option<bool>,
    pinned: Option<bool>)

  datatype Entry = Entry(id: string, data: EntryData)

  /** `entry.data.draft !== true`: a missing or false `draft` counts as published. */
  predicate IsPublished(e: Entry): (b: bool)
    ensures b <==> e.data.draft.None? || e.data.draft == Some(false)
  {
    assert e.data.draft.Some? ==> (e.data.draft == Some(true) <==> e.data.draft.value);
    e.data.draft != Some(true)
  }

  /** `entry.data.pinned === true`: only an explicit `true` pins. */
  predicate IsPinned(e: Entry): (b: bool)
    ensures b <==> e.data.pinned.Some? && e.data.pinned.value
  {
    e.data.pinned == Some(true)
  }

  /** `filters.every((filter) => filter(entry))`: no filter rejects the entry, so an empty list accepts it. */
  predicate PassesAll(filters: seq<Entry -> bool>, e: Entry): (b: bool)
    ensures b <==> forall f :: f in filters ==> f(e)
    ensures filters == [] ==> b
  {
    forall i :: 0 <= i < |filters| ==> filters[i](e)
  }

  /** `a` is `b` with some elements dropped, the rest in their order. */
  predicate IsSubsequence(a: seq<Entry>, b: seq<Entry>)
    decreases |b|
  {
    a == [] ||
    (b != [] && ((a[0] == b[0] && IsSubsequence(a[1..], b[1..])) || IsSubsequence(a, b[1..])))
  }

  /**
   * `entries.filter((entry) => filters.every(...))`: the entries satisfying
   * every filter, each as often as in `entries`, in their original order.
   */
  function FilteredEntries(entries: seq<Entry>, filters: seq<Entry -> bool>): (r: seq<Entry>)
    ensures forall x :: x in r <==> x in entries && PassesAll(filters, x)
    ensures forall x :: multiset(r)[x] == if PassesAll(filters, x) then multiset(entries)[x] else 0
    ensures IsSubsequence(r, entries)
    decreases entries
  {
    if entries == [] then []
    else
      var rest := FilteredEntries(entries[1..], filters);
      assert entries == [entries[0]] + entries[1..];
      if PassesAll(filters, entries[0]) then [entries[0]] + rest else rest
  }

  /** `getPublishedEntries(collection, pinned)`: published entries, pinned ones only when asked. */
  function PublishedEntries(entries: seq<Entry>, pinned: bool): (r: seq<Entry>)
    ensures IsSubsequence(r, entries)
    ensures forall x :: x in r ==> IsPublished(x) && (pinned ==> IsPinned(x))
  {
    var filters := [IsPublished] + (if pinned then [IsPinned] else []);
    assert filters[0] == IsPublished && (pinned ==> filters[1] == IsPinned);
    FilteredEntries(entries, filters)
  }

  /** With no filters (the default) the whole collection comes back. */
  lemma {:induction false} NoFiltersKeepAll(entries: seq<Entry>)
    ensures FilteredEntries(entries, []) == entries
    decreases entries
  {
    if entries != [] {
      NoFiltersKeepAll(entries[1..]);
      assert entries == [entries[0]] + entries[1..];
    }
  }

  /** Filtering again with the same filters changes nothing. */
  lemma {:induction false} FilterIdempotent(entries: seq<Entry>, filters: seq<Entry -> bool>)
    ensures FilteredEntries(FilteredEntries(entries, filters), filters) == FilteredEntries(entries, filters)
    decreases entries
  {
    if entries != [] {
      FilterIdempotent(entries[1..], filters);
      var rest := FilteredEntries(entries[1..], filters);
      if PassesAll(filters, entries[0]) {
        assert ([entries[0]] + rest)[1..] == rest;
      }
    }
  }

  /** Adding filters only removes entries: the result is a subsequence of the one before. */
  lemma {:induction false} MoreFiltersFewerEntries(entries: seq<Entry>, filters: seq<Entry -> bool>, more: seq<Entry -> bool>)
    ensures IsSubsequence(FilteredEntries(entries, filters + more), FilteredEntries(entries, filters))
    decreases entries
  {
    if entries != [] {
      MoreFiltersFewerEntries(entries[1..], filters, more);
      var e := entries[0];
      var narrow := FilteredEntries(entries[1..], filters + more);
      var wide := FilteredEntries(entries[1..], filters);
      if PassesAll(filters + more, e) {
        assert forall i :: 0 <= i < |filters| ==> (filters + more)[i] == filters[i];
        assert ([e] + narrow)[1..] == narrow && ([e] + wide)[1..] == wide;
      } else if PassesAll(filters, e) {
        assert ([e] + wide)[1..] == wide;
        if narrow != [] {
          assert IsSubsequence(narrow, ([e] + wide)[1..]);
        }
      }
    }
  }

  /** `getPublishedEntries(c, pinned)`: exactly the entries not marked as drafts, and of those only the pinned ones when `pinned` is set. */
  lemma {:induction false} PublishedEntriesMembers(entries: seq<Entry>, pinned: bool, x: Entry)
    ensures x in PublishedEntries(entries, pinned) <==>
      x in entries && IsPublished(x) && (pinned ==> IsPinned(x))
  {
    var filters := [IsPublished] + (if pinned then [IsPinned] else []);
    assert filters[0] == IsPublished;
    assert pinned ==> filters[1] == IsPinned;
    assert PassesAll(filters, x) <==> IsPublished(x) && (pinned ==> IsPinned(x));
  }

  /** The pinned selection is a subsequence of the published one. */
  lemma PinnedWithinPublished(entries: seq<Entry>)
    ensures IsSubsequence(PublishedEntries(entries, true), PublishedEntries(entries, false))
  {
    assert [IsPublished] + (if true then [IsPinned] else []) == [IsPublished] + [IsPinned];
    assert [IsPublished] + (if false then [IsPinned] else []) == [IsPublished];
    MoreFiltersFewerEntries(entries, [IsPublished], [IsPinned]);
  }
}
