/**
 Keyset pagination: the ids of a store in ascending order, one page of them after a
 cursor, and walks that follow the cursor from page to page.
 */
module Paging {
  import opened Base

  type Store = map<Str, User>

  ghost predicate Ascending(s: seq<Str>) {
    forall i, j {:trigger Less(s[i], s[j])} :: 0 <= i < j < |s| ==> Less(s[i], s[j])
  }

  ghost predicate IsLeast(m: Str, ids: set<Str>) {
    m in ids && forall x :: x in ids && x != m ==> Less(m, x)
  }

  lemma {:induction false} LeastExists(ids: set<Str>) returns (m: Str)
    requires ids != {}
    ensures IsLeast(m, ids)
    decreases |ids|
  {
    var x :| x in ids;
    if ids == {x} {
      m := x;
    } else {
      var y := LeastExists(ids - {x});
      LessTotal(x, y);
      if Less(x, y) {
        m := x;
        forall z | z in ids && z != m ensures Less(m, z) {
          if z != y {
            LessTransitive(x, y, z);
          }
        }
      } else {
        m := y;
      }
    }
  }

  ghost function Least(ids: set<Str>): (m: Str)
    requires ids != {}
    ensures IsLeast(m, ids)
  {
    assert exists m :: IsLeast(m, ids) by {
      var m := LeastExists(ids);
    }
    var m :| IsLeast(m, ids);
    m
  }

  function Elements(s: seq<Str>): set<Str> {
    set x | x in s
  }

  lemma ConsAscends(m: Str, rest: seq<Str>, ids: set<Str>)
    requires IsLeast(m, ids) && Ascending(rest) && Elements(rest) == ids - {m}
    ensures Ascending([m] + rest) && Elements([m] + rest) == ids
  {
    forall i | 0 <= i < |rest| ensures Less(m, rest[i]) {
      assert rest[i] in Elements(rest);
    }
    assert Elements([m] + rest) == {m} + Elements(rest);
  }

  /** The members of `ids`, in ascending order. */
  ghost function Sorted(ids: set<Str>): (r: seq<Str>)
    ensures Ascending(r) && Elements(r) == ids && |r| == |ids|
    decreases |ids|
  {
    if ids == {} then []
    else
      var m := Least(ids);
      var rest := Sorted(ids - {m});
      ConsAscends(m, rest, ids);
      [m] + rest
  }

  /** There is only one ascending listing of a set. */
  lemma {:induction false} AscendingUnique(a: seq<Str>, b: seq<Str>)
    requires Ascending(a) && Ascending(b) && Elements(a) == Elements(b)
    ensures a == b
  {
    if b != [] {
      assert b[0] in Elements(b);
    }
    if a != [] {
      assert a[0] in Elements(a) && b != [];
      assert b[0] in Elements(b);
      var i :| 0 <= i < |a| && a[i] == b[0];
      var j :| 0 <= j < |b| && b[j] == a[0];
      if i > 0 && j > 0 {
        LessTransitive(a[0], b[0], a[0]);
        LessIrreflexive(a[0]);
      }
      assert a[0] == b[0];
      HeadNotInTail(a);
      HeadNotInTail(b);
      assert Elements(a[1..]) == Elements(a) - {a[0]};
      assert Elements(b[1..]) == Elements(b) - {b[0]};
      AscendingUnique(a[1..], b[1..]);
    }
  }

  lemma HeadNotInTail(a: seq<Str>)
    requires Ascending(a) && a != []
    ensures a[0] !in a[1..]
  {
    if a[0] in a[1..] {
      var i :| 0 < i < |a| && a[i] == a[0];
      LessIrreflexive(a[0]);
    }
  }

  // ---------------------------------------------------------------------------
  // One page

  /** The ids of the store strictly after `after`, in ascending order. */
  ghost function IdsAfter(store: Store, after: Str): (r: seq<Str>)
    ensures Ascending(r)
  {
    Sorted(set x | x in store && Less(after, x))
  }

  lemma InIdsAfter(store: Store, after: Str, x: Str)
    ensures x in IdsAfter(store, after) <==> x in store && Less(after, x)
  {
    assert x in IdsAfter(store, after) <==> x in Elements(IdsAfter(store, after));
  }

  /** The ids of the page of at most `limit` users strictly after `after`. */
  ghost function PageIds(store: Store, limit: int, after: Str): seq<Str>
    requires limit > 0
  {
    var ids := IdsAfter(store, after);
    if |ids| <= limit then ids else ids[..limit]
  }

  /** The cursor to resume from, or the empty string when the page is the last one. */
  ghost function NextCursor(store: Store, limit: int, after: Str): Str
    requires limit > 0
  {
    var ids := IdsAfter(store, after);
    if |ids| <= limit then [] else ids[limit - 1]
  }

  /** In an ascending list, what comes after position `n - 1` is what is greater than the element there. */
  lemma SplitMembers(ids: seq<Str>, n: nat, x: Str)
    requires Ascending(ids) && 0 < n <= |ids| && x in ids
    ensures x in ids[n..] <==> Less(ids[n - 1], x)
  {
    var i :| 0 <= i < |ids| && ids[i] == x;
    if i >= n {
      assert ids[n..][i - n] == x;
    } else {
      if Less(ids[n - 1], x) {
        if i < n - 1 {
          LessTransitive(x, ids[n - 1], x);
        }
      }
      LessIrreflexive(x);
    }
  }

  /** A cursor is the last id of its page; the page after it is the rest of the listing. */
  lemma CursorSplitsListing(store: Store, limit: int, after: Str)
    requires limit > 0 && |IdsAfter(store, after)| > limit
    ensures Less(after, NextCursor(store, limit, after)) && NextCursor(store, limit, after) != []
    ensures IdsAfter(store, NextCursor(store, limit, after)) == IdsAfter(store, after)[limit..]
  {
    var ids := IdsAfter(store, after);
    var c := ids[limit - 1];
    InIdsAfter(store, after, c);
    forall x
      ensures x in ids[limit..] <==> x in IdsAfter(store, c)
    {
      InIdsAfter(store, after, x);
      InIdsAfter(store, c, x);
      if x in ids {
        SplitMembers(ids, limit, x);
      } else if x in IdsAfter(store, c) {
        LessTransitive(after, c, x);
      }
    }
    assert Elements(IdsAfter(store, c)) == Elements(ids[limit..]);
    AscendingUnique(IdsAfter(store, c), ids[limit..]);
  }

  // ---------------------------------------------------------------------------
  // A cursor walk while the store changes

  ghost predicate Limits(limits: seq<int>) {
    forall i :: 0 <= i < |limits| ==> limits[i] > 0
  }

  /** Follow the cursor from `after`: page i is read from `stores[i]`, whatever happened to
      the store since the page before it. */
  ghost function Walk(stores: seq<Store>, limits: seq<int>, after: Str): seq<Str>
    requires |stores| == |limits| && Limits(limits)
  {
    if stores == [] then []
    else
      var next := NextCursor(stores[0], limits[0], after);
      PageIds(stores[0], limits[0], after) + if next == [] then [] else Walk(stores[1..], limits[1..], next)
  }

  ghost predicate Ends(stores: seq<Store>, limits: seq<int>, after: Str)
    requires |stores| == |limits| && Limits(limits)
  {
    stores != [] &&
    var next := NextCursor(stores[0], limits[0], after);
    next == [] || Ends(stores[1..], limits[1..], next)
  }

  ghost predicate AllAfter(s: seq<Str>, after: Str) {
    forall i :: 0 <= i < |s| ==> Less(after, s[i])
  }

  lemma GlueAfterCursor(page: seq<Str>, rest: seq<Str>, after: Str, next: Str)
    requires page != [] && page[|page| - 1] == next && Less(after, next)
    requires Ascending(page) && AllAfter(page, after)
    requires Ascending(rest) && AllAfter(rest, next)
    ensures Ascending(page + rest) && AllAfter(page + rest, after)
  {
    var c := page + rest;
    forall i, j | 0 <= i < j < |c|
      ensures Less(c[i], c[j])
    {
      if i < |page| - 1 && j >= |page| {
        LessTransitive(page[i], next, rest[j - |page|]);
      }
    }
    forall i | 0 <= i < |c|
      ensures Less(after, c[i])
    {
      if i >= |page| {
        LessTransitive(after, next, rest[i - |page|]);
      }
    }
  }

  lemma ListingAfter(store: Store, after: Str)
    ensures AllAfter(IdsAfter(store, after), after)
  {
    var ids := IdsAfter(store, after);
    forall i | 0 <= i < |ids| ensures Less(after, ids[i]) {
      InIdsAfter(store, after, ids[i]);
    }
  }

  lemma PrefixAscends(ids: seq<Str>, n: nat, after: Str)
    requires n <= |ids| && Ascending(ids) && AllAfter(ids, after)
    ensures Ascending(ids[..n]) && AllAfter(ids[..n], after)
  {
    var p := ids[..n];
    forall i, j | 0 <= i < j < |p| ensures Less(p[i], p[j]) {
      assert Less(ids[i], ids[j]);
    }
  }

  lemma PageAscends(store: Store, limit: int, after: Str)
    requires limit > 0
    ensures Ascending(PageIds(store, limit, after)) && AllAfter(PageIds(store, limit, after), after)
    ensures var page, next := PageIds(store, limit, after), NextCursor(store, limit, after);
            next != [] ==> page != [] && page[|page| - 1] == next && Less(after, next)
  {
    var ids := IdsAfter(store, after);
    ListingAfter(store, after);
    if |ids| > limit {
      PrefixAscends(ids, limit, after);
    }
  }

  /** Under any mutation between pages, the walk returns strictly ascending ids, hence no duplicates. */
  lemma {:induction false} WalkAscends(stores: seq<Store>, limits: seq<int>, after: Str)
    requires |stores| == |limits| && Limits(limits)
    ensures Ascending(Walk(stores, limits, after)) && AllAfter(Walk(stores, limits, after), after)
  {
    if stores != [] {
      var page := PageIds(stores[0], limits[0], after);
      var next := NextCursor(stores[0], limits[0], after);
      PageAscends(stores[0], limits[0], after);
      if next == [] {
        assert Walk(stores, limits, after) == page;
      } else {
        WalkAscends(stores[1..], limits[1..], next);
        GlueAfterCursor(page, Walk(stores[1..], limits[1..], next), after, next);
      }
    }
  }

  /** An id past the cursor is on the page, or past the next cursor. */
  lemma OnPageOrLater(store: Store, limit: int, after: Str, id: Str)
    requires limit > 0 && id in store && Less(after, id)
    ensures || id in PageIds(store, limit, after)
            || (NextCursor(store, limit, after) != [] && Less(NextCursor(store, limit, after), id))
  {
    var ids := IdsAfter(store, after);
    InIdsAfter(store, after, id);
    var k :| 0 <= k < |ids| && ids[k] == id;
    if k < limit {
      assert PageIds(store, limit, after)[k] == id;
    } else {
      CursorSplitsListing(store, limit, after);
      assert ids[limit..][k - limit] == id;
      InIdsAfter(store, ids[limit - 1], id);
    }
  }

  /** A walk that ends returns every user that was live throughout it. */
  lemma {:induction false} WalkComplete(stores: seq<Store>, limits: seq<int>, after: Str, id: Str)
    requires |stores| == |limits| && Limits(limits)
    requires Ends(stores, limits, after) && Less(after, id)
    requires forall i :: 0 <= i < |stores| ==> id in stores[i]
    ensures id in Walk(stores, limits, after)
  {
    OnPageOrLater(stores[0], limits[0], after, id);
    if id !in PageIds(stores[0], limits[0], after) {
      WalkComplete(stores[1..], limits[1..], NextCursor(stores[0], limits[0], after), id);
    }
  }

  /** A page as it was read: the cursor it was asked for with, and its ids. */
  datatype PageRead = PageRead(cursor: Str, ids: seq<Str>)

  /** The pages of the walk; the i-th is read from the i-th store. */
  ghost function Reads(stores: seq<Store>, limits: seq<int>, after: Str): (r: seq<PageRead>)
    requires |stores| == |limits| && Limits(limits)
    ensures |r| <= |stores|
  {
    if stores == [] then []
    else
      var next := NextCursor(stores[0], limits[0], after);
      var first := PageRead(after, PageIds(stores[0], limits[0], after));
      [first] + if next == [] then [] else Reads(stores[1..], limits[1..], next)
  }

  function AllIds(pages: seq<PageRead>): seq<Str> {
    if pages == [] then [] else pages[0].ids + AllIds(pages[1..])
  }

  lemma {:induction false} WalkIsItsPages(stores: seq<Store>, limits: seq<int>, after: Str)
    requires |stores| == |limits| && Limits(limits)
    ensures Walk(stores, limits, after) == AllIds(Reads(stores, limits, after))
  {
    if stores != [] {
      var next := NextCursor(stores[0], limits[0], after);
      var first := PageRead(after, PageIds(stores[0], limits[0], after));
      if next == [] {
        assert AllIds([first]) == first.ids + AllIds([]);
      } else {
        WalkIsItsPages(stores[1..], limits[1..], next);
        var rest := Reads(stores[1..], limits[1..], next);
        assert ([first] + rest)[1..] == rest;
      }
    }
  }

  lemma {:induction false} OnSomePage(pages: seq<PageRead>, id: Str) returns (i: nat)
    requires id in AllIds(pages)
    ensures i < |pages| && id in pages[i].ids
  {
    if id in pages[0].ids {
      i := 0;
    } else {
      var j := OnSomePage(pages[1..], id);
      i := j + 1;
    }
  }

  /** What is read on page `i`, as long as the walk gets there, is the page after its cursor. */
  ghost predicate Genuine(stores: seq<Store>, limits: seq<int>, pages: seq<PageRead>, i: nat)
    requires |stores| == |limits| && Limits(limits) && |pages| <= |stores|
  {
    i < |pages| ==> pages[i].ids == PageIds(stores[i], limits[i], pages[i].cursor)
  }

  lemma GenuineLater(stores: seq<Store>, limits: seq<int>, first: PageRead, rest: seq<PageRead>, i: nat)
    requires |stores| == |limits| && Limits(limits) && |rest| < |stores|
    requires Genuine(stores[1..], limits[1..], rest, i)
    ensures Genuine(stores, limits, [first] + rest, i + 1)
  {
  }

  lemma {:induction false} PageAt(stores: seq<Store>, limits: seq<int>, after: Str, i: nat)
    requires |stores| == |limits| && Limits(limits)
    ensures Genuine(stores, limits, Reads(stores, limits, after), i)
  {
    if stores != [] && i > 0 {
      var next := NextCursor(stores[0], limits[0], after);
      if next != [] {
        PageAt(stores[1..], limits[1..], next, i - 1);
        var first := PageRead(after, PageIds(stores[0], limits[0], after));
        GenuineLater(stores, limits, first, Reads(stores[1..], limits[1..], next), i - 1);
      }
    }
  }

  /** Everything a walk returns was on one of its pages, live in the store which that page was read from. */
  lemma WalkSound(stores: seq<Store>, limits: seq<int>, after: Str, id: Str) returns (i: nat)
    requires |stores| == |limits| && Limits(limits)
    ensures var pages := Reads(stores, limits, after);
            id in Walk(stores, limits, after) ==>
              && i < |pages| && id in stores[i]
              && id in PageIds(stores[i], limits[i], pages[i].cursor)
  {
    var pages := Reads(stores, limits, after);
    i := 0;
    WalkIsItsPages(stores, limits, after);
    if id in Walk(stores, limits, after) {
      i := OnSomePage(pages, id);
      PageAt(stores, limits, after, i);
      InIdsAfter(stores[i], pages[i].cursor, id);
    }
  }

  function Occurrences(s: seq<Str>, x: Str): nat {
    multiset(s)[x]
  }

  lemma {:induction false} AscendingOccursOnce(s: seq<Str>, x: Str)
    requires Ascending(s) && x in s
    ensures Occurrences(s, x) == 1
  {
    assert s == [s[0]] + s[1..];
    HeadNotInTail(s);
    if x != s[0] {
      AscendingOccursOnce(s[1..], x);
    }
  }

  /** The walk from the start: every non-empty id live throughout a walk that ends is returned exactly once. */
  lemma CursorWalk(stores: seq<Store>, limits: seq<int>, id: Str)
    requires |stores| == |limits| && Limits(limits) && Ends(stores, limits, [])
    requires id != [] && forall i :: 0 <= i < |stores| ==> id in stores[i]
    ensures Ascending(Walk(stores, limits, [])) && Occurrences(Walk(stores, limits, []), id) == 1
  {
    WalkAscends(stores, limits, []);
    WalkComplete(stores, limits, [], id);
    AscendingOccursOnce(Walk(stores, limits, []), id);
  }
}
