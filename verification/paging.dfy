/** The two paginated remote listings of main.go: the organisation's
    repositories (`listPublicRepos`) and the commits of a comparison
    (`compareAllCommits`). The remote is a finite list of pages indexed by
    the page number the client requests. */
module Paging {
  import opened Wrappers

  /** One response of a paginated request: the page's items and the number
      of the next page (0 when there is none), or the request's error. */
  datatype Page<T> = Page(items: seq<T>, nextPage: nat) | Failed(error: string)

  /** Page size both listings ask for. */
  const PerPage: nat := 100

  /** Every next-page link is 0 or points to a later page, so following the
      links ends. */
  predicate Advancing<T>(src: seq<Page<T>>) {
    forall p :: 0 <= p < |src| && src[p].Page? ==> src[p].nextPage == 0 || p < src[p].nextPage
  }

  /** A remote listing: `src[p]` answers a request for page `p`. */
  type Source<T> = src: seq<Page<T>> | Advancing(src) witness []

  /** The response to a request for page `p`; a page past the end of the
      listing is empty and has no next page. */
  function Fetch<T>(src: Source<T>, p: nat): Page<T> {
    if p < |src| then src[p] else Page([], 0)
  }

  function Remaining<T>(src: Source<T>, p: nat): nat {
    if p < |src| then |src| - p else 0
  }

  /** Whether the client requests no page after `pg`: it failed, it has no
      next page, or it holds fewer than `full` items (`full` = 0 disables
      the last test). */
  predicate Stops<T>(pg: Page<T>, full: nat) {
    pg.Failed? || pg.nextPage == 0 || |pg.items| < full
  }

  /** The responses the client receives, in request order, when it starts
      at page `p` and follows next-page links until `Stops`. */
  function Visits<T>(src: Source<T>, p: nat, full: nat): (v: seq<Page<T>>)
    decreases Remaining(src, p)
    ensures |v| >= 1 && v[0] == Fetch(src, p)
    ensures Stops(v[|v| - 1], full)
  {
    var pg := Fetch(src, p);
    if Stops(pg, full) then [pg] else [pg] + Visits(src, pg.nextPage, full)
  }

  /** Only the last response of a walk stops it. */
  lemma {:induction false} VisitsContinue<T>(src: Source<T>, p: nat, full: nat)
    decreases Remaining(src, p)
    ensures var v := Visits(src, p, full);
            forall i :: 0 <= i < |v| - 1 ==> !Stops(v[i], full)
  {
    var pg := Fetch(src, p);
    if !Stops(pg, full) {
      var rest := Visits(src, pg.nextPage, full);
      VisitsNext(src, p, full);
      VisitsContinue(src, pg.nextPage, full);
      var v := Visits(src, p, full);
      forall i | 0 <= i < |v| - 1
        ensures !Stops(v[i], full)
      {
        if i == 0 {
          assert v[0] == pg;
        } else {
          assert v[i] == rest[i - 1] && i - 1 < |rest| - 1;
        }
      }
    }
  }

  function ItemsOf<T>(pg: Page<T>): seq<T> {
    if pg.Page? then pg.items else []
  }

  /** The in-order concatenation of the items of `v`. */
  function Items<T>(v: seq<Page<T>>): seq<T> {
    if |v| == 0 then [] else ItemsOf(v[0]) + Items(v[1..])
  }

  /** What a walk over the responses `v` yields when every page is kept:
      the error of a failed last page, or everything collected. */
  function Collected<T>(v: seq<Page<T>>, acc: seq<T>): Result<seq<T>, string>
    requires |v| >= 1
  {
    if v[|v| - 1].Failed? then Failure(v[|v| - 1].error) else Success(acc + Items(v))
  }

  /** The outcome of a paginated walk and the number of requests it made. */
  datatype Fetched<T> = Fetched(result: Result<seq<T>, string>, requests: nat)

  lemma ItemsCons<T>(v: seq<Page<T>>, j: nat)
    requires j < |v|
    ensures Items(v[..j + 1]) == ItemsOf(v[0]) + Items(v[1..][..j])
  {
    assert v[..j + 1][0] == v[0];
    assert v[..j + 1][1..] == v[1..][..j];
  }

  lemma Associative<T>(a: seq<T>, b: seq<T>, c: seq<T>)
    ensures a + (b + c) == (a + b) + c
  {
  }

  lemma TakeOfLonger<T>(a: seq<T>, b: seq<T>, n: nat)
    requires n <= |a|
    ensures (a + b)[..n] == a[..n]
  {
  }

  /** Items of the first k responses form a prefix of all the items. */
  lemma {:induction false} ItemsPrefix<T>(v: seq<Page<T>>, k: nat)
    requires k <= |v|
    ensures Items(v) == Items(v[..k]) + Items(v[k..])
  {
    if k == 0 {
      assert v[..0] == [] && v[0..] == v;
      assert Items(v[..0]) == [];
    } else {
      assert Items(v) == ItemsOf(v[0]) + Items(v[1..]);
      assert Items(v[..k]) == ItemsOf(v[0]) + Items(v[1..][..k - 1]) by {
        ItemsCons(v, k - 1);
      }
      assert Items(v[1..]) == Items(v[1..][..k - 1]) + Items(v[k..]) by {
        ItemsPrefix(v[1..], k - 1);
        assert v[1..][k - 1..] == v[k..];
      }
      Associative(ItemsOf(v[0]), Items(v[1..][..k - 1]), Items(v[k..]));
    }
  }

  /** A walk whose first response stops it is that response alone. */
  lemma VisitsLast<T>(src: Source<T>, page: nat, full: nat)
    requires Stops(Fetch(src, page), full)
    ensures Visits(src, page, full) == [Fetch(src, page)]
    ensures Items(Visits(src, page, full)) == ItemsOf(Fetch(src, page))
  {
    assert Visits(src, page, full)[1..] == [];
  }

  /** A walk whose first response does not stop it continues with the walk
      from the page that response links to. */
  lemma VisitsNext<T>(src: Source<T>, page: nat, full: nat)
    requires !Stops(Fetch(src, page), full)
    ensures var v := Visits(src, page, full);
            var next := Fetch(src, page).nextPage;
            var w := Visits(src, next, full);
            && Remaining(src, next) < Remaining(src, page)
            && |v| == |w| + 1 && v[1..] == w && v[|v| - 1] == w[|w| - 1]
            && Items(v) == ItemsOf(Fetch(src, page)) + Items(w)
  {
    var v := Visits(src, page, full);
    var w := Visits(src, Fetch(src, page).nextPage, full);
    assert v[1..] == w;
  }

  /** The loop of `listPublicRepos` from page `page` with `acc` already
      collected: append each page, stop with exactly `limit` items once a
      positive `limit` is reached, stop after a page with no next page,
      and give up with the error of any failed request. */
  function ListFrom<T>(src: Source<T>, page: nat, acc: seq<T>, limit: int): Fetched<T>
    decreases Remaining(src, page)
  {
    match Fetch(src, page)
    case Failed(e) => Fetched(Failure(e), 1)
    case Page(items, next) =>
      var got := acc + items;
      if limit > 0 && |got| >= limit then Fetched(Success(got[..limit]), 1)
      else if next == 0 then Fetched(Success(got), 1)
      else
        var rest := ListFrom(src, next, got, limit);
        Fetched(rest.result, rest.requests + 1)
  }

  /** What the listing loop delivers from page `page` with `acc` held: when
      the cap is off or never reached, every response of the walk is
      requested and everything is kept (or the last response's error is
      returned); otherwise requests end at the first response that reaches
      the cap, and exactly `limit` items are kept. */
  ghost predicate CappedWalk<T>(src: Source<T>, page: nat, acc: seq<T>, limit: int, f: Fetched<T>) {
    var v := Visits(src, page, 0);
    if limit <= 0 || |acc| + |Items(v)| < limit then
      f.requests == |v| && f.result == Collected(v, acc)
    else
      && 1 <= f.requests <= |v|
      && |acc| + |Items(v[..f.requests - 1])| < limit <= |acc| + |Items(v[..f.requests])|
      && f.result == Success((acc + Items(v))[..limit])
  }

  lemma ListWalksLast<T>(src: Source<T>, page: nat, acc: seq<T>, limit: int)
    requires limit <= 0 || |acc| < limit
    requires Stops(Fetch(src, page), 0)
    ensures CappedWalk(src, page, acc, limit, ListFrom(src, page, acc, limit))
  {
    var v := Visits(src, page, 0);
    VisitsLast(src, page, 0);
    assert v[..0] == [] && v[..1] == v;
  }

  lemma ListWalksCapHere<T>(src: Source<T>, page: nat, acc: seq<T>, limit: int)
    requires !Stops(Fetch(src, page), 0)
    requires 0 < limit && |acc| < limit <= |acc + Fetch(src, page).items|
    ensures CappedWalk(src, page, acc, limit, ListFrom(src, page, acc, limit))
  {
    var v := Visits(src, page, 0);
    var pg := Fetch(src, page);
    var got := acc + pg.items;
    assert ListFrom(src, page, acc, limit) == Fetched(Success(got[..limit]), 1);
    assert |Items(v)| == |pg.items| + |Items(v[1..])| by {
      VisitsNext(src, page, 0);
    }
    assert |Items(v[..0])| == 0 && Items(v[..1]) == pg.items by {
      ItemsCons(v, 0);
      assert v[..0] == [];
    }
    assert (acc + Items(v))[..limit] == got[..limit] by {
      VisitsNext(src, page, 0);
      Associative(acc, pg.items, Items(v[1..]));
      TakeOfLonger(got, Items(v[1..]), limit);
    }
  }

  /** The walk from `page` is its first response followed by the walk from
      the linked page, and collects that response's items first. */
  lemma WalkShift<T>(src: Source<T>, page: nat, acc: seq<T>, full: nat)
    requires !Stops(Fetch(src, page), full)
    ensures var v := Visits(src, page, full);
            var pg := Fetch(src, page);
            var w := Visits(src, pg.nextPage, full);
            && Remaining(src, pg.nextPage) < Remaining(src, page)
            && |v| == |w| + 1 && v[1..] == w && v[|v| - 1] == w[|w| - 1]
            && acc + Items(v) == (acc + pg.items) + Items(w)
  {
    var pg := Fetch(src, page);
    var v := Visits(src, page, full);
    var w := Visits(src, pg.nextPage, full);
    VisitsNext(src, page, full);
    assert Items(v) == pg.items + Items(w);
    Associative(acc, pg.items, Items(w));
  }

  /** Hence a walk collects what the walk from the linked page collects
      once the first response's items are held. */
  lemma CollectedShift<T>(src: Source<T>, page: nat, acc: seq<T>, full: nat)
    requires !Stops(Fetch(src, page), full)
    ensures var pg := Fetch(src, page);
            Collected(Visits(src, page, full), acc) == Collected(Visits(src, pg.nextPage, full), acc + pg.items)
  {
    WalkShift(src, page, acc, full);
  }

  /** The cap is off or the rest of the walk never reaches it: one more
      request than the rest of the walk, with the same outcome. */
  lemma ListWalksOnUncapped<T>(src: Source<T>, page: nat, acc: seq<T>, limit: int)
    requires !Stops(Fetch(src, page), 0)
    requires var pg := Fetch(src, page);
             limit <= 0 || |acc + pg.items| + |Items(Visits(src, pg.nextPage, 0))| < limit
    requires var pg := Fetch(src, page);
             CappedWalk(src, pg.nextPage, acc + pg.items, limit, ListFrom(src, pg.nextPage, acc + pg.items, limit))
    ensures CappedWalk(src, page, acc, limit, ListFrom(src, page, acc, limit))
  {
    var pg := Fetch(src, page);
    var v := Visits(src, page, 0);
    var w := Visits(src, pg.nextPage, 0);
    var got := acc + pg.items;
    var rest := ListFrom(src, pg.nextPage, got, limit);
    assert ListFrom(src, page, acc, limit) == Fetched(rest.result, rest.requests + 1);
    WalkShift(src, page, acc, 0);
    CollectedShift(src, page, acc, 0);
  }

  /** The rest of the walk reaches the cap after `k` requests: the walk
      from here reaches it after `k + 1`, keeping the same items. */
  lemma ListWalksOnCapped<T>(src: Source<T>, page: nat, acc: seq<T>, limit: int)
    requires !Stops(Fetch(src, page), 0)
    requires var pg := Fetch(src, page);
             0 < limit && |acc + pg.items| < limit <= |acc + pg.items| + |Items(Visits(src, pg.nextPage, 0))|
    requires var pg := Fetch(src, page);
             CappedWalk(src, pg.nextPage, acc + pg.items, limit, ListFrom(src, pg.nextPage, acc + pg.items, limit))
    ensures CappedWalk(src, page, acc, limit, ListFrom(src, page, acc, limit))
  {
    var pg := Fetch(src, page);
    var v := Visits(src, page, 0);
    var w := Visits(src, pg.nextPage, 0);
    var got := acc + pg.items;
    var rest := ListFrom(src, pg.nextPage, got, limit);
    var k := rest.requests;
    assert ListFrom(src, page, acc, limit) == Fetched(rest.result, k + 1);
    WalkShift(src, page, acc, 0);
    assert |Items(v[..k])| == |pg.items| + |Items(w[..k - 1])| by {
      ItemsCons(v, k - 1);
    }
    assert |Items(v[..k + 1])| == |pg.items| + |Items(w[..k])| by {
      ItemsCons(v, k);
    }
  }

  lemma {:induction false} ListFromWalks<T>(src: Source<T>, page: nat, acc: seq<T>, limit: int)
    requires limit <= 0 || |acc| < limit
    decreases Remaining(src, page)
    ensures CappedWalk(src, page, acc, limit, ListFrom(src, page, acc, limit))
  {
    var pg := Fetch(src, page);
    if Stops(pg, 0) {
      ListWalksLast(src, page, acc, limit);
    } else if limit > 0 && |acc + pg.items| >= limit {
      ListWalksCapHere(src, page, acc, limit);
    } else {
      VisitsNext(src, page, 0);
      ListFromWalks(src, pg.nextPage, acc + pg.items, limit);
      if limit <= 0 || |acc + pg.items| + |Items(Visits(src, pg.nextPage, 0))| < limit {
        ListWalksOnUncapped(src, page, acc, limit);
      } else {
        ListWalksOnCapped(src, page, acc, limit);
      }
    }
  }

  /** `listPublicRepos`: the organisation's repositories, starting from
      page 0 (the unset page number), capped at `limit` when it is positive. */
  function ListPublicRepos<T>(src: Source<T>, limit: int): (f: Fetched<T>)
    ensures var v := Visits(src, 0, 0);
            limit <= 0 || |Items(v)| < limit ==>
              f.requests == |v| && f.result == Collected(v, [])
    ensures var v := Visits(src, 0, 0);
            limit > 0 && |Items(v)| >= limit ==>
              && f.result.Success?
              && |f.result.value| == limit
              && 1 <= f.requests <= |v|
              && |Items(v[..f.requests - 1])| < limit <= |Items(v[..f.requests])|
              && f.result.value == Items(v[..f.requests])[..limit]
              && f.result.value == Items(v)[..limit]
  {
    var v := Visits(src, 0, 0);
    var f := ListFrom(src, 0, [], limit);
    ListFromWalks(src, 0, [], limit);
    assert [] + Items(v) == Items(v);
    if limit > 0 && |Items(v)| >= limit then
      ItemsPrefix(v, f.requests);
      TakeOfLonger(Items(v[..f.requests]), Items(v[f.requests..]), limit);
      f
    else
      f
  }

  /** The loop of `compareAllCommits` from page `page` with `acc` already
      collected: append each page, stop after a page that has no next page
      or holds fewer than `PerPage` items, and drop everything on an error. */
  function CompareFrom<T>(src: Source<T>, page: nat, acc: seq<T>): (f: Fetched<T>)
    decreases Remaining(src, page)
    ensures var v := Visits(src, page, PerPage);
            f.requests == |v| && f.result == Collected(v, acc)
  {
    var pg := Fetch(src, page);
    if Stops(pg, PerPage) then
      VisitsLast(src, page, PerPage);
      if pg.Failed? then Fetched(Failure(pg.error), 1)
      else Fetched(Success(acc + pg.items), 1)
    else
      WalkShift(src, page, acc, PerPage);
      CollectedShift(src, page, acc, PerPage);
      var rest := CompareFrom(src, pg.nextPage, acc + pg.items);
      Fetched(rest.result, rest.requests + 1)
  }

  /** `compareAllCommits`: every page of a comparison from page 1 on, or
      the error of the first failed request and nothing else. */
  function CompareAllCommits<T>(src: Source<T>): (f: Fetched<T>)
    ensures var v := Visits(src, 1, PerPage);
            && f.requests == |v|
            && (f.result.Failure? <==> v[|v| - 1].Failed?)
            && (f.result.Failure? ==> f.result.error == v[|v| - 1].error)
            && (f.result.Success? ==> f.result.value == Items(v))
            && (forall i :: 0 <= i < |v| - 1 ==>
                  v[i].Page? && v[i].nextPage != 0 && |v[i].items| >= PerPage)
  {
    var v := Visits(src, 1, PerPage);
    VisitsContinue(src, 1, PerPage);
    var none: seq<T> := [];
    assert none + Items(v) == Items(v);
    CompareFrom(src, 1, none)
  }

  /** A first comparison page holding exactly `PerPage` items and no next
      page ends the walk: one request, and its items are the result. */
  lemma FullLastPageStops<T>(src: Source<T>)
    requires 1 < |src| && src[1].Page? && src[1].nextPage == 0 && |src[1].items| == PerPage
    ensures CompareAllCommits(src) == Fetched(Success(src[1].items), 1)
  {
    VisitsLast(src, 1, PerPage);
  }
}
