/** The reconcile scan: pages of active requests by a (created, identifier) cursor, up
    to the newest request there was at the start, while visited requests are deleted
    and newer ones arrive. */
module ReconcileScan {
  import opened Lists
  import opened EmailChange

  const BATCH: nat := 50

  /** Oldest first, by identifier among requests of the same time. */
  predicate Earlier(a: Request, b: Request) {
    a.createdAt < b.createdAt || (a.createdAt == b.createdAt && a.id < b.id)
  }

  ghost predicate Listed(s: seq<Request>) {
    forall i, j :: 0 <= i < j < |s| ==> Earlier(s[i], s[j])
  }

  predicate InRange(r: Request, upper: Request, cursor: Option<Request>) {
    !Earlier(upper, r) && (cursor.None? || Earlier(cursor.value, r))
  }

  function Eligible(table: seq<Request>, upper: Request, cursor: Option<Request>): seq<Request> {
    Filter(table, (r: Request) => InRange(r, upper, cursor))
  }

  /** The first `limit` requests after the cursor and up to the bound. */
  function Page(table: seq<Request>, upper: Request, cursor: Option<Request>, limit: nat): seq<Request> {
    var all := Eligible(table, upper, cursor);
    if |all| <= limit then all else all[..limit]
  }

  /** The table as each read finds it: what was not there at the start is newer than
      the bound. Anything may be deleted at any time. */
  ghost predicate Evolves(world: nat -> seq<Request>, upper: Request) {
    && (forall t :: Listed(world(t)))
    && (forall t, r :: r in world(t) && r !in world(0) ==> Earlier(upper, r))
  }

  lemma {:induction false} FilterListed(s: seq<Request>, keep: Request -> bool)
    requires Listed(s)
    ensures Listed(Filter(s, keep))
  {
    if s != [] {
      FilterListed(s[1..], keep);
      forall r | r in Filter(s[1..], keep) ensures Earlier(s[0], r) {
        assert r in s[1..];
      }
    }
  }

  /** What a page leaves out, within the range, comes after its last request. */
  lemma {:induction false} PageCovers(table: seq<Request>, upper: Request, cursor: Option<Request>, limit: nat)
    requires Listed(table) && limit > 0
    ensures var page := Page(table, upper, cursor, limit);
            && Listed(page) && (forall r :: r in page ==> r in table && InRange(r, upper, cursor))
            && (page == [] ==> forall r :: r in table ==> !InRange(r, upper, cursor))
            && (page != [] ==> forall r :: r in table && InRange(r, upper, cursor) && r !in page ==> Earlier(page[|page| - 1], r))
  {
    var all, page := Eligible(table, upper, cursor), Page(table, upper, cursor, limit);
    FilterListed(table, (r: Request) => InRange(r, upper, cursor));
    forall r | r in page ensures r in table && InRange(r, upper, cursor) {
      assert r in all;
    }
    if page != [] {
      forall r | r in table && InRange(r, upper, cursor) && r !in page ensures Earlier(page[|page| - 1], r) {
        assert r in all;
        assert forall k :: 0 <= k < |page| ==> page[k] == all[k] && all[k] in page;
        var i :| 0 <= i < |all| && all[i] == r;
      }
    }
  }

  // ----- the scan -----

  /** Latest in the table. */
  method LatestRequest(table: seq<Request>) returns (latest: Option<Request>)
    requires Listed(table)
    ensures latest.None? <==> table == []
    ensures latest.Some? ==> latest.value in table && forall r :: r in table ==> !Earlier(latest.value, r)
  {
    if table == [] {
      return None;
    }
    latest := Some(table[|table| - 1]);
  }

  /** When the scan passed each request: at the read of the page that ends at it or
      goes beyond it. */
  type Reached = map<Request, nat>

  /** The scan has passed exactly the starting requests up to the cursor, and visited
      exactly those that were there when it passed them. */
  ghost predicate Passed(world: nat -> seq<Request>, upper: Request, visited: seq<Request>, cursor: Option<Request>, when: Reached) {
    && (forall r :: r in when <==> r in world(0) && !InRange(r, upper, cursor))
    && (forall r :: r in when ==> (r in visited <==> r in world(when[r])))
    && (forall r :: r in visited ==> r in when)
  }

  /** The cursor stands at the last visited request. */
  ghost predicate CursorAt(visited: seq<Request>, cursor: Option<Request>) {
    if cursor.None? then visited == [] else visited != [] && visited[|visited| - 1] == cursor.value
  }

  ghost function Pass(world: nat -> seq<Request>, upper: Request, when: Reached, cursor: Option<Request>, t: nat): Reached {
    map r | r in world(0) && !InRange(r, upper, cursor) :: if r in when then when[r] else t
  }

  /** Reads the bound, then page after page, reconciling each request of a page. Time
      passes with every request reconciled, and the table becomes what `world` says. */
  method Reconcile(world: nat -> seq<Request>, ghost latest: Request) returns (visited: seq<Request>, ghost when: Reached)
    requires Evolves(world, latest)
    requires world(0) == [] || (latest in world(0) && forall r :: r in world(0) ==> !Earlier(latest, r))
    ensures Listed(visited)
    ensures forall r :: r in visited ==> r in world(0)
    ensures forall r :: r in world(0) ==> r in when && (r in visited <==> r in world(when[r]))
    ensures forall r, q :: r in world(0) && q in world(0) && Earlier(r, q) ==> when[r] <= when[q]
  {
    visited, when := [], map[];
    var upper := LatestRequest(world(0));
    if upper.None? {
      return;
    }
    BoundIsLatest(world(0), latest, upper.value);
    var cursor: Option<Request> := None;
    var t: nat := 0;
    while true
      invariant Listed(visited) && forall r :: r in visited ==> r in world(0)
      invariant CursorAt(visited, cursor) && Passed(world, latest, visited, cursor, when) && InTime(when, t)
      decreases |Eligible(world(0), latest, cursor)|
    {
      var page := Page(world(t), upper.value, cursor, BATCH);
      if page == [] {
        EndPassed(world, latest, t, visited, cursor, when);
        when := Pass(world, latest, when, Some(latest), t);
        return;
      }
      PagePassed(world, latest, t, visited, cursor, when, page);
      PageAdvances(world, latest, t, cursor, page);
      when := Pass(world, latest, when, Some(page[|page| - 1]), t);
      visited, t := ReconcileEach(page, visited, t);
      cursor := Some(page[|page| - 1]);
      if !Earlier(cursor.value, upper.value) {
        return;
      }
    }
  }

  /** One request after another; time passes with each. */
  method ReconcileEach(page: seq<Request>, visited: seq<Request>, t: nat) returns (more: seq<Request>, u: nat)
    ensures more == visited + page && u == t + |page|
  {
    more, u := visited, t;
    for k := 0 to |page|
      invariant more == visited + page[..k] && u == t + k
    {
      assert page[..k + 1] == page[..k] + [page[k]];
      more, u := more + [page[k]], u + 1;
    }
    assert page[..|page|] == page;
  }

  /** No request was passed after time `t`, and none before an earlier one. */
  ghost predicate InTime(when: Reached, t: nat) {
    && (forall r :: r in when ==> when[r] <= t)
    && (forall r, q :: r in when && q in when && Earlier(r, q) ==> when[r] <= when[q])
  }

  lemma BoundIsLatest(table: seq<Request>, latest: Request, upper: Request)
    requires Listed(table) && latest in table && upper in table
    requires (forall r :: r in table ==> !Earlier(latest, r)) && (forall r :: r in table ==> !Earlier(upper, r))
    ensures upper == latest
  {
    var i :| 0 <= i < |table| && table[i] == latest;
    var j :| 0 <= j < |table| && table[j] == upper;
  }

  /** The page's requests come after the visited ones and were there at the start. */
  lemma {:induction false} PageFollows(
    world: nat -> seq<Request>, upper: Request, t: nat, visited: seq<Request>, cursor: Option<Request>, page: seq<Request>)
    requires Evolves(world, upper) && page == Page(world(t), upper, cursor, BATCH) && page != []
    requires Listed(visited) && (forall r :: r in visited ==> r in world(0)) && CursorAt(visited, cursor)
    ensures Listed(visited + page) && CursorAt(visited + page, Some(page[|page| - 1]))
    ensures forall r :: r in page ==> r in world(0) && r in world(t) && InRange(r, upper, cursor) && !InRange(r, upper, Some(page[|page| - 1]))
  {
    PageCovers(world(t), upper, cursor, BATCH);
    var last := page[|page| - 1];
    forall r | r in page ensures r in world(0) && !InRange(r, upper, Some(last)) {
      assert InRange(r, upper, cursor);
      var i :| 0 <= i < |page| && page[i] == r;
      assert i < |page| - 1 ==> Earlier(r, last);
    }
    forall i, j | 0 <= i < j < |visited + page| ensures Earlier((visited + page)[i], (visited + page)[j]) {
      if i < |visited| && j >= |visited| {
        assert page[j - |visited|] in page;
        assert InRange(page[j - |visited|], upper, cursor);
        assert i < |visited| - 1 ==> Earlier(visited[i], cursor.value);
      }
    }
  }

  /** The cursor only moves forward. */
  ghost predicate Forward(upper: Request, cursor: Option<Request>, last: Request) {
    forall r :: !InRange(r, upper, cursor) ==> !InRange(r, upper, Some(last))
  }

  lemma {:induction false} PassInTime(world: nat -> seq<Request>, upper: Request, when: Reached, cursor: Option<Request>, last: Request, t: nat)
    requires InTime(when, t) && forall r :: r in when <==> r in world(0) && !InRange(r, upper, cursor)
    requires Forward(upper, cursor, last) && forall r :: r in world(0) ==> !Earlier(upper, r)
    ensures InTime(Pass(world, upper, when, Some(last), t), t)
  {
    var next := Pass(world, upper, when, Some(last), t);
    forall r, q | r in next && q in next && Earlier(r, q) ensures next[r] <= next[q] {
      if r !in when {
        assert InRange(r, upper, cursor);
        assert q !in when;
      }
    }
  }

  /** With the page, everything up to the new cursor is passed. */
  lemma {:induction false} PagePassed(
    world: nat -> seq<Request>, upper: Request, t: nat, visited: seq<Request>, cursor: Option<Request>, when: Reached, page: seq<Request>)
    requires Evolves(world, upper) && page == Page(world(t), upper, cursor, BATCH) && page != []
    requires forall r :: r in world(0) ==> !Earlier(upper, r)
    requires Listed(visited) && (forall r :: r in visited ==> r in world(0))
    requires CursorAt(visited, cursor) && Passed(world, upper, visited, cursor, when) && InTime(when, t)
    ensures Listed(visited + page) && forall r :: r in visited + page ==> r in world(0)
    ensures var last := Some(page[|page| - 1]);
            && CursorAt(visited + page, last)
            && Passed(world, upper, visited + page, last, Pass(world, upper, when, last, t))
            && InTime(Pass(world, upper, when, last, t), t)
  {
    PageFollows(world, upper, t, visited, cursor, page);
    PageCovers(world(t), upper, cursor, BATCH);
    var last := page[|page| - 1];
    assert last in page;
    PassInTime(world, upper, when, cursor, last, t);
    PassVisited(world, upper, t, visited, cursor, when, page, last);
  }

  lemma {:induction false} PassVisited(
    world: nat -> seq<Request>, upper: Request, t: nat, visited: seq<Request>, cursor: Option<Request>, when: Reached,
    page: seq<Request>, last: Request)
    requires Passed(world, upper, visited, cursor, when) && Forward(upper, cursor, last)
    requires forall r :: r in page ==> r in world(0) && r in world(t) && InRange(r, upper, cursor) && !InRange(r, upper, Some(last))
    requires forall r :: r in world(t) && InRange(r, upper, cursor) && r !in page ==> Earlier(last, r)
    ensures Passed(world, upper, visited + page, Some(last), Pass(world, upper, when, Some(last), t))
  {
    var next := Pass(world, upper, when, Some(last), t);
    forall r | r in next ensures r in visited + page <==> r in world(next[r]) {
      if r !in when {
        assert InRange(r, upper, cursor);
      }
    }
  }

  /** The cursor moves on, so less of the starting table is left. */
  lemma {:induction false} PageAdvances(world: nat -> seq<Request>, upper: Request, t: nat, cursor: Option<Request>, page: seq<Request>)
    requires Evolves(world, upper) && page == Page(world(t), upper, cursor, BATCH) && page != []
    ensures |Eligible(world(0), upper, Some(page[|page| - 1]))| < |Eligible(world(0), upper, cursor)|
  {
    PageCovers(world(t), upper, cursor, BATCH);
    var last := page[|page| - 1];
    assert last in page;
    assert last in world(0);
    FewerPass(world(0), (r: Request) => InRange(r, upper, Some(last)), (r: Request) => InRange(r, upper, cursor), last);
  }

  lemma {:induction false} FewerPass(s: seq<Request>, few: Request -> bool, many: Request -> bool, x: Request)
    requires forall r :: few(r) ==> many(r)
    ensures |Filter(s, few)| <= |Filter(s, many)|
    ensures x in s && many(x) && !few(x) ==> |Filter(s, few)| < |Filter(s, many)|
  {
    if s != [] {
      FewerPass(s[1..], few, many, x);
    }
  }

  /** When no page is left, what was not passed is gone. */
  lemma {:induction false} EndPassed(
    world: nat -> seq<Request>, upper: Request, t: nat, visited: seq<Request>, cursor: Option<Request>, when: Reached)
    requires Evolves(world, upper) && Page(world(t), upper, cursor, BATCH) == []
    requires Passed(world, upper, visited, cursor, when) && InTime(when, t)
    requires forall r :: r in world(0) ==> !Earlier(upper, r)
    ensures var next := Pass(world, upper, when, Some(upper), t);
            InTime(next, t) && forall r :: r in world(0) ==> r in next && (r in visited <==> r in world(next[r]))
  {
    PageCovers(world(t), upper, cursor, BATCH);
    var next := Pass(world, upper, when, Some(upper), t);
    forall r | r in world(0) ensures r in next && (r in visited <==> r in world(next[r])) {
      assert r !in when ==> InRange(r, upper, cursor);
    }
  }
}
