/** The page loop of `Run` (internal/core/core.go) and of main.go's `main`.

    Before every page and before every submission the loop polls the
    shutdown channel; the k-th poll (counting from 0) sees it closed exactly
    when k >= `closedAt`, and the loop returns at the first poll that does.
    Each page iteration that passes its poll consumes one outcome of the
    `attempt` oracle: a rate-limiter error, a fetch error, or the fetched
    posts. */
module Pagination {
  import opened Base

  datatype PageAttempt<P> = LimiterError | FetchError(error: Error) | Fetched(posts: seq<P>)

  /** The submissions a page iteration makes when it is not interrupted. */
  function PostsOf<P>(a: PageAttempt<P>): seq<P> {
    if a.Fetched? then a.posts else []
  }

  /** Reference definitions over the first n page iterations, each run to the
      end: the polls they make, the posts they submit, and the page number
      after them. */
  function PollsBefore<P>(attempt: nat -> PageAttempt<P>, n: nat): nat {
    if n == 0 then 0 else PollsBefore(attempt, n - 1) + 1 + |PostsOf(attempt(n - 1))|
  }

  function SubmittedBefore<P>(attempt: nat -> PageAttempt<P>, n: nat): seq<P> {
    if n == 0 then [] else SubmittedBefore(attempt, n - 1) + PostsOf(attempt(n - 1))
  }

  function PageAt<P>(start: nat, attempt: nat -> PageAttempt<P>, n: nat): nat {
    if n == 0 then start else PageAt(start, attempt, n - 1) + (if attempt(n - 1).Fetched? then 1 else 0)
  }

  /** The submission loop of one fetched page, entered after `polls` polls:
      it polls before each post and stops at poll number `closedAt`.  It
      submits the longest prefix of the posts the shutdown allows, one
      `wg.Add(1)` each, and reports whether it was interrupted. */
  method SubmitPage<P>(posts: seq<P>, polls: nat, closedAt: nat)
    returns (sent: seq<P>, wgAdds: nat, after: nat, interrupted: bool)
    requires polls <= closedAt
    ensures interrupted <==> closedAt < polls + |posts|
    ensures sent == if interrupted then posts[..closedAt - polls] else posts
    ensures wgAdds == |sent|
    ensures after == polls + |sent| + (if interrupted then 1 else 0)
  {
    sent, wgAdds, after := [], 0, polls;
    var j := 0;
    while j < |posts|
      invariant 0 <= j <= |posts|
      invariant after == polls + j <= closedAt
      invariant sent == posts[..j]
      invariant wgAdds == j
    {
      if after == closedAt {
        return sent, wgAdds, after + 1, true;
      }
      after := after + 1;
      wgAdds := wgAdds + 1;
      sent := sent + [posts[j]];
      j := j + 1;
    }
    assert posts[..j] == posts;
    interrupted := false;
  }

  /** The loop state after `n` page iterations that all ran to the end. */
  ghost predicate AfterPages<P>(start: nat, attempt: nat -> PageAttempt<P>, n: nat,
                                submitted: seq<P>, page: nat, visited: seq<nat>, wgAdds: nat, polls: nat) {
    && |visited| == n
    && polls == PollsBefore(attempt, n)
    && submitted == SubmittedBefore(attempt, n)
    && page == PageAt(start, attempt, n)
    && (forall i :: 0 <= i < n ==> visited[i] == PageAt(start, attempt, i))
    && wgAdds == |submitted|
    && |visited| + |submitted| == polls
  }

  /** The loop state when the shutdown interrupted the submissions of the
      last visited page: no page number was bumped for it. */
  ghost predicate InterruptedInPage<P>(start: nat, attempt: nat -> PageAttempt<P>, closedAt: nat,
                                       submitted: seq<P>, page: nat, visited: seq<nat>, wgAdds: nat, polls: nat) {
    var n := |visited|;
    && n > 0
    && PollsBefore(attempt, n - 1) < closedAt < PollsBefore(attempt, n)
    && submitted == SubmittedBefore(attempt, n - 1)
                    + PostsOf(attempt(n - 1))[..closedAt - PollsBefore(attempt, n - 1) - 1]
    && page == PageAt(start, attempt, n - 1) == visited[n - 1]
    && (forall i :: 0 <= i < n ==> visited[i] == PageAt(start, attempt, i))
    && wgAdds == |submitted|
    && |visited| + |submitted| == closedAt
    && polls == closedAt + 1
  }

  /** One page iteration after its poll passed: visit the page, submit its
      posts, and bump the page number only if the page was fetched and all
      of its posts were submitted. */
  method VisitPage<P>(start: nat, attempt: nat -> PageAttempt<P>, closedAt: nat,
                      submitted: seq<P>, page: nat, visited: seq<nat>, wgAdds: nat, polls: nat)
    returns (submitted': seq<P>, page': nat, visited': seq<nat>, wgAdds': nat, polls': nat, interrupted: bool)
    requires polls < closedAt
    requires AfterPages(start, attempt, |visited|, submitted, page, visited, wgAdds, polls)
    ensures interrupted ==> InterruptedInPage(start, attempt, closedAt, submitted', page', visited', wgAdds', polls')
    ensures !interrupted ==> polls' <= closedAt
    ensures !interrupted ==> AfterPages(start, attempt, |visited| + 1, submitted', page', visited', wgAdds', polls')
  {
    var n := |visited|;
    var posts := PostsOf(attempt(n));
    var sent, adds, after;
    sent, adds, after, interrupted := SubmitPage(posts, polls + 1, closedAt);
    visited' := visited + [page];
    forall i | 0 <= i < n + 1
      ensures visited'[i] == PageAt(start, attempt, i)
    {
      if i < n {
        assert visited'[i] == visited[i];
      }
    }
    submitted' := submitted + sent;
    wgAdds' := wgAdds + adds;
    polls' := after;
    page' := if !interrupted && attempt(n).Fetched? then page + 1 else page;
  }

  /** The loop.  It returns at poll number `closedAt`, so it makes exactly
      `closedAt` successful polls, one per page visited and one per post
      submitted, with one `wg.Add(1)` per submission.  Either it stopped at
      the poll before a page, having finished every earlier page, or it
      stopped in the middle of the last page's submissions, in which case
      that page's number was never bumped. */
  method Run<P>(start: nat, attempt: nat -> PageAttempt<P>, closedAt: nat)
    returns (submitted: seq<P>, page: nat, visited: seq<nat>, wgAdds: nat, polls: nat)
    ensures polls == closedAt + 1
    ensures wgAdds == |submitted|
    ensures |visited| + |submitted| == closedAt
    ensures forall i :: 0 <= i < |visited| ==> visited[i] == PageAt(start, attempt, i)
    ensures var n := |visited|;
            || (&& PollsBefore(attempt, n) == closedAt
                && submitted == SubmittedBefore(attempt, n)
                && page == PageAt(start, attempt, n))
            || (&& n > 0
                && PollsBefore(attempt, n - 1) < closedAt < PollsBefore(attempt, n)
                && submitted == SubmittedBefore(attempt, n - 1)
                                + PostsOf(attempt(n - 1))[..closedAt - PollsBefore(attempt, n - 1) - 1]
                && page == PageAt(start, attempt, n - 1) == visited[n - 1])
  {
    submitted, page, visited, wgAdds, polls := [], start, [], 0, 0;
    while true
      invariant polls <= closedAt
      invariant AfterPages(start, attempt, |visited|, submitted, page, visited, wgAdds, polls)
      decreases closedAt - polls
    {
      // The poll before the page.
      if polls == closedAt {
        polls := polls + 1;
        return;
      }
      var interrupted;
      submitted, page, visited, wgAdds, polls, interrupted :=
        VisitPage(start, attempt, closedAt, submitted, page, visited, wgAdds, polls);
      if interrupted {
        return;
      }
    }
  }

  /** A failed page (rate limiter or fetch) is retried as the same page; a
      fetched page is followed by the next one. */
  lemma {:induction false} PagesAdvanceByOne<P>(start: nat, attempt: nat -> PageAttempt<P>, i: nat, j: nat)
    requires i <= j
    ensures PageAt(start, attempt, i) <= PageAt(start, attempt, j) <= PageAt(start, attempt, i) + (j - i)
    ensures (forall k :: i <= k < j ==> !attempt(k).Fetched?) ==> PageAt(start, attempt, j) == PageAt(start, attempt, i)
    ensures (forall k :: i <= k < j ==> attempt(k).Fetched?) ==> PageAt(start, attempt, j) == PageAt(start, attempt, i) + (j - i)
    decreases j - i
  {
    if i < j {
      PagesAdvanceByOne(start, attempt, i, j - 1);
    }
  }

  /** Every finished page iteration polls once for itself and once per post. */
  lemma {:induction false} PollsCountPagesAndPosts<P>(attempt: nat -> PageAttempt<P>, n: nat)
    ensures PollsBefore(attempt, n) == n + |SubmittedBefore(attempt, n)|
  {
    if n > 0 {
      PollsCountPagesAndPosts(attempt, n - 1);
    }
  }

  /** When every page fails the loop keeps asking for the start page and
      submits nothing. */
  lemma StuckOnFailingPage<P>(start: nat, attempt: nat -> PageAttempt<P>, visited: seq<nat>)
    requires forall k :: !attempt(k).Fetched?
    requires forall i :: 0 <= i < |visited| ==> visited[i] == PageAt(start, attempt, i)
    ensures forall i :: 0 <= i < |visited| ==> visited[i] == start
  {
    forall i | 0 <= i < |visited|
      ensures visited[i] == start
    {
      PagesAdvanceByOne(start, attempt, 0, i);
    }
  }
}
