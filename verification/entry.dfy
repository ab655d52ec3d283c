/** The two entry points around the page loop: main.go, which normalises the
    start page and the output directory before running the loop, and
    `Run` of internal/core/core.go, which starts from the configured page as
    it is (the output directory is normalised by `ApplyConfig` in
    internal/config/config.go). */
module Entry {
  import opened Base
  import opened GoStrings
  import opened Booru
  import opened Pagination
  import Gelbooru
  import Danbooru

  /** main.go's start page: 0 becomes 1, any other page is kept. */
  function NormalizeStartPage(fromPage: nat): (p: nat)
    ensures p >= 1
    ensures fromPage != 0 ==> p == fromPage
    ensures fromPage == 0 ==> p == 1
  {
    if fromPage == 0 then 1 else fromPage
  }

  /** The output directory: a name that is empty or only white space becomes
      "output"; any other name is kept exactly, surrounding spaces included. */
  function NormalizeOutputDir(dir: string): (r: string)
    ensures !Blank(r)
    ensures Blank(dir) ==> r == "output"
    ensures !Blank(dir) ==> r == dir
  {
    if TrimSpace(dir) == [] then
      assert !IsSpace("output"[0]);
      "output"
    else dir
  }

  /** Both normalisations are idempotent. */
  lemma NormalizationsIdempotent(fromPage: nat, dir: string)
    ensures NormalizeStartPage(NormalizeStartPage(fromPage)) == NormalizeStartPage(fromPage)
    ensures NormalizeOutputDir(NormalizeOutputDir(dir)) == NormalizeOutputDir(dir)
  {
  }

  /** Page numbers only grow along the loop, and strictly after a fetched
      page. */
  lemma {:induction false} FetchedPageIsLeft<P>(start: nat, attempt: nat -> PageAttempt<P>, i: nat, j: nat)
    requires i < j && attempt(i).Fetched?
    ensures PageAt(start, attempt, i) < PageAt(start, attempt, j)
  {
    PagesAdvanceByOne(start, attempt, i + 1, j);
  }

  /** The loop of main.go, started from the normalised page.  Every page it
      asks for is at least 1, pages never go backwards, and a page whose
      posts were fetched is never asked for again: no listing is fetched
      twice. */
  method LegacyRun<P>(fromPage: nat, attempt: nat -> PageAttempt<P>, closedAt: nat)
    returns (submitted: seq<P>, page: nat, visited: seq<nat>, wgAdds: nat, polls: nat)
    ensures wgAdds == |submitted| && |visited| + |submitted| == closedAt && polls == closedAt + 1
    ensures |visited| > 0 ==> visited[0] == NormalizeStartPage(fromPage)
    ensures forall i :: 0 <= i < |visited| ==> visited[i] >= 1
    ensures forall i, j :: 0 <= i < j < |visited| ==> visited[i] <= visited[j]
    ensures forall i, j :: 0 <= i < j < |visited| && attempt(i).Fetched? ==>
              EffectivePage(visited[i]) != EffectivePage(visited[j])
  {
    var start := NormalizeStartPage(fromPage);
    submitted, page, visited, wgAdds, polls := Run(start, attempt, closedAt);
    forall i | 0 <= i < |visited|
      ensures visited[i] >= 1
    {
      PagesAdvanceByOne(start, attempt, 0, i);
    }
    forall i, j | 0 <= i < j < |visited|
      ensures visited[i] <= visited[j]
    {
      PagesAdvanceByOne(start, attempt, i, j);
    }
    forall i, j | 0 <= i < j < |visited| && attempt(i).Fetched?
      ensures EffectivePage(visited[i]) != EffectivePage(visited[j])
    {
      FetchedPageIsLeft(start, attempt, i, j);
    }
  }

  /** `Run` of internal/core/core.go: the same loop, from the configured
      page as it is. */
  method CoreRun<P>(fromPage: nat, attempt: nat -> PageAttempt<P>, closedAt: nat)
    returns (submitted: seq<P>, page: nat, visited: seq<nat>, wgAdds: nat, polls: nat)
    ensures wgAdds == |submitted| && |visited| + |submitted| == closedAt && polls == closedAt + 1
    ensures |visited| > 0 ==> visited[0] == fromPage
    ensures forall i :: 0 <= i < |visited| ==> visited[i] == PageAt(fromPage, attempt, i)
    ensures closedAt <= PollsBefore(attempt, |visited|)
    ensures |visited| > 0 ==> PollsBefore(attempt, |visited| - 1) < closedAt
  {
    submitted, page, visited, wgAdds, polls := Run(fromPage, attempt, closedAt);
  }

  /** Page 0 and page 1 name the same listing on both sites. */
  lemma PageZeroIsPageOne(base: Url, tags: string)
    ensures Gelbooru.ListingUrl(base, 0, tags) == Gelbooru.ListingUrl(base, 1, tags)
    ensures Danbooru.ListingUrl(base, 0, tags) == Danbooru.ListingUrl(base, 1, tags)
  {
    assert PageParam(0) == PageParam(1);
  }

  lemma {:induction false} EmptyPagesPollOnce<P>(attempt: nat -> PageAttempt<P>, n: nat)
    requires forall k :: attempt(k) == Fetched([])
    ensures PollsBefore(attempt, n) == n
    ensures PageAt(0, attempt, n) == n
  {
    if n > 0 {
      EmptyPagesPollOnce(attempt, n - 1);
    }
  }

  /** Started from page 0, `Run` fetches the first listing twice: with two
      polls and empty pages it visits pages 0 and 1, which both request
      page 1. */
  lemma CoreRunFetchesFirstPageTwice<P>(attempt: nat -> PageAttempt<P>, visited: seq<nat>)
    requires forall k :: attempt(k) == Fetched([])
    requires forall i :: 0 <= i < |visited| ==> visited[i] == PageAt(0, attempt, i)
    requires |visited| >= 2
    ensures visited[0] == 0 && visited[1] == 1
    ensures EffectivePage(visited[0]) == EffectivePage(visited[1])
    ensures attempt(0).Fetched?
  {
    EmptyPagesPollOnce(attempt, 0);
    EmptyPagesPollOnce(attempt, 1);
  }

  /** Two polls before the shutdown are enough: `CoreRun` from page 0 with
      empty pages visits exactly pages 0 and 1. */
  method CoreRunFromPageZero<P>(attempt: nat -> PageAttempt<P>)
    returns (visited: seq<nat>)
    requires forall k :: attempt(k) == Fetched([])
    ensures visited == [0, 1]
    ensures EffectivePage(visited[0]) == EffectivePage(visited[1])
  {
    var submitted, page, wgAdds, polls;
    submitted, page, visited, wgAdds, polls := CoreRun(0, attempt, 2);
    EmptyPagesPollOnce(attempt, 0);
    EmptyPagesPollOnce(attempt, 1);
    var n := |visited|;
    EmptyPagesPollOnce(attempt, n);
    if n > 0 {
      EmptyPagesPollOnce(attempt, n - 1);
    }
    CoreRunFetchesFirstPageTwice(attempt, visited);
  }
}
