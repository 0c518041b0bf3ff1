/**
  PageRank over a corpus of linked pages, with probabilities as exact reals.

  A corpus maps each page to the set of pages it links to. A page without
  out-links (a dangling page) is treated as linking to every page of the
  corpus. Two estimators are modelled: the random-surfer sampler, whose random
  draws are supplied by the caller as the walk it visits, and the iterative
  solver, as one synchronous update pass plus the convergence test, driven by
  a loop bounded by a pass budget.
*/
module PageRank {
  import opened Sums

  /** A page, named by its file name. */
  type Page = string

  /** Each page of the corpus, mapped to the pages it links to. */
  type Corpus = map<Page, set<Page>>

  /** The largest per-page change at which the iterative solver stops. */
  const Tolerance: real := 0.001

  /** Every link target is itself a page of the corpus. */
  predicate Closed(corpus: Corpus)
  {
    forall p | p in corpus :: corpus[p] <= corpus.Keys
  }

  /** No page links to itself. */
  predicate NoSelfLinks(corpus: Corpus)
  {
    forall p | p in corpus :: p !in corpus[p]
  }

  // ---------------------------------------------------------------------------
  // Building the corpus
  // ---------------------------------------------------------------------------

  /**
    The link clean-up done while crawling: `extracted` maps each page file to
    the link targets found in it. First every page's link to itself is dropped,
    then every link to something that is not a page of the corpus.
  */
  function FilterLinks(extracted: map<Page, set<Page>>): (corpus: Corpus)
    ensures corpus.Keys == extracted.Keys
    ensures forall p, q | p in corpus :: q in corpus[p] <==> q in extracted[p] && q != p && q in extracted
    ensures Closed(corpus)
    ensures NoSelfLinks(corpus)
  {
    var pages := map f | f in extracted :: extracted[f] - {f};
    map f | f in pages :: set link | link in pages[f] && link in pages
  }

  /** A corpus that is already closed and free of self-links is left unchanged. */
  lemma FilterLinksKeepsCleanCorpus(corpus: Corpus)
    requires Closed(corpus)
    requires NoSelfLinks(corpus)
    ensures FilterLinks(corpus) == corpus
  {
    var filtered := FilterLinks(corpus);
    forall p | p in corpus
      ensures filtered[p] == corpus[p]
    {
    }
  }

  /** Filtering twice is the same as filtering once. */
  lemma FilterLinksIdempotent(extracted: map<Page, set<Page>>)
    ensures FilterLinks(FilterLinks(extracted)) == FilterLinks(extracted)
  {
    FilterLinksKeepsCleanCorpus(FilterLinks(extracted));
  }

  // ---------------------------------------------------------------------------
  // Transition model
  // ---------------------------------------------------------------------------

  /**
    The distribution of the page a random surfer visits after `page`. With
    probability `d` it follows one of the page's links chosen uniformly, and
    otherwise it jumps to a page of the corpus chosen uniformly. From a dangling
    page it jumps uniformly over the whole corpus.
  */
  function Transition(corpus: Corpus, page: Page, d: real): (dist: map<Page, real>)
    requires page in corpus
    ensures dist.Keys == corpus.Keys
    ensures corpus[page] == {} ==>
      forall p | p in dist :: dist[p] == 1.0 / |corpus| as real
    ensures corpus[page] != {} ==>
      forall p | p in dist :: dist[p] ==
        (1.0 - d) / |corpus| as real + (if p in corpus[page] then d / |corpus[page]| as real else 0.0)
    ensures 0.0 <= d <= 1.0 ==> forall p | p in dist :: dist[p] >= 0.0
  {
    if corpus[page] == {} then
      PositiveShare(|corpus| as real);
      map p | p in corpus :: 1.0 / |corpus| as real
    else
      assert 0.0 <= d <= 1.0 ==> d / |corpus[page]| as real >= 0.0 && (1.0 - d) / |corpus| as real >= 0.0 by {
        if 0.0 <= d <= 1.0 {
          DampedNonNegative(d, |corpus[page]| as real, |corpus| as real);
        }
      }
      map p | p in corpus :: (1.0 - d) / |corpus| as real + (if p in corpus[page] then d / |corpus[page]| as real else 0.0)
  }

  /** In a closed corpus the transition probabilities from any page sum to 1. */
  lemma TransitionSumsToOne(corpus: Corpus, page: Page, d: real)
    requires page in corpus
    requires Closed(corpus)
    ensures Total(Transition(corpus, page, d)) == 1.0
  {
    var dist := Transition(corpus, page, d);
    assert |corpus| > 0 by {
      assert page in corpus.Keys;
    }
    if corpus[page] == {} {
      UniformMass(corpus.Keys, Values(dist), |corpus| as real);
    } else {
      assert |corpus[page]| > 0;
      SplitMass(corpus.Keys, corpus[page], Values(dist), d, |corpus| as real, |corpus[page]| as real);
    }
  }

  /** `1/N` on each of `N` elements adds up to 1. */
  lemma UniformMass(s: set<Page>, f: Page -> real, n: real)
    requires n == |s| as real
    requires n > 0.0
    requires forall x | x in s :: f(x) == 1.0 / n
    ensures Sum(s, f) == 1.0
  {
    var share := 1.0 / n;
    SumConstant(s, s, f, share, n);
    Reciprocal(n, share, Sum(s, f));
  }

  /** The jump mass `(1 - d)/N` on each of `N` elements plus the follow mass `d/L` on `L` of them adds up to 1. */
  lemma SplitMass(s: set<Page>, t: set<Page>, f: Page -> real, d: real, n: real, l: real)
    requires t <= s
    requires n == |s| as real
    requires l == |t| as real
    requires n > 0.0
    requires l > 0.0
    requires forall x | x in s :: f(x) == (1.0 - d) / n + (if x in t then d / l else 0.0)
    ensures Sum(s, f) == 1.0
  {
    var jump := (1.0 - d) / n;
    var follow := d / l;
    SumIndicator(s, t, f, jump, follow, n, l);
    JumpAndFollow(n, l, d, jump, follow, Sum(s, f));
  }

  // ---------------------------------------------------------------------------
  // Sampling
  // ---------------------------------------------------------------------------

  /** The visit counters as reals, 0 outside their domain. */
  ghost function Tally(counts: map<Page, nat>): Page -> real
  {
    p => if p in counts then counts[p] as real else 0.0
  }

  /** The counters record exactly the visits of `walk`, one counter per corpus page. */
  ghost predicate Counted(corpus: Corpus, walk: seq<Page>, counts: map<Page, nat>)
  {
    && counts.Keys == corpus.Keys
    && (forall p | p in counts :: counts[p] == multiset(walk)[p])
    && Sum(corpus.Keys, Tally(counts)) == |walk| as real
  }

  /** The number of visits to each page of the corpus along `walk`. */
  method CountVisits(corpus: Corpus, walk: seq<Page>) returns (counts: map<Page, nat>)
    requires forall i | 0 <= i < |walk| :: walk[i] in corpus
    ensures counts.Keys == corpus.Keys
    ensures forall p | p in counts :: counts[p] == multiset(walk)[p]
    ensures Sum(corpus.Keys, Tally(counts)) == |walk| as real
  {
    counts := map p | p in corpus :: 0;
    SumZero(corpus.Keys, Tally(counts));
    var i := 0;
    assert walk[..i] == [];
    while i < |walk|
      invariant 0 <= i <= |walk|
      invariant Counted(corpus, walk[..i], counts)
    {
      var page := walk[i];
      assert walk[..i + 1] == walk[..i] + [page];
      CountOneMore(corpus, walk[..i], counts, page);
      counts := counts[page := counts[page] + 1];
      i := i + 1;
    }
    assert walk[..i] == walk;
  }

  /** Counting one more visit to `page` keeps the counters exact. */
  lemma CountOneMore(corpus: Corpus, walk: seq<Page>, counts: map<Page, nat>, page: Page)
    requires page in corpus
    requires Counted(corpus, walk, counts)
    ensures Counted(corpus, walk + [page], counts[page := counts[page] + 1])
  {
    TallyIncrement(corpus.Keys, counts, page);
    assert multiset(walk + [page]) == multiset(walk) + multiset{page};
  }

  /** One more visit to `page` adds one to the total of the counters. */
  lemma TallyIncrement(pages: set<Page>, counts: map<Page, nat>, page: Page)
    requires page in pages
    requires page in counts
    ensures Sum(pages, Tally(counts[page := counts[page] + 1])) == Sum(pages, Tally(counts)) + 1.0
  {
    SumPointUpdate(pages, Tally(counts), Tally(counts[page := counts[page] + 1]), page, 1.0);
  }

  /**
    The sampling estimator. `walk` is the sequence of `n` pages the surfer
    visits: its first page is the random starting page and each further page is
    the one drawn from the transition model of the page before it. Each step
    adds one visit to the page being visited; the estimate of a page is its
    share of the visits.
  */
  method SamplePageRank(corpus: Corpus, n: nat, walk: seq<Page>) returns (ranks: map<Page, real>)
    requires n >= 1
    requires |walk| == n
    requires forall i | 0 <= i < |walk| :: walk[i] in corpus
    ensures ranks.Keys == corpus.Keys
    ensures forall p | p in ranks :: ranks[p] == multiset(walk)[p] as real / n as real
    ensures Total(ranks) == 1.0
  {
    var counts := CountVisits(corpus, walk);
    ranks := map p | p in corpus :: counts[p] as real / n as real;
    FrequenciesSumToOne(corpus.Keys, Tally(counts), Values(ranks), n as real);
  }

  /** Counts that add up to `n`, each divided by `n`, add up to 1. */
  lemma FrequenciesSumToOne(s: set<Page>, count: Page -> real, freq: Page -> real, n: real)
    requires n > 0.0
    requires Sum(s, count) == n
    requires forall x | x in s :: freq(x) == count(x) / n
    ensures Sum(s, freq) == 1.0
  {
    var scale := 1.0 / n;
    forall x | x in s
      ensures freq(x) == scale * count(x)
    {
      DivideAsScale(count(x), n, scale);
    }
    SumScale(s, count, freq, scale);
    Normalise(n, scale, Sum(s, count), Sum(s, freq));
  }

  // ---------------------------------------------------------------------------
  // Iteration
  // ---------------------------------------------------------------------------

  /** The starting estimate of the iterative solver: every page at 1/N. */
  function InitialRanks(corpus: Corpus): (ranks: map<Page, real>)
    requires |corpus| > 0
    ensures ranks.Keys == corpus.Keys
    ensures forall p | p in ranks :: ranks[p] == 1.0 / |corpus| as real
    ensures Total(ranks) == 1.0
  {
    var ranks := map p | p in corpus :: 1.0 / |corpus| as real;
    UniformMass(corpus.Keys, Values(ranks), |corpus| as real);
    ranks
  }

  /** The pages `q` passes its rank to: its links, or every page when it has none. */
  function EffectiveLinks(corpus: Corpus, q: Page): (links: set<Page>)
    requires q in corpus
    ensures links != {}
    ensures corpus[q] != {} ==> links == corpus[q]
    ensures corpus[q] == {} ==> links == corpus.Keys
    ensures Closed(corpus) ==> links <= corpus.Keys
  {
    if corpus[q] == {} then corpus.Keys else corpus[q]
  }

  /** The part of `q`'s rank that flows to `p` in one step of the recurrence. */
  function Share(corpus: Corpus, ranks: map<Page, real>, q: Page, p: Page): real
  {
    if q in corpus && q in ranks && p in EffectiveLinks(corpus, q) then
      ranks[q] / |EffectiveLinks(corpus, q)| as real
    else
      0.0
  }

  /** All shares at once: `Flow(corpus, ranks)(p, q)` is what sender `q` gives receiver `p`. */
  ghost function Flow(corpus: Corpus, ranks: map<Page, real>): (Page, Page) -> real
  {
    (p, q) => Share(corpus, ranks, q, p)
  }

  /** The rank flowing into `p` from all pages. */
  ghost function Inflow(corpus: Corpus, ranks: map<Page, real>, p: Page): real
  {
    Sum(corpus.Keys, Row(Flow(corpus, ranks), p))
  }

  /** The jump term `(1 - d)/N` every page receives. */
  function Jump(n: real, d: real): real
    requires n > 0.0
  {
    (1.0 - d) / n
  }

  /** A page's new rank from the jump term and the rank flowing into it. */
  function Mix(jump: real, d: real, inflow: real): real
  {
    jump + d * inflow
  }

  /**
    One synchronous pass of the PageRank recurrence: every page gets
    `(1 - d) / N` plus `d` times the rank flowing into it, all computed from
    the previous ranks.
  */
  ghost function Updated(corpus: Corpus, d: real, ranks: map<Page, real>): (next: map<Page, real>)
    requires |corpus| > 0
    ensures next.Keys == corpus.Keys
  {
    map p | p in corpus :: NewRank(corpus, d, ranks, p)
  }

  /** The rank of `p` after one pass. */
  ghost function NewRank(corpus: Corpus, d: real, ranks: map<Page, real>, p: Page): real
    requires |corpus| > 0
  {
    Mix(Jump(|corpus| as real, d), d, Inflow(corpus, ranks, p))
  }

  /**
    The inner loop of an update pass: every page `q` passes `page` its rank
    divided by its number of links, if it links there (a page without links
    counts as linking everywhere).
  */
  method InflowTo(corpus: Corpus, ranks: map<Page, real>, page: Page) returns (total: real)
    requires corpus.Keys <= ranks.Keys
    ensures total == Inflow(corpus, ranks, page)
  {
    total := 0.0;
    var sources := corpus.Keys;
    while sources != {}
      invariant sources <= corpus.Keys
      invariant total == Sum(corpus.Keys - sources, Row(Flow(corpus, ranks), page))
      decreases sources
    {
      var q :| q in sources;
      var links := corpus[q];
      if links == {} {
        links := corpus.Keys;
      }
      if page in links {
        total := total + ranks[q] / |links| as real;
      }
      var done := corpus.Keys - sources;
      SumRemove(done + {q}, Row(Flow(corpus, ranks), page), q);
      assert done + {q} - {q} == done;
      assert corpus.Keys - (sources - {q}) == done + {q};
      sources := sources - {q};
    }
    assert corpus.Keys - sources == corpus.Keys;
  }

  /** One page's new rank: the jump term plus `d` times the inflow. */
  method RankOf(corpus: Corpus, d: real, ranks: map<Page, real>, page: Page, constant: real) returns (rank: real)
    requires |corpus| > 0
    requires corpus.Keys <= ranks.Keys
    requires constant == Jump(|corpus| as real, d)
    ensures rank == NewRank(corpus, d, ranks, page)
  {
    var total := InflowTo(corpus, ranks, page);
    rank := Mix(constant, d, total);
  }

  /** The updated ranks of the pages in `done`. */
  ghost function UpdatedOn(corpus: Corpus, d: real, ranks: map<Page, real>, done: set<Page>): map<Page, real>
    requires |corpus| > 0
  {
    map p | p in done :: NewRank(corpus, d, ranks, p)
  }

  /** Adding one more page to the updated part of the map. */
  lemma UpdatedOnExtend(corpus: Corpus, d: real, ranks: map<Page, real>, done: set<Page>, page: Page, rank: real)
    requires |corpus| > 0
    requires rank == NewRank(corpus, d, ranks, page)
    ensures UpdatedOn(corpus, d, ranks, done + {page}) == UpdatedOn(corpus, d, ranks, done)[page := rank]
  {
  }

  /**
    The update pass as `iterate_pagerank` computes it: for each page, a loop over all
    pages adds up the rank they pass to it.
  */
  method UpdatePass(corpus: Corpus, d: real, ranks: map<Page, real>) returns (next: map<Page, real>)
    requires |corpus| > 0
    requires corpus.Keys <= ranks.Keys
    ensures next == Updated(corpus, d, ranks)
  {
    var constant := Jump(|corpus| as real, d);
    next := map[];
    var pending := corpus.Keys;
    while pending != {}
      invariant pending <= corpus.Keys
      invariant next == UpdatedOn(corpus, d, ranks, corpus.Keys - pending)
      decreases pending
    {
      var page :| page in pending;
      var rank := RankOf(corpus, d, ranks, page, constant);
      UpdatedOnExtend(corpus, d, ranks, corpus.Keys - pending, page, rank);
      next := next[page := rank];
      assert corpus.Keys - (pending - {page}) == (corpus.Keys - pending) + {page};
      pending := pending - {page};
    }
    assert corpus.Keys - pending == corpus.Keys;
  }

  /** Every page moved by at most the tolerance between two estimates. */
  predicate WithinTolerance(previous: map<Page, real>, next: map<Page, real>)
    requires previous.Keys <= next.Keys
  {
    forall p | p in previous :: Abs(next[p] - previous[p]) <= Tolerance
  }

  /** The absolute value. */
  function Abs(x: real): real
  {
    if x < 0.0 then -x else x
  }

  /** The convergence test: a scan over the previous estimate's pages. */
  method CheckConverged(previous: map<Page, real>, next: map<Page, real>) returns (converged: bool)
    requires previous.Keys <= next.Keys
    ensures converged <==> WithinTolerance(previous, next)
  {
    converged := true;
    var rest := previous.Keys;
    while rest != {}
      invariant rest <= previous.Keys
      invariant converged <==> forall p | p in previous.Keys - rest :: Abs(next[p] - previous[p]) <= Tolerance
      decreases rest
    {
      var p :| p in rest;
      if Abs(next[p] - previous[p]) > Tolerance {
        converged := false;
      }
      rest := rest - {p};
    }
  }

  /**
    What every estimate of the iterative solver satisfies: it ranks exactly
    the pages of the corpus, its ranks add up to 1 when the corpus is closed,
    and they are non-negative when the damping factor is a probability.
  */
  ghost predicate Estimate(corpus: Corpus, d: real, ranks: map<Page, real>)
  {
    && ranks.Keys == corpus.Keys
    && (Closed(corpus) ==> Total(ranks) == 1.0)
    && (0.0 <= d <= 1.0 ==> forall p | p in ranks :: ranks[p] >= 0.0)
  }

  /** `ranks` is the update of `previous`, and no page moved by more than the tolerance. */
  ghost predicate SettledFrom(corpus: Corpus, d: real, previous: map<Page, real>, ranks: map<Page, real>)
    requires |corpus| > 0
  {
    previous.Keys == corpus.Keys && ranks == Updated(corpus, d, previous) && WithinTolerance(previous, ranks)
  }

  /** `ranks` is where the solver may stop: it came from an update pass that moved no page by more than the tolerance. */
  ghost predicate Settled(corpus: Corpus, d: real, ranks: map<Page, real>)
    requires |corpus| > 0
  {
    exists previous: map<Page, real> :: SettledFrom(corpus, d, previous, ranks)
  }

  /** The starting estimate is an estimate. */
  lemma InitialEstimate(corpus: Corpus, d: real)
    requires |corpus| > 0
    ensures Estimate(corpus, d, InitialRanks(corpus))
  {
    PositiveShare(|corpus| as real);
  }

  /** One round of the solver loop: an update pass followed by the convergence test. */
  method Round(corpus: Corpus, d: real, ranks: map<Page, real>) returns (next: map<Page, real>, converged: bool)
    requires |corpus| > 0
    requires Estimate(corpus, d, ranks)
    ensures next == Updated(corpus, d, ranks)
    ensures Estimate(corpus, d, next)
    ensures converged <==> WithinTolerance(ranks, next)
  {
    next := UpdatePass(corpus, d, ranks);
    if Closed(corpus) {
      UpdatePreservesTotal(corpus, d, ranks);
    }
    if 0.0 <= d <= 1.0 {
      UpdateNonNegative(corpus, d, ranks);
    }
    converged := CheckConverged(ranks, next);
  }

  /** The estimate after `k` update passes from the uniform start. */
  ghost function Iterate(corpus: Corpus, d: real, k: nat): (ranks: map<Page, real>)
    requires |corpus| > 0
    ensures ranks.Keys == corpus.Keys
  {
    if k == 0 then InitialRanks(corpus) else Updated(corpus, d, Iterate(corpus, d, k - 1))
  }

  /** The stopping test succeeds on pass `k`: it moved no page by more than the tolerance. */
  ghost predicate StopsAt(corpus: Corpus, d: real, k: nat)
    requires |corpus| > 0
  {
    k >= 1 && WithinTolerance(Iterate(corpus, d, k - 1), Iterate(corpus, d, k))
  }

  /**
    The state of the solver loop after `passes` passes: the ranks are the
    `passes`-th iterate, `converged` records the latest stopping test, and no
    earlier pass stopped.
  */
  ghost predicate SolverState(corpus: Corpus, d: real, ranks: map<Page, real>, converged: bool, passes: nat)
    requires |corpus| > 0
  {
    && ranks == Iterate(corpus, d, passes)
    && Estimate(corpus, d, ranks)
    && (converged <==> StopsAt(corpus, d, passes))
    && forall k {:trigger StopsAt(corpus, d, k)} | 1 <= k < passes :: !StopsAt(corpus, d, k)
  }

  /** The loop state before the first pass. */
  lemma SolverStart(corpus: Corpus, d: real)
    requires |corpus| > 0
    ensures SolverState(corpus, d, InitialRanks(corpus), false, 0)
  {
    InitialEstimate(corpus, d);
  }

  /** A pass that starts from an unstopped state and yields the update leads to the next state. */
  lemma SolverStep(corpus: Corpus, d: real, ranks: map<Page, real>, passes: nat, next: map<Page, real>, converged: bool)
    requires |corpus| > 0
    requires SolverState(corpus, d, ranks, false, passes)
    requires next == Updated(corpus, d, ranks)
    requires Estimate(corpus, d, next)
    requires converged <==> WithinTolerance(ranks, next)
    ensures SolverState(corpus, d, next, converged, passes + 1)
  {
    forall k | 1 <= k < passes + 1
      ensures !StopsAt(corpus, d, k)
    {
      if k == passes {
        assert !StopsAt(corpus, d, passes);
      }
    }
  }

  /**
    The iterative solver: start from 1/N everywhere and apply update passes
    until no page moves by more than the tolerance, returning the newest
    estimate. At most `maxPasses` passes are made; `converged` tells whether
    the stopping test was met and `passes` how many passes were made.
  */
  method IteratePageRank(corpus: Corpus, d: real, maxPasses: nat) returns (ranks: map<Page, real>, converged: bool, passes: nat)
    requires |corpus| > 0
    ensures ranks == Iterate(corpus, d, passes)
    ensures Estimate(corpus, d, ranks)
    ensures converged <==> StopsAt(corpus, d, passes)
    ensures forall k {:trigger StopsAt(corpus, d, k)} | 1 <= k < passes :: !StopsAt(corpus, d, k)
    ensures passes <= maxPasses
    ensures !converged ==> passes == maxPasses
    ensures converged ==> Settled(corpus, d, ranks)
  {
    ranks := InitialRanks(corpus);
    converged := false;
    passes := 0;
    SolverStart(corpus, d);
    while !converged && passes < maxPasses
      invariant passes <= maxPasses
      invariant SolverState(corpus, d, ranks, converged, passes)
      decreases maxPasses - passes
    {
      var next, stopped := Round(corpus, d, ranks);
      SolverStep(corpus, d, ranks, passes, next, stopped);
      ranks, converged, passes := next, stopped, passes + 1;
    }
    if converged {
      assert SettledFrom(corpus, d, Iterate(corpus, d, passes - 1), ranks);
    }
  }

  /** A page's column of the flow: over all receivers it gives away exactly its rank. */
  lemma ColumnIsRank(corpus: Corpus, ranks: map<Page, real>, q: Page)
    requires q in corpus
    requires Closed(corpus)
    requires ranks.Keys == corpus.Keys
    ensures ColSums(corpus.Keys, Flow(corpus, ranks))(q) == Values(ranks)(q)
  {
    var links := EffectiveLinks(corpus, q);
    assert |links| > 0;
    SpreadMass(corpus.Keys, links, Col(Flow(corpus, ranks), q), ranks[q], |links| as real);
  }

  /** `r/L` on each of `L` elements of `s`, and 0 elsewhere, adds up to `r`. */
  lemma SpreadMass(s: set<Page>, t: set<Page>, f: Page -> real, r: real, l: real)
    requires t <= s
    requires l == |t| as real
    requires l > 0.0
    requires forall x | x in s :: f(x) == (if x in t then r / l else 0.0)
    ensures Sum(s, f) == r
  {
    var share := r / l;
    SumConstant(s, t, f, share, l);
    ShareMass(l, r, share, Sum(s, f));
  }

  /** In a closed corpus an update pass keeps the total rank at 1. */
  lemma UpdatePreservesTotal(corpus: Corpus, d: real, ranks: map<Page, real>)
    requires |corpus| > 0
    requires Closed(corpus)
    requires ranks.Keys == corpus.Keys
    requires Total(ranks) == 1.0
    ensures Total(Updated(corpus, d, ranks)) == 1.0
  {
    SumSwap(corpus.Keys, corpus.Keys, Flow(corpus, ranks));
    forall q | q in corpus.Keys
      ensures ColSums(corpus.Keys, Flow(corpus, ranks))(q) == Values(ranks)(q)
    {
      ColumnIsRank(corpus, ranks, q);
    }
    SumExt(corpus.Keys, ColSums(corpus.Keys, Flow(corpus, ranks)), Values(ranks));
    forall p | p in corpus.Keys
      ensures Values(Updated(corpus, d, ranks))(p) == Mix(Jump(|corpus| as real, d), d, RowSums(corpus.Keys, Flow(corpus, ranks))(p))
    {
    }
    DampedMass(corpus.Keys, RowSums(corpus.Keys, Flow(corpus, ranks)), Values(Updated(corpus, d, ranks)),
               d, |corpus| as real);
  }

  /** A distribution mixed with the uniform one, `(1 - d)/N + d * f`, still adds up to 1. */
  lemma DampedMass(s: set<Page>, f: Page -> real, g: Page -> real, d: real, n: real)
    requires n == |s| as real
    requires n > 0.0
    requires Sum(s, f) == 1.0
    requires forall x | x in s :: g(x) == Mix(Jump(n, d), d, f(x))
    ensures Sum(s, g) == 1.0
  {
    var jump := Jump(n, d);
    SumAffine(s, f, g, jump, d, n);
    Damped(n, d, jump, Sum(s, f), Sum(s, g));
  }

  /** For `0 <= d <= 1`, an update pass of non-negative ranks gives non-negative ranks. */
  lemma UpdateNonNegative(corpus: Corpus, d: real, ranks: map<Page, real>)
    requires |corpus| > 0
    requires 0.0 <= d <= 1.0
    requires forall p | p in ranks :: ranks[p] >= 0.0
    ensures forall p | p in Updated(corpus, d, ranks) :: Updated(corpus, d, ranks)[p] >= 0.0
  {
    forall p | p in corpus
      ensures Updated(corpus, d, ranks)[p] >= 0.0
    {
      forall q | q in corpus.Keys
        ensures Row(Flow(corpus, ranks), p)(q) >= 0.0
      {
        if q in ranks && p in EffectiveLinks(corpus, q) {
          QuotientNonNegative(ranks[q], |EffectiveLinks(corpus, q)| as real);
        }
      }
      SumNonNegative(corpus.Keys, Row(Flow(corpus, ranks), p));
      MixNonNegative(|corpus| as real, d, Inflow(corpus, ranks, p));
    }
  }

  /**
    The weight `q` gives `p` in the surfer's next step: `q`'s rank times the
    probability the transition model from `q` assigns to `p`.
  */
  ghost function Weighted(corpus: Corpus, d: real, ranks: map<Page, real>, p: Page): Page -> real
  {
    q => WeightOf(corpus, d, ranks, p, q)
  }

  /** The weight `q` gives `p`, and 0 when either is not a page of the corpus. */
  ghost function WeightOf(corpus: Corpus, d: real, ranks: map<Page, real>, p: Page, q: Page): real
  {
    if q in corpus && q in ranks && p in corpus then Times(ranks[q], Transition(corpus, q, d)[p]) else 0.0
  }

  /**
    An update pass is one step of the random surfer: the new rank of `p` is
    the probability of standing on `p` after one step of the transition model
    from a page drawn with the previous ranks.
  */
  lemma UpdateMatchesTransition(corpus: Corpus, d: real, ranks: map<Page, real>, p: Page)
    requires p in corpus
    requires ranks.Keys == corpus.Keys
    requires Total(ranks) == 1.0
    ensures Updated(corpus, d, ranks)[p] == Sum(corpus.Keys, Weighted(corpus, d, ranks, p))
  {
    TransitionMass(corpus, d, ranks, p);
  }

  /** The weights `p` receives add up to its new rank. */
  lemma TransitionMass(corpus: Corpus, d: real, ranks: map<Page, real>, p: Page)
    requires p in corpus
    requires ranks.Keys == corpus.Keys
    requires Total(ranks) == 1.0
    ensures Sum(corpus.Keys, Weighted(corpus, d, ranks, p)) == NewRank(corpus, d, ranks, p)
  {
    var jump := Jump(|corpus| as real, d);
    var flow := Row(Flow(corpus, ranks), p);
    WeightsCombine(corpus, d, ranks, p);
    UnitMix(jump, d, Sum(corpus.Keys, flow), Sum(corpus.Keys, Values(ranks)), Sum(corpus.Keys, Weighted(corpus, d, ranks, p)));
  }

  /** Summing the weights splits into the jump term weighted by the ranks and `d` times the inflow. */
  lemma WeightsCombine(corpus: Corpus, d: real, ranks: map<Page, real>, p: Page)
    requires p in corpus
    requires ranks.Keys == corpus.Keys
    ensures Sum(corpus.Keys, Weighted(corpus, d, ranks, p)) ==
      Linear(Jump(|corpus| as real, d), Sum(corpus.Keys, Values(ranks)), d, Sum(corpus.Keys, Row(Flow(corpus, ranks), p)))
  {
    AllWeightsSplit(corpus, d, ranks, p);
    SumCombine(corpus.Keys, Values(ranks), Row(Flow(corpus, ranks), p), Weighted(corpus, d, ranks, p), Jump(|corpus| as real, d), d);
  }

  /** `WeightSplits` for every page of the corpus. */
  lemma AllWeightsSplit(corpus: Corpus, d: real, ranks: map<Page, real>, p: Page)
    requires p in corpus
    requires ranks.Keys == corpus.Keys
    ensures IsLinear(corpus.Keys, Weighted(corpus, d, ranks, p), Jump(|corpus| as real, d), Values(ranks), d, Row(Flow(corpus, ranks), p))
  {
    forall q | q in corpus.Keys
      ensures Weighted(corpus, d, ranks, p)(q) ==
        Linear(Jump(|corpus| as real, d), Values(ranks)(q), d, Row(Flow(corpus, ranks), p)(q))
    {
      WeightSplits(corpus, d, ranks, p, q);
    }
  }

  /** What `q` gives `p` in a step of the surfer is its jump part plus `d` times its share in the recurrence. */
  lemma WeightSplits(corpus: Corpus, d: real, ranks: map<Page, real>, p: Page, q: Page)
    requires p in corpus
    requires q in corpus
    requires ranks.Keys == corpus.Keys
    ensures Weighted(corpus, d, ranks, p)(q) ==
      Linear(Jump(|corpus| as real, d), Values(ranks)(q), d, Row(Flow(corpus, ranks), p)(q))
  {
    var n := |corpus| as real;
    var r := ranks[q];
    var t := Transition(corpus, q, d)[p];
    var share := Share(corpus, ranks, q, p);
    var jump := Jump(n, d);
    assert Weighted(corpus, d, ranks, p)(q) == Times(r, t);
    assert Values(ranks)(q) == r;
    assert Row(Flow(corpus, ranks), p)(q) == share;
    if corpus[q] == {} {
      DanglingWeight(n, d, r, jump, t, share);
    } else if p in corpus[q] {
      var l := |corpus[q]| as real;
      LinkedWeight(n, l, d, r, jump, t, share);
    } else {
      UnlinkedWeight(d, r, jump, t, share);
    }
  }

  /** `x * y`, kept as one term so that products stay out of the statements that use it. */
  function Times(x: real, y: real): real
  {
    x * y
  }

  // ---------------------------------------------------------------------------
  // Arithmetic over the reals, kept apart from sums and cardinalities
  // ---------------------------------------------------------------------------

  /** A non-negative rank divided by a positive link count is non-negative. */
  lemma QuotientNonNegative(r: real, l: real)
    requires r >= 0.0
    requires l > 0.0
    ensures r / l >= 0.0
  {
  }

  /** `N` shares of `1/N` make 1. */
  lemma Reciprocal(n: real, share: real, total: real)
    requires n > 0.0
    requires share == 1.0 / n
    requires total == n * share
    ensures total == 1.0
  {
  }

  /** `N` jump terms of `(1 - d)/N` and `L` follow terms of `d/L` make 1. */
  lemma JumpAndFollow(n: real, l: real, d: real, jump: real, follow: real, total: real)
    requires n > 0.0
    requires l > 0.0
    requires jump == (1.0 - d) / n
    requires follow == d / l
    requires total == n * jump + l * follow
    ensures total == 1.0
  {
  }

  /** For a damping factor between 0 and 1, both parts of a transition probability are non-negative. */
  lemma DampedNonNegative(d: real, l: real, n: real)
    requires 0.0 <= d <= 1.0
    requires l > 0.0
    requires n > 0.0
    ensures d / l >= 0.0
    ensures (1.0 - d) / n >= 0.0
  {
  }

  /** A uniform share of a non-empty corpus is positive. */
  lemma PositiveShare(n: real)
    requires n > 0.0
    ensures 1.0 / n > 0.0
  {
  }

  /** Dividing by `n` is scaling by `1/n`. */
  lemma DivideAsScale(x: real, n: real, scale: real)
    requires n != 0.0
    requires scale == 1.0 / n
    ensures x / n == scale * x
  {
  }

  /** A count of `n` scaled by `1/n` is 1. */
  lemma Normalise(n: real, scale: real, count: real, total: real)
    requires n > 0.0
    requires scale == 1.0 / n
    requires count == n
    requires total == scale * count
    ensures total == 1.0
  {
  }

  /** `L` shares of `r/L` make `r`. */
  lemma ShareMass(l: real, r: real, share: real, total: real)
    requires l > 0.0
    requires share == r / l
    requires total == l * share
    ensures total == r
  {
  }

  /** `N` jump terms plus `d` times a unit inflow make 1. */
  lemma Damped(n: real, d: real, jump: real, inflow: real, total: real)
    requires n > 0.0
    requires jump == (1.0 - d) / n
    requires inflow == 1.0
    requires total == n * jump + d * inflow
    ensures total == 1.0
  {
  }

  /** The new rank of a page is non-negative when its inflow is and `d` is between 0 and 1. */
  lemma MixNonNegative(n: real, d: real, inflow: real)
    requires n > 0.0
    requires 0.0 <= d <= 1.0
    requires inflow >= 0.0
    ensures Mix(Jump(n, d), d, inflow) >= 0.0
  {
    assert d * inflow >= 0.0;
    assert (1.0 - d) / n >= 0.0;
  }

  /** A dangling page's rank spread as `1/N` is its jump part plus `d` times its `r/N` share. */
  lemma DanglingWeight(n: real, d: real, r: real, jump: real, t: real, share: real)
    requires n > 0.0
    requires jump == (1.0 - d) / n
    requires t == 1.0 / n
    requires share == r / n
    ensures Times(r, t) == Linear(jump, r, d, share)
  {
  }

  /** A linking page's rank times `(1 - d)/N + d/L` is its jump part plus `d` times its `r/L` share. */
  lemma LinkedWeight(n: real, l: real, d: real, r: real, jump: real, t: real, share: real)
    requires n > 0.0
    requires l > 0.0
    requires jump == (1.0 - d) / n
    requires t == (1.0 - d) / n + d / l
    requires share == r / l
    ensures Times(r, t) == Linear(jump, r, d, share)
  {
  }

  /** A page that does not link to the receiver gives it only its jump part. */
  lemma UnlinkedWeight(d: real, r: real, jump: real, t: real, share: real)
    requires t == jump
    requires share == 0.0
    ensures Times(r, t) == Linear(jump, r, d, share)
  {
  }

  /** With ranks adding up to 1, the weighted jump terms are the jump term itself. */
  lemma UnitMix(jump: real, d: real, inflow: real, mass: real, total: real)
    requires mass == 1.0
    requires total == Linear(jump, mass, d, inflow)
    ensures total == Mix(jump, d, inflow)
  {
  }
}
