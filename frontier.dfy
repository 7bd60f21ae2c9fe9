/**
  The frontier of the crawler (the `Fetch` type of fetch.go): the queue of
  commands with its cursor `index`, the host of every queued command in
  `HostCount`, the robots of the seeded hosts in `HostInfo`, and `Visited`.
  Each operation is one atomic step of a single worker; the network, the
  disk and link extraction are functions passed in.
 */
module Frontier {
  import opened Wrappers
  import opened Strings
  import opened Commands
  import opened Robots
  import opened Lookups
  import opened Exclusion

  const DefaultMaxPages := 100

  function Max(a: int, b: int): int {
    if a < b then b else a
  }

  /** The hosts of the robots' root URLs: the only hosts whose pages are queued. */
  function RootHosts(info: seq<Robot>): set<string> {
    set r | r in info :: r.RootURL.host
  }

  /** Every robot can be consulted by `robExcl`. */
  predicate Consultable(info: seq<Robot>) {
    forall r :: r in info ==> StarGroupNonEmpty(r)
  }

  lemma WellFormedConsultable(info: seq<Robot>)
    requires forall r :: r in info ==> WellFormed(r)
    ensures Consultable(info)
  {
    forall r | r in info ensures StarGroupNonEmpty(r) {
      WellFormedHasStarEntry(r);
    }
  }

  /** Some queued command has the URL string of `url`. */
  predicate Queued(queue: seq<Cmd>, url: Url) {
    exists i :: 0 <= i < |queue| && queue[i].U.text == url.text
  }

  /** `HostCount[i]` is the host of `Queue[i]`, as `addSeed` and admission keep it. */
  predicate Aligned(queue: seq<Cmd>, hostCount: seq<string>) {
    |hostCount| == |queue| && forall i :: 0 <= i < |queue| ==> hostCount[i] == queue[i].U.host
  }

  // ------------------------------------------------------------ admission

  /** Why a link was or was not queued. */
  datatype Outcome = InvalidHref | HostFull | Unavailable | AlreadyQueued | Disallowed | Filtered | HostNotListed | Added

  /**
    The checks of `crawl` for a resolved command, in source order: already
    queued, refused by the robots, filtered, host not seeded, host quota.
   */
  function Admission(queue: seq<Cmd>, hostCount: seq<string>, info: seq<Robot>, maxPages: int, cmd: Cmd, resolve: Resolver): (o: Outcome)
    requires Consultable(info)
    ensures o == Added <==>
      !Queued(queue, cmd.U) && RobExcl(cmd.U, info, resolve) && !Filter(cmd.U) &&
      cmd.U.host in RootHosts(info) && multiset(hostCount)[cmd.U.host] < maxPages
    ensures o == AlreadyQueued <==> Queued(queue, cmd.U)
  {
    if Queued(queue, cmd.U) then AlreadyQueued
    else if !RobExcl(cmd.U, info, resolve) then Disallowed
    else if Filter(cmd.U) then Filtered
    else if cmd.U.host !in RootHosts(info) then HostNotListed
    else if multiset(hostCount)[cmd.U.host] >= maxPages then HostFull
    else Added
  }

  /**
    One link of a crawled page: resolved against the page's URL, refused
    early when its host is full or it is not available, then admitted or not.
   */
  function Consider(queue: seq<Cmd>, hostCount: seq<string>, info: seq<Robot>, maxPages: int,
                    href: string, base: Url, resolve: Resolver, available: Url -> bool): (o: Outcome)
    requires Consultable(info)
    ensures o == Added <==>
      var u := resolve(href, base);
      u.Some? && available(u.value) && Admission(queue, hostCount, info, maxPages, Cmd(u.value, Get), resolve) == Added
    ensures o == InvalidHref <==> resolve(href, base).None?
  {
    match resolve(href, base)
    case None => InvalidHref
    case Some(u) =>
      if multiset(hostCount)[u.host] >= maxPages then HostFull
      else if !available(u) then Unavailable
      else Admission(queue, hostCount, info, maxPages, Cmd(u, Get), resolve)
  }

  /** The queue and its host list as values. */
  datatype Ledger = Ledger(queue: seq<Cmd>, hostCount: seq<string>)

  /** The ledger after one link has been considered. */
  function Offer(l: Ledger, href: string, info: seq<Robot>, maxPages: int, base: Url,
                 resolve: Resolver, available: Url -> bool): Ledger
    requires Consultable(info)
  {
    if Consider(l.queue, l.hostCount, info, maxPages, href, base, resolve, available) == Added then
      var u := resolve(href, base).value;
      Ledger(l.queue + [Cmd(u, Get)], l.hostCount + [u.host])
    else l
  }

  /** The ledger after the links `hrefs` have been considered in order. */
  function OfferAll(l: Ledger, hrefs: seq<string>, info: seq<Robot>, maxPages: int, base: Url,
                    resolve: Resolver, available: Url -> bool): Ledger
    requires Consultable(info)
  {
    if hrefs == [] then l
    else Offer(OfferAll(l, hrefs[..|hrefs| - 1], info, maxPages, base, resolve, available),
               hrefs[|hrefs| - 1], info, maxPages, base, resolve, available)
  }

  /**
    What consideration keeps: the queue only grows, stays aligned with its
    hosts, every new command is on a seeded host, permitted by the robots,
    not filtered and not queued before, and no host's count rises above the
    larger of its old count and `maxPages`.
   */
  ghost predicate Extends(l: Ledger, r: Ledger, info: seq<Robot>, maxPages: int, resolve: Resolver)
    requires Consultable(info)
  {
    var n := |l.queue|;
    n <= |r.queue| && r.queue[..n] == l.queue &&
    (forall i :: n <= i < |r.queue| ==>
      r.queue[i].U.host in RootHosts(info) && RobExcl(r.queue[i].U, info, resolve) && !Filter(r.queue[i].U)) &&
    (forall i, j :: 0 <= i < j < |r.queue| && n <= j ==> r.queue[i].U.text != r.queue[j].U.text) &&
    (forall h :: multiset(r.hostCount)[h] <= Max(multiset(l.hostCount)[h], maxPages))
  }

  lemma OfferExtends(l: Ledger, href: string, info: seq<Robot>, maxPages: int, base: Url,
                     resolve: Resolver, available: Url -> bool)
    requires Consultable(info)
    requires Aligned(l.queue, l.hostCount)
    ensures var r := Offer(l, href, info, maxPages, base, resolve, available);
      Aligned(r.queue, r.hostCount) && Extends(l, r, info, maxPages, resolve)
  {
    var r := Offer(l, href, info, maxPages, base, resolve, available);
    if r != l {
      var u := resolve(href, base).value;
      var cmd := Cmd(u, Get);
      assert r.queue == l.queue + [cmd] && r.hostCount == l.hostCount + [u.host];
      assert !Queued(l.queue, u);
      assert r.queue[..|l.queue|] == l.queue;
      assert multiset(r.hostCount) == multiset(l.hostCount) + multiset{u.host};
    } else {
      assert l.queue[..|l.queue|] == l.queue;
    }
  }

  lemma {:induction false} ExtendsTransitive(a: Ledger, b: Ledger, c: Ledger, info: seq<Robot>, maxPages: int, resolve: Resolver)
    requires Consultable(info)
    requires Extends(a, b, info, maxPages, resolve) && Extends(b, c, info, maxPages, resolve)
    ensures Extends(a, c, info, maxPages, resolve)
  {
    var n, m := |a.queue|, |b.queue|;
    assert c.queue[..n] == c.queue[..m][..n];
    forall i | n <= i < |c.queue|
      ensures c.queue[i].U.host in RootHosts(info) && RobExcl(c.queue[i].U, info, resolve) && !Filter(c.queue[i].U)
    {
      if i < m { assert c.queue[i] == b.queue[i]; }
    }
    forall i, j | 0 <= i < j < |c.queue| && n <= j
      ensures c.queue[i].U.text != c.queue[j].U.text
    {
      if j < m { assert c.queue[i] == b.queue[i] && c.queue[j] == b.queue[j]; }
    }
  }

  /** A ledger left unchanged extends itself. */
  lemma ExtendsRefl(l: Ledger, info: seq<Robot>, maxPages: int, resolve: Resolver)
    requires Consultable(info)
    ensures Extends(l, l, info, maxPages, resolve)
  {
    assert l.queue[..|l.queue|] == l.queue;
  }

  /** Considering any links keeps the ledger aligned and extends it. */
  lemma {:induction false} OfferAllExtends(l: Ledger, hrefs: seq<string>, info: seq<Robot>, maxPages: int, base: Url,
                                          resolve: Resolver, available: Url -> bool)
    requires Consultable(info)
    requires Aligned(l.queue, l.hostCount)
    ensures var r := OfferAll(l, hrefs, info, maxPages, base, resolve, available);
      Aligned(r.queue, r.hostCount) && Extends(l, r, info, maxPages, resolve)
  {
    if hrefs == [] {
      assert l.queue[..|l.queue|] == l.queue;
    } else {
      var mid := OfferAll(l, hrefs[..|hrefs| - 1], info, maxPages, base, resolve, available);
      OfferAllExtends(l, hrefs[..|hrefs| - 1], info, maxPages, base, resolve, available);
      OfferExtends(mid, hrefs[|hrefs| - 1], info, maxPages, base, resolve, available);
      ExtendsTransitive(l, mid, OfferAll(l, hrefs, info, maxPages, base, resolve, available), info, maxPages, resolve);
    }
  }

  // ------------------------------------------------------------- the bound

  /** The elements of `xs` other than `h`, in order. */
  function Without(xs: seq<string>, h: string): (r: seq<string>)
    ensures |r| + multiset(xs)[h] == |xs|
    ensures forall g :: g != h ==> multiset(r)[g] == multiset(xs)[g]
    ensures forall x :: x in r ==> x in xs && x != h
  {
    if xs == [] then []
    else
      assert xs == [xs[0]] + xs[1..];
      (if xs[0] == h then [] else [xs[0]]) + Without(xs[1..], h)
  }

  /** A sequence over the hosts `H`, each at most `m` times, has at most `|H| * m` elements. */
  lemma {:induction false} QuotaBound(xs: seq<string>, H: set<string>, m: nat)
    requires forall x :: x in xs ==> x in H
    requires forall h :: multiset(xs)[h] <= m
    ensures |xs| <= |H| * m
    decreases H
  {
    if xs != [] {
      var h := xs[0];
      var ys := Without(xs, h);
      forall g ensures multiset(ys)[g] <= m {
        if g != h { assert multiset(ys)[g] == multiset(xs)[g]; }
        else { assert g !in ys; }
      }
      assert h in H && |H - {h}| + 1 == |H|;
      forall x | x in ys ensures x in H - {h} { }
      QuotaBound(ys, H - {h}, m);
      QuotaStep(|ys|, multiset(xs)[h], |H - {h}|, m);
    }
  }

  lemma QuotaStep(a: nat, b: nat, k: nat, m: nat)
    requires a <= k * m && b <= m
    ensures a + b <= (k + 1) * m
  {
    MulStep(m, k);
  }

  /**
    The queue of a crawl stays within the seeded length plus `MaxPages`
    for each seeded host.
   */
  lemma CrawlBound(hc0: seq<string>, hc: seq<string>, H: set<string>, m: int)
    requires |hc0| <= |hc| && hc[..|hc0|] == hc0
    requires forall i :: |hc0| <= i < |hc| ==> hc[i] in H
    requires forall h :: multiset(hc)[h] <= Max(multiset(hc0)[h], m)
    ensures |hc| <= |hc0| + |H| * Max(m, 0)
  {
    var xs := hc[|hc0|..];
    assert hc == hc0 + xs;
    forall h ensures multiset(xs)[h] <= Max(m, 0) {
      assert multiset(hc)[h] == multiset(hc0)[h] + multiset(xs)[h];
    }
    forall x | x in xs ensures x in H {
      var i :| 0 <= i < |xs| && xs[i] == x;
      assert hc[|hc0| + i] == x;
    }
    QuotaBound(xs, H, Max(m, 0));
  }

  /** Visiting the claimed command keeps the visited list equal to the claimed prefix. */
  lemma VisitedStep(q0: seq<Cmd>, q: seq<Cmd>, k: nat)
    requires k < |q0| <= |q| && q[..|q0|] == q0
    ensures q[..k + 1] == q0[..k] + [q0[k]]
  {
    assert q[..k + 1] == q[..|q0|][..k + 1];
  }

  /** An aligned extension stays within the quota bound. */
  lemma FrontierBound(l: Ledger, r: Ledger, info: seq<Robot>, maxPages: int, resolve: Resolver)
    requires Consultable(info)
    requires Aligned(l.queue, l.hostCount) && Aligned(r.queue, r.hostCount)
    requires Extends(l, r, info, maxPages, resolve)
    ensures |r.queue| <= |l.queue| + |RootHosts(info)| * Max(maxPages, 0)
  {
    var n := |l.queue|;
    assert r.hostCount[..n] == l.hostCount by {
      forall i | 0 <= i < n ensures r.hostCount[i] == l.hostCount[i] {
        assert r.queue[i] == r.queue[..n][i];
      }
    }
    CrawlBound(l.hostCount, r.hostCount, RootHosts(info), maxPages);
  }

  // --------------------------------------------------------------- seeding

  /** The robots.txt reply of a seed. */
  datatype RobotsReply = Fetched(res: Response) | TransportError

  /** A seed is kept when its robots.txt was fetched and does not disallow everything. */
  predicate KeepSeed(reply: RobotsReply, parse: Parser) {
    reply.Fetched? && !Bot(reply.res, parse).FullDisallow
  }

  /** The seeds kept, in order. */
  function Kept(args: seq<string>, robots: string -> RobotsReply, parse: Parser): seq<string> {
    if args == [] then []
    else
      var s := args[|args| - 1];
      Kept(args[..|args| - 1], robots, parse) + (if KeepSeed(robots(s), parse) then [s] else [])
  }

  /** The commands queued for the kept seeds. */
  function KeptCmds(args: seq<string>, robots: string -> RobotsReply, parse: Parser): seq<Cmd> {
    if args == [] then []
    else
      var s := args[|args| - 1];
      KeptCmds(args[..|args| - 1], robots, parse) + (if KeepSeed(robots(s), parse) then [NewCmd(s, parse)] else [])
  }

  /** The robots recorded for the kept seeds. */
  function KeptBots(args: seq<string>, robots: string -> RobotsReply, parse: Parser): seq<Robot> {
    if args == [] then []
    else
      var s := args[|args| - 1];
      KeptBots(args[..|args| - 1], robots, parse) + (if KeepSeed(robots(s), parse) then [Bot(robots(s).res, parse)] else [])
  }

  /** Every seed's robots.txt request got a response. */
  predicate AllFetched(args: seq<string>, robots: string -> RobotsReply) {
    args == [] || (robots(args[0]).Fetched? && AllFetched(args[1..], robots))
  }

  /** `AllFetched` holds exactly when every seed's reply is a response. */
  lemma {:induction false} AllFetchedMeaning(args: seq<string>, robots: string -> RobotsReply)
    ensures AllFetched(args, robots) <==> forall s :: s in args ==> robots(s).Fetched?
  {
    if args != [] {
      AllFetchedMeaning(args[1..], robots);
      assert forall s :: s in args <==> s == args[0] || s in args[1..];
    }
  }

  lemma {:induction false} AllFetchedAt(args: seq<string>, i: nat, robots: string -> RobotsReply)
    requires i < |args| && AllFetched(args, robots)
    ensures robots(args[i]).Fetched?
  {
    if i > 0 {
      AllFetchedAt(args[1..], i - 1, robots);
    }
  }

  /** One more seed extends the kept commands and robots by that seed's contribution. */
  lemma KeptStep(args: seq<string>, i: nat, robots: string -> RobotsReply, parse: Parser)
    requires i < |args|
    ensures KeptCmds(args[..i + 1], robots, parse) ==
      KeptCmds(args[..i], robots, parse) + (if KeepSeed(robots(args[i]), parse) then [NewCmd(args[i], parse)] else [])
    ensures KeptBots(args[..i + 1], robots, parse) ==
      KeptBots(args[..i], robots, parse) + (if KeepSeed(robots(args[i]), parse) then [Bot(robots(args[i]).res, parse)] else [])
  {
    assert args[..i + 1][..i] == args[..i];
  }

  /** When no seed is kept, `Seed` queues nothing. */
  lemma {:induction false} NoSeedKept(args: seq<string>, robots: string -> RobotsReply, parse: Parser)
    requires forall s :: s in args ==> !KeepSeed(robots(s), parse)
    ensures KeptCmds(args, robots, parse) == [] && KeptBots(args, robots, parse) == []
  {
    if args != [] {
      assert args[|args| - 1] in args;
      assert forall s :: s in args[..|args| - 1] ==> s in args;
      NoSeedKept(args[..|args| - 1], robots, parse);
    }
  }

  /**
    The i-th queued seed command and the i-th recorded robot both come from
    the i-th kept seed, and no recorded robot disallows everything.
   */
  lemma {:induction false} KeptLists(args: seq<string>, robots: string -> RobotsReply, parse: Parser)
    ensures var k := Kept(args, robots, parse);
      |KeptCmds(args, robots, parse)| == |k| && |KeptBots(args, robots, parse)| == |k| &&
      forall i :: 0 <= i < |k| ==>
        robots(k[i]).Fetched? &&
        KeptCmds(args, robots, parse)[i] == NewCmd(k[i], parse) &&
        KeptBots(args, robots, parse)[i] == Bot(robots(k[i]).res, parse) &&
        !KeptBots(args, robots, parse)[i].FullDisallow
  {
    if args != [] {
      KeptLists(args[..|args| - 1], robots, parse);
    }
  }

  /** Exactly the seeds whose robots.txt was fetched and is not `FullDisallow` are kept. */
  lemma {:induction false} KeptMeaning(args: seq<string>, robots: string -> RobotsReply, parse: Parser)
    ensures forall s :: s in Kept(args, robots, parse) <==> s in args && KeepSeed(robots(s), parse)
    ensures |Kept(args, robots, parse)| <= |args|
  {
    if args != [] {
      var pre := args[..|args| - 1];
      KeptMeaning(pre, robots, parse);
      assert args == pre + [args[|args| - 1]];
    }
  }

  // ----------------------------------------------------------------- crawl

  /** A page reply; `None` for the body is a read error. */
  datatype PageReply = TransportFailure | Reply(status: int, body: Option<string>)

  /**
    The links a claimed page contributes: none when the request fails, the
    status is above 300, the body cannot be read or the page cannot be saved
    under its `docName`.
   */
  function PageLinks(reply: PageReply, cmd: Cmd, save: (string, string) -> bool, links: string -> seq<string>): seq<string> {
    match reply
    case TransportFailure => []
    case Reply(status, body) =>
      if status > 300 then []
      else if body.None? then []
      else if !save(DocName(cmd.U), body.value) then []
      else links(body.value)
  }

  /** No page of `queue` yields a link to consider. */
  predicate Linkless(queue: seq<Cmd>, fetchPage: Url -> PageReply, save: (string, string) -> bool,
                     links: string -> seq<string>) {
    forall i :: 0 <= i < |queue| ==> PageLinks(fetchPage(queue[i].U), queue[i], save, links) == []
  }

  /** The completion test of `watch`. */
  predicate WatchDone(queue: int, visit: int) {
    visit > 0 && queue > 0 && visit >= queue
  }

  /** Once every claimed command is visited, `watch` fires exactly when the queue is non-empty and drained. */
  lemma WatchDoneIffDrained(queue: seq<Cmd>, visited: seq<Cmd>, index: nat)
    requires index <= |queue| && visited == queue[..index]
    ensures WatchDone(|queue|, |visited|) <==> queue != [] && index == |queue|
  {
  }

  datatype Pick = EmptyQueue | Drained | Next(cmd: Cmd)

  datatype Step = Fatal | Done | Crawled(cmd: Cmd)

  class Fetch {
    var MaxPages: int
    var HostInfo: seq<Robot>
    var Queue: seq<Cmd>
    var index: nat
    var HostCount: seq<string>
    var Visited: seq<Cmd>

    predicate Valid()
      reads this
    {
      index <= |Queue| && Aligned(Queue, HostCount) && forall r :: r in HostInfo ==> WellFormed(r)
    }

    /** Every claimed command, and only those, has been visited. */
    predicate Settled()
      reads this
    {
      index <= |Queue| && Visited == Queue[..index]
    }

    /** `New`: an empty frontier allowing 100 pages per host. */
    constructor ()
      ensures Valid() && Settled()
      ensures MaxPages == DefaultMaxPages
      ensures HostInfo == [] && Queue == [] && index == 0 && HostCount == [] && Visited == []
    {
      MaxPages := DefaultMaxPages;
      HostInfo := [];
      Queue := [];
      index := 0;
      HostCount := [];
      Visited := [];
    }

    /** `addSeed`: the command joins the queue and its host the host list. */
    method AddSeed(cmd: Cmd)
      requires Valid()
      modifies this`Queue, this`HostCount
      ensures Valid()
      ensures Queue == old(Queue) + [cmd] && HostCount == old(HostCount) + [cmd.U.host]
    {
      Queue := Queue + [cmd];
      HostCount := HostCount + [cmd.U.host];
    }

    /**
      One seed of `Seed`: the robot from its robots.txt response is kept, and
      the seed queued, unless the robot disallows everything.
     */
    method SeedOne(str: string, reply: RobotsReply, parse: Parser)
      requires Valid() && reply.Fetched?
      modifies this`HostInfo, this`Queue, this`HostCount
      ensures Valid()
      ensures KeepSeed(reply, parse) ==>
        HostInfo == old(HostInfo) + [Bot(reply.res, parse)] && Queue == old(Queue) + [NewCmd(str, parse)]
      ensures !KeepSeed(reply, parse) ==>
        HostInfo == old(HostInfo) && Queue == old(Queue) && HostCount == old(HostCount)
    {
      var robot := MakeBot(reply.res, parse);
      if !robot.FullDisallow {
        HostInfo := HostInfo + [robot];
        AddSeed(NewCmd(str, parse));
      }
    }

    /**
      `Seed`: fetch each seed's robots.txt; keep the robot and queue the seed
      unless it disallows everything. A failed fetch gives Go's `MakeBot` a
      nil response, so every fetch must succeed.
     */
    method Seed(args: seq<string>, robots: string -> RobotsReply, parse: Parser)
      requires Valid()
      requires AllFetched(args, robots)
      modifies this`HostInfo, this`Queue, this`HostCount
      ensures Valid()
      ensures HostInfo == old(HostInfo) + KeptBots(args, robots, parse)
      ensures Queue == old(Queue) + KeptCmds(args, robots, parse)
    {
      ghost var info0, q0 := HostInfo, Queue;
      for i := 0 to |args|
        invariant Valid()
        invariant HostInfo == info0 + KeptBots(args[..i], robots, parse)
        invariant Queue == q0 + KeptCmds(args[..i], robots, parse)
      {
        AllFetchedAt(args, i, robots);
        KeptStep(args, i, robots, parse);
        SeedOne(args[i], robots(args[i]), parse);
      }
      assert args[..|args|] == args;
    }

    /** The loop of `SeedSlice`: `Seed`, skipping a seed whose robots.txt could not be fetched. */
    method SeedFetched(cln: seq<string>, robots: string -> RobotsReply, parse: Parser)
      requires Valid()
      modifies this`HostInfo, this`Queue, this`HostCount
      ensures Valid()
      ensures HostInfo == old(HostInfo) + KeptBots(cln, robots, parse)
      ensures Queue == old(Queue) + KeptCmds(cln, robots, parse)
    {
      ghost var info0, q0 := HostInfo, Queue;
      for i := 0 to |cln|
        invariant Valid()
        invariant HostInfo == info0 + KeptBots(cln[..i], robots, parse)
        invariant Queue == q0 + KeptCmds(cln[..i], robots, parse)
      {
        var str := cln[i];
        KeptStep(cln, i, robots, parse);
        var reply := robots(str);
        if reply.TransportError? {
          continue;
        }
        SeedOne(str, reply, parse);
      }
      assert cln[..|cln|] == cln;
    }

    /** `SeedSlice`: seed the distinct links, in order of first occurrence. */
    method SeedSlice(links: seq<string>, robots: string -> RobotsReply, parse: Parser)
      requires Valid()
      modifies this`HostInfo, this`Queue, this`HostCount
      ensures Valid()
      ensures HostInfo == old(HostInfo) + KeptBots(Distinct(links), robots, parse)
      ensures Queue == old(Queue) + KeptCmds(Distinct(links), robots, parse)
    {
      var cln := Resolv(links);
      SeedFetched(cln, robots, parse);
    }

    /**
      The claim step of `crawl`: an empty queue is fatal, a drained queue
      stops the worker, otherwise the command at `index` is taken and
      `index` moves on by one.
     */
    method Claim() returns (p: Pick)
      requires Valid()
      modifies this`index
      ensures Valid()
      ensures p == EmptyQueue <==> Queue == []
      ensures p == Drained <==> Queue != [] && old(index) == |Queue|
      ensures p.Next? ==> old(index) < |Queue| && p.cmd == Queue[old(index)] && index == old(index) + 1
      ensures !p.Next? ==> index == old(index)
    {
      if |Queue| == 0 {
        return EmptyQueue;
      } else if |Queue| == index {
        return Drained;
      }
      var num := index;
      var lnk := Queue[num];
      num := num + 1;
      index := num;
      p := Next(lnk);
    }

    /** The `Visited` append that ends every path of a crawled command. */
    method RecordVisited(lnk: Cmd)
      modifies this`Visited
      ensures Visited == old(Visited) + [lnk]
    {
      Visited := Visited + [lnk];
    }

    /** The admission step of `crawl` for a resolved command. */
    method Admit(cmd: Cmd, resolve: Resolver) returns (outcome: Outcome)
      requires Valid()
      modifies this`Queue, this`HostCount
      ensures Valid()
      ensures Consultable(HostInfo)
      ensures outcome == Admission(old(Queue), old(HostCount), HostInfo, MaxPages, cmd, resolve)
      ensures outcome == Added ==> Queue == old(Queue) + [cmd] && HostCount == old(HostCount) + [cmd.U.host]
      ensures outcome != Added ==> Queue == old(Queue) && HostCount == old(HostCount)
    {
      WellFormedConsultable(HostInfo);
      var queued := CheckURL(Queue, cmd.U);
      if queued {
        return AlreadyQueued;
      }
      var permitted := RobExclCheck(cmd, HostInfo, resolve);
      if !permitted {
        return Disallowed;
      }
      if Filter(cmd.U) {
        return Filtered;
      }
      var host := false;
      var i := 0;
      while i < |HostInfo| && !host
        invariant 0 <= i <= |HostInfo|
        invariant host <==> exists j :: 0 <= j < i && HostInfo[j].RootURL.host == cmd.U.host
      {
        if HostInfo[i].RootURL.host == cmd.U.host {
          host := true;
        }
        i := i + 1;
      }
      if !host {
        return HostNotListed;
      }
      var c := Count(HostCount, cmd.U.host);
      if c >= MaxPages {
        return HostFull;
      }
      HostCount := HostCount + [cmd.U.host];
      Queue := Queue + [cmd];
      outcome := Added;
    }

    /**
      One link of a crawled page: resolve it against the page's URL, skip
      it when its host is full or it is not available, then admit it.
     */
    method ConsiderLink(href: string, base: Url, resolve: Resolver, available: Url -> bool) returns (outcome: Outcome)
      requires Valid()
      modifies this`Queue, this`HostCount
      ensures Valid()
      ensures Consultable(HostInfo)
      ensures outcome == Consider(old(Queue), old(HostCount), HostInfo, MaxPages, href, base, resolve, available)
      ensures Ledger(Queue, HostCount) == Offer(Ledger(old(Queue), old(HostCount)), href, HostInfo, MaxPages, base, resolve, available)
    {
      WellFormedConsultable(HostInfo);
      var cmd := resolve(href, base);
      if cmd.None? {
        return InvalidHref;
      }
      var c := Count(HostCount, cmd.value.host);
      if c >= MaxPages {
        return HostFull;
      }
      if !available(cmd.value) {
        return Unavailable;
      }
      outcome := Admit(Cmd(cmd.value, Get), resolve);
    }

    /** The loop of `crawl` over the links of a page, in order. */
    method ConsiderLinks(hrefs: seq<string>, base: Url, resolve: Resolver, available: Url -> bool)
      requires Valid()
      modifies this`Queue, this`HostCount
      ensures Valid()
      ensures Consultable(HostInfo)
      ensures Ledger(Queue, HostCount) == OfferAll(Ledger(old(Queue), old(HostCount)), hrefs, HostInfo, MaxPages, base, resolve, available)
    {
      WellFormedConsultable(HostInfo);
      ghost var l0 := Ledger(Queue, HostCount);
      for j := 0 to |hrefs|
        invariant Valid()
        invariant Ledger(Queue, HostCount) == OfferAll(l0, hrefs[..j], HostInfo, MaxPages, base, resolve, available)
      {
        assert hrefs[..j + 1][..j] == hrefs[..j];
        var _ := ConsiderLink(hrefs[j], base, resolve, available);
      }
      assert hrefs[..|hrefs|] == hrefs;
    }

    /**
      One turn of the `crawl` loop: claim a command, fetch its page, save it,
      consider its links in order and record the command as visited, once,
      whichever way the page handling ends.
     */
    method CrawlStep(fetchPage: Url -> PageReply, save: (string, string) -> bool, links: string -> seq<string>,
                     available: Url -> bool, resolve: Resolver) returns (step: Step)
      requires Valid() && Settled()
      modifies this`Queue, this`HostCount, this`index, this`Visited
      ensures Valid() && Settled()
      ensures Consultable(HostInfo)
      ensures step == Fatal <==> old(Queue) == []
      ensures step == Done <==> old(Queue) != [] && old(index) == |old(Queue)|
      ensures !step.Crawled? ==>
        Queue == old(Queue) && HostCount == old(HostCount) && index == old(index) && Visited == old(Visited)
      ensures step.Crawled? ==>
        old(index) < |old(Queue)| && step.cmd == old(Queue)[old(index)] &&
        index == old(index) + 1 && Visited == old(Visited) + [step.cmd] &&
        Ledger(Queue, HostCount) ==
          OfferAll(Ledger(old(Queue), old(HostCount)), PageLinks(fetchPage(step.cmd.U), step.cmd, save, links),
                   HostInfo, MaxPages, step.cmd.U, resolve, available)
      ensures Extends(Ledger(old(Queue), old(HostCount)), Ledger(Queue, HostCount), HostInfo, MaxPages, resolve)
    {
      WellFormedConsultable(HostInfo);
      ghost var l0 := Ledger(Queue, HostCount);
      assert Queue[..|Queue|] == Queue;
      var p := Claim();
      if p == EmptyQueue {
        ExtendsRefl(l0, HostInfo, MaxPages, resolve);
        return Fatal;
      } else if p == Drained {
        ExtendsRefl(l0, HostInfo, MaxPages, resolve);
        return Done;
      }
      var lnk := p.cmd;
      step := Crawled(lnk);
      var hrefs := PageLinks(fetchPage(lnk.U), lnk, save, links);
      ConsiderLinks(hrefs, lnk.U, resolve, available);
      OfferAllExtends(l0, hrefs, HostInfo, MaxPages, lnk.U, resolve, available);
      RecordVisited(lnk);
      VisitedStep(l0.queue, Queue, index - 1);
    }

    /**
      `crawl` on one worker: crawl steps until the queue is drained. An
      empty queue is fatal. The run ends because every admitted command
      takes a slot of a seeded host's quota.
     */
    method Crawl(fetchPage: Url -> PageReply, save: (string, string) -> bool, links: string -> seq<string>,
                 available: Url -> bool, resolve: Resolver) returns (fatal: bool)
      requires Valid() && Settled()
      modifies this`Queue, this`HostCount, this`index, this`Visited
      ensures Valid() && Settled()
      ensures Consultable(HostInfo)
      ensures fatal <==> old(Queue) == []
      ensures fatal ==> Queue == old(Queue) && index == old(index) && Visited == old(Visited)
      ensures !fatal ==> index == |Queue| && Visited == Queue && WatchDone(|Queue|, |Visited|)
      ensures Extends(Ledger(old(Queue), old(HostCount)), Ledger(Queue, HostCount), HostInfo, MaxPages, resolve)
      ensures |Queue| <= |old(Queue)| + |RootHosts(HostInfo)| * Max(MaxPages, 0)
      ensures Linkless(old(Queue), fetchPage, save, links) ==> Queue == old(Queue) && HostCount == old(HostCount)
    {
      WellFormedConsultable(HostInfo);
      ghost var l0 := Ledger(Queue, HostCount);
      ghost var bound := |Queue| + |RootHosts(HostInfo)| * Max(MaxPages, 0);
      assert Queue[..|Queue|] == Queue;
      while true
        invariant Valid() && Settled()
        invariant Extends(l0, Ledger(Queue, HostCount), HostInfo, MaxPages, resolve)
        invariant l0.queue == [] ==> Queue == [] && index == old(index) && Visited == old(Visited)
        invariant |Queue| <= bound
        invariant Linkless(l0.queue, fetchPage, save, links) ==> Queue == l0.queue && HostCount == l0.hostCount
        decreases bound - index
      {
        ghost var before := Ledger(Queue, HostCount);
        var step := CrawlStep(fetchPage, save, links, available, resolve);
        ExtendsTransitive(l0, before, Ledger(Queue, HostCount), HostInfo, MaxPages, resolve);
        if step == Fatal {
          return true;
        } else if step == Done {
          return false;
        }
        FrontierBound(l0, Ledger(Queue, HostCount), HostInfo, MaxPages, resolve);
      }
    }
  }
}
