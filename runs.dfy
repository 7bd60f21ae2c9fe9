/**
  Whole runs of the frontier: a fresh `Fetch`, seeded, then crawled.
 */
module Runs {
  import opened Wrappers
  import opened Commands
  import opened Robots
  import opened Frontier

  /** When every seed's robots.txt disallows everything, nothing is queued and the crawl is fatal. */
  method DisallowedSeedsAreFatal(args: seq<string>, robots: string -> RobotsReply, parse: Parser,
                                 fetchPage: Url -> PageReply, save: (string, string) -> bool,
                                 links: string -> seq<string>, available: Url -> bool, resolve: Resolver)
      returns (fatal: bool)
    requires forall s :: s in args ==> robots(s).Fetched? && Bot(robots(s).res, parse).FullDisallow
    ensures fatal
  {
    var f := new Fetch();
    AllFetchedMeaning(args, robots);
    f.Seed(args, robots, parse);
    NoSeedKept(args, robots, parse);
    assert f.Queue == [];
    fatal := f.Crawl(fetchPage, save, links, available, resolve);
  }

  /** A single robot contributes a single root host. */
  lemma OneRootHost(info: seq<Robot>)
    requires |info| == 1
    ensures |RootHosts(info)| == 1
  {
    assert RootHosts(info) == {info[0].RootURL.host};
  }

  /** A fresh `Fetch` seeded with one accepted site holds that site's command alone. */
  method SeedOneSite(seed: string, robots: string -> RobotsReply, parse: Parser) returns (f: Fetch)
    requires robots(seed).Fetched? && !Bot(robots(seed).res, parse).FullDisallow
    ensures fresh(f) && f.Valid() && f.Settled()
    ensures f.MaxPages == DefaultMaxPages && |RootHosts(f.HostInfo)| == 1
    ensures f.Queue == [NewCmd(seed, parse)]
  {
    f := new Fetch();
    f.Seed([seed], robots, parse);
    assert [seed][..0] == [];
    assert KeptBots([seed], robots, parse) == [Bot(robots(seed).res, parse)];
    OneRootHost(f.HostInfo);
  }

  /**
    Crawling one accepted site from a fresh `Fetch` ends with `watch`
    satisfied and at most the seed plus 100 pages of the site queued.
   */
  method CrawlOneSite(seed: string, robots: string -> RobotsReply, parse: Parser,
                      fetchPage: Url -> PageReply, save: (string, string) -> bool,
                      links: string -> seq<string>, available: Url -> bool, resolve: Resolver)
      returns (queued: nat, visited: nat)
    requires robots(seed).Fetched? && !Bot(robots(seed).res, parse).FullDisallow
    ensures WatchDone(queued, visited)
    ensures 1 <= queued <= 1 + DefaultMaxPages
  {
    var f := SeedOneSite(seed, robots, parse);
    assert |f.Queue| + |RootHosts(f.HostInfo)| * Max(f.MaxPages, 0) == 1 + DefaultMaxPages;
    var fatal := f.Crawl(fetchPage, save, links, available, resolve);
    queued, visited := |f.Queue|, |f.Visited|;
  }

  /**
    Crawling one accepted site whose seed page yields no links visits the
    seed page and nothing else.
   */
  method CrawlLinklessSite(seed: string, robots: string -> RobotsReply, parse: Parser,
                           fetchPage: Url -> PageReply, save: (string, string) -> bool,
                           links: string -> seq<string>, available: Url -> bool, resolve: Resolver)
      returns (visited: seq<Cmd>)
    requires robots(seed).Fetched? && !Bot(robots(seed).res, parse).FullDisallow
    requires PageLinks(fetchPage(NewCmd(seed, parse).U), NewCmd(seed, parse), save, links) == []
    ensures visited == [NewCmd(seed, parse)]
  {
    var f := SeedOneSite(seed, robots, parse);
    var fatal := f.Crawl(fetchPage, save, links, available, resolve);
    visited := f.Visited;
  }
}
