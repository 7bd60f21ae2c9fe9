/**
  The robots.txt parser of robot.go: a response becomes a `Robot`, a map
  from user-agent key to the ordered directives listed under it, plus the
  full-allow and full-disallow shortcuts and the root URL of the host.
 */
module Robots {
  import opened Strings
  import opened Commands

  const UserAgent := "user-agent:"
  const AllowRoot := "allow:/"
  const DisallowRoot := "disallow:/"
  const RobotsFile := "robots.txt"

  /** `DefaultCrawlDelay`: five seconds, as a Go `time.Duration` in nanoseconds. */
  const DefaultCrawlDelay: nat := 5_000_000_000

  datatype Robot = Robot(
    RootURL: Url,
    FullAllow: bool,
    FullDisallow: bool,
    Groups: map<string, seq<string>>,
    CrawDelay: nat)

  /**
    The parts of an `*http.Response` that `MakeBot` reads: the status code,
    the body already split into lines (as `bufio.Scanner` does) and the
    `String()` of the request URL.
   */
  datatype Response = Response(StatusCode: int, Lines: seq<string>, RequestURL: string)

  /** A string in which every character is already lower case. */
  predicate Lowered(s: string) {
    forall i :: 0 <= i < |s| ==> LowerChar(s[i]) == s[i]
  }

  /** A key or directive as the parser stores it: lower case, no white space. */
  predicate Normalized(s: string) {
    SpaceFree(s) && Lowered(s)
  }

  /** What every group built by `MakeBot` looks like. */
  predicate GroupsWellFormed(groups: map<string, seq<string>>) {
    forall k :: k in groups ==>
      HasPrefix(k, UserAgent) && Normalized(k) &&
      |groups[k]| > 0 && forall j :: 0 <= j < |groups[k]| ==> Normalized(groups[k][j])
  }

  predicate WellFormed(r: Robot) {
    GroupsWellFormed(r.Groups)
  }

  // ---------------------------------------------------------------- trimSpaces

  /** `reg.ReplaceAllString(s, " ")` with `reg` the class `\s`. */
  function ClearSpaces(s: string): (r: string)
    ensures |r| == |s|
  {
    seq(|s|, i requires 0 <= i < |s| => if IsSpace(s[i]) then ' ' else s[i])
  }

  lemma {:induction false} ClearThenDropBlanks(s: string)
    ensures Replace(ClearSpaces(s), ' ', "") == RemoveSpace(s)
  {
    if s != [] {
      assert ClearSpaces(s)[1..] == ClearSpaces(s[1..]);
      ClearThenDropBlanks(s[1..]);
    }
  }

  /** Concatenating one more piece extends the concatenation of a prefix. */
  lemma ConcatStep(parts: seq<string>, i: nat)
    requires i < |parts|
    ensures Join(parts[..i + 1], "") == Join(parts[..i], "") + parts[i]
  {
    assert parts[..i + 1] == parts[..i] + [parts[i]];
    JoinSnoc(parts[..i], parts[i], "");
  }

  /**
    `trimSpaces`: every white-space character is turned into a blank, the
    result is split at blanks and the pieces are concatenated again.
   */
  method TrimSpaces(s: string) returns (str: string)
    ensures str == RemoveSpace(s)
  {
    var clear := ClearSpaces(s);
    var rmSpaces := Split(clear, ' ');
    str := "";
    for i := 0 to |rmSpaces|
      invariant str == Join(rmSpaces[..i], "")
    {
      ConcatStep(rmSpaces, i);
      str := str + rmSpaces[i];
    }
    assert rmSpaces[..|rmSpaces|] == rmSpaces;
    JoinSplit(clear, ' ', "");
    ClearThenDropBlanks(s);
  }

  // ------------------------------------------------- isAllowAll / isDisallowAll

  /** `isAllowAll`: one group, holding one directive, which is "allow:/". */
  predicate IsAllowAll(grp: map<string, seq<string>>) {
    |grp| == 1 &&
    exists k :: k in grp && |grp[k]| == 1 && RemoveSpace(grp[k][0]) == AllowRoot
  }

  /** `isDisallowAll`: one group, holding one directive, which is "disallow:/". */
  predicate IsDisallowAll(grp: map<string, seq<string>>) {
    |grp| == 1 &&
    exists k :: k in grp && |grp[k]| == 1 && RemoveSpace(grp[k][0]) == DisallowRoot
  }

  lemma OnlyKey<V>(m: map<string, V>, k1: string, k2: string)
    requires |m| == 1 && k1 in m && k2 in m
    ensures k1 == k2
  {
    var rest := m.Keys - {k1};
    assert |rest| == 0;
    assert k2 !in rest;
  }

  /** No group map is both "allow all" and "disallow all". */
  lemma AllowAllExcludesDisallowAll(grp: map<string, seq<string>>)
    ensures !(IsAllowAll(grp) && IsDisallowAll(grp))
  {
    if IsAllowAll(grp) && IsDisallowAll(grp) {
      var k1 :| k1 in grp && |grp[k1]| == 1 && RemoveSpace(grp[k1][0]) == AllowRoot;
      var k2 :| k2 in grp && |grp[k2]| == 1 && RemoveSpace(grp[k2][0]) == DisallowRoot;
      OnlyKey(grp, k1, k2);
    }
  }

  /** `isAllowAll` holds exactly of a map with a single key whose single directive trims to "allow:/". */
  lemma AllowAllIsSingleton(grp: map<string, seq<string>>)
    ensures IsAllowAll(grp) <==>
      exists k :: k in grp && grp.Keys == {k} && |grp[k]| == 1 && RemoveSpace(grp[k][0]) == AllowRoot
  {
    if IsAllowAll(grp) {
      var k :| k in grp && |grp[k]| == 1 && RemoveSpace(grp[k][0]) == AllowRoot;
      forall k2 | k2 in grp ensures k2 == k { OnlyKey(grp, k, k2); }
      assert grp.Keys == {k};
    }
  }

  /**
    On groups as the parser builds them (directives already trimmed), a
    shortcut holds exactly when there is a single group whose only
    directive is literally "allow:/" (or "disallow:/").
   */
  lemma ShortcutsOfParsedGroups(grp: map<string, seq<string>>)
    requires GroupsWellFormed(grp)
    ensures IsAllowAll(grp) <==> |grp| == 1 && forall k :: k in grp ==> grp[k] == [AllowRoot]
    ensures IsDisallowAll(grp) <==> |grp| == 1 && forall k :: k in grp ==> grp[k] == [DisallowRoot]
  {
    SingleDirective(grp, AllowRoot);
    SingleDirective(grp, DisallowRoot);
  }

  lemma SingleDirective(grp: map<string, seq<string>>, d: string)
    requires GroupsWellFormed(grp) && SpaceFree(d)
    ensures (|grp| == 1 && exists k :: k in grp && |grp[k]| == 1 && RemoveSpace(grp[k][0]) == d) <==>
      |grp| == 1 && forall k :: k in grp ==> grp[k] == [d]
  {
    if |grp| == 1 {
      assert grp.Keys != {};
      var k0 :| k0 in grp;
      if exists k :: k in grp && |grp[k]| == 1 && RemoveSpace(grp[k][0]) == d {
        var k :| k in grp && |grp[k]| == 1 && RemoveSpace(grp[k][0]) == d;
        RemoveSpaceOfSpaceFree(grp[k][0]);
        assert grp[k] == [grp[k][0]];
        forall k2 | k2 in grp ensures grp[k2] == [d] { OnlyKey(grp, k, k2); }
      }
      if forall k :: k in grp ==> grp[k] == [d] {
        RemoveSpaceOfSpaceFree(d);
        assert k0 in grp && |grp[k0]| == 1 && RemoveSpace(grp[k0][0]) == d;
      }
    }
  }

  // ------------------------------------------------------ the line-by-line scan

  /** The loop variables of `MakeBot`: `groups`, `key` and `status`. */
  datatype ScanState = ScanState(groups: map<string, seq<string>>, key: string, status: bool)

  const Start := ScanState(map[], "", false)

  /** `groups[key]` with Go's nil slice for a missing key. */
  function Lookup(m: map<string, seq<string>>, k: string): seq<string> {
    if k in m then m[k] else []
  }

  /** One scanned line of a 200 response. */
  function ScanLine(st: ScanState, line: string): ScanState {
    var txt := ToLower(line);
    if txt == "" then st
    else if HasPrefix(txt, UserAgent) then ScanState(st.groups, RemoveSpace(txt), true)
    else if st.status && st.key != "" then
      st.(groups := st.groups[st.key := Lookup(st.groups, st.key) + [RemoveSpace(txt)]])
    else st
  }

  /** The state after scanning `lines` from `st`, one line at a time. */
  function ScanFrom(st: ScanState, lines: seq<string>): ScanState
    decreases |lines|
  {
    if lines == [] then st
    else ScanLine(ScanFrom(st, lines[..|lines| - 1]), lines[|lines| - 1])
  }

  /** The group map `MakeBot` builds from the lines of a robots.txt body. */
  function ParseGroups(lines: seq<string>): map<string, seq<string>> {
    ScanFrom(Start, lines).groups
  }

  predicate ScanInvariant(st: ScanState) {
    GroupsWellFormed(st.groups) &&
    (st.status <==> st.key != "") &&
    (st.key != "" ==> HasPrefix(st.key, UserAgent) && Normalized(st.key))
  }

  lemma {:induction false} RemoveSpaceLowered(s: string)
    requires Lowered(s)
    ensures Lowered(RemoveSpace(s))
  {
    if s != [] {
      RemoveSpaceLowered(s[1..]);
    }
  }

  lemma NormalizedEntry(line: string)
    ensures Normalized(RemoveSpace(ToLower(line)))
  {
    RemoveSpaceLowered(ToLower(line));
    RemoveSpaceIsSpaceFree(ToLower(line));
  }

  lemma ScanLineKeepsInvariant(st: ScanState, line: string)
    requires ScanInvariant(st)
    ensures ScanInvariant(ScanLine(st, line))
  {
    var txt := ToLower(line);
    NormalizedEntry(line);
    if txt != "" && HasPrefix(txt, UserAgent) {
      RemoveSpaceKeepsPrefix(txt, UserAgent);
    }
  }

  lemma {:induction false} ScanFromKeepsInvariant(st: ScanState, lines: seq<string>)
    requires ScanInvariant(st)
    ensures ScanInvariant(ScanFrom(st, lines))
    decreases |lines|
  {
    if lines != [] {
      ScanFromKeepsInvariant(st, lines[..|lines| - 1]);
      ScanLineKeepsInvariant(ScanFrom(st, lines[..|lines| - 1]), lines[|lines| - 1]);
    }
  }

  /**
    Every key of a parsed group map starts with "user-agent:", every list is
    non-empty, and keys and directives are lower case with no white space.
   */
  lemma ParsedGroupsWellFormed(lines: seq<string>)
    ensures GroupsWellFormed(ParseGroups(lines))
  {
    ScanFromKeepsInvariant(Start, lines);
  }

  /** Scanning two blocks of lines is scanning the first, then the second. */
  lemma {:induction false} ScanFromAppend(st: ScanState, a: seq<string>, b: seq<string>)
    ensures ScanFrom(st, a + b) == ScanFrom(ScanFrom(st, a), b)
    decreases |b|
  {
    if b == [] {
      assert a + b == a;
    } else {
      assert (a + b)[..|a + b| - 1] == a + b[..|b| - 1];
      ScanFromAppend(st, a, b[..|b| - 1]);
    }
  }

  predicate IsAgentLine(line: string) {
    HasPrefix(ToLower(line), UserAgent)
  }

  lemma {:induction false} NoAgentLineKeepsStart(pre: seq<string>)
    requires forall i :: 0 <= i < |pre| ==> !IsAgentLine(pre[i])
    ensures ScanFrom(Start, pre) == Start
    decreases |pre|
  {
    if pre != [] {
      NoAgentLineKeepsStart(pre[..|pre| - 1]);
    }
  }

  /** Lines before the first user-agent line contribute nothing. */
  lemma LeadingLinesDropped(pre: seq<string>, rest: seq<string>)
    requires forall i :: 0 <= i < |pre| ==> !IsAgentLine(pre[i])
    ensures ParseGroups(pre + rest) == ParseGroups(rest)
  {
    ScanFromAppend(Start, pre, rest);
    NoAgentLineKeepsStart(pre);
  }

  /**
    A directive line appends its lower-cased, white-space-free text to the
    list of the current key (creating the list if needed), so two
    identical user-agent lines extend one and the same list.
   */
  lemma DirectiveAppends(lines: seq<string>, line: string)
    requires ToLower(line) != "" && !IsAgentLine(line)
    ensures var st := ScanFrom(Start, lines);
      ParseGroups(lines + [line]) ==
        if st.key == "" then ParseGroups(lines)
        else ParseGroups(lines)[st.key := Lookup(ParseGroups(lines), st.key) + [RemoveSpace(ToLower(line))]]
  {
    ScanFromKeepsInvariant(Start, lines);
    assert (lines + [line])[..|lines + [line]| - 1] == lines;
  }

  /** A user-agent line changes no group; it only selects the current key. */
  lemma AgentLineSelectsKey(lines: seq<string>, line: string)
    requires IsAgentLine(line)
    ensures ParseGroups(lines + [line]) == ParseGroups(lines)
    ensures ScanFrom(Start, lines + [line]).key == RemoveSpace(ToLower(line))
  {
    assert (lines + [line])[..|lines + [line]| - 1] == lines;
  }

  // ------------------------------------------------------------------ MakeBot

  /** The robot `MakeBot` returns for a response. */
  function Bot(res: Response, parse: Parser): (r: Robot)
    ensures r.RootURL == parse(TrimSuffix(res.RequestURL, RobotsFile))
    ensures !(r.FullAllow && r.FullDisallow)
    ensures WellFormed(r)
    ensures r.FullAllow <==> res.StatusCode > 500 || (res.StatusCode == 200 && IsAllowAll(r.Groups))
    ensures r.FullDisallow <==> res.StatusCode == 200 && IsDisallowAll(r.Groups)
    ensures r.Groups == if res.StatusCode == 200 then ParseGroups(res.Lines) else map[]
    ensures r.CrawDelay == if res.StatusCode > 500 || res.StatusCode == 200 then DefaultCrawlDelay else 0
  {
    var root := parse(TrimSuffix(res.RequestURL, RobotsFile));
    if res.StatusCode >= 400 && res.StatusCode > 500 then
      Robot(root, true, false, map[], DefaultCrawlDelay)
    else if res.StatusCode == 200 then
      var groups := ParseGroups(res.Lines);
      ParsedGroupsWellFormed(res.Lines);
      AllowAllExcludesDisallowAll(groups);
      Robot(root, IsAllowAll(groups), !IsAllowAll(groups) && IsDisallowAll(groups), groups, DefaultCrawlDelay)
    else
      Robot(root, false, false, map[], 0)
  }

  /** `MakeBot`: the status branches and the group-building loop. */
  method MakeBot(res: Response, parse: Parser) returns (robot: Robot)
    ensures robot == Bot(res, parse)
  {
    var root := parse(TrimSuffix(res.RequestURL, RobotsFile));
    if res.StatusCode >= 400 && res.StatusCode > 500 {
      robot := Robot(root, true, false, map[], DefaultCrawlDelay);
      return;
    } else if res.StatusCode == 200 {
      var lines := res.Lines;
      var groups: map<string, seq<string>> := map[];
      var key := "";
      var status := false;
      for i := 0 to |lines|
        invariant ScanState(groups, key, status) == ScanFrom(Start, lines[..i])
      {
        assert lines[..i + 1][..i] == lines[..i];
        var txt := ToLower(lines[i]);
        if txt == "" {
          continue;
        }
        if HasPrefix(txt, UserAgent) {
          key := TrimSpaces(txt);
          status := true;
          continue;
        }
        if status && key != "" {
          var entry := TrimSpaces(txt);
          groups := groups[key := Lookup(groups, key) + [entry]];
        }
      }
      assert lines[..|lines|] == lines;
      var fullAllow, fullDisallow := false, false;
      if IsAllowAll(groups) {
        fullAllow := true;
      } else if IsDisallowAll(groups) {
        fullDisallow := true;
      }
      robot := Robot(root, fullAllow, fullDisallow, groups, DefaultCrawlDelay);
      return;
    }
    robot := Robot(root, false, false, map[], 0);
  }

  // ------------------------------------------------------------------ examples

  lemma TwoLineGroup(agent: string, line: string)
    requires IsAgentLine(agent) && ToLower(line) != "" && !IsAgentLine(line)
    ensures ParseGroups([agent, line]) ==
      map[RemoveSpace(ToLower(agent)) := [RemoveSpace(ToLower(line))]]
  {
    var st0 := ScanFrom(Start, [agent][..0]);
    assert [agent][..0] == [];
    assert st0 == Start;
    var st1 := ScanFrom(Start, [agent]);
    assert st1 == ScanLine(st0, agent);
    assert st1 == ScanState(map[], RemoveSpace(ToLower(agent)), true);
    ScanFromKeepsInvariant(Start, [agent]);
    assert [agent, line][..1] == [agent];
    assert ScanFrom(Start, [agent, line]) == ScanLine(st1, line);
    assert RemoveSpace(ToLower(agent)) != "";
    assert Lookup(map[], RemoveSpace(ToLower(agent))) == [];
    var e := RemoveSpace(ToLower(line));
    assert ScanLine(st1, line).groups == map[][RemoveSpace(ToLower(agent)) := [] + [e]];
    assert [] + [e] == [e];
  }

  /** A directive that is not itself a user-agent line and trims to `d`. */
  predicate DirectiveLine(line: string, d: string) {
    !IsAgentLine(line) && RemoveSpace(ToLower(line)) == d
  }

  /** A body of one user-agent line and one line that trims to "disallow:/" gives a full-disallow robot. */
  lemma DisallowAllExample(agent: string, line: string, url: string, parse: Parser)
    requires IsAgentLine(agent) && DirectiveLine(line, DisallowRoot)
    ensures Bot(Response(200, [agent, line], url), parse).FullDisallow
  {
    assert ToLower(line) != "";
    TwoLineGroup(agent, line);
    var groups := ParseGroups([agent, line]);
    var key := RemoveSpace(ToLower(agent));
    assert groups[key] == [DisallowRoot];
    RemoveSpaceIdempotent(ToLower(line));
    assert RemoveSpace(groups[key][0]) == DisallowRoot;
  }

  /** A body of one user-agent line and one line that trims to "allow:/" gives a full-allow robot. */
  lemma AllowAllExample(agent: string, line: string, url: string, parse: Parser)
    requires IsAgentLine(agent) && DirectiveLine(line, AllowRoot)
    ensures Bot(Response(200, [agent, line], url), parse).FullAllow
  {
    assert ToLower(line) != "";
    TwoLineGroup(agent, line);
    var groups := ParseGroups([agent, line]);
    var key := RemoveSpace(ToLower(agent));
    assert groups[key] == [AllowRoot];
    RemoveSpaceIdempotent(ToLower(line));
    assert RemoveSpace(groups[key][0]) == AllowRoot;
  }

  /** "User-agent: *" is a user-agent line, and "Disallow:/" and "Allow:/" are the two root directives. */
  lemma ExampleLines()
    ensures IsAgentLine("User-agent: *")
    ensures ToLower("Disallow:/") == DisallowRoot && ToLower("Allow:/") == AllowRoot
  {
    assert ToLower("User-agent: *") == "user-agent: *";
    assert "user-agent: *"[..11] == UserAgent;
  }

  /** "Disallow:/" is a directive line for the rule "disallow:/". */
  lemma DisallowLine()
    ensures DirectiveLine("Disallow:/", DisallowRoot)
  {
    ExampleLines();
    RemoveSpaceOfSpaceFree(DisallowRoot);
  }

  /** "Allow:/" is a directive line for the rule "allow:/". */
  lemma AllowLine()
    ensures DirectiveLine("Allow:/", AllowRoot)
  {
    ExampleLines();
    RemoveSpaceOfSpaceFree(AllowRoot);
  }

  /** The two-line body "User-agent: *", "Disallow:/" with status 200 gives a full-disallow robot. */
  lemma LiteralDisallowAll(url: string, parse: Parser)
    ensures Bot(Response(200, ["User-agent: *", "Disallow:/"], url), parse).FullDisallow
  {
    ExampleLines();
    DisallowLine();
    DisallowAllExample("User-agent: *", "Disallow:/", url, parse);
  }

  /** The two-line body "User-agent: *", "Allow:/" with status 200 gives a full-allow robot. */
  lemma LiteralAllowAll(url: string, parse: Parser)
    ensures Bot(Response(200, ["User-agent: *", "Allow:/"], url), parse).FullAllow
  {
    ExampleLines();
    AllowLine();
    AllowAllExample("User-agent: *", "Allow:/", url, parse);
  }

  /** A 404 robots.txt, which the comment at the guard calls "no restrictions", gives no groups and no shortcut. */
  lemma NotFoundIsNotFullAllow(lines: seq<string>, url: string, parse: Parser)
    ensures var r := Bot(Response(404, lines, url), parse);
      !r.FullAllow && !r.FullDisallow && r.Groups == map[] && r.CrawDelay == 0
  {
  }
}
