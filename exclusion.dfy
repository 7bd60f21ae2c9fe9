/**
  The exclusion decision `robExcl` of fetch.go: whether a candidate URL may
  enter the frontier, judged against the "user-agent:*" group of every
  known robot. Directives are compared by exact URL string after their
  path has been resolved against the robot's root URL.
 */
module Exclusion {
  import opened Wrappers
  import opened Strings
  import opened Commands
  import opened Robots

  const Star := "user-agent:*"

  /** What `slice[0]` needs: a "user-agent:*" group, if present, is not empty. */
  predicate StarGroupNonEmpty(r: Robot) {
    Star in r.Groups ==> |r.Groups[Star]| > 0
  }

  lemma WellFormedHasStarEntry(r: Robot)
    requires WellFormed(r)
    ensures StarGroupNonEmpty(r)
  {
  }

  // ------------------------------------------------------------- the scans

  /** The result of scanning directives for one that names the candidate. */
  datatype Scan = ParseError | Match | NoMatch

  /**
    The inner loops of the two shortcut branches: each directive, with
    `strip` removed, is resolved against `root`; the first failure or the
    first equal URL string ends the scan.
   */
  function ScanEntries(entries: seq<string>, strip: string, root: Url, cand: Url, resolve: Resolver): Scan
  {
    if entries == [] then NoMatch
    else match resolve(TrimPrefix(entries[0], strip), root)
      case None => ParseError
      case Some(u) => if u.text == cand.text then Match else ScanEntries(entries[1..], strip, root, cand, resolve)
  }

  /** Directive `e`, stripped of `strip`, resolves to the candidate's URL string. */
  predicate Names(e: string, strip: string, root: Url, cand: Url, resolve: Resolver) {
    var u := resolve(TrimPrefix(e, strip), root);
    u.Some? && u.value.text == cand.text
  }

  /** Directive `e`, stripped of `strip`, resolves without error. */
  predicate Resolves(e: string, strip: string, root: Url, resolve: Resolver) {
    resolve(TrimPrefix(e, strip), root).Some?
  }

  /** Every directive before position `j` resolves without naming the candidate. */
  predicate Passes(entries: seq<string>, j: nat, strip: string, root: Url, cand: Url, resolve: Resolver)
    requires j <= |entries|
  {
    forall i :: 0 <= i < j ==> Resolves(entries[i], strip, root, resolve) && !Names(entries[i], strip, root, cand, resolve)
  }

  /** Passing the first `j + 1` directives is passing the first and then `j` of the rest. */
  lemma PassesShift(entries: seq<string>, j: nat, strip: string, root: Url, cand: Url, resolve: Resolver)
    requires j < |entries|
    ensures Passes(entries, j + 1, strip, root, cand, resolve) <==>
      Resolves(entries[0], strip, root, resolve) && !Names(entries[0], strip, root, cand, resolve) &&
      Passes(entries[1..], j, strip, root, cand, resolve)
  {
    if Resolves(entries[0], strip, root, resolve) && !Names(entries[0], strip, root, cand, resolve) &&
       Passes(entries[1..], j, strip, root, cand, resolve) {
      forall i | 0 < i < j + 1
        ensures Resolves(entries[i], strip, root, resolve) && !Names(entries[i], strip, root, cand, resolve)
      {
        assert entries[i] == entries[1..][i - 1];
      }
    }
    if Passes(entries, j + 1, strip, root, cand, resolve) {
      forall i | 0 <= i < j
        ensures Resolves(entries[1..][i], strip, root, resolve) && !Names(entries[1..][i], strip, root, cand, resolve)
      {
        assert entries[1..][i] == entries[i + 1];
      }
    }
  }

  /**
    A scan matches exactly when some directive names the candidate and every
    directive before it passes; it fails exactly when some directive does
    not resolve and every one before it passes; it finds nothing exactly
    when all directives pass.
   */
  lemma {:induction false} ScanEntriesMeaning(entries: seq<string>, strip: string, root: Url, cand: Url, resolve: Resolver)
    ensures ScanEntries(entries, strip, root, cand, resolve) == Match <==>
      exists j :: 0 <= j < |entries| && Names(entries[j], strip, root, cand, resolve) && Passes(entries, j, strip, root, cand, resolve)
    ensures ScanEntries(entries, strip, root, cand, resolve) == ParseError <==>
      exists j :: 0 <= j < |entries| && !Resolves(entries[j], strip, root, resolve) && Passes(entries, j, strip, root, cand, resolve)
    ensures ScanEntries(entries, strip, root, cand, resolve) == NoMatch <==>
      Passes(entries, |entries|, strip, root, cand, resolve)
  {
    if entries != [] {
      var rest := entries[1..];
      ScanEntriesMeaning(rest, strip, root, cand, resolve);
      var ok := Resolves(entries[0], strip, root, resolve) && !Names(entries[0], strip, root, cand, resolve);
      // a witness `j` for `entries` is a witness `j - 1` for `rest`, and back
      forall j | 0 <= j < |rest| ensures Passes(entries, j + 1, strip, root, cand, resolve) <==> ok && Passes(rest, j, strip, root, cand, resolve) {
        PassesShift(entries, j, strip, root, cand, resolve);
      }
      forall j | 0 <= j < |rest| ensures entries[j + 1] == rest[j] { }
      PassesShift(entries, |rest|, strip, root, cand, resolve);
      if ok {
        assert ScanEntries(entries, strip, root, cand, resolve) == ScanEntries(rest, strip, root, cand, resolve);
        if ScanEntries(rest, strip, root, cand, resolve) == Match {
          var j :| 0 <= j < |rest| && Names(rest[j], strip, root, cand, resolve) && Passes(rest, j, strip, root, cand, resolve);
          assert Names(entries[j + 1], strip, root, cand, resolve) && Passes(entries, j + 1, strip, root, cand, resolve);
        } else if ScanEntries(rest, strip, root, cand, resolve) == ParseError {
          var j :| 0 <= j < |rest| && !Resolves(rest[j], strip, root, resolve) && Passes(rest, j, strip, root, cand, resolve);
          assert !Resolves(entries[j + 1], strip, root, resolve) && Passes(entries, j + 1, strip, root, cand, resolve);
        }
      } else {
        assert Passes(entries, 0, strip, root, cand, resolve);
      }
    }
  }

  // ------------------------------------------------------------ the decision

  /**
    The decision so far: an early `return` of `robExcl`, or the two flags
    `rootExcl` and `state` it carries from robot to robot.
   */
  datatype Verdict = Decided(permit: bool) | Pending(rootExcl: bool, state: bool)

  /**
    The fallback loop, run while no robot has taken a shortcut branch: the
    first "disallow:/" directive naming the candidate refuses it, the first
    "allow:/" one admits it. The allow case strips "disallow:/", which leaves
    the directive whole. Any resolution error refuses.
   */
  function Fallback(entries: seq<string>, root: Url, cand: Url, resolve: Resolver): Verdict
  {
    if entries == [] then Pending(true, false)
    else
      var e := entries[0];
      if HasPrefix(e, DisallowRoot) then
        match resolve(TrimPrefix(e, DisallowRoot), root)
        case None => Decided(false)
        case Some(u) => if u.text == cand.text then Decided(false) else Fallback(entries[1..], root, cand, resolve)
      else if HasPrefix(e, AllowRoot) then
        match resolve(TrimPrefix(e, DisallowRoot), root)
        case None => Decided(false)
        case Some(u) => if u.text == cand.text then Decided(true) else Fallback(entries[1..], root, cand, resolve)
      else Fallback(entries[1..], root, cand, resolve)
  }

  /** What one robot does to the pending flags. */
  function RobotStep(rob: Robot, rootExcl: bool, state: bool, cand: Url, resolve: Resolver): Verdict
    requires StarGroupNonEmpty(rob)
  {
    if Star !in rob.Groups then Pending(rootExcl, state)
    else
      var slice := rob.Groups[Star];
      var v :=
        if slice[0] == DisallowRoot then
          match ScanEntries(slice[1..], AllowRoot, rob.RootURL, cand, resolve)
          case ParseError => Decided(false)
          case Match => Decided(true)
          case NoMatch => Pending(false, true)
        else if slice[0] == AllowRoot then
          match ScanEntries(slice, DisallowRoot, rob.RootURL, cand, resolve)
          case ParseError => Decided(false)
          case Match => Decided(false)
          case NoMatch => Pending(true, true)
        else Pending(rootExcl, state);
      if v.Decided? || v.state then v
      else Fallback(slice, rob.RootURL, cand, resolve)
  }

  /** The robots `info`, visited in order from the pending verdict `v`. */
  function Run(info: seq<Robot>, v: Verdict, cand: Url, resolve: Resolver): Verdict
    requires forall r :: r in info ==> StarGroupNonEmpty(r)
  {
    if info == [] || v.Decided? then v
    else Run(info[1..], RobotStep(info[0], v.rootExcl, v.state, cand, resolve), cand, resolve)
  }

  /** `robExcl(cmd, info)`: true when the candidate may be queued. */
  function RobExcl(cand: Url, info: seq<Robot>, resolve: Resolver): bool
    requires forall r :: r in info ==> StarGroupNonEmpty(r)
  {
    match Run(info, Pending(false, false), cand, resolve)
    case Decided(b) => b
    case Pending(rootExcl, _) => rootExcl
  }

  /** `robExcl`: the loop over the robots, its three branches and their early returns. */
  method RobExclCheck(cmd: Cmd, info: seq<Robot>, resolve: Resolver) returns (ok: bool)
    requires forall r :: r in info ==> StarGroupNonEmpty(r)
    ensures ok == RobExcl(cmd.U, info, resolve)
  {
    var cand := cmd.U;
    var rootExcl := false;
    var state := false;
    for k := 0 to |info|
      invariant Run(info, Pending(false, false), cand, resolve) == Run(info[k..], Pending(rootExcl, state), cand, resolve)
    {
      var rob := info[k];
      assert info[k..][1..] == info[k + 1..];
      ghost var step := RobotStep(rob, rootExcl, state, cand, resolve);
      assert Run(info[k..], Pending(rootExcl, state), cand, resolve) == Run(info[k + 1..], step, cand, resolve);
      if Star in rob.Groups {
        var slice := rob.Groups[Star];
        if slice[0] == DisallowRoot {
          rootExcl := false;
          state := true;
          for num := 1 to |slice|
            invariant ScanEntries(slice[1..], AllowRoot, rob.RootURL, cand, resolve)
                   == ScanEntries(slice[num..], AllowRoot, rob.RootURL, cand, resolve)
          {
            assert slice[num..][1..] == slice[num + 1..];
            var trim := TrimPrefix(slice[num], AllowRoot);
            var exclu := resolve(trim, rob.RootURL);
            if exclu.None? {
              return false;
            }
            if cand.text == exclu.value.text {
              return true;
            }
          }
        } else if slice[0] == AllowRoot {
          rootExcl := true;
          state := true;
          for num := 0 to |slice|
            invariant ScanEntries(slice, DisallowRoot, rob.RootURL, cand, resolve)
                   == ScanEntries(slice[num..], DisallowRoot, rob.RootURL, cand, resolve)
          {
            assert slice[num..][1..] == slice[num + 1..];
            var trim := TrimPrefix(slice[num], DisallowRoot);
            var exclu := resolve(trim, rob.RootURL);
            if exclu.None? {
              return false;
            }
            if cand.text == exclu.value.text {
              return false;
            }
          }
        }
        if !state {
          for num := 0 to |slice|
            invariant Fallback(slice, rob.RootURL, cand, resolve) == Fallback(slice[num..], rob.RootURL, cand, resolve)
            invariant num > 0 ==> rootExcl
            invariant !state
          {
            assert slice[num..][1..] == slice[num + 1..];
            var pro := slice[num];
            rootExcl := true;
            if HasPrefix(pro, DisallowRoot) {
              var trim := TrimPrefix(pro, DisallowRoot);
              var exclu := resolve(trim, rob.RootURL);
              if exclu.None? {
                return false;
              }
              if cand.text == exclu.value.text {
                return false;
              }
            } else if HasPrefix(pro, AllowRoot) {
              var trim := TrimPrefix(pro, DisallowRoot);
              var exclu := resolve(trim, rob.RootURL);
              if exclu.None? {
                return false;
              }
              if cand.text == exclu.value.text {
                return true;
              }
            }
          }
        }
      }
    }
    ok := rootExcl;
  }

  // ---------------------------------------------------------- properties

  /** Robots are consulted in order: a run over `a + b` is a run over `a`, then over `b`. */
  lemma {:induction false} RunAppend(a: seq<Robot>, b: seq<Robot>, v: Verdict, cand: Url, resolve: Resolver)
    requires forall r :: r in a + b ==> StarGroupNonEmpty(r)
    ensures forall r :: r in a ==> StarGroupNonEmpty(r)
    ensures forall r :: r in b ==> StarGroupNonEmpty(r)
    ensures Run(a + b, v, cand, resolve) == Run(b, Run(a, v, cand, resolve), cand, resolve)
  {
    assert forall r :: r in a ==> r in a + b;
    assert forall r :: r in b ==> r in a + b;
    if a == [] {
      assert a + b == b;
    } else if v.Pending? {
      assert (a + b)[1..] == a[1..] + b;
      assert (a + b)[0] == a[0];
      RunAppend(a[1..], b, RobotStep(a[0], v.rootExcl, v.state, cand, resolve), cand, resolve);
    }
  }

  /** Once some robot decides, the robots after it are never consulted. */
  lemma FirstDecisionWins(info: seq<Robot>, k: nat, cand: Url, resolve: Resolver)
    requires forall r :: r in info ==> StarGroupNonEmpty(r)
    requires k <= |info|
    requires forall r :: r in info[..k] ==> StarGroupNonEmpty(r)
    requires Run(info[..k], Pending(false, false), cand, resolve).Decided?
    ensures RobExcl(cand, info, resolve) == Run(info[..k], Pending(false, false), cand, resolve).permit
  {
    assert info == info[..k] + info[k..];
    RunAppend(info[..k], info[k..], Pending(false, false), cand, resolve);
  }

  /** Robots without a "user-agent:*" group leave the flags as they are. */
  lemma {:induction false} RunWithoutStarGroups(info: seq<Robot>, rootExcl: bool, state: bool, cand: Url, resolve: Resolver)
    requires forall r :: r in info ==> Star !in r.Groups
    ensures Run(info, Pending(rootExcl, state), cand, resolve) == Pending(rootExcl, state)
  {
    if info != [] {
      assert info[0] in info;
      assert forall r :: r in info[1..] ==> r in info;
      RunWithoutStarGroups(info[1..], rootExcl, state, cand, resolve);
    }
  }

  /** With no "user-agent:*" group anywhere, every candidate is refused. */
  lemma RefusedWithoutStarGroups(info: seq<Robot>, cand: Url, resolve: Resolver)
    requires forall r :: r in info ==> Star !in r.Groups
    ensures !RobExcl(cand, info, resolve)
  {
    RunWithoutStarGroups(info, false, false, cand, resolve);
  }

  /** The verdict of a single robot is the verdict of its step. */
  lemma SingleRobot(rob: Robot, cand: Url, resolve: Resolver)
    requires StarGroupNonEmpty(rob)
    ensures RobExcl(cand, [rob], resolve) ==
      match RobotStep(rob, false, false, cand, resolve)
      case Decided(b) => b
      case Pending(rootExcl, _) => rootExcl
  {
    var step := RobotStep(rob, false, false, cand, resolve);
    assert [rob][1..] == [];
    assert Run([rob], Pending(false, false), cand, resolve) == Run([], step, cand, resolve);
  }

  /**
    Under "disallow:/" first, a single robot admits the candidate exactly when
    some later "allow:" directive names it and every directive before that one
    resolves without naming it.
   */
  lemma DisallowRootAdmitsOnlyAllowed(rob: Robot, cand: Url, resolve: Resolver)
    requires Star in rob.Groups && |rob.Groups[Star]| > 0
    requires rob.Groups[Star][0] == DisallowRoot
    ensures var rest := rob.Groups[Star][1..];
      RobExcl(cand, [rob], resolve) <==>
        exists j :: 0 <= j < |rest| && Names(rest[j], AllowRoot, rob.RootURL, cand, resolve) &&
          Passes(rest, j, AllowRoot, rob.RootURL, cand, resolve)
  {
    SingleRobot(rob, cand, resolve);
    ScanEntriesMeaning(rob.Groups[Star][1..], AllowRoot, rob.RootURL, cand, resolve);
  }

  /**
    Under "allow:/" first, a single robot admits the candidate exactly when
    every directive resolves and none of them names it.
   */
  lemma AllowRootRefusesOnlyDisallowed(rob: Robot, cand: Url, resolve: Resolver)
    requires Star in rob.Groups && |rob.Groups[Star]| > 0
    requires rob.Groups[Star][0] == AllowRoot
    ensures var slice := rob.Groups[Star];
      RobExcl(cand, [rob], resolve) <==>
        Passes(slice, |slice|, DisallowRoot, rob.RootURL, cand, resolve)
  {
    SingleRobot(rob, cand, resolve);
    ScanEntriesMeaning(rob.Groups[Star], DisallowRoot, rob.RootURL, cand, resolve);
  }

  /** A directive the fallback loop acts on. */
  predicate Rule(e: string) {
    HasPrefix(e, DisallowRoot) || HasPrefix(e, AllowRoot)
  }

  /** The fallback loop admits when no rule fails to resolve or names the candidate. */
  lemma {:induction false} FallbackDefaultAdmits(entries: seq<string>, root: Url, cand: Url, resolve: Resolver)
    requires forall i :: 0 <= i < |entries| && Rule(entries[i]) ==>
      Resolves(entries[i], DisallowRoot, root, resolve) && !Names(entries[i], DisallowRoot, root, cand, resolve)
    ensures Fallback(entries, root, cand, resolve) == Pending(true, false)
  {
    if entries != [] {
      assert forall i :: 0 <= i < |entries[1..]| ==> entries[1..][i] == entries[i + 1];
      FallbackDefaultAdmits(entries[1..], root, cand, resolve);
    }
  }

  /**
    In the fallback loop a "disallow:/" rule that names the candidate, with
    every rule before it resolving and naming something else, refuses it.
   */
  lemma {:induction false} FallbackDisallowRefuses(entries: seq<string>, j: nat, root: Url, cand: Url, resolve: Resolver)
    requires j < |entries| && HasPrefix(entries[j], DisallowRoot)
    requires Names(entries[j], DisallowRoot, root, cand, resolve)
    requires forall i :: 0 <= i < j && Rule(entries[i]) ==>
      Resolves(entries[i], DisallowRoot, root, resolve) && !Names(entries[i], DisallowRoot, root, cand, resolve)
    ensures Fallback(entries, root, cand, resolve) == Decided(false)
  {
    if j > 0 {
      assert forall i :: 0 <= i < |entries[1..]| ==> entries[1..][i] == entries[i + 1];
      FallbackDisallowRefuses(entries[1..], j - 1, root, cand, resolve);
    }
  }

  /**
    A directive on which the fallback loop refuses: a rule that does not
    resolve, or a "disallow:/" rule that names the candidate.
   */
  predicate RefusesAt(e: string, root: Url, cand: Url, resolve: Resolver) {
    Rule(e) &&
    (!Resolves(e, DisallowRoot, root, resolve) ||
     (HasPrefix(e, DisallowRoot) && Names(e, DisallowRoot, root, cand, resolve)))
  }

  /** A directive on which the fallback loop admits: an "allow:/" rule, resolved whole, naming the candidate. */
  predicate AdmitsAt(e: string, root: Url, cand: Url, resolve: Resolver) {
    HasPrefix(e, AllowRoot) && Names(e, DisallowRoot, root, cand, resolve)
  }

  /** Every directive before position `j` lets the fallback loop go on. */
  predicate FallbackPasses(entries: seq<string>, j: nat, root: Url, cand: Url, resolve: Resolver)
    requires j <= |entries|
  {
    forall i :: 0 <= i < j ==> !RefusesAt(entries[i], root, cand, resolve) && !AdmitsAt(entries[i], root, cand, resolve)
  }

  /** One directive of the fallback loop: it refuses, admits, or lets the loop go on. */
  lemma FallbackHead(entries: seq<string>, root: Url, cand: Url, resolve: Resolver)
    requires entries != []
    ensures !(RefusesAt(entries[0], root, cand, resolve) && AdmitsAt(entries[0], root, cand, resolve))
    ensures RefusesAt(entries[0], root, cand, resolve) ==> Fallback(entries, root, cand, resolve) == Decided(false)
    ensures AdmitsAt(entries[0], root, cand, resolve) ==> Fallback(entries, root, cand, resolve) == Decided(true)
    ensures !RefusesAt(entries[0], root, cand, resolve) && !AdmitsAt(entries[0], root, cand, resolve) ==>
      Fallback(entries, root, cand, resolve) == Fallback(entries[1..], root, cand, resolve)
  {
    var e := entries[0];
    if HasPrefix(e, AllowRoot) {
      assert e[0] == AllowRoot[0] == 'a';
      assert !HasPrefix(e, DisallowRoot);
    }
  }

  /** Passing the first `j + 1` directives is passing the first and then `j` of the rest. */
  lemma FallbackPassesShift(entries: seq<string>, j: nat, root: Url, cand: Url, resolve: Resolver)
    requires j < |entries|
    ensures FallbackPasses(entries, j + 1, root, cand, resolve) <==>
      !RefusesAt(entries[0], root, cand, resolve) && !AdmitsAt(entries[0], root, cand, resolve) &&
      FallbackPasses(entries[1..], j, root, cand, resolve)
  {
    if FallbackPasses(entries, j + 1, root, cand, resolve) {
      forall i | 0 <= i < j
        ensures !RefusesAt(entries[1..][i], root, cand, resolve) && !AdmitsAt(entries[1..][i], root, cand, resolve)
      {
        assert entries[1..][i] == entries[i + 1];
      }
    }
    if !RefusesAt(entries[0], root, cand, resolve) && !AdmitsAt(entries[0], root, cand, resolve) &&
       FallbackPasses(entries[1..], j, root, cand, resolve) {
      forall i | 0 < i < j + 1
        ensures !RefusesAt(entries[i], root, cand, resolve) && !AdmitsAt(entries[i], root, cand, resolve)
      {
        assert entries[i] == entries[1..][i - 1];
      }
    }
  }

  /**
    The fallback loop refuses exactly when the first directive that stops it
    refuses (a rule that does not resolve, or a "disallow:/" rule naming the
    candidate); it admits exactly when that directive is an "allow:/" rule
    naming the candidate; it ends undecided, with the default true, exactly
    when no directive stops it.
   */
  lemma {:induction false} FallbackMeaning(entries: seq<string>, root: Url, cand: Url, resolve: Resolver)
    ensures Fallback(entries, root, cand, resolve) == Decided(false) <==>
      exists j :: 0 <= j < |entries| && RefusesAt(entries[j], root, cand, resolve) && FallbackPasses(entries, j, root, cand, resolve)
    ensures Fallback(entries, root, cand, resolve) == Decided(true) <==>
      exists j :: 0 <= j < |entries| && AdmitsAt(entries[j], root, cand, resolve) && FallbackPasses(entries, j, root, cand, resolve)
    ensures Fallback(entries, root, cand, resolve).Pending? <==> FallbackPasses(entries, |entries|, root, cand, resolve)
    ensures Fallback(entries, root, cand, resolve).Pending? ==> Fallback(entries, root, cand, resolve) == Pending(true, false)
  {
    if entries != [] {
      var rest := entries[1..];
      FallbackMeaning(rest, root, cand, resolve);
      FallbackHead(entries, root, cand, resolve);
      var go := !RefusesAt(entries[0], root, cand, resolve) && !AdmitsAt(entries[0], root, cand, resolve);
      forall j | 0 <= j < |rest|
        ensures FallbackPasses(entries, j + 1, root, cand, resolve) <==> go && FallbackPasses(rest, j, root, cand, resolve)
      {
        FallbackPassesShift(entries, j, root, cand, resolve);
      }
      forall j | 0 <= j < |rest| ensures entries[j + 1] == rest[j] { }
      FallbackPassesShift(entries, |rest|, root, cand, resolve);
      assert FallbackPasses(entries, 0, root, cand, resolve);
      if go {
        var v := Fallback(rest, root, cand, resolve);
        if v == Decided(false) {
          var j :| 0 <= j < |rest| && RefusesAt(rest[j], root, cand, resolve) && FallbackPasses(rest, j, root, cand, resolve);
          assert RefusesAt(entries[j + 1], root, cand, resolve) && FallbackPasses(entries, j + 1, root, cand, resolve);
        } else if v == Decided(true) {
          var j :| 0 <= j < |rest| && AdmitsAt(rest[j], root, cand, resolve) && FallbackPasses(rest, j, root, cand, resolve);
          assert AdmitsAt(entries[j + 1], root, cand, resolve) && FallbackPasses(entries, j + 1, root, cand, resolve);
        }
      }
    }
  }

  /**
    In the fallback loop an "allow:/" rule is resolved whole, prefix included:
    with the rules "allow:/pub" then "disallow:/pub", the URL that "pub"
    resolves to is refused, because the allow rule was resolved as the
    reference "allow:/pub" and named another URL.
   */
  lemma FallbackAllowResolvesWhole(rob: Robot, cand: Url, resolve: Resolver)
    requires Star in rob.Groups && rob.Groups[Star] == ["allow:/pub", "disallow:/pub"]
    requires var u := resolve("allow:/pub", rob.RootURL); u.Some? && u.value.text != cand.text
    requires var u := resolve("pub", rob.RootURL); u.Some? && u.value.text == cand.text
    ensures !RobExcl(cand, [rob], resolve)
  {
    var a, d := "allow:/pub", "disallow:/pub";
    assert a != DisallowRoot && a != AllowRoot;
    assert !HasPrefix(a, DisallowRoot) && HasPrefix(a, AllowRoot);
    assert TrimPrefix(a, DisallowRoot) == a;
    assert HasPrefix(d, DisallowRoot);
    assert TrimPrefix(d, DisallowRoot) == "pub";
    var slice := rob.Groups[Star];
    assert slice[1..][1..] == [];
    FallbackDisallowRefuses(slice, 1, rob.RootURL, cand, resolve);
    SingleRobot(rob, cand, resolve);
  }

  /**
    The defaults a robot leaves when it decides nothing: false after a
    "disallow:/" group, true after an "allow:/" group, true after the
    fallback scan, and the incoming flags when a shortcut was taken before.
   */
  lemma RobotStepDefaults(rob: Robot, rootExcl: bool, state: bool, cand: Url, resolve: Resolver)
    requires Star in rob.Groups && |rob.Groups[Star]| > 0
    ensures var v := RobotStep(rob, rootExcl, state, cand, resolve);
      var first := rob.Groups[Star][0];
      v.Pending? ==>
        (first == DisallowRoot ==> v == Pending(false, true)) &&
        (first == AllowRoot ==> v == Pending(true, true)) &&
        (first != DisallowRoot && first != AllowRoot ==> v == (if state then Pending(rootExcl, true) else Pending(true, false)))
    ensures var first := rob.Groups[Star][0];
      state && first != DisallowRoot && first != AllowRoot ==> RobotStep(rob, rootExcl, state, cand, resolve) == Pending(rootExcl, true)
  {
    var slice := rob.Groups[Star];
    if slice[0] != DisallowRoot && slice[0] != AllowRoot && !state {
      FallbackEndsAdmitting(slice, rob.RootURL, cand, resolve);
    }
  }

  /** A fallback scan that decides nothing ends with the default set to true. */
  lemma {:induction false} FallbackEndsAdmitting(entries: seq<string>, root: Url, cand: Url, resolve: Resolver)
    ensures Fallback(entries, root, cand, resolve).Pending? ==> Fallback(entries, root, cand, resolve) == Pending(true, false)
  {
    if entries != [] {
      FallbackEndsAdmitting(entries[1..], root, cand, resolve);
    }
  }

  /** A "disallow:/" group with a later "allow:/pub" admits the URL that "pub" resolves to. */
  lemma DisallowRootExample(rob: Robot, cand: Url, resolve: Resolver)
    requires Star in rob.Groups && rob.Groups[Star] == ["disallow:/", "allow:/pub"]
    requires var u := resolve("pub", rob.RootURL); u.Some? && u.value.text == cand.text
    ensures RobExcl(cand, [rob], resolve)
  {
    var rest := rob.Groups[Star][1..];
    assert rest == ["allow:/pub"];
    assert TrimPrefix("allow:/pub", AllowRoot) == "pub";
    assert Names(rest[0], AllowRoot, rob.RootURL, cand, resolve);
    DisallowRootAdmitsOnlyAllowed(rob, cand, resolve);
  }

  /** An "allow:/" group with a later "disallow:/pub" refuses the URL that "pub" resolves to. */
  lemma AllowRootExample(rob: Robot, cand: Url, resolve: Resolver)
    requires Star in rob.Groups && rob.Groups[Star] == ["allow:/", "disallow:/pub"]
    requires var u := resolve("pub", rob.RootURL); u.Some? && u.value.text == cand.text
    ensures !RobExcl(cand, [rob], resolve)
  {
    var slice := rob.Groups[Star];
    assert TrimPrefix("disallow:/pub", DisallowRoot) == "pub";
    assert Names(slice[1], DisallowRoot, rob.RootURL, cand, resolve);
    AllowRootRefusesOnlyDisallowed(rob, cand, resolve);
  }
}
