/**
 * Translation of a tracee's paths into host paths, following the absolute symlinks that the kernel
 * would resolve in the wrong root.
 */
module PathResolution {
  import opened Wrappers

  datatype PathAction = NoAction | Override(path: string) | HidePath | Eloop

  datatype Rule = NoRule | Hide | Replace(path: string)

  /**
   * What resolution depends on: the absolute symlinks on disk, the root to be prefixed, the excluded
   * paths, the configured renaming rules, links into the metadata directory, and the tracee's pid.
   */
  datatype Host = Host(
    links: map<string, string>,
    prefix: Option<string>,
    excluded: string -> bool,
    rule: string -> Rule,
    isFake: string -> bool,
    pid: string,
    follow: bool)

  // ---- /proc/self ----

  const SELF: string := "/proc/self"

  predicate IsPid(pid: string) {
    pid != [] && forall i :: 0 <= i < |pid| ==> '0' <= pid[i] <= '9'
  }

  predicate StartsWith(s: string, w: string) {
    |w| <= |s| && s[..|w|] == w
  }

  predicate Mentions(s: string) {
    StartsWith(s, SELF) || (s != [] && Mentions(s[1..]))
  }

  /** Every occurrence from left to right becomes the directory of the tracee itself. */
  function Replaced(s: string, pid: string): string
    decreases |s|
  {
    if StartsWith(s, SELF) then "/proc/" + pid + Replaced(s[|SELF|..], pid)
    else if s == [] then []
    else [s[0]] + Replaced(s[1..], pid)
  }

  lemma {:induction false} Differs(s: string, w: string, j: nat)
    requires j < |w| && (j < |s| ==> s[j] != w[j])
    ensures !StartsWith(s, w)
  {
    if |w| <= |s| {
      assert s[..|w|][j] == s[j];
    }
  }

  lemma {:induction false} StartsWithTail(s: string, w: string)
    requires s != [] && w != [] && s[0] == w[0]
    ensures StartsWith(s, w) <==> StartsWith(s[1..], w[1..])
  {
    if |w| <= |s| {
      assert s[..|w|] == [s[0]] + s[1..][..|w| - 1];
      assert w == [w[0]] + w[1..];
    }
  }

  /** Replacing does not bring a proper suffix of "/proc/self" to the front. */
  lemma {:induction false} NoNewSuffix(s: string, pid: string, i: nat)
    requires IsPid(pid) && 0 < i < |SELF|
    requires !StartsWith(s, SELF[i..])
    ensures !StartsWith(Replaced(s, pid), SELF[i..])
    decreases |SELF| - i
  {
    var r := Replaced(s, pid);
    var w := SELF[i..];
    assert w[1..] == SELF[i + 1..];
    if StartsWith(s, SELF) {
      Differs(r, w, if i == 5 then 1 else 0);
    } else if s == [] {
      Differs(r, w, 0);
    } else {
      assert r[0] == s[0] && r[1..] == Replaced(s[1..], pid);
      if s[0] != w[0] {
        Differs(r, w, 0);
      } else {
        StartsWithTail(s, w);
        StartsWithTail(r, w);
        assert i + 1 < |SELF|;
        NoNewSuffix(s[1..], pid, i + 1);
      }
    }
  }

  lemma {:induction false} SkipDirectory(pid: string, rest: string, k: nat)
    requires IsPid(pid) && !Mentions(rest) && k <= |"/proc/" + pid|
    ensures !Mentions(("/proc/" + pid)[k..] + rest)
    decreases |"/proc/" + pid| - k
  {
    var d := "/proc/" + pid;
    var s := d[k..] + rest;
    if k < |d| {
      SkipDirectory(pid, rest, k + 1);
      assert s[1..] == d[k + 1..] + rest;
      assert forall i :: 0 <= i < |d| - k ==> s[i] == d[k + i];
      Differs(s, SELF, if k == 0 then 6 else if k == 5 then 1 else 0);
    } else {
      assert s == rest;
    }
  }

  /** One replacement is enough: no new mention appears. */
  lemma {:induction false} ReplacedMentionsNothing(s: string, pid: string)
    requires IsPid(pid)
    ensures !Mentions(Replaced(s, pid))
    decreases |s|
  {
    if StartsWith(s, SELF) {
      var rest := Replaced(s[|SELF|..], pid);
      ReplacedMentionsNothing(s[|SELF|..], pid);
      SkipDirectory(pid, rest, 0);
      assert ("/proc/" + pid)[0..] + rest == Replaced(s, pid);
    } else if s != [] {
      ReplacedMentionsNothing(s[1..], pid);
      var r := Replaced(s, pid);
      assert r[0] == s[0] && r[1..] == Replaced(s[1..], pid);
      if s[0] != '/' {
        Differs(r, SELF, 0);
      } else {
        StartsWithTail(s, SELF);
        StartsWithTail(r, SELF);
        NoNewSuffix(s[1..], pid, 1);
      }
    }
  }

  /** A directory in the middle is found at its place: it has no border in which it could overlap with itself. */
  lemma {:induction false} NoEarlierMatch(a: string, b: string)
    requires a != [] && !Mentions(a)
    ensures !StartsWith(a + SELF + b, SELF)
  {
    var s := a + SELF + b;
    if |a| >= |SELF| {
      assert s[..|SELF|] == a[..|SELF|];
    } else {
      var k := |a|;
      assert s[k] == '/' && s[k + 1] == 'p';
      Differs(s, SELF, if k == 5 then 6 else k);
    }
  }

  lemma {:induction false} ReplacedFirst(a: string, b: string, pid: string)
    requires !Mentions(a)
    ensures Replaced(a + SELF + b, pid) == a + ("/proc/" + pid + Replaced(b, pid))
  {
    var s, later := a + SELF + b, "/proc/" + pid + Replaced(b, pid);
    if a == [] {
      assert s == SELF + b && a + later == later;
      ReplacedHere(b, pid);
    } else {
      NoEarlierMatch(a, b);
      assert s[0] == a[0] && s[1..] == a[1..] + SELF + b;
      ReplacedFirst(a[1..], b, pid);
      assert [a[0]] + (a[1..] + later) == a + later;
    }
  }

  lemma {:induction false} ReplacedHere(b: string, pid: string)
    ensures Replaced(SELF + b, pid) == "/proc/" + pid + Replaced(b, pid)
  {
    var s := SELF + b;
    assert s[..|SELF|] == SELF && s[|SELF|..] == b;
  }

  lemma {:induction false} ReplacedNothing(s: string, pid: string)
    requires !Mentions(s)
    ensures Replaced(s, pid) == s
  {
    if s != [] {
      ReplacedNothing(s[1..], pid);
    }
  }

  /** The parts of a string with a directory between each two of them. */
  function Joined(parts: seq<string>, directory: string): string
    requires parts != []
  {
    if |parts| == 1 then parts[0] else parts[0] + directory + Joined(parts[1..], directory)
  }

  /** Between the mentions everything is kept, and each of them becomes the tracee's own directory. */
  lemma {:induction false} ReplacedEverywhere(parts: seq<string>, pid: string)
    requires parts != [] && forall i :: 0 <= i < |parts| ==> !Mentions(parts[i])
    ensures Replaced(Joined(parts, SELF), pid) == Joined(parts, "/proc/" + pid)
  {
    if |parts| == 1 {
      ReplacedNothing(parts[0], pid);
    } else {
      var rest := parts[1..];
      ReplacedFirst(parts[0], Joined(rest, SELF), pid);
      ReplacedEverywhere(rest, pid);
      var d, later := "/proc/" + pid, Joined(rest, "/proc/" + pid);
      assert parts[0] + (d + later) == parts[0] + d + later;
    }
  }

  // ---- Translation ----

  /** Prefixing the root, then the renaming rules on whatever path that gives. */
  function Simple(h: Host, path: string): (a: PathAction)
    ensures !a.Eloop?
  {
    var prefixed :=
      if !h.excluded(path) && h.prefix.Some? && StartsWith(path, "/") then Override(h.prefix.value + path)
      else NoAction;
    match h.rule(if prefixed.Override? then prefixed.path else path)
    case NoRule => prefixed
    case Hide => HidePath
    case Replace(p) => Override(p)
  }

  datatype Followed = Stop | Loop | To(link: string)

  /** One symlink, after the replacement of /proc/self; links into the metadata directory are not followed. */
  function FollowSymlink(h: Host, onDisk: string, visited: set<string>): Followed
    requires IsPid(h.pid)
    decreases if Mentions(onDisk) then 1 else 0
  {
    if !h.follow then Stop
    else if Mentions(onDisk) then
      ReplacedMentionsNothing(onDisk, h.pid);
      FollowSymlink(h, Replaced(onDisk, h.pid), visited)
    else if onDisk !in h.links then Stop
    else
      var link := h.links[onDisk];
      if h.isFake(link) then Stop
      else if link in visited then Loop
      else To(link)
  }

  /** A path on disk, with its mentions replaced, is a link that is to be followed. */
  predicate IsFollowedLink(h: Host, onDisk: string) {
    var place := Replaced(onDisk, h.pid);
    h.follow && place in h.links && !h.isFake(h.links[place])
  }

  /**
   * A link is followed exactly if following is on, the replaced path is a link, its target is not in the
   * metadata directory, and the target was not visited. A visited one is a loop.
   */
  lemma {:induction false} FollowedExactly(h: Host, onDisk: string, visited: set<string>)
    requires IsPid(h.pid)
    ensures var place, r := Replaced(onDisk, h.pid), FollowSymlink(h, onDisk, visited);
            && (r.Stop? <==> !(h.follow && place in h.links && !h.isFake(h.links[place])))
            && (!r.Stop? ==> r == if h.links[place] in visited then Loop else To(h.links[place]))
  {
    ReplacedMentionsNothing(onDisk, h.pid);
    ReplacedNothing(Replaced(onDisk, h.pid), h.pid);
    if !Mentions(onDisk) {
      ReplacedNothing(onDisk, h.pid);
    }
  }

  function Targets(h: Host): set<string> {
    h.links.Values
  }

  lemma {:induction false} FollowedIsTarget(h: Host, onDisk: string, visited: set<string>)
    requires IsPid(h.pid)
    ensures FollowSymlink(h, onDisk, visited).To? ==>
              FollowSymlink(h, onDisk, visited).link in Targets(h) && FollowSymlink(h, onDisk, visited).link !in visited
    decreases if Mentions(onDisk) then 1 else 0
  {
    if h.follow && Mentions(onDisk) {
      ReplacedMentionsNothing(onDisk, h.pid);
      FollowedIsTarget(h, Replaced(onDisk, h.pid), visited);
    }
  }

  /** The recursive translation. It ends because every link it follows is a link target not visited before. */
  function Resolve(h: Host, path: string, visited: set<string>): PathAction
    requires IsPid(h.pid)
    decreases |Targets(h) - (visited + {path})|
  {
    var seen := visited + {path};
    var action := Simple(h, path);
    if action.HidePath? || (action.NoAction? && h.excluded(path)) then action
    else
      var onDisk := if action.Override? then action.path else path;
      match FollowSymlink(h, onDisk, seen)
      case Stop => action
      case Loop => Eloop
      case To(link) =>
        FollowedIsTarget(h, onDisk, seen);
        LessToVisit(Targets(h), seen, link);
        var last := Resolve(h, link, seen);
        if last.NoAction? then Override(link) else last
  }

  lemma {:induction false} LessToVisit(targets: set<string>, seen: set<string>, link: string)
    requires link in targets && link !in seen
    ensures |targets - (seen + {link})| < |targets - seen|
  {
    assert targets - (seen + {link}) == (targets - seen) - {link};
  }

  /** An absolute path that is not excluded is looked up under the root, or where the rule for that place says. */
  lemma {:induction false} ResolveUnderRoot(h: Host, path: string, visited: set<string>)
    requires IsPid(h.pid) && !h.excluded(path) && h.prefix.Some? && path != [] && path[0] == '/'
    ensures var place := h.prefix.value + path;
            match h.rule(place)
            case Hide => Resolve(h, path, visited) == HidePath
            case NoRule => !IsFollowedLink(h, place) ==> Resolve(h, path, visited) == Override(place)
            case Replace(p) => !IsFollowedLink(h, p) ==> Resolve(h, path, visited) == Override(p)
  {
    assert StartsWith(path, "/");
    var action := Simple(h, path);
    if action.Override? {
      FollowedExactly(h, action.path, visited + {path});
    }
  }

  /** An excluded or relative path, or one without a root, is left alone, unless the rule for it says otherwise. */
  lemma {:induction false} ResolveInPlace(h: Host, path: string, visited: set<string>)
    requires IsPid(h.pid) && (h.excluded(path) || h.prefix.None? || path == [] || path[0] != '/')
    ensures match h.rule(path)
            case Hide => Resolve(h, path, visited) == HidePath
            case NoRule => h.excluded(path) || !IsFollowedLink(h, path) ==> Resolve(h, path, visited) == NoAction
            case Replace(p) => !IsFollowedLink(h, p) ==> Resolve(h, path, visited) == Override(p)
  {
    var action := Simple(h, path);
    FollowedExactly(h, if action.Override? then action.path else path, visited + {path});
  }

  /** Where a path is looked up that is not hidden: under the root or in place, or where the rule says. */
  ghost predicate LookedUpAt(h: Host, path: string, place: string) {
    var rooted := !h.excluded(path) && h.prefix.Some? && path != [] && path[0] == '/';
    match h.rule(if rooted then h.prefix.value + path else path)
    case Hide => false
    case NoRule => place == if rooted then h.prefix.value + path else path
    case Replace(p) => place == p
  }

  /**
   * A link is followed from the place where its path is looked up, but not from an excluded path without a
   * rule. The target is translated in turn; one that needs no translation stands for itself.
   */
  lemma {:induction false} ResolveLink(h: Host, path: string, visited: set<string>, place: string)
    requires IsPid(h.pid) && LookedUpAt(h, path, place) && IsFollowedLink(h, place)
    requires h.excluded(path) ==> h.rule(path).Replace?
    ensures var link := h.links[Replaced(place, h.pid)];
            Resolve(h, path, visited) ==
            if link in visited + {path} then Eloop
            else
              match Resolve(h, link, visited + {path})
              case NoAction => Override(link)
              case other => other
  {
    assert StartsWith(path, "/") <==> path != [] && path[0] == '/';
    FollowedExactly(h, place, visited + {path});
  }

  // ---- The chain of links ----

  /** The link that a path leads to, regardless of what was visited. */
  function NextLink(h: Host, path: string): Option<string>
    requires IsPid(h.pid)
  {
    var action := Simple(h, path);
    if action.HidePath? || (action.NoAction? && h.excluded(path)) then None
    else
      match FollowSymlink(h, if action.Override? then action.path else path, {})
      case To(link) => Some(link)
      case _ => None
  }

  /** The visited set only turns a link into a loop. */
  lemma {:induction false} FollowWithVisited(h: Host, onDisk: string, visited: set<string>)
    requires IsPid(h.pid)
    ensures FollowSymlink(h, onDisk, visited) ==
            match FollowSymlink(h, onDisk, {})
            case To(link) => if link in visited then Loop else To(link)
            case _ => Stop
    decreases if Mentions(onDisk) then 1 else 0
  {
    if h.follow && Mentions(onDisk) {
      ReplacedMentionsNothing(onDisk, h.pid);
      FollowWithVisited(h, Replaced(onDisk, h.pid), visited);
    }
  }

  /** Each path of a chain is the link that the one before it leads to. */
  ghost predicate IsChain(h: Host, chain: seq<string>)
    requires IsPid(h.pid)
  {
    chain != [] && forall i :: 0 < i < |chain| ==> NextLink(h, chain[i - 1]) == Some(chain[i])
  }

  ghost predicate Distinct(chain: seq<string>) {
    forall i, j :: 0 <= i < j < |chain| ==> chain[i] != chain[j]
  }

  ghost predicate Revisits(h: Host, path: string)
    requires IsPid(h.pid)
  {
    exists chain :: IsChain(h, chain) && chain[0] == path && !Distinct(chain)
  }

  /** The end of a chain: nothing to follow from there. */
  ghost predicate EndsAt(h: Host, path: string, chain: seq<string>)
    requires IsPid(h.pid)
  {
    IsChain(h, chain) && chain[0] == path && Distinct(chain) && NextLink(h, chain[|chain| - 1]).None?
  }

  /** The translation of the last path; a followed link that needs none stands for itself. */
  function Translated(h: Host, chain: seq<string>): PathAction
    requires chain != []
  {
    var last := chain[|chain| - 1];
    var action := Simple(h, last);
    if |chain| > 1 && action.NoAction? then Override(last) else action
  }

  ghost function Elements(chain: seq<string>): set<string> {
    set x | x in chain
  }

  /** One round of the recursion in terms of the next link. */
  lemma {:induction false} ResolveStep(h: Host, path: string, visited: set<string>)
    requires IsPid(h.pid)
    ensures Resolve(h, path, visited) ==
            match NextLink(h, path)
            case None => Simple(h, path)
            case Some(link) =>
              if link in visited + {path} then Eloop
              else
                var last := Resolve(h, link, visited + {path});
                if last.NoAction? then Override(link) else last
    ensures NextLink(h, path).Some? ==> NextLink(h, path).value in Targets(h)
  {
    var action := Simple(h, path);
    var onDisk := if action.Override? then action.path else path;
    FollowWithVisited(h, onDisk, visited + {path});
    FollowedIsTarget(h, onDisk, {});
  }

  lemma {:induction false} ExtendChain(h: Host, chain: seq<string>, link: string)
    requires IsPid(h.pid) && IsChain(h, chain) && Distinct(chain) && NextLink(h, chain[|chain| - 1]) == Some(link)
    ensures IsChain(h, chain + [link])
    ensures link in chain <==> !Distinct(chain + [link])
    ensures Elements(chain + [link]) == Elements(chain) + {link}
    ensures Elements(chain) == Elements(chain[..|chain| - 1]) + {chain[|chain| - 1]}
  {
    var longer := chain + [link];
    if link in chain {
      var i :| 0 <= i < |chain| && chain[i] == link;
      assert longer[i] == longer[|chain|];
    }
    assert chain == chain[..|chain| - 1] + [chain[|chain| - 1]];
  }

  /** Resolution from the last path of a chain, with the earlier ones visited, goes on along the chain. */
  lemma {:induction false} ResolveAlong(h: Host, chain: seq<string>) returns (full: seq<string>)
    requires IsPid(h.pid) && IsChain(h, chain) && Distinct(chain)
    ensures chain <= full && IsChain(h, full)
    ensures Resolved(h, chain, full, Resolve(h, chain[|chain| - 1], Elements(chain[..|chain| - 1])))
    decreases |Targets(h) - Elements(chain)|
  {
    var path, visited := chain[|chain| - 1], Elements(chain[..|chain| - 1]);
    ResolveStep(h, path, visited);
    full := chain;
    var next := NextLink(h, path);
    if next.Some? {
      ExtendChain(h, chain, next.value);
      full := chain + [next.value];
      if next.value !in chain {
        LessToVisit(Targets(h), Elements(chain), next.value);
        assert full[..|full| - 1] == chain && Elements(full[..|full| - 1]) == visited + {path};
        full := ResolveAlong(h, full);
        ResolvedUp(h, chain, next.value, full, Resolve(h, next.value, visited + {path}));
      }
    }
  }

  /** What the recursive call found is handed up, a link without translation standing for itself. */
  lemma {:induction false} ResolvedUp(h: Host, chain: seq<string>, link: string, full: seq<string>, last: PathAction)
    requires IsPid(h.pid) && chain != [] && chain + [link] <= full
    requires Resolved(h, chain + [link], full, last)
    ensures chain <= full && Resolved(h, chain, full, if last.NoAction? then Override(link) else last)
  {
    assert chain <= full by {
      assert full[..|chain|] == full[..|chain| + 1][..|chain|];
    }
    if !last.Eloop? && |full| == |chain| + 1 {
      assert full[|full| - 1] == link;
    }
  }

  /** The outcome of resolution, read off the chain that extends the paths visited so far. */
  ghost predicate Resolved(h: Host, chain: seq<string>, full: seq<string>, r: PathAction)
    requires IsPid(h.pid) && chain <= full && chain != []
  {
    if r.Eloop? then !Distinct(full)
    else
      && Distinct(full) && NextLink(h, full[|full| - 1]).None?
      && r == if |full| == |chain| then Simple(h, full[|full| - 1]) else Translated(h, full)
  }

  /** Chains from one path agree as far as they go. */
  lemma {:induction false} ChainsAgree(h: Host, a: seq<string>, b: seq<string>, n: nat)
    requires IsPid(h.pid) && IsChain(h, a) && IsChain(h, b) && a[0] == b[0] && n < |a| && n < |b|
    ensures a[n] == b[n]
  {
    if n > 0 {
      ChainsAgree(h, a, b, n - 1);
      assert NextLink(h, a[n - 1]) == Some(a[n]) && NextLink(h, b[n - 1]) == Some(b[n]);
    }
  }

  /** A chain that ends is the longest one from its path, so nothing is ever revisited. */
  lemma {:induction false} EndingChainIsAll(h: Host, path: string, chain: seq<string>)
    requires IsPid(h.pid) && EndsAt(h, path, chain)
    ensures !Revisits(h, path)
  {
    forall other | IsChain(h, other) && other[0] == path ensures Distinct(other) {
      assert |other| > |chain| ==> NextLink(h, other[|chain| - 1]) == Some(other[|chain|]);
      if |other| > |chain| {
        ChainsAgree(h, chain, other, |chain| - 1);
      }
      forall i | 0 <= i < |other| ensures other[i] == chain[i] {
        ChainsAgree(h, chain, other, i);
      }
    }
  }

  /**
   * For every finite set of links, resolution ends. It reports a loop exactly when the chain of followed
   * links comes back to a path it has visited; otherwise it returns the translated end of the chain.
   */
  lemma {:induction false} ResolutionFollowsChain(h: Host, path: string) returns (chain: seq<string>)
    requires IsPid(h.pid)
    ensures Resolve(h, path, {}) == Eloop <==> Revisits(h, path)
    ensures !Revisits(h, path) ==> EndsAt(h, path, chain) && Resolve(h, path, {}) == Translated(h, chain)
  {
    assert [path][..0] == [];
    assert Elements([]) == {};
    chain := ResolveAlong(h, [path]);
    assert chain[0] == path;
    if Resolve(h, path, {}) != Eloop {
      EndingChainIsAll(h, path, chain);
    }
  }
}
