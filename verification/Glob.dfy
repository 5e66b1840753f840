/**
 The greedy glob matcher, written twice in the source: for package discovery
 (src/discovery.rs:395-441) and for workspace members (src/parser/cargo_manifest.rs:313-358).
 Its meaning is compared with the declarative one, where each `*` stands for some string.
 */
module Glob {
  import opened Wrappers
  import opened Text

  /** Declarative meaning: some assignment of the wildcards turns the pattern into the value. */
  ghost predicate GlobMatches(pattern: string, value: string)
  {
    if pattern == "" then value == ""
    else if pattern[0] == '*' then exists k :: 0 <= k <= |value| && GlobMatches(pattern[1..], value[k..])
    else value != "" && value[0] == pattern[0] && GlobMatches(pattern[1..], value[1..])
  }

  predicate EndsWithStar(pattern: string)
  {
    pattern != "" && pattern[|pattern| - 1] == '*'
  }

  ghost predicate ShortestMatch(pattern: string, value: string)
  {
    GlobMatches(pattern, value) && forall n :: 0 <= n < |value| ==> !GlobMatches(pattern, value[..n])
  }

  /**
   What one component of the matcher accepts: with a trailing literal after a `*`, only the
   values of which no proper prefix already matches; otherwise exactly the matching values.
   */
  ghost predicate ComponentAccepts(pattern: string, value: string)
  {
    if '*' in pattern && !EndsWithStar(pattern) then ShortestMatch(pattern, value) else GlobMatches(pattern, value)
  }

  method ComponentMatches(pattern: string, value: string) returns (accepted: bool)
    ensures accepted <==> ComponentAccepts(pattern, value)
  {
    if pattern == "*" {
      LoneStar(value);
      return true;
    }
    if '*' !in pattern {
      LiteralMatches(pattern, value);
      return pattern == value;
    }
    StarCounts(pattern);
    GreedyDecides(pattern, value);
    accepted := MatchParts(Split(pattern, '*'), value);
  }

  /** The loop over the parts of a pattern with at least one star; a last empty part means a trailing star. */
  method MatchParts(parts: seq<string>, value: string) returns (accepted: bool)
    requires |parts| >= 2
    ensures accepted <==> GreedyAccepts(parts, value)
  {
    var first := parts[0];
    if !StartsWith(value, first) {
      return false;
    }
    var remaining := value[|first|..];
    var i := 1;
    ghost var position := |first|;
    while i < |parts|
      invariant 1 <= i <= |parts|
      invariant |first| <= position <= |value| && remaining == value[position..]
      invariant GreedyEnd(parts[1..], value, |first|) == GreedyEnd(parts[i..], value, position)
      invariant i == |parts| && parts[|parts| - 1] != "" ==> remaining == ""
    {
      var part := parts[i];
      ghost var here, next := i, LeftmostEnd(value, part, position);
      i := i + 1;
      GreedyTurn(parts, here, i, value, position, next);
      FindInSuffix(value, part, position);
      if part == "" {
        EmptyIsFirst(remaining);
        continue;
      }
      var index := Find(remaining, part);
      if index.None? {
        return false;
      }
      position := next.value;
      remaining := remaining[index.value + |part|..];
      if i == |parts| && remaining != "" {
        return false;
      }
    }
    return parts[|parts| - 1] == "" || remaining == "";
  }

  ghost function LeftmostEnd(value: string, part: string, position: nat): (end: Option<nat>)
    requires position <= |value|
    ensures end.Some? ==> position <= end.value <= |value|
  {
    match FindFrom(value, part, position)
    case None => None
    case Some(i) => Some(i + |part|)
  }

  /** One turn of the loop: the next part goes to its leftmost place. */
  lemma GreedyTurn(parts: seq<string>, i: nat, j: nat, value: string, position: nat, next: Option<nat>)
    requires i < |parts| && j == i + 1 && position <= |value| && next == LeftmostEnd(value, parts[i], position)
    ensures next.None? ==> GreedyEnd(parts[i..], value, position) == None
    ensures next.Some? ==> GreedyEnd(parts[i..], value, position) == GreedyEnd(parts[j..], value, next.value)
  {
    assert parts[i..][0] == parts[i] && parts[i..][1..] == parts[j..];
  }

  lemma EmptyIsFirst(s: string)
    ensures Find(s, "") == Some(0)
  {
    assert OccursAt(s, "", 0);
  }

  ghost predicate GreedyAccepts(parts: seq<string>, value: string)
    requires |parts| >= 2
  {
    StartsWith(value, parts[0]) &&
    var greedy := GreedyEnd(parts[1..], value, |parts[0]|);
    greedy.Some? && (parts[|parts| - 1] == "" || greedy.value == |value|)
  }

  lemma SuffixOccurrence(value: string, part: string, position: nat, i: int)
    requires position <= |value| && 0 <= i
    ensures OccursAt(value[position..], part, i) <==> OccursAt(value, part, position + i)
  {
    if position + i + |part| <= |value| {
      assert value[position..][i..i + |part|] == value[position + i..position + i + |part|];
    }
  }

  lemma FindInSuffix(value: string, part: string, position: nat)
    requires position <= |value|
    ensures match Find(value[position..], part)
            case None => FindFrom(value, part, position) == None
            case Some(i) => FindFrom(value, part, position) == Some(position + i)
  {
    var inSuffix, inValue := Find(value[position..], part), FindFrom(value, part, position);
    if inSuffix.Some? {
      SuffixOccurrence(value, part, position, inSuffix.value);
    }
    if inValue.Some? {
      SuffixOccurrence(value, part, position, inValue.value - position);
    }
  }

  lemma LoneStar(value: string)
    ensures GlobMatches("*", value)
  {
    assert "*"[1..] == "";
    assert GlobMatches("", value[|value|..]);
  }

  // ----- greedy placement of the literal parts

  /** Leftmost placement of the parts in turn from `start`; where it ends. */
  function GreedyEnd(parts: seq<string>, value: string, start: nat): (r: Option<nat>)
    requires start <= |value|
    ensures r.Some? ==> start <= r.value <= |value|
  {
    if parts == [] then Some(start)
    else
      match FindFrom(value, parts[0], start)
      case None => None
      case Some(i) => GreedyEnd(parts[1..], value, i + |parts[0]|)
  }

  /** From `start` to `end` the value is the parts in order, each after some filler. */
  ghost predicate Places(parts: seq<string>, value: string, start: int, end: int)
    decreases |parts|, 1
  {
    if parts == [] then start == end
    else exists i :: start <= i && PlacesFirstAt(parts, value, i, end)
  }

  ghost predicate PlacesFirstAt(parts: seq<string>, value: string, i: int, end: int)
    requires parts != []
    decreases |parts|, 0
  {
    OccursAt(value, parts[0], i) && Places(parts[1..], value, i + |parts[0]|, end)
  }

  lemma {:induction false} GreedyPlaces(parts: seq<string>, value: string, start: nat)
    requires start <= |value| && GreedyEnd(parts, value, start).Some?
    ensures Places(parts, value, start, GreedyEnd(parts, value, start).value)
    decreases |parts|
  {
    if parts != [] {
      var i := FindFrom(value, parts[0], start).value;
      GreedyPlaces(parts[1..], value, i + |parts[0]|);
      assert PlacesFirstAt(parts, value, i, GreedyEnd(parts, value, start).value);
    }
  }

  /** No placement that starts later ends before the greedy one. */
  lemma {:induction false} GreedyIsShortest(parts: seq<string>, value: string, start: nat, later: int, end: int)
    requires start <= later && start <= |value| && end <= |value| && Places(parts, value, later, end)
    ensures GreedyEnd(parts, value, start).Some? && GreedyEnd(parts, value, start).value <= end
    decreases |parts|
  {
    if parts != [] {
      var i := PlacesWitness(parts, value, later, end);
      var next := NextEnd(parts, value, start, i);
      GreedyIsShortest(parts[1..], value, next, i + |parts[0]|, end);
    }
  }

  /** The first part's leftmost place ends no later than any other, and greedy goes on from there. */
  lemma NextEnd(parts: seq<string>, value: string, start: nat, i: int) returns (next: nat)
    requires parts != [] && start <= i && start <= |value| && OccursAt(value, parts[0], i)
    ensures start <= next <= |value| && next <= i + |parts[0]|
    ensures GreedyEnd(parts, value, start) == GreedyEnd(parts[1..], value, next)
  {
    next := FindFrom(value, parts[0], start).value + |parts[0]|;
  }

  /** A placement only looks at the characters before its end. */
  lemma {:induction false} PlacesInPrefix(parts: seq<string>, value: string, start: int, end: nat)
    requires 0 <= start && end <= |value|
    ensures Places(parts, value, start, end) <==> Places(parts, value[..end], start, end)
    decreases |parts|
  {
    if parts != [] {
      var p := |parts[0]|;
      forall i | start <= i
        ensures PlacesFirstAt(parts, value, i, end) <==> PlacesFirstAt(parts, value[..end], i, end)
      {
        PlacesInPrefix(parts[1..], value, i + p, end);
        if Places(parts[1..], value, i + p, end) {
          PlacesForward(parts[1..], value, i + p, end);
          assert value[..end][i..i + p] == value[i..i + p];
        }
      }
    }
  }

  lemma {:induction false} PlacesForward(parts: seq<string>, value: string, start: int, end: int)
    requires Places(parts, value, start, end)
    ensures start <= end
    decreases |parts|
  {
    if parts != [] {
      var i :| start <= i && PlacesFirstAt(parts, value, i, end);
      PlacesForward(parts[1..], value, i + |parts[0]|, end);
    }
  }

  /** A trailing star absorbs whatever the other parts leave over. */
  lemma {:induction false} StretchLastStar(parts: seq<string>, value: string, start: int, end: int)
    requires 0 <= start <= |value| && |parts| >= 1 && parts[|parts| - 1] == "" && Places(parts, value, start, end)
    ensures Places(parts, value, start, |value|)
    decreases |parts|
  {
    if |parts| == 1 {
      assert PlacesFirstAt(parts, value, |value|, |value|);
    } else {
      var i :| start <= i && PlacesFirstAt(parts, value, i, end);
      StretchLastStar(parts[1..], value, i + |parts[0]|, end);
      assert PlacesFirstAt(parts, value, i, |value|);
    }
  }

  // ----- from the pattern to its parts

  lemma {:induction false} LiteralMatches(pattern: string, value: string)
    requires '*' !in pattern
    ensures GlobMatches(pattern, value) <==> pattern == value
  {
    if pattern != "" && value != "" && value[0] == pattern[0] {
      LiteralMatches(pattern[1..], value[1..]);
      assert pattern == [pattern[0]] + pattern[1..] && value == [value[0]] + value[1..];
    }
  }

  lemma {:induction false} LiteralPrefix(literal: string, rest: string, value: string, start: nat)
    requires Without(literal, '*') && start <= |value|
    ensures GlobMatches(literal + rest, value[start..]) <==>
            OccursAt(value, literal, start) && GlobMatches(rest, value[start + |literal|..])
  {
    if literal == "" {
      assert literal + rest == rest;
    } else {
      var pattern := literal + rest;
      assert pattern[1..] == literal[1..] + rest;
      if start < |value| && value[start] == literal[0] {
        LiteralPrefix(literal[1..], rest, value, start + 1);
        assert value[start..][1..] == value[start + 1..];
        OccursFromTail(value, literal, start);
      }
    }
  }

  lemma OccursFromTail(value: string, literal: string, start: nat)
    requires literal != "" && start < |value| && value[start] == literal[0]
    ensures OccursAt(value, literal, start) <==> OccursAt(value, literal[1..], start + 1)
  {
    if start + |literal| <= |value| {
      assert value[start..start + |literal|] == [value[start]] + value[start + 1..start + |literal|];
      assert literal == [literal[0]] + literal[1..];
      assert start + 1 + |literal[1..]| == start + |literal|;
    }
  }

  /** The parts after the first, each led by a star. */
  function StarJoin(parts: seq<string>): string
  {
    if parts == [] then "" else "*" + (parts[0] + StarJoin(parts[1..]))
  }

  lemma {:induction false} StarJoinMatches(parts: seq<string>, value: string, start: nat)
    requires AllWithout(parts, '*') && start <= |value|
    ensures GlobMatches(StarJoin(parts), value[start..]) <==> Places(parts, value, start, |value|)
    decreases |parts|, 1
  {
    if parts != [] {
      var suffix := value[start..];
      var next := parts[0] + StarJoin(parts[1..]);
      assert StarJoin(parts)[1..] == next;
      if GlobMatches(StarJoin(parts), suffix) {
        var k :| 0 <= k <= |suffix| && GlobMatches(next, suffix[k..]);
        assert suffix[k..] == value[start + k..];
        FirstPartMatches(parts, value, start + k);
      }
      if Places(parts, value, start, |value|) {
        var i := PlacesWitness(parts, value, start, |value|);
        FirstPartMatches(parts, value, i);
        assert suffix[i - start..] == value[i..];
      }
    }
  }

  lemma PlacesWitness(parts: seq<string>, value: string, start: int, end: int) returns (i: int)
    requires parts != [] && Places(parts, value, start, end)
    ensures start <= i && PlacesFirstAt(parts, value, i, end)
  {
    i :| start <= i && PlacesFirstAt(parts, value, i, end);
  }

  lemma {:induction false} FirstPartMatches(parts: seq<string>, value: string, i: nat)
    requires parts != [] && AllWithout(parts, '*') && i <= |value|
    ensures GlobMatches(parts[0] + StarJoin(parts[1..]), value[i..]) <==> PlacesFirstAt(parts, value, i, |value|)
    decreases |parts|, 0
  {
    LiteralPrefix(parts[0], StarJoin(parts[1..]), value, i);
    if OccursAt(value, parts[0], i) {
      StarJoinMatches(parts[1..], value, i + |parts[0]|);
    }
  }

  lemma {:induction false} JoinIsStarJoin(parts: seq<string>)
    requires |parts| >= 1
    ensures Join(parts, '*') == parts[0] + StarJoin(parts[1..])
  {
    if |parts| > 1 {
      JoinIsStarJoin(parts[1..]);
      assert parts[1..][0] == parts[1] && parts[1..][1..] == parts[2..];
      assert parts[0] + ['*'] + (parts[1] + StarJoin(parts[2..])) ==
             parts[0] + ("*" + (parts[1] + StarJoin(parts[2..])));
    }
  }

  /** A pattern matches when its first part is a prefix and the rest can be placed up to the end. */
  lemma SplitMatches(pattern: string, value: string)
    ensures var parts := Split(pattern, '*');
            GlobMatches(pattern, value) <==>
            StartsWith(value, parts[0]) && Places(parts[1..], value, |parts[0]|, |value|)
  {
    var parts := Split(pattern, '*');
    JoinSplit(pattern, '*');
    JoinIsStarJoin(parts);
    assert value[0..] == value;
    LiteralPrefix(parts[0], StarJoin(parts[1..]), value, 0);
    if StartsWith(value, parts[0]) {
      StarJoinMatches(parts[1..], value, |parts[0]|);
    }
  }

  lemma {:induction false} StarCounts(pattern: string)
    ensures '*' in pattern <==> |Split(pattern, '*')| >= 2
    ensures var parts := Split(pattern, '*');
            EndsWithStar(pattern) <==> |parts| >= 2 && parts[|parts| - 1] == ""
  {
    if pattern != "" {
      StarCounts(pattern[1..]);
      assert pattern == [pattern[0]] + pattern[1..];
      if pattern[1..] != "" {
        assert pattern[|pattern| - 1] == pattern[1..][|pattern| - 2];
        SingletonSplit(pattern[1..]);
      }
    }
  }

  lemma SingletonSplit(pattern: string)
    requires pattern != ""
    ensures |Split(pattern, '*')| == 1 ==> Split(pattern, '*')[0] != ""
  {
  }

  /** For a pattern with stars, acceptance is decided by the greedy placement. */
  lemma GreedyDecides(pattern: string, value: string)
    requires '*' in pattern
    ensures var parts := Split(pattern, '*');
            |parts| >= 2 && (ComponentAccepts(pattern, value) <==> GreedyAccepts(parts, value))
  {
    var parts := Split(pattern, '*');
    StarCounts(pattern);
    SplitMatches(pattern, value);
    if StartsWith(value, parts[0]) {
      var rest, start := parts[1..], |parts[0]|;
      var greedy := GreedyEnd(rest, value, start);
      if GlobMatches(pattern, value) {
        GreedyIsShortest(rest, value, start, start, |value|);
      }
      if greedy.Some? {
        GreedyPlaces(rest, value, start);
        if EndsWithStar(pattern) {
          StretchLastStar(rest, value, start, greedy.value);
        } else {
          ShortestIsGreedy(pattern, value);
        }
      }
    }
  }

  lemma ShortestIsGreedy(pattern: string, value: string)
    requires var parts := Split(pattern, '*');
             StartsWith(value, parts[0]) && GreedyEnd(parts[1..], value, |parts[0]|).Some?
    ensures var parts := Split(pattern, '*');
            ShortestMatch(pattern, value) <==> GreedyEnd(parts[1..], value, |parts[0]|).value == |value|
  {
    var parts := Split(pattern, '*');
    var rest, start := parts[1..], |parts[0]|;
    var end := GreedyEnd(rest, value, start).value;
    GreedyPlaces(rest, value, start);
    PrefixMatches(pattern, value, end);
    assert value[..|value|] == value;
    if end == |value| {
      forall n | 0 <= n < |value| ensures !GlobMatches(pattern, value[..n]) {
        if GlobMatches(pattern, value[..n]) {
          PrefixMatches(pattern, value, n);
          GreedyIsShortest(rest, value, start, start, n);
        }
      }
    }
  }

  lemma PrefixMatches(pattern: string, value: string, n: nat)
    requires n <= |value| && StartsWith(value, Split(pattern, '*')[0])
    ensures var parts := Split(pattern, '*');
            GlobMatches(pattern, value[..n]) <==> |parts[0]| <= n && Places(parts[1..], value, |parts[0]|, n)
  {
    var parts := Split(pattern, '*');
    SplitMatches(pattern, value[..n]);
    PlacesInPrefix(parts[1..], value, |parts[0]|, n);
    if |parts[0]| <= n {
      assert value[..n][..|parts[0]|] == value[..|parts[0]|];
    }
  }

  // ----- exactly when the matcher is complete

  /** Empty fillers everywhere place the parts back to back. */
  lemma {:induction false} PlacesBackToBack(parts: seq<string>, value: string, start: nat)
    requires OccursAt(value, Concat(parts), start)
    ensures Places(parts, value, start, start + |Concat(parts)|)
    decreases |parts|
  {
    if parts != [] {
      var all, p := Concat(parts), |parts[0]|;
      assert value[start..start + p] == value[start..start + |all|][..p];
      assert value[start + p..start + |all|] == value[start..start + |all|][p..];
      PlacesBackToBack(parts[1..], value, start + p);
      assert PlacesFirstAt(parts, value, start, start + |all|);
    }
  }

  /** The last part can instead be placed on a second copy of itself. */
  lemma {:induction false} PlacesSecondCopy(parts: seq<string>, value: string, start: nat)
    requires |parts| >= 1 && OccursAt(value, Concat(parts) + parts[|parts| - 1], start)
    ensures Places(parts, value, start, start + |Concat(parts)| + |parts[|parts| - 1]|)
    decreases |parts|
  {
    var last, p := parts[|parts| - 1], |parts[0]|;
    var all := Concat(parts) + last;
    if |parts| == 1 {
      assert Concat(parts[1..]) == "";
      assert Concat(parts) == last + "";
      assert last + "" == last;
      assert value[start + p..start + p + p] == value[start..start + |all|][p..];
      assert PlacesFirstAt(parts, value, start + p, start + p + p);
    } else {
      assert all == parts[0] + (Concat(parts[1..]) + last);
      assert value[start..start + p] == value[start..start + |all|][..p];
      assert value[start + p..start + |all|] == value[start..start + |all|][p..];
      PlacesSecondCopy(parts[1..], value, start + p);
      assert PlacesFirstAt(parts, value, start, start + |all|);
    }
  }

  /** Doubling the trailing literal gives a value that matches and has a shorter match. */
  lemma DoubledLiteral(pattern: string) returns (value: string, n: nat)
    requires '*' in pattern && !EndsWithStar(pattern)
    ensures n < |value| && GlobMatches(pattern, value) && GlobMatches(pattern, value[..n])
  {
    var parts := Split(pattern, '*');
    StarCounts(pattern);
    var last := parts[|parts| - 1];
    var short := parts[0] + Concat(parts[1..]);
    value, n := short + last, |short|;
    assert value[|parts[0]|..n] == Concat(parts[1..]);
    assert value[|parts[0]|..|value|] == Concat(parts[1..]) + last;
    PlacesBackToBack(parts[1..], value, |parts[0]|);
    PlacesSecondCopy(parts[1..], value, |parts[0]|);
    SplitMatches(pattern, value);
    PrefixMatches(pattern, value, n);
  }

  /**
   The matcher accepts every matching value if and only if the component has no `*` or
   ends with one: otherwise doubling the trailing literal gives a matching value it rejects.
   */
  lemma CompleteExactlyWhen(pattern: string)
    ensures (forall value :: GlobMatches(pattern, value) ==> ComponentAccepts(pattern, value))
            <==> '*' !in pattern || EndsWithStar(pattern)
  {
    if '*' in pattern && !EndsWithStar(pattern) {
      var value, n := DoubledLiteral(pattern);
      assert !ComponentAccepts(pattern, value);
    }
  }

  lemma MatchLiteral(c: char, pattern: string, value: string)
    requires c != '*' && GlobMatches(pattern, value)
    ensures GlobMatches([c] + pattern, [c] + value)
  {
    assert ([c] + pattern)[1..] == pattern && ([c] + value)[1..] == value;
  }

  lemma MatchStar(pattern: string, filler: string, value: string)
    requires GlobMatches(pattern, value)
    ensures GlobMatches("*" + pattern, filler + value)
  {
    assert ("*" + pattern)[1..] == pattern && (filler + value)[|filler|..] == value;
  }

  lemma MatchExample(filler: string)
    ensures GlobMatches("a*b", "a" + filler + "b")
  {
    MatchLiteral('b', "", "");
    MatchStar("b", filler, "b");
    MatchLiteral('a', "*b", filler + "b");
    assert "a" + filler + "b" == ['a'] + (filler + "b");
  }

  /** `a*b` matches `abb` by meaning, and the matcher rejects it. */
  lemma TrailingLiteralRejected()
    ensures GlobMatches("a*b", "abb") && !ComponentAccepts("a*b", "abb")
  {
    MatchExample("");
    MatchExample("b");
    assert "abb"[..2] == "a" + "" + "b" && "abb" == "a" + "b" + "b";
    assert !ShortestMatch("a*b", "abb");
    assert "a*b"[1] == '*' && "a*b"[2] == 'b';
  }

  // ----- whole paths, and the two copies

  ghost predicate PathAccepts(pattern: string, value: string)
  {
    ComponentsAccept(Split(pattern, '/'), Split(value, '/'))
  }

  ghost predicate ComponentsAccept(patterns: seq<string>, values: seq<string>)
  {
    |patterns| == |values| && forall i :: 0 <= i < |patterns| ==> ComponentAccepts(patterns[i], values[i])
  }

  method ComponentsMatch(patterns: seq<string>, values: seq<string>) returns (accepted: bool)
    ensures accepted <==> ComponentsAccept(patterns, values)
  {
    if |patterns| != |values| {
      return false;
    }
    for i := 0 to |patterns|
      invariant forall k :: 0 <= k < i ==> ComponentAccepts(patterns[k], values[k])
    {
      var matches := ComponentMatches(patterns[i], values[i]);
      if !matches {
        return false;
      }
    }
    return true;
  }

  ghost predicate DiscoveryAccepts(pattern: string, value: string)
  {
    PathAccepts(ForwardSlashes(pattern), ForwardSlashes(value))
  }

  method GlobPatternMatches(pattern: string, value: string) returns (accepted: bool)
    ensures accepted <==> DiscoveryAccepts(pattern, value)
  {
    accepted := ComponentsMatch(Split(ForwardSlashes(pattern), '/'), Split(ForwardSlashes(value), '/'));
  }

  ghost predicate MemberAccepts(pattern: string, relative: string)
  {
    if '*' !in pattern then pattern == relative else PathAccepts(ForwardSlashes(pattern), relative)
  }

  method WorkspaceMemberPatternMatches(pattern: string, relative: string) returns (accepted: bool)
    ensures accepted <==> MemberAccepts(pattern, relative)
  {
    if '*' !in pattern {
      return pattern == relative;
    }
    accepted := ComponentsMatch(Split(ForwardSlashes(pattern), '/'), Split(relative, '/'));
  }

  /** Discovery matches component by component between slashes of either kind: no star crosses one. */
  lemma DiscoveryExactlyWhen(pattern: string, value: string, patterns: seq<string>, values: seq<string>)
    requires ComponentsOf(pattern, patterns) && ComponentsOf(value, values)
    ensures DiscoveryAccepts(pattern, value) <==>
            |patterns| == |values| && forall i :: 0 <= i < |patterns| ==> ComponentAccepts(patterns[i], values[i])
  {
    ComponentsSplit(pattern, patterns);
    ComponentsSplit(value, values);
  }

  /** Workspace members match the same way, but backslashes of the path are ordinary characters. */
  lemma MemberExactlyWhen(pattern: string, patterns: seq<string>, values: seq<string>)
    requires ComponentsOf(pattern, patterns) && '*' in pattern && |values| >= 1 && AllWithout(values, '/')
    ensures MemberAccepts(pattern, Join(values, '/')) <==>
            |patterns| == |values| && forall i :: 0 <= i < |patterns| ==> ComponentAccepts(patterns[i], values[i])
  {
    ComponentsSplit(pattern, patterns);
    SplitJoin(values, '/');
  }

  /** Without stars a path pattern accepts only itself. */
  lemma StarFreePath(pattern: string, value: string)
    requires '*' !in pattern
    ensures PathAccepts(pattern, value) <==> pattern == value
  {
    var patterns, values := Split(pattern, '/'), Split(value, '/');
    JoinSplit(pattern, '/');
    JoinSplit(value, '/');
    SplitKeepsOut(pattern, '/', '*');
    forall i, v | 0 <= i < |patterns| ensures ComponentAccepts(patterns[i], v) <==> patterns[i] == v {
      LiteralMatches(patterns[i], v);
    }
    if PathAccepts(pattern, value) {
      assert patterns == values;
    }
  }

  lemma ForwardSlashesFacts(path: string)
    ensures ForwardSlashes(path) == path <==> Without(path, '\\')
    ensures Without(ForwardSlashes(path), '\\')
    ensures '*' in ForwardSlashes(path) <==> '*' in path
  {
    if ForwardSlashes(path) == path {
      forall i | 0 <= i < |path| ensures path[i] != '\\' {
        assert ForwardSlashes(path)[i] == path[i];
      }
    }
    forall i | 0 <= i < |path| ensures ForwardSlashes(path)[i] == '*' <==> path[i] == '*' {
    }
    if '*' in path {
      var i :| 0 <= i < |path| && path[i] == '*';
      assert ForwardSlashes(path)[i] == '*';
    }
  }

  /**
   On backslash-free paths the two copies agree for a pattern if and only if it has a `*`
   or no backslash; in particular they agree on every backslash-free pattern and path.
   */
  lemma CopiesAgreeExactlyWhen(pattern: string)
    ensures (forall value :: Without(value, '\\') ==>
               (DiscoveryAccepts(pattern, value) <==> MemberAccepts(pattern, value)))
            <==> '*' in pattern || Without(pattern, '\\')
  {
    ForwardSlashesFacts(pattern);
    forall value | Without(value, '\\') && ('*' in pattern || Without(pattern, '\\'))
      ensures DiscoveryAccepts(pattern, value) <==> MemberAccepts(pattern, value)
    {
      ForwardSlashesFacts(value);
      if '*' !in pattern { StarFreePath(pattern, value); }
    }
    if '*' !in pattern && !Without(pattern, '\\') {
      var value := ForwardSlashes(pattern);
      ForwardSlashesFacts(value);
      StarFreePath(ForwardSlashes(pattern), ForwardSlashes(value));
      assert DiscoveryAccepts(pattern, value) && !MemberAccepts(pattern, value);
    }
  }
}
