/**
 The string operations the source uses: splitting at a character, joining, and
 leftmost and rightmost substring search, as Rust's `str` defines them.
 */
module Text {
  import opened Wrappers

  predicate StartsWith(s: string, prefix: string)
  {
    |prefix| <= |s| && s[..|prefix|] == prefix
  }

  /** `needle` occurs in `s` at position `i`. */
  predicate OccursAt(s: string, needle: string, i: int)
  {
    0 <= i && i + |needle| <= |s| && s[i..i + |needle|] == needle
  }

  ghost predicate Contains(s: string, needle: string)
  {
    exists i :: OccursAt(s, needle, i)
  }

  lemma OccurrenceInPrefix(s: string, n: nat, needle: string, i: int)
    requires n <= |s| && OccursAt(s[..n], needle, i)
    ensures OccursAt(s, needle, i)
  {
    assert s[i..i + |needle|] == s[..n][i..i + |needle|];
  }

  lemma OccurrenceHead(s: string, needle: string, i: int)
    requires needle != "" && OccursAt(s, needle, i)
    ensures s[i] == needle[0]
  {
    assert s[i] == s[i..i + |needle|][0];
  }

  /** The text before the leftmost occurrence holds none. */
  lemma BeforeFirst(s: string, needle: string)
    requires needle != "" && Find(s, needle).Some?
    ensures !Contains(s[..Find(s, needle).value], needle)
  {
    var n := Find(s, needle).value;
    forall i | OccursAt(s[..n], needle, i) ensures i >= n {
      OccurrenceInPrefix(s, n, needle, i);
    }
  }

  function FindFrom(s: string, needle: string, start: nat): (r: Option<nat>)
    requires start <= |s|
    ensures r.Some? ==> start <= r.value && OccursAt(s, needle, r.value)
    ensures r.Some? ==> forall i :: start <= i < r.value ==> !OccursAt(s, needle, i)
    ensures r.None? ==> forall i :: start <= i ==> !OccursAt(s, needle, i)
    decreases |s| - start
  {
    if OccursAt(s, needle, start) then Some(start)
    else if start == |s| then None
    else FindFrom(s, needle, start + 1)
  }

  /** `str::find`: the leftmost occurrence. */
  function Find(s: string, needle: string): (r: Option<nat>)
    ensures r.Some? ==> OccursAt(s, needle, r.value) && forall i :: 0 <= i < r.value ==> !OccursAt(s, needle, i)
    ensures r.None? <==> !Contains(s, needle)
  {
    FindFrom(s, needle, 0)
  }

  function RFindBelow(s: string, needle: string, limit: nat): (r: Option<nat>)
    ensures r.Some? ==> r.value < limit && OccursAt(s, needle, r.value)
    ensures r.Some? ==> forall i :: r.value < i < limit ==> !OccursAt(s, needle, i)
    ensures r.None? ==> forall i :: 0 <= i < limit ==> !OccursAt(s, needle, i)
  {
    if limit == 0 then None
    else if OccursAt(s, needle, limit - 1) then Some(limit - 1)
    else RFindBelow(s, needle, limit - 1)
  }

  /** `str::rfind`: the rightmost occurrence. */
  function RFind(s: string, needle: string): (r: Option<nat>)
    ensures r.Some? ==> OccursAt(s, needle, r.value) && forall i :: r.value < i ==> !OccursAt(s, needle, i)
    ensures r.None? <==> !Contains(s, needle)
  {
    RFindBelow(s, needle, |s| + 1)
  }

  /** `str::split` at one character: always at least one part. */
  function Split(s: string, sep: char): (parts: seq<string>)
    ensures |parts| >= 1
  {
    if s == [] then [""]
    else
      var rest := Split(s[1..], sep);
      if s[0] == sep then [""] + rest else [[s[0]] + rest[0]] + rest[1..]
  }

  function Join(parts: seq<string>, sep: char): string
    requires |parts| >= 1
  {
    if |parts| == 1 then parts[0] else parts[0] + [sep] + Join(parts[1..], sep)
  }

  /** The parts one after the other. */
  function Concat(parts: seq<string>): string
  {
    if parts == [] then "" else parts[0] + Concat(parts[1..])
  }

  ghost predicate Without(s: string, c: char)
  {
    forall i :: 0 <= i < |s| ==> s[i] != c
  }

  ghost predicate AllWithout(parts: seq<string>, c: char)
  {
    forall i :: 0 <= i < |parts| ==> Without(parts[i], c)
  }

  /** Joining the parts of a split restores the string, and no part holds the separator. */
  lemma {:induction false} JoinSplit(s: string, sep: char)
    ensures AllWithout(Split(s, sep), sep)
    ensures Join(Split(s, sep), sep) == s
  {
    if s != [] {
      JoinSplit(s[1..], sep);
      var rest := Split(s[1..], sep);
      var parts := Split(s, sep);
      if s[0] == sep {
        assert parts[1..] == rest;
        assert [s[0]] + s[1..] == s;
      } else {
        JoinHead([s[0]], rest, sep);
        assert [s[0]] + s[1..] == s;
      }
    }
  }

  lemma {:induction false} JoinAppend(parts: seq<string>, part: string, sep: char)
    requires |parts| >= 1
    ensures Join(parts + [part], sep) == Join(parts, sep) + ([sep] + part)
  {
    var longer := parts + [part];
    if |parts| == 1 {
      assert longer[1..] == [part];
    } else {
      JoinAppend(parts[1..], part, sep);
      assert longer[1..] == parts[1..] + [part];
      assert parts[0] + [sep] + (Join(parts[1..], sep) + ([sep] + part)) ==
             parts[0] + [sep] + Join(parts[1..], sep) + ([sep] + part);
    }
  }

  lemma JoinHead(prefix: string, parts: seq<string>, sep: char)
    requires |parts| >= 1
    ensures Join([prefix + parts[0]] + parts[1..], sep) == prefix + Join(parts, sep)
  {
    var joined := [prefix + parts[0]] + parts[1..];
    if |parts| > 1 {
      assert joined[1..] == parts[1..];
      assert prefix + parts[0] + [sep] + Join(parts[1..], sep) == prefix + (parts[0] + [sep] + Join(parts[1..], sep));
    }
  }

  /** Splitting a join restores separator-free parts. */
  lemma {:induction false} SplitJoin(parts: seq<string>, sep: char)
    requires |parts| >= 1 && AllWithout(parts, sep)
    ensures Split(Join(parts, sep), sep) == parts
    decreases |parts|, |parts[0]|
  {
    var s := Join(parts, sep);
    if parts[0] == [] {
      if |parts| > 1 {
        SplitJoin(parts[1..], sep);
        assert s[1..] == Join(parts[1..], sep);
        assert parts == [""] + parts[1..];
      } else {
        assert parts == [""];
      }
    } else {
      var shorter := [parts[0][1..]] + parts[1..];
      forall i | 0 <= i < |shorter| ensures Without(shorter[i], sep) {
        assert Without(parts[i], sep);
      }
      assert shorter[1..] == parts[1..];
      SplitJoin(shorter, sep);
      JoinHead([parts[0][0]], shorter, sep);
      assert [parts[0][0]] + shorter[0] == parts[0];
      assert [parts[0]] + shorter[1..] == parts;
      assert s[0] == parts[0][0] && s[1..] == Join(shorter, sep);
      assert Without(parts[0], sep);
    }
  }

  // ----- what stays out of splits and joins

  lemma {:induction false} SplitKeepsOut(s: string, sep: char, c: char)
    requires Without(s, c)
    ensures AllWithout(Split(s, sep), c)
  {
    if s != "" {
      SplitKeepsOut(s[1..], sep, c);
      var rest, parts := Split(s[1..], sep), Split(s, sep);
      forall i | 0 <= i < |parts| ensures Without(parts[i], c) {
        if s[0] == sep {
          if i > 0 { assert parts[i] == rest[i - 1]; }
        } else {
          assert Without(rest[i], c);
        }
      }
    }
  }

  lemma {:induction false} JoinKeepsOut(parts: seq<string>, sep: char, c: char)
    requires |parts| >= 1 && AllWithout(parts, c) && c != sep
    ensures Without(Join(parts, sep), c)
  {
    assert Without(parts[0], c);
    if |parts| > 1 {
      assert AllWithout(parts[1..], c);
      JoinKeepsOut(parts[1..], sep, c);
    }
  }

  lemma Associate(a: string, b: string, c: string)
    ensures a + b + c == a + (b + c)
  {
  }

  /** `str::replace` of one character by another. */
  function Replace(s: string, from: char, to: char): (r: string)
    ensures |r| == |s|
    ensures forall i :: 0 <= i < |s| ==> r[i] == if s[i] == from then to else s[i]
  {
    seq(|s|, i requires 0 <= i < |s| => if s[i] == from then to else s[i])
  }

  function ForwardSlashes(path: string): string
  {
    Replace(path, '\\', '/')
  }

  /** The path written with forward slashes only. */
  ghost predicate Forward(path: string, forward: string)
  {
    |forward| == |path| && forall i :: 0 <= i < |path| ==> forward[i] == if path[i] == '\\' then '/' else path[i]
  }

  /** The components between forward slashes and backslashes. */
  ghost predicate ComponentsOf(path: string, components: seq<string>)
  {
    |components| >= 1 && AllWithout(components, '/') && Forward(path, Join(components, '/'))
  }

  lemma ComponentsSplit(path: string, components: seq<string>)
    requires ComponentsOf(path, components)
    ensures Split(ForwardSlashes(path), '/') == components
  {
    assert ForwardSlashes(path) == Join(components, '/');
    SplitJoin(components, '/');
  }
}
