/**
 Rust strings as the bytes they hold: a `string` here is a sequence of characters below
 256, one per byte. Well-formed UTF-8 (section 4 of RFC 3629) and the characters that
 `char::is_whitespace` recognises are spelled out on those bytes.
 */
module Utf8 {

  function Byte(c: char): int
  {
    c as int
  }

  predicate Continuation(c: char)
  {
    0x80 <= Byte(c) < 0xC0
  }

  predicate SecondByte(lead: int, c: char)
  {
    if lead == 0xE0 then 0xA0 <= Byte(c) < 0xC0
    else if lead == 0xED then 0x80 <= Byte(c) < 0xA0
    else if lead == 0xF0 then 0x90 <= Byte(c) < 0xC0
    else if lead == 0xF4 then 0x80 <= Byte(c) < 0x90
    else Continuation(c)
  }

  /** The bytes a lead byte announces; zero for a byte that starts no character. */
  function LeadLength(lead: int): (n: nat)
    ensures n <= 4
  {
    if lead < 0x80 then 1
    else if 0xC2 <= lead < 0xE0 then 2
    else if 0xE0 <= lead < 0xF0 then 3
    else if 0xF0 <= lead < 0xF5 then 4
    else 0
  }

  /** A well-formed character stands at the front of `s`. */
  predicate CharacterAtFront(s: string)
  {
    s != "" &&
    var n := LeadLength(Byte(s[0]));
    && 1 <= n <= |s|
    && (n >= 2 ==> SecondByte(Byte(s[0]), s[1]))
    && (n >= 3 ==> Continuation(s[2]))
    && (n >= 4 ==> Continuation(s[3]))
  }

  predicate Valid(s: string)
  {
    s == "" || (CharacterAtFront(s) && Valid(s[LeadLength(Byte(s[0]))..]))
  }

  predicate IsBytes(s: string)
  {
    forall i :: 0 <= i < |s| ==> Byte(s[i]) < 256
  }

  lemma {:induction false} ValidIsBytes(s: string)
    requires Valid(s)
    ensures IsBytes(s)
  {
    if s != "" {
      var n := LeadLength(Byte(s[0]));
      ValidIsBytes(s[n..]);
      forall i | 0 <= i < |s| ensures Byte(s[i]) < 256 {
        if i >= n { assert s[i] == s[n..][i - n]; }
      }
    }
  }

  lemma {:induction false} AsciiIsValid(s: string)
    requires forall i :: 0 <= i < |s| ==> Byte(s[i]) < 0x80
    ensures Valid(s)
  {
    if s != "" {
      assert LeadLength(Byte(s[0])) == 1;
      AsciiIsValid(s[1..]);
    }
  }

  /** An ASCII byte ends a character, so cutting before it keeps both sides well formed. */
  lemma {:induction false} CutBeforeAscii(a: string, b: string)
    requires b != "" && Byte(b[0]) < 0x80 && Valid(a + b)
    ensures Valid(a)
  {
    if a != "" {
      var n := LeadLength(Byte(a[0]));
      FrontBeforeAscii(a, b);
      assert (a + b)[0] == a[0];
      assert (a + b)[n..] == a[n..] + b;
      CutBeforeAscii(a[n..], b);
    }
  }

  lemma FrontBeforeAscii(a: string, b: string)
    requires a != "" && b != "" && Byte(b[0]) < 0x80 && CharacterAtFront(a + b)
    ensures CharacterAtFront(a)
  {
    var s := a + b;
    assert s[0] == a[0] && s[|a|] == b[0];
    assert |a| > 1 ==> s[1] == a[1];
    assert |a| > 2 ==> s[2] == a[2];
    assert |a| > 3 ==> s[3] == a[3];
  }

  // ----- the scalar values behind the bytes

  /** A Unicode scalar value: a code point that is no surrogate. */
  predicate IsScalar(u: int)
  {
    0 <= u < 0xD800 || 0xE000 <= u < 0x110000
  }

  /** The UTF-8 form of a scalar value, as the table of section 3 of RFC 3629 lays it out. */
  function EncodeScalar(u: int): (s: string)
    requires IsScalar(u)
    ensures 1 <= |s| <= 4
  {
    if u < 0x80 then [u as char]
    else if u < 0x800 then [(0xC0 + u / 0x40) as char, (0x80 + u % 0x40) as char]
    else if u < 0x10000 then
      [(0xE0 + u / 0x1000) as char, (0x80 + u / 0x40 % 0x40) as char, (0x80 + u % 0x40) as char]
    else
      [(0xF0 + u / 0x40000) as char, (0x80 + u / 0x1000 % 0x40) as char,
       (0x80 + u / 0x40 % 0x40) as char, (0x80 + u % 0x40) as char]
  }

  /** The bytes from `b` on carry six bits each under the lead's `high` bits. */
  lemma SixBits(high: int, a: int, b: int, c: int)
    requires 0 <= high && 0 <= a < 0x40 && 0 <= b < 0x40 && 0 <= c < 0x40
    ensures var u := high * 0x40000 + a * 0x1000 + b * 0x40 + c;
            u % 0x40 == c && u / 0x40 % 0x40 == b && u / 0x1000 % 0x40 == a && u / 0x40000 == high
            && u / 0x1000 == high * 0x40 + a && u / 0x40 == high * 0x1000 + a * 0x40 + b
  {
  }

  lemma ScalarAtFront(s: string) returns (u: int)
    requires CharacterAtFront(s)
    ensures IsScalar(u) && EncodeScalar(u) == s[..LeadLength(Byte(s[0]))]
  {
    var n := LeadLength(Byte(s[0]));
    if n == 1 {
      u := Byte(s[0]);
    } else if n == 2 {
      SixBits(0, 0, Byte(s[0]) - 0xC0, Byte(s[1]) - 0x80);
      u := (Byte(s[0]) - 0xC0) * 0x40 + (Byte(s[1]) - 0x80);
    } else if n == 3 {
      SixBits(0, Byte(s[0]) - 0xE0, Byte(s[1]) - 0x80, Byte(s[2]) - 0x80);
      u := (Byte(s[0]) - 0xE0) * 0x1000 + (Byte(s[1]) - 0x80) * 0x40 + (Byte(s[2]) - 0x80);
    } else {
      SixBits(Byte(s[0]) - 0xF0, Byte(s[1]) - 0x80, Byte(s[2]) - 0x80, Byte(s[3]) - 0x80);
      u := (Byte(s[0]) - 0xF0) * 0x40000 + (Byte(s[1]) - 0x80) * 0x1000 + (Byte(s[2]) - 0x80) * 0x40
           + (Byte(s[3]) - 0x80);
    }
  }

  lemma ScalarStands(u: int, rest: string)
    requires IsScalar(u)
    ensures var s := EncodeScalar(u) + rest;
            CharacterAtFront(s) && LeadLength(Byte(s[0])) == |EncodeScalar(u)|
  {
    var s := EncodeScalar(u) + rest;
    assert forall i :: 0 <= i < |EncodeScalar(u)| ==> s[i] == EncodeScalar(u)[i];
    SixBits(u / 0x40000, u / 0x1000 % 0x40, u / 0x40 % 0x40, u % 0x40);
  }

  function EncodeScalars(scalars: seq<int>): string
    requires forall i :: 0 <= i < |scalars| ==> IsScalar(scalars[i])
  {
    if scalars == [] then "" else EncodeScalar(scalars[0]) + EncodeScalars(scalars[1..])
  }

  ghost predicate SpellsScalars(s: string, scalars: seq<int>)
  {
    (forall i :: 0 <= i < |scalars| ==> IsScalar(scalars[i])) && s == EncodeScalars(scalars)
  }

  lemma {:induction false} ScalarsOf(s: string) returns (scalars: seq<int>)
    requires Valid(s)
    ensures SpellsScalars(s, scalars)
  {
    scalars := [];
    if s != "" {
      var n := LeadLength(Byte(s[0]));
      var u := ScalarAtFront(s);
      var rest := ScalarsOf(s[n..]);
      scalars := [u] + rest;
      assert scalars[1..] == rest && s == s[..n] + s[n..];
    }
  }

  lemma {:induction false} ScalarsValid(scalars: seq<int>)
    requires forall i :: 0 <= i < |scalars| ==> IsScalar(scalars[i])
    ensures Valid(EncodeScalars(scalars))
  {
    if scalars != [] {
      var head, rest := EncodeScalar(scalars[0]), EncodeScalars(scalars[1..]);
      ScalarsValid(scalars[1..]);
      ScalarStands(scalars[0], rest);
      assert (head + rest)[|head|..] == rest;
    }
  }

  /** Well-formed texts are exactly the encodings of sequences of scalar values. */
  lemma ValidExactlyWhen(s: string)
    ensures Valid(s) <==> exists scalars :: SpellsScalars(s, scalars)
  {
    if Valid(s) { var scalars := ScalarsOf(s); }
    forall scalars | SpellsScalars(s, scalars) ensures Valid(s) { ScalarsValid(scalars); }
  }

  // ----- whitespace

  /** The length of the whitespace character at the front of `s`, or zero. */
  function WhitespaceLength(s: string): (n: nat)
    ensures n <= |s|
  {
    if s == "" then 0
    else if 9 <= Byte(s[0]) <= 13 || Byte(s[0]) == 32 then 1
    else if |s| >= 2 && Byte(s[0]) == 0xC2 && Byte(s[1]) in {0x85, 0xA0} then 2
    else if |s| >= 3 && Byte(s[0]) == 0xE1 && Byte(s[1]) == 0x9A && Byte(s[2]) == 0x80 then 3
    else if |s| >= 3 && Byte(s[0]) == 0xE2 && Byte(s[1]) == 0x80 &&
            (0x80 <= Byte(s[2]) <= 0x8A || Byte(s[2]) in {0xA8, 0xA9, 0xAF}) then 3
    else if |s| >= 3 && Byte(s[0]) == 0xE2 && Byte(s[1]) == 0x81 && Byte(s[2]) == 0x9F then 3
    else if |s| >= 3 && Byte(s[0]) == 0xE3 && Byte(s[1]) == 0x80 && Byte(s[2]) == 0x80 then 3
    else 0
  }

  /** The code points with the Unicode property White_Space. */
  predicate WhiteSpace(u: int)
  {
    || 0x9 <= u <= 0xD || u == 0x20 || u == 0x85 || u == 0xA0 || u == 0x1680 || 0x2000 <= u <= 0x200A
    || u == 0x2028 || u == 0x2029 || u == 0x202F || u == 0x205F || u == 0x3000
  }

  ghost predicate StandsFirst(s: string, u: int)
  {
    IsScalar(u) && |EncodeScalar(u)| <= |s| && s[..|EncodeScalar(u)|] == EncodeScalar(u)
  }

  lemma WhiteSpaceFirst(s: string, u: int)
    requires WhiteSpace(u) && StandsFirst(s, u)
    ensures WhitespaceLength(s) == |EncodeScalar(u)|
  {
    var t := EncodeScalar(u);
    assert forall i :: 0 <= i < |t| ==> s[i] == t[i];
  }

  lemma FirstWhiteSpace(s: string) returns (u: int)
    requires WhitespaceLength(s) > 0
    ensures WhiteSpace(u) && StandsFirst(s, u) && WhitespaceLength(s) == |EncodeScalar(u)|
  {
    var n := WhitespaceLength(s);
    u := if n == 1 then Byte(s[0])
         else if n == 2 then Byte(s[1])
         else (Byte(s[0]) - 0xE0) * 0x1000 + (Byte(s[1]) - 0x80) * 0x40 + (Byte(s[2]) - 0x80);
  }

  /** Whitespace of some length stands at the front exactly when a White_Space character does. */
  lemma WhitespaceExactlyWhen(s: string, n: nat)
    requires n > 0
    ensures WhitespaceLength(s) == n <==>
            exists u :: WhiteSpace(u) && StandsFirst(s, u) && |EncodeScalar(u)| == n
  {
    if WhitespaceLength(s) == n { var u := FirstWhiteSpace(s); }
    forall u | WhiteSpace(u) && StandsFirst(s, u) ensures WhitespaceLength(s) == |EncodeScalar(u)| {
      WhiteSpaceFirst(s, u);
    }
  }

  /** `s.trim().is_empty()` */
  predicate IsBlank(s: string)
  {
    s == "" || (WhitespaceLength(s) > 0 && IsBlank(s[WhitespaceLength(s)..]))
  }

  lemma {:induction false} BlankScalars(s: string) returns (scalars: seq<int>)
    requires IsBlank(s)
    ensures SpellsScalars(s, scalars) && forall i :: 0 <= i < |scalars| ==> WhiteSpace(scalars[i])
  {
    scalars := [];
    if s != "" {
      var n := WhitespaceLength(s);
      var u := FirstWhiteSpace(s);
      var rest := BlankScalars(s[n..]);
      scalars := [u] + rest;
      assert scalars[1..] == rest && s == s[..n] + s[n..];
    }
  }

  lemma {:induction false} ScalarsBlank(scalars: seq<int>)
    requires forall i :: 0 <= i < |scalars| ==> IsScalar(scalars[i]) && WhiteSpace(scalars[i])
    ensures IsBlank(EncodeScalars(scalars))
  {
    if scalars != [] {
      var head, rest := EncodeScalar(scalars[0]), EncodeScalars(scalars[1..]);
      ScalarsBlank(scalars[1..]);
      assert (head + rest)[..|head|] == head && (head + rest)[|head|..] == rest;
      WhiteSpaceFirst(head + rest, scalars[0]);
    }
  }

  /** Blank texts are exactly the runs of White_Space characters. */
  lemma BlankExactlyWhen(s: string)
    ensures IsBlank(s) <==>
            exists scalars :: SpellsScalars(s, scalars) && forall i :: 0 <= i < |scalars| ==> WhiteSpace(scalars[i])
  {
    if IsBlank(s) { var scalars := BlankScalars(s); }
    forall scalars | SpellsScalars(s, scalars) && forall i :: 0 <= i < |scalars| ==> WhiteSpace(scalars[i])
      ensures IsBlank(s)
    {
      ScalarsBlank(scalars);
    }
  }

  /** Whether whitespace stands at the front is decided by its own bytes. */
  lemma WhitespacePrefix(a: string, b: string)
    requires WhitespaceLength(a) > 0
    ensures WhitespaceLength(a + b) == WhitespaceLength(a)
  {
    var s := a + b;
    assert s[0] == a[0];
    assert |a| > 1 ==> s[1] == a[1];
    assert |a| > 2 ==> s[2] == a[2];
  }

  /** No whitespace character straddles the end of a text that ends or meets whitespace. */
  lemma NoStraddle(a: string, b: string)
    requires a != "" && WhitespaceLength(a) == 0 && (b == "" || WhitespaceLength(b) > 0)
    ensures WhitespaceLength(a + b) == 0
  {
    var s := a + b;
    assert s[0] == a[0];
    assert |a| > 1 ==> s[1] == a[1];
    assert |a| > 2 ==> s[2] == a[2];
    assert b != "" ==> s[|a|] == b[0];
  }

  /** No whitespace anywhere. */
  ghost predicate SpaceFree(s: string)
  {
    forall i :: 0 <= i < |s| ==> WhitespaceLength(s[i..]) == 0
  }

  lemma {:induction false} BlankAppend(a: string, b: string)
    requires IsBlank(a) && IsBlank(b)
    ensures IsBlank(a + b)
  {
    if a == "" {
      assert a + b == b;
    } else {
      var n := WhitespaceLength(a);
      WhitespacePrefix(a, b);
      assert (a + b)[n..] == a[n..] + b;
      BlankAppend(a[n..], b);
    }
  }
}
