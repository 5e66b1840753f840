/**
 Length-prefixed byte fields, as both identity hashers feed them: a 64-bit length, little or
 big endian, followed by the bytes. One character per byte.
 */
module Framing {
  import opened Decimals

  function Pow256(width: nat): (r: nat)
    ensures r >= 1
  {
    if width == 0 then 1 else 256 * Pow256(width - 1)
  }

  function LittleEndian(n: nat, width: nat): (s: string)
    ensures |s| == width
  {
    if width == 0 then "" else [(n % 256) as char] + LittleEndian(n / 256, width - 1)
  }

  function BigEndian(n: nat, width: nat): (s: string)
    ensures |s| == width
  {
    if width == 0 then "" else BigEndian(n / 256, width - 1) + [(n % 256) as char]
  }

  lemma EightBytes()
    ensures Pow256(8) == U64
  {
    assert Pow256(2) == 65536;
    assert Pow256(4) == 65536 * 65536;
    assert Pow256(6) == 65536 * 65536 * 65536;
  }

  /** `update_identity_field` */
  function LittleField(s: string): string
  {
    LittleEndian(|s|, 8) + s
  }

  /** `update_part` */
  function BigField(s: string): string
  {
    BigEndian(|s|, 8) + s
  }

  // ----- reading fields back

  /** The number behind bytes, least significant first. */
  function FromLittle(s: string): nat
  {
    if s == "" then 0 else s[0] as int + 256 * FromLittle(s[1..])
  }

  /** The number behind bytes, most significant first. */
  function FromBig(s: string): nat
  {
    if s == "" then 0 else 256 * FromBig(s[..|s| - 1]) + s[|s| - 1] as int
  }

  lemma {:induction false} LittleReadsBack(n: nat, width: nat)
    requires n < Pow256(width)
    ensures FromLittle(LittleEndian(n, width)) == n
  {
    if width > 0 { LittleReadsBack(n / 256, width - 1); }
  }

  lemma {:induction false} BigReadsBack(n: nat, width: nat)
    requires n < Pow256(width)
    ensures FromBig(BigEndian(n, width)) == n
  {
    if width > 0 {
      BigReadsBack(n / 256, width - 1);
      var s := BigEndian(n, width);
      assert s[..|s| - 1] == BigEndian(n / 256, width - 1);
    }
  }

  /** A field of the announced length and what follows it. */
  datatype Cut = Cut(field: string, rest: string) | NoField

  function CutField(s: string, length: string -> nat): Cut
  {
    if |s| < 8 then NoField
    else if |s| < 8 + length(s[..8]) then NoField
    else Cut(s[8..8 + length(s[..8])], s[8 + length(s[..8])..])
  }

  lemma CutBack(prefix: string, field: string, rest: string, length: string -> nat)
    requires |prefix| == 8 && length(prefix) == |field|
    ensures CutField(prefix + field + rest, length) == Cut(field, rest)
  {
    var s := prefix + field + rest;
    assert s[..8] == prefix && s[8..8 + |field|] == field && s[8 + |field|..] == rest;
  }

  /** Little-endian fields read back with the length they announce. */
  lemma LittleFieldReadsBack(field: string, rest: string)
    requires |field| < U64
    ensures CutField(LittleField(field) + rest, FromLittle) == Cut(field, rest)
  {
    EightBytes();
    LittleReadsBack(|field|, 8);
    CutBack(LittleEndian(|field|, 8), field, rest, FromLittle);
  }

  lemma BigFieldReadsBack(field: string, rest: string)
    requires |field| < U64
    ensures CutField(BigField(field) + rest, FromBig) == Cut(field, rest)
  {
    EightBytes();
    BigReadsBack(|field|, 8);
    CutBack(BigEndian(|field|, 8), field, rest, FromBig);
  }

  lemma SplitAt(a: string, b: string, c: string, d: string)
    requires |a| == |b| && a + c == b + d
    ensures a == b && c == d
  {
    assert (a + c)[..|a|] == a && (b + d)[..|b|] == b;
    assert (a + c)[|a|..] == c && (b + d)[|b|..] == d;
  }

  /** So they are prefix-free. */
  lemma LittleFieldPrefixFree(s: string, t: string, rest: string, rest': string)
    requires |s| < U64 && |t| < U64 && LittleField(s) + rest == LittleField(t) + rest'
    ensures s == t && rest == rest'
  {
    LittleFieldReadsBack(s, rest);
    LittleFieldReadsBack(t, rest');
  }

  lemma BigFieldPrefixFree(s: string, t: string, rest: string, rest': string)
    requires |s| < U64 && |t| < U64 && BigField(s) + rest == BigField(t) + rest'
    ensures s == t && rest == rest'
  {
    BigFieldReadsBack(s, rest);
    BigFieldReadsBack(t, rest');
  }

  /** An incremental hasher: the digest is a function of the bytes fed so far. */
  class Hasher {
    var fed: string

    constructor ()
      ensures fed == ""
    {
      fed := "";
    }

    method Update(bytes: string)
      modifies this
      ensures fed == old(fed) + bytes
    {
      fed := fed + bytes;
    }

    method UpdateLittleField(field: string)
      modifies this
      ensures fed == old(fed) + LittleField(field)
    {
      Update(LittleEndian(|field|, 8));
      Update(field);
    }

    method UpdateBigField(part: string)
      modifies this
      ensures fed == old(fed) + BigField(part)
    {
      Update(BigEndian(|part|, 8));
      Update(part);
    }
  }
}
