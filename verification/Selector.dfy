/**
 Canonical item selectors: percent encoding of components (sections 2.1 and 2.3 of RFC 3986),
 the printed identity path, and the parser (src/structural_selector.rs, src/content_identity.rs).
 */
module Selector {
  import opened Wrappers
  import opened Text
  import Utf8

  datatype SelectorError =
    | MissingScheme
    | MissingFragment
    | MissingSymbol
    | InvalidEscape
    | InvalidUtf8
    | EmptyComponent
    | UnexpectedComponent(marker: string)
    | MissingScopeRelation
    | MissingScopeKind
    | MissingScopeSymbol
    | BlankComponent

  type SelectorResult<+T> = Result<T, SelectorError>

  datatype Scope = Scope(relation: string, kind: string, symbol: string)

  datatype Identity = Identity(languageId: string, kind: string, symbol: string, scopes: seq<Scope>)

  /** A parsed selector: the identity fields beside the text they were read from. */
  datatype CanonicalSelector = CanonicalSelector(identity: Identity, structuralSelector: string)

  /** The texts of an identity are Rust strings. */
  ghost predicate WellTyped(identity: Identity)
  {
    && Utf8.Valid(identity.languageId) && Utf8.Valid(identity.kind) && Utf8.Valid(identity.symbol)
    && ScopesWellTyped(identity.scopes)
  }

  ghost predicate ScopesWellTyped(scopes: seq<Scope>)
  {
    forall i :: 0 <= i < |scopes| ==>
      Utf8.Valid(scopes[i].relation) && Utf8.Valid(scopes[i].kind) && Utf8.Valid(scopes[i].symbol)
  }

  predicate ScopeValid(scope: Scope)
  {
    !Utf8.IsBlank(scope.relation) && !Utf8.IsBlank(scope.kind) && !Utf8.IsBlank(scope.symbol)
  }

  /** `CanonicalItemIdentity::validate`: no component is blank. */
  predicate IdentityValid(identity: Identity)
  {
    && !Utf8.IsBlank(identity.languageId) && !Utf8.IsBlank(identity.kind) && !Utf8.IsBlank(identity.symbol)
    && forall i :: 0 <= i < |identity.scopes| ==> ScopeValid(identity.scopes[i])
  }

  // ----- components

  predicate Unreserved(c: char)
  {
    'a' <= c <= 'z' || 'A' <= c <= 'Z' || '0' <= c <= '9' || c in {'-', '.', '_', '~'}
  }

  function UpperHex(n: int): char
    requires 0 <= n < 16
  {
    if n < 10 then '0' + n as char else 'A' + (n - 10) as char
  }

  function EncodeByte(c: char): string
  {
    if Unreserved(c) then [c]
    else ['%', UpperHex(Utf8.Byte(c) / 16 % 16), UpperHex(Utf8.Byte(c) % 16)]
  }

  function Encode(component: string): string
  {
    if component == "" then "" else EncodeByte(component[0]) + Encode(component[1..])
  }

  method EncodeComponent(component: string) returns (encoded: string)
    ensures encoded == Encode(component)
  {
    encoded := "";
    for i := 0 to |component|
      invariant Encode(component) == encoded + Encode(component[i..])
    {
      assert component[i..][0] == component[i] && component[i..][1..] == component[i + 1..];
      assert encoded + (EncodeByte(component[i]) + Encode(component[i + 1..])) ==
             encoded + EncodeByte(component[i]) + Encode(component[i + 1..]);
      encoded := encoded + EncodeByte(component[i]);
    }
  }

  function DecodeHex(c: char): (r: Option<int>)
    ensures r.Some? ==> 0 <= r.value < 16
  {
    if '0' <= c <= '9' then Some(c as int - '0' as int)
    else if 'a' <= c <= 'f' then Some(c as int - 'a' as int + 10)
    else if 'A' <= c <= 'F' then Some(c as int - 'A' as int + 10)
    else None
  }

  /** The byte behind an escape at the front of `s`. */
  function Unescape(s: string): Option<char>
  {
    if |s| < 3 then None
    else
      var high, low := DecodeHex(s[1]), DecodeHex(s[2]);
      if high.None? || low.None? then None else Some((16 * high.value + low.value) as char)
  }

  function WithPrefix(prefix: string, r: SelectorResult<string>): SelectorResult<string>
  {
    match r case Err(e) => Err(e) case Ok(rest) => Ok(prefix + rest)
  }

  function DecodeBytes(s: string): SelectorResult<string>
  {
    if s == "" then Ok("")
    else if s[0] != '%' then WithPrefix([s[0]], DecodeBytes(s[1..]))
    else if Unescape(s).None? then Err(InvalidEscape)
    else WithPrefix([Unescape(s).value], DecodeBytes(s[3..]))
  }

  lemma PrefixesCombine(a: string, b: string, r: SelectorResult<string>)
    ensures WithPrefix(a, WithPrefix(b, r)) == WithPrefix(a + b, r)
    ensures WithPrefix("", r) == r
  {
    if r.Ok? {
      assert a + (b + r.value) == (a + b) + r.value;
      assert "" + r.value == r.value;
    }
  }

  function Decode(s: string): (r: SelectorResult<string>)
    ensures r.Ok? ==> Utf8.Valid(r.value)
  {
    var bytes :- DecodeBytes(s);
    if Utf8.Valid(bytes) then Ok(bytes) else Err(InvalidUtf8)
  }

  method DecodeComponent(component: string) returns (r: SelectorResult<string>)
    ensures r == Decode(component)
  {
    var decoded := "";
    var index := 0;
    PrefixesCombine("", "", DecodeBytes(component));
    assert component[0..] == component;
    while index < |component|
      invariant 0 <= index <= |component|
      invariant DecodeBytes(component) == WithPrefix(decoded, DecodeBytes(component[index..]))
    {
      if component[index] != '%' {
        assert component[index..][1..] == component[index + 1..];
        PrefixesCombine(decoded, [component[index]], DecodeBytes(component[index + 1..]));
        decoded := decoded + [component[index]];
        index := index + 1;
        continue;
      }
      var byte := Unescape(component[index..]);
      if byte.None? {
        return Err(InvalidEscape);
      }
      assert component[index..][3..] == component[index + 3..];
      PrefixesCombine(decoded, [byte.value], DecodeBytes(component[index + 3..]));
      decoded := decoded + [byte.value];
      index := index + 3;
    }
    assert component[index..] == "" && decoded + "" == decoded;
    if Utf8.Valid(decoded) {
      return Ok(decoded);
    }
    return Err(InvalidUtf8);
  }

  lemma UnescapeEncoded(c: char, rest: string)
    requires Utf8.Byte(c) < 256 && !Unreserved(c)
    ensures Unescape(EncodeByte(c) + rest) == Some(c)
  {
    HexDigitReadsBack(Utf8.Byte(c) / 16);
    HexDigitReadsBack(Utf8.Byte(c) % 16);
  }

  lemma HexDigitReadsBack(n: int)
    requires 0 <= n < 16
    ensures DecodeHex(UpperHex(n)) == Some(n)
  {
  }

  lemma {:induction false} DecodeEncodeBytes(component: string)
    requires Utf8.IsBytes(component)
    ensures DecodeBytes(Encode(component)) == Ok(component)
  {
    if component != "" {
      var c, tail := component[0], Encode(component[1..]);
      assert Utf8.Byte(component[0]) < 256;
      assert forall i :: 0 <= i < |component[1..]| ==> Utf8.Byte(component[1..][i]) == Utf8.Byte(component[i + 1]);
      DecodeEncodeBytes(component[1..]);
      var s := EncodeByte(c) + tail;
      assert component == [c] + component[1..];
      if Unreserved(c) {
        assert s[1..] == tail;
      } else {
        UnescapeEncoded(c, tail);
        assert s[3..] == tail;
      }
    }
  }

  /** Decoding undoes encoding on every component. */
  lemma DecodeEncode(component: string)
    requires Utf8.Valid(component)
    ensures Decode(Encode(component)) == Ok(component)
  {
    Utf8.ValidIsBytes(component);
    DecodeEncodeBytes(component);
  }

  /** Only unreserved characters and `%`. */
  ghost predicate InAlphabet(s: string)
  {
    forall i :: 0 <= i < |s| ==> Unreserved(s[i]) || s[i] == '%'
  }

  lemma {:induction false} EncodedAlphabet(component: string)
    ensures InAlphabet(Encode(component))
  {
    if component != "" {
      EncodedAlphabet(component[1..]);
      var head, tail := EncodeByte(component[0]), Encode(component[1..]);
      forall i | 0 <= i < |head + tail| ensures Unreserved((head + tail)[i]) || (head + tail)[i] == '%' {
        if i >= |head| { assert (head + tail)[i] == tail[i - |head|]; }
      }
    }
  }

  // ----- what components spell

  /** How a byte prints: plain characters as themselves, others as `%` and two upper-case digits. */
  ghost predicate PrintsAs(c: char, token: string)
  {
    if 'a' <= c <= 'z' || 'A' <= c <= 'Z' || '0' <= c <= '9' || c == '-' || c == '.' || c == '_' || c == '~'
    then token == [c]
    else && |token| == 3 && token[0] == '%' && 0 <= c as int < 256
         && token[1] == "0123456789ABCDEF"[c as int / 16] && token[2] == "0123456789ABCDEF"[c as int % 16]
  }

  lemma UpperDigit(n: int)
    requires 0 <= n < 16
    ensures UpperHex(n) == "0123456789ABCDEF"[n]
  {
  }

  lemma BytePrints(c: char)
    requires Utf8.Byte(c) < 256
    ensures PrintsAs(c, EncodeByte(c))
  {
    UpperDigit(Utf8.Byte(c) / 16);
    UpperDigit(Utf8.Byte(c) % 16);
  }

  /** The component prints as its bytes do, one after the other. */
  lemma {:induction false} EncodeSpells(component: string) returns (tokens: seq<string>)
    requires Utf8.IsBytes(component)
    ensures |tokens| == |component| && forall i :: 0 <= i < |component| ==> PrintsAs(component[i], tokens[i])
    ensures Encode(component) == Concat(tokens)
  {
    if component == "" {
      tokens := [];
    } else {
      var rest := EncodeSpells(component[1..]);
      assert Utf8.Byte(component[0]) < 256;
      BytePrints(component[0]);
      tokens := [EncodeByte(component[0])] + rest;
      assert tokens[1..] == rest;
    }
  }

  /** A hexadecimal digit in either case. */
  ghost predicate HexDigit(c: char, n: int)
  {
    0 <= n < 16 && (c == "0123456789ABCDEF"[n] || c == "0123456789abcdef"[n])
  }

  lemma HexExactlyWhen(c: char, n: int)
    ensures DecodeHex(c) == Some(n) <==> HexDigit(c, n)
  {
  }

  /** What a token reads as: a character other than `%` as itself, an escape as its byte. */
  ghost predicate ReadsAs(token: string, c: char)
  {
    || (token == [c] && c != '%')
    || (|token| == 3 && token[0] == '%' && 0 <= c as int < 256
        && HexDigit(token[1], c as int / 16) && HexDigit(token[2], c as int % 16))
  }

  /** The text is a run of tokens that read as the bytes. */
  ghost predicate SpellsBytes(s: string, tokens: seq<string>, bytes: string)
  {
    && |tokens| == |bytes| && s == Concat(tokens)
    && forall i :: 0 <= i < |bytes| ==> ReadsAs(tokens[i], bytes[i])
  }

  lemma UnescapeExactlyWhen(s: string, c: char)
    requires s != "" && s[0] == '%'
    ensures Unescape(s) == Some(c) <==> |s| >= 3 && ReadsAs(s[..3], c)
  {
    if |s| >= 3 {
      var high, low := DecodeHex(s[1]), DecodeHex(s[2]);
      HexExactlyWhen(s[1], c as int / 16);
      HexExactlyWhen(s[2], c as int % 16);
      if high.Some? && low.Some? {
        var byte := 16 * high.value + low.value;
        assert byte / 16 == high.value && byte % 16 == low.value;
        assert (byte as char) as int == byte;
      }
    }
  }

  lemma {:induction false} TokensOf(s: string) returns (tokens: seq<string>)
    requires DecodeBytes(s).Ok?
    ensures SpellsBytes(s, tokens, DecodeBytes(s).value)
  {
    tokens := [];
    if s != "" {
      var n := if s[0] == '%' then 3 else 1;
      if s[0] == '%' { UnescapeExactlyWhen(s, Unescape(s).value); }
      var rest := TokensOf(s[n..]);
      tokens := [s[..n]] + rest;
      assert tokens[1..] == rest && s == s[..n] + s[n..];
    }
  }

  lemma {:induction false} DecodeTokens(s: string, tokens: seq<string>, bytes: string)
    requires SpellsBytes(s, tokens, bytes)
    ensures DecodeBytes(s) == Ok(bytes)
    decreases |tokens|
  {
    if tokens != [] {
      var rest := Concat(tokens[1..]);
      assert s == tokens[0] + rest && ReadsAs(tokens[0], bytes[0]);
      DecodeTokens(rest, tokens[1..], bytes[1..]);
      assert bytes == [bytes[0]] + bytes[1..] && s[|tokens[0]|..] == rest;
      if tokens[0][0] == '%' {
        assert s[..3] == tokens[0];
        UnescapeExactlyWhen(s, bytes[0]);
      }
    }
  }

  ghost predicate Spells(s: string, bytes: string)
  {
    exists tokens :: SpellsBytes(s, tokens, bytes)
  }

  lemma BytesExactlyWhen(s: string, bytes: string)
    ensures DecodeBytes(s) == Ok(bytes) <==> Spells(s, bytes)
  {
    if DecodeBytes(s) == Ok(bytes) { var tokens := TokensOf(s); }
    if Spells(s, bytes) {
      var tokens :| SpellsBytes(s, tokens, bytes);
      DecodeTokens(s, tokens, bytes);
    }
  }

  lemma {:induction false} BytesError(s: string)
    ensures DecodeBytes(s).Err? ==> DecodeBytes(s) == Err(InvalidEscape)
  {
    if s != "" && s[0] != '%' { BytesError(s[1..]); }
    if s != "" && s[0] == '%' && |s| >= 3 { BytesError(s[3..]); }
  }

  /** Decoding gives the well-formed text a component spells, in escapes of either case. */
  lemma DecodeExactlyWhen(s: string, text: string)
    ensures Decode(s) == Ok(text) <==> Spells(s, text) && Utf8.Valid(text)
    ensures Decode(s) == Err(InvalidUtf8) <==> exists bytes :: Spells(s, bytes) && !Utf8.Valid(bytes)
    ensures Decode(s) == Err(InvalidEscape) <==> forall bytes :: !Spells(s, bytes)
    ensures Decode(s).Err? ==> Decode(s).error in {InvalidUtf8, InvalidEscape}
  {
    BytesError(s);
    forall bytes ensures DecodeBytes(s) == Ok(bytes) <==> Spells(s, bytes) { BytesExactlyWhen(s, bytes); }
    if DecodeBytes(s).Ok? { assert Spells(s, DecodeBytes(s).value); }
  }

  // ----- printing

  function ScopeComponents(scopes: seq<Scope>): seq<string>
  {
    if scopes == [] then []
    else ["scope", Encode(scopes[0].relation), Encode(scopes[0].kind), Encode(scopes[0].symbol)]
         + ScopeComponents(scopes[1..])
  }

  function Components(identity: Identity): (parts: seq<string>)
    ensures |parts| >= 2
  {
    [Encode(identity.kind), Encode(identity.symbol)] + ScopeComponents(identity.scopes)
  }

  /** The identity path after `item/`: the components joined by slashes. */
  function IdentityPath(identity: Identity): string
  {
    Join(Components(identity), '/')
  }

  lemma {:induction false} ScopeComponentsAppend(scopes: seq<Scope>, scope: Scope)
    ensures ScopeComponents(scopes + [scope]) ==
            ScopeComponents(scopes) + ScopeComponents([scope])
  {
    if scopes != [] {
      ScopeComponentsAppend(scopes[1..], scope);
      assert (scopes + [scope])[1..] == scopes[1..] + [scope];
    }
  }

  lemma AppendPart(prefix: string, parts: seq<string>, part: string)
    requires |parts| >= 1
    ensures prefix + Join(parts, '/') + ("/" + part) == prefix + Join(parts + [part], '/')
  {
    JoinAppend(parts, part, '/');
    Associate(prefix, Join(parts, '/'), "/" + part);
  }

  /** `encode_canonical_item_identity_path`: the loop prints `item/` and the joined components. */
  method EncodeIdentityPath(identity: Identity) returns (path: string)
    ensures path == "item/" + IdentityPath(identity)
  {
    var kind := EncodeComponent(identity.kind);
    var symbol := EncodeComponent(identity.symbol);
    path := "item/" + kind + ("/" + symbol);
    PathStart(identity);
    for i := 0 to |identity.scopes|
      invariant path == "item/" + Join(PathParts(identity, i), '/')
    {
      PathStep(identity, i);
      var printed := EncodeScope(identity.scopes[i]);
      path := path + printed;
    }
    assert identity.scopes[..|identity.scopes|] == identity.scopes;
  }

  /** The components printed before the scope at position `i`. */
  function PathParts(identity: Identity, i: nat): (parts: seq<string>)
    requires i <= |identity.scopes|
    ensures |parts| >= 2
  {
    [Encode(identity.kind), Encode(identity.symbol)] + ScopeComponents(identity.scopes[..i])
  }

  lemma PathStart(identity: Identity)
    ensures "item/" + Encode(identity.kind) + ("/" + Encode(identity.symbol)) ==
            "item/" + Join(PathParts(identity, 0), '/')
  {
    AppendPart("item/", [Encode(identity.kind)], Encode(identity.symbol));
    assert PathParts(identity, 0) == [Encode(identity.kind)] + [Encode(identity.symbol)];
  }

  lemma PathStep(identity: Identity, i: nat)
    requires i < |identity.scopes|
    ensures "item/" + Join(PathParts(identity, i), '/') + ScopeText(identity.scopes[i]) ==
            "item/" + Join(PathParts(identity, i + 1), '/')
  {
    var scope := identity.scopes[i];
    assert identity.scopes[..i + 1] == identity.scopes[..i] + [scope];
    ScopeComponentsAppend(identity.scopes[..i], scope);
    ScopeAppends("item/", PathParts(identity, i), scope);
    assert PathParts(identity, i + 1) == PathParts(identity, i) + ScopeComponents([scope]);
  }

  function ScopeText(scope: Scope): string
  {
    "/scope" + ("/" + Encode(scope.relation)) + ("/" + Encode(scope.kind)) + ("/" + Encode(scope.symbol))
  }

  method EncodeScope(scope: Scope) returns (text: string)
    ensures text == ScopeText(scope)
  {
    text := "/scope";
    var relation := EncodeComponent(scope.relation);
    text := text + ("/" + relation);
    var kind := EncodeComponent(scope.kind);
    text := text + ("/" + kind);
    var symbol := EncodeComponent(scope.symbol);
    text := text + ("/" + symbol);
  }

  lemma ScopeAppends(prefix: string, parts: seq<string>, scope: Scope)
    requires |parts| >= 1
    ensures prefix + Join(parts, '/') + ScopeText(scope) == prefix + Join(parts + ScopeComponents([scope]), '/')
  {
    var relation, kind, symbol := Encode(scope.relation), Encode(scope.kind), Encode(scope.symbol);
    var one := parts + ["scope"];
    var two := one + [relation];
    var three := two + [kind];
    AppendPart(prefix, parts, "scope");
    AppendPart(prefix, one, relation);
    AppendPart(prefix, two, kind);
    AppendPart(prefix, three, symbol);
    ScopeParts(parts, scope);
    ScopeLiteral();
    Regroup(prefix + Join(parts, '/'), "/scope", "/" + relation, "/" + kind, "/" + symbol);
  }

  lemma ScopeLiteral()
    ensures "/scope" == "/" + "scope"
  {
  }

  lemma ScopeParts(parts: seq<string>, scope: Scope)
    ensures parts + ScopeComponents([scope]) ==
            parts + ["scope"] + [Encode(scope.relation)] + [Encode(scope.kind)] + [Encode(scope.symbol)]
  {
    assert ScopeComponents([scope][1..]) == [];
  }

  lemma Regroup(a: string, b: string, c: string, d: string, e: string)
    ensures a + (b + c + d + e) == a + b + c + d + e
  {
    assert a + (b + c + d + e) == a + (b + c + d) + e;
    assert a + (b + c + d) == a + (b + c) + d;
  }

  /** The printed selector of an item under an owner path. */
  function Print(identity: Identity, owner: string): string
  {
    identity.languageId + "://" + (owner + "#item/" + IdentityPath(identity))
  }

  // ----- parsing

  function ParseScopes(components: seq<string>): SelectorResult<seq<Scope>>
  {
    if components == [] then Ok([])
    else if components[0] != "scope" then Err(UnexpectedComponent(components[0]))
    else
      var scope :- ParseScope(components);
      var rest :- ParseScopes(components[4..]);
      Ok([scope] + rest)
  }

  function ParseScope(components: seq<string>): (r: SelectorResult<Scope>)
    requires components != []
    ensures r.Ok? ==> |components| >= 4 && ScopesWellTyped([r.value])
  {
    if |components| < 2 then Err(MissingScopeRelation)
    else
      var relation :- Decode(components[1]);
      if |components| < 3 then Err(MissingScopeKind)
      else
        var kind :- Decode(components[2]);
        if |components| < 4 then Err(MissingScopeSymbol)
        else
          var symbol :- Decode(components[3]);
          Ok(Scope(relation, kind, symbol))
  }

  /** Kind, symbol and scopes behind the slash-separated components. */
  function ParseComponents(languageId: string, components: seq<string>): SelectorResult<Identity>
    requires components != []
  {
    var kind :- Decode(components[0]);
    if |components| < 2 then Err(MissingSymbol)
    else
      var symbol :- Decode(components[1]);
      if languageId == "" || kind == "" || symbol == "" then Err(EmptyComponent)
      else
        var scopes :- ParseScopes(components[2..]);
        var identity := Identity(languageId, kind, symbol, scopes);
        if IdentityValid(identity) then Ok(identity) else Err(BlankComponent)
  }

  function ParseLocator(languageId: string, locator: string): SelectorResult<Identity>
  {
    var fragment := RFind(locator, "#item/");
    if fragment.None? then Err(MissingFragment)
    else ParseComponents(languageId, Split(locator[fragment.value + 6..], '/'))
  }

  function Parse(selector: string): SelectorResult<CanonicalSelector>
  {
    var scheme := Find(selector, "://");
    if scheme.None? then Err(MissingScheme)
    else
      var identity :- ParseLocator(selector[..scheme.value], selector[scheme.value + 3..]);
      Ok(CanonicalSelector(identity, selector))
  }

  method ParseCanonicalItemSelector(selector: string) returns (r: SelectorResult<CanonicalSelector>)
    ensures r == Parse(selector)
  {
    var scheme := Find(selector, "://");
    if scheme.None? {
      return Err(MissingScheme);
    }
    var languageId, locator := selector[..scheme.value], selector[scheme.value + 3..];
    var fragment := RFind(locator, "#item/");
    if fragment.None? {
      return Err(MissingFragment);
    }
    var identity :- ReadComponents(languageId, Split(locator[fragment.value + 6..], '/'));
    return Ok(CanonicalSelector(identity, selector));
  }

  method ReadComponents(languageId: string, components: seq<string>) returns (r: SelectorResult<Identity>)
    requires components != []
    ensures r == ParseComponents(languageId, components)
  {
    var kind :- DecodeComponent(components[0]);
    if |components| < 2 {
      return Err(MissingSymbol);
    }
    var symbol :- DecodeComponent(components[1]);
    if languageId == "" || kind == "" || symbol == "" {
      return Err(EmptyComponent);
    }
    var scopes :- CollectScopes(components[2..]);
    var identity := Identity(languageId, kind, symbol, scopes);
    if !IdentityValid(identity) {
      return Err(BlankComponent);
    }
    return Ok(identity);
  }

  /** The `while let` loop over the component iterator. */
  method CollectScopes(components: seq<string>) returns (r: SelectorResult<seq<Scope>>)
    ensures r == ParseScopes(components)
  {
    var scopes: seq<Scope> := [];
    var next := 0;
    assert components[0..] == components;
    EmptyScopePrefix(ParseScopes(components));
    while next < |components|
      invariant 0 <= next <= |components|
      invariant ParseScopes(components) == AfterScopes(scopes, ParseScopes(components[next..]))
    {
      if components[next] != "scope" {
        return Err(UnexpectedComponent(components[next]));
      }
      if next + 1 >= |components| {
        return Err(MissingScopeRelation);
      }
      var relation :- DecodeComponent(components[next + 1]);
      if next + 2 >= |components| {
        return Err(MissingScopeKind);
      }
      var kind :- DecodeComponent(components[next + 2]);
      if next + 3 >= |components| {
        return Err(MissingScopeSymbol);
      }
      var symbol :- DecodeComponent(components[next + 3]);
      assert components[next..][4..] == components[next + 4..];
      ScopePrefixesCombine(scopes, Scope(relation, kind, symbol), ParseScopes(components[next + 4..]));
      scopes := scopes + [Scope(relation, kind, symbol)];
      next := next + 4;
    }
    assert components[next..] == [] && scopes + [] == scopes;
    return Ok(scopes);
  }

  function AfterScopes(scopes: seq<Scope>, r: SelectorResult<seq<Scope>>): SelectorResult<seq<Scope>>
  {
    match r case Err(e) => Err(e) case Ok(rest) => Ok(scopes + rest)
  }

  lemma EmptyScopePrefix(r: SelectorResult<seq<Scope>>)
    ensures AfterScopes([], r) == r
  {
    if r.Ok? { assert [] + r.value == r.value; }
  }

  lemma ScopePrefixesCombine(scopes: seq<Scope>, scope: Scope, r: SelectorResult<seq<Scope>>)
    ensures AfterScopes(scopes, AfterScopes([scope], r)) == AfterScopes(scopes + [scope], r)
  {
    if r.Ok? { assert scopes + ([scope] + r.value) == (scopes + [scope]) + r.value; }
  }

  // ----- the round trip

  lemma ParsePrintedScope(scope: Scope, rest: seq<string>)
    requires ScopesWellTyped([scope])
    ensures var components := ["scope", Encode(scope.relation), Encode(scope.kind), Encode(scope.symbol)] + rest;
            ParseScope(components) == Ok(scope) && components[4..] == rest
  {
    assert [scope][0] == scope;
    DecodeEncode(scope.relation);
    DecodeEncode(scope.kind);
    DecodeEncode(scope.symbol);
  }

  lemma {:induction false} ParsePrintedScopes(scopes: seq<Scope>)
    requires ScopesWellTyped(scopes)
    ensures ParseScopes(ScopeComponents(scopes)) == Ok(scopes)
  {
    if scopes != [] {
      ParsePrintedScope(scopes[0], ScopeComponents(scopes[1..]));
      ParsePrintedScopes(scopes[1..]);
      assert [scopes[0]] + scopes[1..] == scopes;
    }
  }

  lemma ComponentsAreSlashFree(identity: Identity, c: char)
    requires c in {'/', '#', ':'}
    ensures AllWithout(Components(identity), c)
  {
    EncodedAlphabet(identity.kind);
    EncodedAlphabet(identity.symbol);
    var parts := Components(identity);
    forall i | 0 <= i < |parts| ensures Without(parts[i], c) {
      if i >= 2 {
        ScopeComponentsAlphabet(identity.scopes, i - 2);
        assert parts[i] == ScopeComponents(identity.scopes)[i - 2];
      }
      assert InAlphabet(parts[i]);
    }
  }

  lemma {:induction false} ScopeComponentsAlphabet(scopes: seq<Scope>, i: nat)
    requires i < |ScopeComponents(scopes)|
    ensures InAlphabet(ScopeComponents(scopes)[i])
  {
    if i < 4 {
      EncodedAlphabet(scopes[0].relation);
      EncodedAlphabet(scopes[0].kind);
      EncodedAlphabet(scopes[0].symbol);
    } else {
      ScopeComponentsAlphabet(scopes[1..], i - 4);
    }
  }

  /** The components of a printed path split back out of it. */
  lemma SplitPath(identity: Identity)
    ensures Split(IdentityPath(identity), '/') == Components(identity)
    ensures Without(IdentityPath(identity), '#') && Without(IdentityPath(identity), ':')
  {
    ComponentsAreSlashFree(identity, '/');
    ComponentsAreSlashFree(identity, '#');
    ComponentsAreSlashFree(identity, ':');
    SplitJoin(Components(identity), '/');
    JoinKeepsOut(Components(identity), '/', '#');
    JoinKeepsOut(Components(identity), '/', ':');
  }

  /** The rightmost `#item/` is the printed one, whatever the owner path contains. */
  lemma FragmentFound(identity: Identity, owner: string)
    ensures RFind(owner + "#item/" + IdentityPath(identity), "#item/") == Some(|owner|)
  {
    var path := IdentityPath(identity);
    var locator := owner + "#item/" + path;
    SplitPath(identity);
    assert OccursAt(locator, "#item/", |owner|);
    forall i | |owner| < i < |locator| ensures locator[i] != '#' {
      assert locator[i] == (if i < |owner| + 6 then "#item/"[i - |owner|] else path[i - |owner| - 6]);
    }
    OccurrenceHead(locator, "#item/", RFind(locator, "#item/").value);
  }

  /** An occurrence that starts inside the language lies inside it: `://` has no border. */
  lemma SchemeInside(languageId: string, locator: string, i: int)
    requires 0 <= i < |languageId| && OccursAt(languageId + "://" + locator, "://", i)
    ensures OccursAt(languageId, "://", i)
  {
    var selector := languageId + "://" + locator;
    var found := selector[i..i + 3];
    assert selector[i + 1] == found[1] == '/' && selector[i + 2] == found[2] == '/';
    assert selector[|languageId|] == ':';
    assert languageId[i..i + 3] == found;
  }

  /** The leftmost `://` is the printed separator unless the language holds one. */
  lemma SchemeFound(languageId: string, locator: string)
    ensures Find(languageId + "://" + locator, "://").Some?
    ensures var i := Find(languageId + "://" + locator, "://").value;
            if Contains(languageId, "://") then i < |languageId| else i == |languageId|
  {
    var selector := languageId + "://" + locator;
    assert OccursAt(selector, "://", |languageId|);
    var found := Find(selector, "://").value;
    if found < |languageId| {
      SchemeInside(languageId, locator, found);
    }
    if Contains(languageId, "://") {
      var i :| OccursAt(languageId, "://", i);
      assert selector[i..i + 3] == languageId[i..i + 3];
      assert OccursAt(selector, "://", i);
    }
  }

  lemma ParsePrintedComponents(languageId: string, identity: Identity)
    requires WellTyped(identity)
    ensures ParseComponents(languageId, Components(identity)) ==
            if IdentityValid(identity.(languageId := languageId)) then Ok(identity.(languageId := languageId))
            else Err(if languageId == "" || identity.kind == "" || identity.symbol == "" then EmptyComponent
                     else BlankComponent)
  {
    DecodeEncode(identity.kind);
    DecodeEncode(identity.symbol);
    ParsePrintedScopes(identity.scopes);
    assert Components(identity)[2..] == ScopeComponents(identity.scopes);
  }

  lemma ParsePrintedLocator(identity: Identity, owner: string)
    requires WellTyped(identity)
    ensures ParseLocator(identity.languageId, owner + "#item/" + IdentityPath(identity)) == Ok(identity)
            <==> IdentityValid(identity)
  {
    var locator := owner + "#item/" + IdentityPath(identity);
    FragmentFound(identity, owner);
    assert locator[|owner| + 6..] == IdentityPath(identity);
    SplitPath(identity);
    ParsePrintedComponents(identity.languageId, identity);
    assert identity.(languageId := identity.languageId) == identity;
  }

  lemma ParsedLanguage(languageId: string, locator: string)
    ensures ParseLocator(languageId, locator).Ok? ==> ParseLocator(languageId, locator).value.languageId == languageId
  {
  }

  /**
   Parsing a printed selector recovers exactly the identity, scopes in order, if and only if
   the identity is valid and its language holds no `://`; the owner path is arbitrary.
   */
  lemma RoundTripExactlyWhen(identity: Identity, owner: string)
    requires WellTyped(identity)
    ensures Parse(Print(identity, owner)) == Ok(CanonicalSelector(identity, Print(identity, owner)))
            <==> IdentityValid(identity) && !Contains(identity.languageId, "://")
  {
    var locator := owner + "#item/" + IdentityPath(identity);
    var selector := identity.languageId + "://" + locator;
    SchemeFound(identity.languageId, locator);
    var i := Find(selector, "://").value;
    ParsedLanguage(selector[..i], selector[i + 3..]);
    if i == |identity.languageId| {
      assert selector[..i] == identity.languageId && selector[i + 3..] == locator;
      ParsePrintedLocator(identity, owner);
    } else {
      assert |selector[..i]| == i;
    }
  }

  lemma {:induction false} ParsedScopesWellTyped(components: seq<string>)
    ensures ParseScopes(components).Ok? ==> ScopesWellTyped(ParseScopes(components).value)
  {
    if components != [] && components[0] == "scope" && ParseScope(components).Ok? {
      ParsedScopesWellTyped(components[4..]);
    }
  }

  lemma ParsedIdentityWellFormed(languageId: string, locator: string)
    requires Utf8.Valid(languageId) && ParseLocator(languageId, locator).Ok?
    ensures IdentityValid(ParseLocator(languageId, locator).value) && WellTyped(ParseLocator(languageId, locator).value)
  {
    var components := Split(locator[RFind(locator, "#item/").value + 6..], '/');
    ParsedScopesWellTyped(components[2..]);
  }

  /** Every identity the parser returns can be printed under any owner and read back unchanged. */
  lemma ParsedIdentityReprints(selector: string, owner: string)
    requires Utf8.Valid(selector) && Parse(selector).Ok?
    ensures var identity := Parse(selector).value.identity;
            && IdentityValid(identity) && WellTyped(identity)
            && Parse(Print(identity, owner)) == Ok(CanonicalSelector(identity, Print(identity, owner)))
  {
    var i := Find(selector, "://").value;
    var languageId, locator := selector[..i], selector[i + 3..];
    OccurrenceHead(selector, "://", i);
    assert selector == languageId + selector[i..];
    Utf8.CutBeforeAscii(languageId, selector[i..]);
    ParsedIdentityWellFormed(languageId, locator);
    ParsedLanguage(languageId, locator);
    BeforeFirst(selector, "://");
    RoundTripExactlyWhen(Parse(selector).value.identity, owner);
  }

  // ----- exactly what parses

  /** Group `j` of the scope components spells the scope. */
  ghost predicate ScopeStands(parts: seq<string>, at: nat, scope: Scope)
  {
    && at + 4 <= |parts| && parts[at] == "scope"
    && Decode(parts[at + 1]) == Ok(scope.relation)
    && Decode(parts[at + 2]) == Ok(scope.kind)
    && Decode(parts[at + 3]) == Ok(scope.symbol)
  }

  ghost predicate SpellScopes(parts: seq<string>, scopes: seq<Scope>)
  {
    |parts| == 4 * |scopes| && forall j :: 0 <= j < |scopes| ==> ScopeStands(parts, 4 * j, scopes[j])
  }

  lemma ScopeExactlyWhen(parts: seq<string>, scope: Scope)
    requires parts != []
    ensures parts[0] == "scope" && ParseScope(parts) == Ok(scope) <==> ScopeStands(parts, 0, scope)
  {
  }

  lemma SpellScopesStep(parts: seq<string>, scopes: seq<Scope>)
    requires |parts| >= 4 && scopes != []
    ensures SpellScopes(parts, scopes) <==>
            ScopeStands(parts, 0, scopes[0]) && SpellScopes(parts[4..], scopes[1..])
  {
    forall j | 1 <= j < |scopes|
      ensures ScopeStands(parts, 4 * j, scopes[j]) <==> ScopeStands(parts[4..], 4 * (j - 1), scopes[1..][j - 1])
    {
      ScopeShifts(parts, 4 * j, scopes[j]);
    }
    if SpellScopes(parts[4..], scopes[1..]) && ScopeStands(parts, 0, scopes[0]) {
      forall j | 0 <= j < |scopes| ensures ScopeStands(parts, 4 * j, scopes[j]) {
        if j > 0 { assert ScopeStands(parts[4..], 4 * (j - 1), scopes[1..][j - 1]); }
      }
    }
    if SpellScopes(parts, scopes) {
      forall j | 0 <= j < |scopes| - 1 ensures ScopeStands(parts[4..], 4 * j, scopes[1..][j]) {
        assert ScopeStands(parts, 4 * (j + 1), scopes[j + 1]);
      }
    }
  }

  lemma ScopeShifts(parts: seq<string>, at: nat, scope: Scope)
    requires |parts| >= 4 && at >= 4
    ensures ScopeStands(parts, at, scope) <==> ScopeStands(parts[4..], at - 4, scope)
  {
  }

  lemma {:induction false} ScopesExactlyWhen(parts: seq<string>, scopes: seq<Scope>)
    ensures ParseScopes(parts) == Ok(scopes) <==> SpellScopes(parts, scopes)
    decreases |parts|
  {
    if |parts| < 4 {
      if SpellScopes(parts, scopes) { assert scopes == []; }
    } else if scopes == [] {
      if ParseScopes(parts).Ok? { assert |ParseScopes(parts).value| >= 1; }
    } else {
      ScopeExactlyWhen(parts, scopes[0]);
      ScopesExactlyWhen(parts[4..], scopes[1..]);
      SpellScopesStep(parts, scopes);
      assert scopes == [scopes[0]] + scopes[1..];
    }
  }

  /** Slash-free components that spell the identity, none of it blank. */
  ghost predicate SpellIdentity(parts: seq<string>, identity: Identity)
  {
    && |parts| >= 2 && Decode(parts[0]) == Ok(identity.kind) && Decode(parts[1]) == Ok(identity.symbol)
    && SpellScopes(parts[2..], identity.scopes)
    && !Utf8.IsBlank(identity.languageId) && !Utf8.IsBlank(identity.kind) && !Utf8.IsBlank(identity.symbol)
    && forall i :: 0 <= i < |identity.scopes| ==>
         && !Utf8.IsBlank(identity.scopes[i].relation) && !Utf8.IsBlank(identity.scopes[i].kind)
         && !Utf8.IsBlank(identity.scopes[i].symbol)
  }

  lemma ComponentsExactlyWhen(languageId: string, parts: seq<string>, identity: Identity)
    requires parts != []
    ensures ParseComponents(languageId, parts) == Ok(identity) <==>
            identity.languageId == languageId && SpellIdentity(parts, identity)
  {
    if |parts| >= 2 { ScopesExactlyWhen(parts[2..], identity.scopes); }
  }

  /** The last fragment is the one that no other follows. */
  lemma LastFragment(owner: string, path: string)
    ensures RFind(owner + "#item/" + path, "#item/") == Some(|owner|) <==> !Contains(path, "#item/")
  {
    var locator := owner + "#item/" + path;
    assert OccursAt(locator, "#item/", |owner|);
    var found := RFind(locator, "#item/").value;
    if found > |owner| { LaterFragment(owner, path, found); }
    if Contains(path, "#item/") {
      var i :| OccursAt(path, "#item/", i);
      assert locator[|owner| + 6 + i..|owner| + 12 + i] == path[i..i + 6];
      assert OccursAt(locator, "#item/", |owner| + 6 + i);
    }
  }

  /** A fragment after the first `#` of another lies in the path. */
  lemma LaterFragment(owner: string, path: string, found: int)
    requires found > |owner| && OccursAt(owner + "#item/" + path, "#item/", found)
    ensures Contains(path, "#item/")
  {
    var locator := owner + "#item/" + path;
    OccurrenceHead(locator, "#item/", found);
    assert forall i :: |owner| < i < |owner| + 6 ==> locator[i] == "#item/"[i - |owner|];
    assert path[found - |owner| - 6..found - |owner|] == locator[found..found + 6];
    assert OccursAt(path, "#item/", found - |owner| - 6);
  }

  /** The locator is an owner, the last fragment, and components that spell the identity. */
  ghost predicate SpellsLocator(locator: string, owner: string, parts: seq<string>, identity: Identity)
  {
    && |parts| >= 1 && AllWithout(parts, '/') && locator == owner + "#item/" + Join(parts, '/')
    && !Contains(Join(parts, '/'), "#item/") && SpellIdentity(parts, identity)
  }

  lemma LocatorParts(languageId: string, locator: string) returns (owner: string, parts: seq<string>)
    requires ParseLocator(languageId, locator).Ok?
    ensures SpellsLocator(locator, owner, parts, ParseLocator(languageId, locator).value)
  {
    var at := RFind(locator, "#item/").value;
    owner := locator[..at];
    var path := locator[at + 6..];
    parts := Split(path, '/');
    assert locator == owner + "#item/" + path;
    JoinSplit(path, '/');
    LastFragment(owner, path);
    ComponentsExactlyWhen(languageId, parts, ParseLocator(languageId, locator).value);
  }

  lemma PartsLocate(locator: string, owner: string, parts: seq<string>, identity: Identity)
    requires SpellsLocator(locator, owner, parts, identity)
    ensures ParseLocator(identity.languageId, locator) == Ok(identity)
  {
    LastFragment(owner, Join(parts, '/'));
    assert locator[|owner| + 6..] == Join(parts, '/');
    SplitJoin(parts, '/');
    ComponentsExactlyWhen(identity.languageId, parts, identity);
  }

  /** The selector is the language, the first scheme mark, and a locator for the identity. */
  ghost predicate SpellsSelector(selector: string, locator: string, owner: string, parts: seq<string>,
                                 identity: Identity)
  {
    && selector == identity.languageId + "://" + locator && !Contains(identity.languageId, "://")
    && SpellsLocator(locator, owner, parts, identity)
  }

  lemma SelectorParts(selector: string) returns (locator: string, owner: string, parts: seq<string>)
    requires Parse(selector).Ok?
    ensures Parse(selector).value.structuralSelector == selector
    ensures SpellsSelector(selector, locator, owner, parts, Parse(selector).value.identity)
  {
    var i := Find(selector, "://").value;
    var languageId := selector[..i];
    locator := selector[i + 3..];
    assert selector == languageId + "://" + locator;
    BeforeFirst(selector, "://");
    ParsedLanguage(languageId, locator);
    owner, parts := LocatorParts(languageId, locator);
  }

  lemma PartsSelect(selector: string, locator: string, owner: string, parts: seq<string>, identity: Identity)
    requires SpellsSelector(selector, locator, owner, parts, identity)
    ensures Parse(selector) == Ok(CanonicalSelector(identity, selector))
  {
    SchemeSplits(selector, identity.languageId, locator);
    PartsLocate(locator, owner, parts, identity);
  }

  /** A text parses to an identity exactly when it spells a selector of it. */
  lemma ParseExactlyWhen(selector: string, identity: Identity)
    ensures Parse(selector) == Ok(CanonicalSelector(identity, selector)) <==>
            exists locator, owner, parts :: SpellsSelector(selector, locator, owner, parts, identity)
    ensures Parse(selector).Ok? ==> Parse(selector).value.structuralSelector == selector
  {
    if Parse(selector).Ok? { var locator, owner, parts := SelectorParts(selector); }
    forall locator, owner, parts | SpellsSelector(selector, locator, owner, parts, identity)
      ensures Parse(selector) == Ok(CanonicalSelector(identity, selector))
    {
      PartsSelect(selector, locator, owner, parts, identity);
    }
  }

  // ----- exactly what fails

  /** The first group that is no scope, after groups that are. */
  ghost predicate ScopeFails(parts: seq<string>, at: nat, e: SelectorError)
  {
    at < |parts| &&
    if parts[at] != "scope" then e == UnexpectedComponent(parts[at])
    else
      || FieldFails(parts, at + 1, MissingScopeRelation, e)
      || (FieldReads(parts, at + 1) && FieldFails(parts, at + 2, MissingScopeKind, e))
      || (FieldReads(parts, at + 1) && FieldReads(parts, at + 2) && FieldFails(parts, at + 3, MissingScopeSymbol, e))
  }

  ghost predicate FieldReads(parts: seq<string>, at: nat)
  {
    at < |parts| && Decode(parts[at]).Ok?
  }

  /** The component at `at` is missing, or does not decode. */
  ghost predicate FieldFails(parts: seq<string>, at: nat, missing: SelectorError, e: SelectorError)
  {
    if at >= |parts| then e == missing else Decode(parts[at]) == Err(e)
  }

  lemma ScopeErrorExactlyWhen(parts: seq<string>, e: SelectorError)
    requires parts != []
    ensures ScopeFails(parts, 0, e) <==>
            if parts[0] != "scope" then e == UnexpectedComponent(parts[0]) else ParseScope(parts) == Err(e)
  {
  }

  lemma FailShifts(parts: seq<string>, at: nat, e: SelectorError)
    requires |parts| >= 4
    ensures ScopeFails(parts, at + 4, e) <==> ScopeFails(parts[4..], at, e)
  {
  }

  ghost predicate ScopesFail(parts: seq<string>, k: nat, scopes: seq<Scope>, e: SelectorError)
  {
    |scopes| == k && 4 * k <= |parts| && SpellScopes(parts[..4 * k], scopes) && ScopeFails(parts, 4 * k, e)
  }

  ghost predicate SomeScopesFail(parts: seq<string>, e: SelectorError)
  {
    exists scopes :: ScopesFail(parts, |scopes|, scopes, e)
  }

  lemma {:induction false} ScopesErrorAt(parts: seq<string>, e: SelectorError) returns (scopes: seq<Scope>)
    requires ParseScopes(parts) == Err(e)
    ensures ScopesFail(parts, |scopes|, scopes, e)
    decreases |parts|
  {
    ScopeErrorExactlyWhen(parts, e);
    if parts[0] != "scope" || ParseScope(parts).Err? {
      scopes := [];
      assert parts[..0] == [];
    } else {
      var rest := ScopesErrorAt(parts[4..], e);
      var k := |rest|;
      scopes := [ParseScope(parts).value] + rest;
      var front := parts[..4 * (k + 1)];
      ScopeExactlyWhen(front, scopes[0]);
      assert front[4..] == parts[4..][..4 * k] && scopes[1..] == rest;
      SpellScopesStep(front, scopes);
      FailShifts(parts, 4 * k, e);
    }
  }

  lemma {:induction false} ScopesFailing(parts: seq<string>, k: nat, scopes: seq<Scope>, e: SelectorError)
    requires ScopesFail(parts, k, scopes, e)
    ensures ParseScopes(parts) == Err(e)
    decreases |parts|
  {
    if k == 0 {
      ScopeErrorExactlyWhen(parts, e);
    } else {
      var front := parts[..4 * k];
      SpellScopesStep(front, scopes);
      assert front[4..] == parts[4..][..4 * (k - 1)];
      FailShifts(parts, 4 * (k - 1), e);
      ScopeExactlyWhen(parts, scopes[0]);
      ScopesFailing(parts[4..], k - 1, scopes[1..], e);
    }
  }

  /** The error of the first group that is no scope. */
  lemma ScopesErrorExactlyWhen(parts: seq<string>, e: SelectorError)
    ensures ParseScopes(parts) == Err(e) <==> SomeScopesFail(parts, e)
  {
    if ParseScopes(parts) == Err(e) { var scopes := ScopesErrorAt(parts, e); }
    forall scopes | ScopesFail(parts, |scopes|, scopes, e) ensures ParseScopes(parts) == Err(e) {
      ScopesFailing(parts, |scopes|, scopes, e);
    }
  }

  ghost predicate SomeBlank(identity: Identity)
  {
    || Utf8.IsBlank(identity.languageId) || Utf8.IsBlank(identity.kind) || Utf8.IsBlank(identity.symbol)
    || exists i :: 0 <= i < |identity.scopes| &&
         (Utf8.IsBlank(identity.scopes[i].relation) || Utf8.IsBlank(identity.scopes[i].kind)
          || Utf8.IsBlank(identity.scopes[i].symbol))
  }

  /** The components fail: kind, then symbol, then emptiness, then the scopes, and blanks last. */
  ghost predicate ComponentsFail(languageId: string, parts: seq<string>, e: SelectorError)
  {
    || (|parts| >= 1 && Decode(parts[0]) == Err(e))
    || (FieldReads(parts, 0) && FieldFails(parts, 1, MissingSymbol, e))
    || (FieldReads(parts, 0) && FieldReads(parts, 1) &&
        var kind, symbol := Decode(parts[0]).value, Decode(parts[1]).value;
        if languageId == "" || kind == "" || symbol == "" then e == EmptyComponent
        else RestFails(languageId, kind, symbol, parts[2..], e))
  }

  ghost predicate RestFails(languageId: string, kind: string, symbol: string, rest: seq<string>, e: SelectorError)
  {
    SomeScopesFail(rest, e) || (e == BlankComponent && SpellsBlank(languageId, kind, symbol, rest))
  }

  ghost predicate SpellsBlank(languageId: string, kind: string, symbol: string, rest: seq<string>)
  {
    exists scopes :: SpellScopes(rest, scopes) && SomeBlank(Identity(languageId, kind, symbol, scopes))
  }

  lemma ValidUnlessBlank(identity: Identity)
    ensures IdentityValid(identity) <==> !SomeBlank(identity)
  {
  }

  lemma SpellsBlankExactlyWhen(languageId: string, kind: string, symbol: string, rest: seq<string>)
    ensures SpellsBlank(languageId, kind, symbol, rest) <==>
            ParseScopes(rest).Ok? && !IdentityValid(Identity(languageId, kind, symbol, ParseScopes(rest).value))
  {
    if ParseScopes(rest).Ok? {
      ScopesExactlyWhen(rest, ParseScopes(rest).value);
      ValidUnlessBlank(Identity(languageId, kind, symbol, ParseScopes(rest).value));
    }
    forall scopes | SpellScopes(rest, scopes) ensures ParseScopes(rest) == Ok(scopes) {
      ScopesExactlyWhen(rest, scopes);
    }
  }

  lemma RestErrorExactlyWhen(languageId: string, kind: string, symbol: string, rest: seq<string>, e: SelectorError)
    ensures RestFails(languageId, kind, symbol, rest, e) <==>
            match ParseScopes(rest)
            case Err(other) => other == e
            case Ok(scopes) => e == BlankComponent && !IdentityValid(Identity(languageId, kind, symbol, scopes))
  {
    ScopesErrorExactlyWhen(rest, e);
    SpellsBlankExactlyWhen(languageId, kind, symbol, rest);
  }

  lemma ComponentsErrorExactlyWhen(languageId: string, parts: seq<string>, e: SelectorError)
    requires parts != []
    ensures ParseComponents(languageId, parts) == Err(e) <==> ComponentsFail(languageId, parts, e)
  {
    if |parts| >= 2 && FieldReads(parts, 0) && FieldReads(parts, 1) {
      RestErrorExactlyWhen(languageId, Decode(parts[0]).value, Decode(parts[1]).value, parts[2..], e);
    }
  }

  /** The locator has no fragment, or components after its last fragment that fail. */
  ghost predicate LocatorFails(languageId: string, locator: string, e: SelectorError)
  {
    || (e == MissingFragment && !Contains(locator, "#item/"))
    || exists owner, parts :: FragmentFails(languageId, locator, owner, parts, e)
  }

  ghost predicate FragmentFails(
    languageId: string, locator: string, owner: string, parts: seq<string>, e: SelectorError)
  {
    && |parts| >= 1 && AllWithout(parts, '/') && locator == owner + "#item/" + Join(parts, '/')
    && !Contains(Join(parts, '/'), "#item/") && ComponentsFail(languageId, parts, e)
  }

  lemma FragmentFailing(languageId: string, locator: string, owner: string, parts: seq<string>, e: SelectorError)
    requires FragmentFails(languageId, locator, owner, parts, e)
    ensures ParseLocator(languageId, locator) == Err(e)
  {
    LastFragment(owner, Join(parts, '/'));
    assert locator[|owner| + 6..] == Join(parts, '/');
    SplitJoin(parts, '/');
    ComponentsErrorExactlyWhen(languageId, parts, e);
  }

  lemma FailingFragment(languageId: string, locator: string, e: SelectorError)
    requires ParseLocator(languageId, locator) == Err(e) && Contains(locator, "#item/")
    ensures LocatorFails(languageId, locator, e)
  {
    var at := RFind(locator, "#item/").value;
    var owner, path := locator[..at], locator[at + 6..];
    assert locator == owner + "#item/" + path;
    JoinSplit(path, '/');
    LastFragment(owner, path);
    ComponentsErrorExactlyWhen(languageId, Split(path, '/'), e);
    assert FragmentFails(languageId, locator, owner, Split(path, '/'), e);
  }

  lemma LocatorErrorExactlyWhen(languageId: string, locator: string, e: SelectorError)
    ensures ParseLocator(languageId, locator) == Err(e) <==> LocatorFails(languageId, locator, e)
  {
    if ParseLocator(languageId, locator) == Err(e) && Contains(locator, "#item/") {
      FailingFragment(languageId, locator, e);
    }
    forall owner, parts | FragmentFails(languageId, locator, owner, parts, e)
      ensures ParseLocator(languageId, locator) == Err(e)
    {
      FragmentFailing(languageId, locator, owner, parts, e);
    }
  }

  ghost predicate SchemeFails(selector: string, languageId: string, locator: string, e: SelectorError)
  {
    && selector == languageId + "://" + locator && !Contains(languageId, "://")
    && LocatorFails(languageId, locator, e)
  }

  /** The first `://` ends the language. */
  lemma SchemeSplits(selector: string, languageId: string, locator: string)
    requires selector == languageId + "://" + locator && !Contains(languageId, "://")
    ensures Find(selector, "://") == Some(|languageId|)
    ensures selector[..|languageId|] == languageId && selector[|languageId| + 3..] == locator
  {
    SchemeFound(languageId, locator);
  }

  /** Parsing fails without a scheme, without a fragment, or with the error of the components. */
  lemma ParseErrorExactlyWhen(selector: string, e: SelectorError)
    ensures Parse(selector) == Err(e) <==>
            || (e == MissingScheme && !Contains(selector, "://"))
            || exists languageId, locator :: SchemeFails(selector, languageId, locator, e)
  {
    if Find(selector, "://").Some? && Parse(selector) == Err(e) { FailingScheme(selector, e); }
    forall languageId, locator | SchemeFails(selector, languageId, locator, e) ensures Parse(selector) == Err(e) {
      SchemeFailing(selector, languageId, locator, e);
    }
  }

  lemma FailingScheme(selector: string, e: SelectorError)
    requires Find(selector, "://").Some? && Parse(selector) == Err(e)
    ensures exists languageId, locator :: SchemeFails(selector, languageId, locator, e)
  {
    var languageId, locator := CutAtScheme(selector, e);
    LocatorFailing(selector, languageId, locator, e);
  }

  lemma CutAtScheme(selector: string, e: SelectorError) returns (languageId: string, locator: string)
    requires Find(selector, "://").Some?
    ensures selector == languageId + "://" + locator && !Contains(languageId, "://")
    ensures Parse(selector) == Err(e) <==> ParseLocator(languageId, locator) == Err(e)
  {
    var i := Find(selector, "://").value;
    languageId, locator := selector[..i], selector[i + 3..];
    assert selector == languageId + "://" + locator;
    BeforeFirst(selector, "://");
  }

  lemma LocatorFailing(selector: string, languageId: string, locator: string, e: SelectorError)
    requires selector == languageId + "://" + locator && !Contains(languageId, "://")
    requires ParseLocator(languageId, locator) == Err(e)
    ensures SchemeFails(selector, languageId, locator, e)
  {
    LocatorErrorExactlyWhen(languageId, locator, e);
  }

  lemma SchemeFailing(selector: string, languageId: string, locator: string, e: SelectorError)
    requires SchemeFails(selector, languageId, locator, e)
    ensures Parse(selector) == Err(e)
  {
    SchemeSplits(selector, languageId, locator);
    LocatorErrorExactlyWhen(languageId, locator, e);
  }

  /** Identity paths are injective: equal paths come from equal kinds, symbols and scopes. */
  lemma PathInjective(a: Identity, b: Identity)
    requires WellTyped(a) && WellTyped(b) && IdentityPath(a) == IdentityPath(b)
    ensures a.kind == b.kind && a.symbol == b.symbol && a.scopes == b.scopes
  {
    SplitPath(a);
    SplitPath(b);
    assert Components(a) == Components(b);
    assert Components(a)[0] == Components(b)[0] && Components(a)[1] == Components(b)[1];
    DecodeEncode(a.kind);
    DecodeEncode(b.kind);
    DecodeEncode(a.symbol);
    DecodeEncode(b.symbol);
    assert Components(a)[2..] == ScopeComponents(a.scopes) && Components(b)[2..] == ScopeComponents(b.scopes);
    ParsePrintedScopes(a.scopes);
    ParsePrintedScopes(b.scopes);
  }
}
