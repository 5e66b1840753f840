/**
 Nested Rust item facts: the syntax visitor's scope stack and owners, and the bytes hashed
 into an item's identity digest (src/nested_item_facts.rs).
 */
module NestedItems {
  import opened Decimals
  import opened Wrappers
  import opened Text
  import opened Framing
  import opened Lexical

  datatype ScopeFact = ScopeFact(kind: string, symbol: string)

  datatype ItemIdentity = ItemIdentity(
    ownerPath: string,
    itemKind: string,
    symbol: string,
    scopes: seq<ScopeFact>,
    implOwner: Option<string>,
    traitOwner: Option<string>)

  // ----- the identity preimage

  function ScopeBytes(scopes: seq<ScopeFact>): string
  {
    if scopes == [] then ""
    else LittleField(scopes[0].kind) + (LittleField(scopes[0].symbol) + ScopeBytes(scopes[1..]))
  }

  /** `update_optional_identity_field`: a bare tag byte, then the field if present. */
  function OptionalBytes(field: Option<string>): string
  {
    match field
    case None => [0 as char]
    case Some(text) => [1 as char] + LittleField(text)
  }

  /** Scopes without a count, then the two optional owners. */
  function Tail(scopes: seq<ScopeFact>, implOwner: Option<string>, traitOwner: Option<string>): string
  {
    ScopeBytes(scopes) + (OptionalBytes(implOwner) + OptionalBytes(traitOwner))
  }

  function Preimage(item: ItemIdentity): string
  {
    LittleField(item.ownerPath) + (LittleField(item.itemKind) + (LittleField(item.symbol) +
      Tail(item.scopes, item.implOwner, item.traitOwner)))
  }

  /** The hashing order of `nested_item_identity_digest`. */
  method FeedIdentity(item: ItemIdentity) returns (hasher: Hasher)
    ensures hasher.fed == Preimage(item)
  {
    hasher := new Hasher();
    hasher.UpdateLittleField(item.ownerPath);
    hasher.UpdateLittleField(item.itemKind);
    hasher.UpdateLittleField(item.symbol);
    ghost var head := hasher.fed;
    FeedScopes(hasher, item.scopes);
    UpdateOptional(hasher, item.implOwner);
    UpdateOptional(hasher, item.traitOwner);
    AssociatePreimage(item, head);
  }

  method FeedScopes(hasher: Hasher, scopes: seq<ScopeFact>)
    modifies hasher
    ensures hasher.fed == old(hasher.fed) + ScopeBytes(scopes)
  {
    assert scopes[0..] == scopes;
    for i := 0 to |scopes|
      invariant old(hasher.fed) + ScopeBytes(scopes) == hasher.fed + ScopeBytes(scopes[i..])
    {
      ghost var before := hasher.fed;
      hasher.UpdateLittleField(scopes[i].kind);
      hasher.UpdateLittleField(scopes[i].symbol);
      assert scopes[i..][1..] == scopes[i + 1..];
      Associate4(before, LittleField(scopes[i].kind), LittleField(scopes[i].symbol), ScopeBytes(scopes[i + 1..]));
    }
  }

  method UpdateOptional(hasher: Hasher, field: Option<string>)
    modifies hasher
    ensures hasher.fed == old(hasher.fed) + OptionalBytes(field)
  {
    match field {
      case Some(text) =>
        hasher.Update([1 as char]);
        hasher.UpdateLittleField(text);
      case None =>
        hasher.Update([0 as char]);
    }
  }

  lemma Associate4(a: string, b: string, c: string, d: string)
    ensures a + b + c + d == a + (b + (c + d))
  {
  }

  lemma AssociatePreimage(item: ItemIdentity, head: string)
    requires head == LittleField(item.ownerPath) + LittleField(item.itemKind) + LittleField(item.symbol)
    ensures head + ScopeBytes(item.scopes) + OptionalBytes(item.implOwner) + OptionalBytes(item.traitOwner)
            == Preimage(item)
  {
    var owners := OptionalBytes(item.implOwner) + OptionalBytes(item.traitOwner);
    Associate4(head, ScopeBytes(item.scopes), OptionalBytes(item.implOwner), OptionalBytes(item.traitOwner));
    Associate4(LittleField(item.ownerPath), LittleField(item.itemKind), LittleField(item.symbol),
               ScopeBytes(item.scopes) + owners);
  }

  // ----- unique decodability

  /** Every text is short enough for its length to fit 64 bits. */
  ghost predicate Representable(item: ItemIdentity)
  {
    && |item.ownerPath| < U64 && |item.itemKind| < U64 && |item.symbol| < U64
    && ScopesRepresentable(item.scopes)
    && OptionRepresentable(item.implOwner) && OptionRepresentable(item.traitOwner)
  }

  ghost predicate ScopesRepresentable(scopes: seq<ScopeFact>)
  {
    forall i :: 0 <= i < |scopes| ==> |scopes[i].kind| < U64 && |scopes[i].symbol| < U64
  }

  ghost predicate OptionRepresentable(field: Option<string>)
  {
    field.Some? ==> |field.value| < U64
  }

  /** The first byte of a scope-kind length can never be mistaken for an owner tag. */
  ghost predicate TagFreeKinds(scopes: seq<ScopeFact>)
  {
    forall i :: 0 <= i < |scopes| ==> |scopes[i].kind| % 256 >= 2
  }

  /** The first byte after the symbol tells whether a scope follows. */
  lemma FirstByteDecides(scopes: seq<ScopeFact>, implOwner: Option<string>, traitOwner: Option<string>)
    requires TagFreeKinds(scopes)
    ensures var tail := Tail(scopes, implOwner, traitOwner);
            tail != "" && ((tail[0] as int) < 2 <==> scopes == [])
  {
    if scopes != [] {
      var n := |scopes[0].kind|;
      assert LittleEndian(n, 8)[0] == (n % 256) as char;
    }
  }

  lemma OptionalShape(field: Option<string>, rest: string)
    ensures OptionalBytes(field) + rest ==
            [if field.None? then 0 as char else 1 as char] +
            (if field.None? then rest else LittleField(field.value) + rest)
  {
    if field.Some? { Associate([1 as char], LittleField(field.value), rest); }
  }

  lemma NoScopesTail(implOwner: Option<string>, traitOwner: Option<string>)
    ensures Tail([], implOwner, traitOwner) == OptionalBytes(implOwner) + OptionalBytes(traitOwner)
  {
  }

  lemma OneScopeTail(s: seq<ScopeFact>, implOwner: Option<string>, traitOwner: Option<string>)
    requires s != []
    ensures Tail(s, implOwner, traitOwner) ==
            LittleField(s[0].kind) + (LittleField(s[0].symbol) + Tail(s[1..], implOwner, traitOwner))
  {
    var a, b, c := LittleField(s[0].kind), LittleField(s[0].symbol), ScopeBytes(s[1..]);
    var d := OptionalBytes(implOwner) + OptionalBytes(traitOwner);
    Associate4(a, b, c, d);
    Associate4("", a, b, c);
    assert "" + a == a && "" + (a + (b + c)) == a + (b + c);
  }

  // ----- why the visitor's scope kinds matter

  function Zeros(n: nat): (s: string)
    ensures |s| == n
  {
    seq(n, _ => 0 as char)
  }

  lemma LengthBytes()
    ensures LittleEndian(0, 8) == Zeros(8)
    ensures LittleEndian(1, 8) == [1 as char] + Zeros(7)
    ensures LittleEndian(257, 8) == [1 as char, 1 as char] + Zeros(6)
    ensures LittleEndian(256, 8) == [0 as char, 1 as char] + Zeros(6)
  {
    ZeroBytes(8);
    ZeroBytes(7);
    ZeroBytes(6);
    assert LittleEndian(1, 8) == [1 as char] + LittleEndian(0, 7);
    assert LittleEndian(1, 7) == [1 as char] + LittleEndian(0, 6);
    assert LittleEndian(257, 8) == [1 as char] + LittleEndian(1, 7);
    assert LittleEndian(256, 8) == [0 as char] + LittleEndian(1, 7);
  }

  lemma {:induction false} ZeroBytes(width: nat)
    ensures LittleEndian(0, width) == Zeros(width)
  {
    if width > 0 { ZeroBytes(width - 1); }
  }

  /** A scope kind of 257 bytes whose content spells an owner tag and two owner fields. */
  function DeceptiveKind(): (kind: string)
    ensures |kind| == 257
  {
    [0 as char] + (['x'] + ([1 as char] + ([0 as char, 1 as char] + Zeros(6) + Zeros(246))))
  }

  lemma DeceptiveTail()
    ensures Tail([ScopeFact(DeceptiveKind(), "")], None, None) ==
            [1 as char, 1 as char] + Zeros(6) + DeceptiveKind() + Zeros(8) + [0 as char, 0 as char]
  {
    LengthBytes();
    var kind := DeceptiveKind();
    assert [ScopeFact(kind, "")][1..] == [] && LittleField("") + "" == LittleField("") == Zeros(8);
    assert ScopeBytes([ScopeFact(kind, "")]) == LittleField(kind) + LittleField("");
    assert LittleField(kind) == [1 as char, 1 as char] + Zeros(6) + kind;
  }

  lemma OwnersTail()
    ensures Tail([], Some("x"), Some(Zeros(256))) ==
            [1 as char] + ([1 as char] + Zeros(7) + "x") +
            ([1 as char] + ([0 as char, 1 as char] + Zeros(6) + Zeros(256)))
  {
    LengthBytes();
    NoScopesTail(Some("x"), Some(Zeros(256)));
  }

  lemma SameBytes()
    ensures [1 as char, 1 as char] + Zeros(6) + DeceptiveKind() + Zeros(8) + [0 as char, 0 as char] ==
            [1 as char] + ([1 as char] + Zeros(7) + "x") +
            ([1 as char] + ([0 as char, 1 as char] + Zeros(6) + Zeros(256)))
  {
  }

  /** With arbitrary scope kinds two different items can share a preimage. */
  lemma ArbitraryKindsCollide(ownerPath: string, itemKind: string, symbol: string)
    ensures var a := ItemIdentity(ownerPath, itemKind, symbol, [ScopeFact(DeceptiveKind(), "")], None, None);
            var b := ItemIdentity(ownerPath, itemKind, symbol, [], Some("x"), Some(Zeros(256)));
            Preimage(a) == Preimage(b) && a != b
  {
    DeceptiveTail();
    OwnersTail();
    SameBytes();
  }

  // ----- reading a preimage back

  datatype ReadOwner = ReadOwner(owner: Option<string>, rest: string) | NoOwner

  function CutOwner(s: string): ReadOwner
  {
    if s == "" then NoOwner
    else if s[0] == 0 as char then ReadOwner(None, s[1..])
    else if s[0] != 1 as char then NoOwner
    else
      match CutField(s[1..], FromLittle)
      case NoField => NoOwner
      case Cut(field, rest) => ReadOwner(Some(field), rest)
  }

  lemma OwnerReadsBack(owner: Option<string>, rest: string)
    requires OptionRepresentable(owner)
    ensures CutOwner(OptionalBytes(owner) + rest) == ReadOwner(owner, rest)
  {
    OptionalShape(owner, rest);
    var s := OptionalBytes(owner) + rest;
    match owner
    case None => assert s[1..] == rest;
    case Some(text) =>
      LittleFieldReadsBack(text, rest);
      assert s == [1 as char] + (LittleField(text) + rest) && s[1..] == LittleField(text) + rest;
  }

  /** Scopes until the first byte is a tag, then the two owners, then nothing. */
  function ReadTail(s: string, scopes: seq<ScopeFact>): Option<(seq<ScopeFact>, Option<string>, Option<string>)>
    decreases |s|
  {
    if s == "" then None
    else if s[0] == 0 as char || s[0] == 1 as char then ReadOwners(s, scopes)
    else
      match CutField(s, FromLittle)
      case NoField => None
      case Cut(kind, afterKind) =>
        match CutField(afterKind, FromLittle)
        case NoField => None
        case Cut(symbol, rest) => ReadTail(rest, scopes + [ScopeFact(kind, symbol)])
  }

  function ReadOwners(s: string, scopes: seq<ScopeFact>): Option<(seq<ScopeFact>, Option<string>, Option<string>)>
  {
    match CutOwner(s)
    case NoOwner => None
    case ReadOwner(implOwner, afterImpl) =>
      match CutOwner(afterImpl)
      case NoOwner => None
      case ReadOwner(traitOwner, rest) => if rest == "" then Some((scopes, implOwner, traitOwner)) else None
  }

  /** Owner path, kind, symbol, scopes, impl owner, trait owner, in that order. */
  function ReadIdentity(s: string): Option<ItemIdentity>
  {
    var path := CutField(s, FromLittle);
    if path.NoField? then None
    else
      var kind := CutField(path.rest, FromLittle);
      if kind.NoField? then None
      else
        var symbol := CutField(kind.rest, FromLittle);
        if symbol.NoField? then None
        else
          match ReadTail(symbol.rest, [])
          case None => None
          case Some((scopes, implOwner, traitOwner)) =>
            Some(ItemIdentity(path.field, kind.field, symbol.field, scopes, implOwner, traitOwner))
  }

  lemma OwnersReadBack(before: seq<ScopeFact>, implOwner: Option<string>, traitOwner: Option<string>)
    requires OptionRepresentable(implOwner) && OptionRepresentable(traitOwner)
    ensures ReadTail(Tail([], implOwner, traitOwner), before) == Some((before, implOwner, traitOwner))
  {
    NoScopesTail(implOwner, traitOwner);
    OwnerReadsBack(implOwner, OptionalBytes(traitOwner));
    OwnerReadsBack(traitOwner, "");
    assert OptionalBytes(traitOwner) + "" == OptionalBytes(traitOwner);
    FirstByteDecides([], implOwner, traitOwner);
  }

  lemma ScopeReadsBack(before: seq<ScopeFact>, scope: ScopeFact, s: string, rest: string)
    requires |scope.kind| < U64 && |scope.symbol| < U64
    requires s == LittleField(scope.kind) + (LittleField(scope.symbol) + rest) && (s[0] as int) >= 2
    ensures ReadTail(s, before) == ReadTail(rest, before + [scope])
  {
    LittleFieldReadsBack(scope.kind, LittleField(scope.symbol) + rest);
    LittleFieldReadsBack(scope.symbol, rest);
  }

  lemma TailStep(before: seq<ScopeFact>, scopes: seq<ScopeFact>, implOwner: Option<string>, traitOwner: Option<string>)
    requires scopes != [] && TagFreeKinds(scopes) && ScopesRepresentable(scopes)
    ensures ReadTail(Tail(scopes, implOwner, traitOwner), before) ==
            ReadTail(Tail(scopes[1..], implOwner, traitOwner), before + [scopes[0]])
  {
    OneScopeTail(scopes, implOwner, traitOwner);
    FirstByteDecides(scopes, implOwner, traitOwner);
    ScopeReadsBack(before, scopes[0], Tail(scopes, implOwner, traitOwner), Tail(scopes[1..], implOwner, traitOwner));
  }

  lemma AppendParts<T>(before: seq<T>, more: seq<T>)
    ensures before + [] == before && (more != [] ==> before + [more[0]] + more[1..] == before + more)
  {
  }

  lemma {:induction false} TailReadsBack(
    before: seq<ScopeFact>, scopes: seq<ScopeFact>, all: seq<ScopeFact>, implOwner: Option<string>,
    traitOwner: Option<string>)
    requires TagFreeKinds(scopes) && ScopesRepresentable(scopes) && all == before + scopes
    requires OptionRepresentable(implOwner) && OptionRepresentable(traitOwner)
    ensures ReadTail(Tail(scopes, implOwner, traitOwner), before) == Some((all, implOwner, traitOwner))
    decreases |scopes|
  {
    AppendParts(before, scopes);
    if scopes == [] {
      OwnersReadBack(before, implOwner, traitOwner);
    } else {
      TailStep(before, scopes, implOwner, traitOwner);
      TailReadsBack(before + [scopes[0]], scopes[1..], all, implOwner, traitOwner);
    }
  }

  /** The three leading fields, whatever follows. */
  lemma LeadReadsBack(a: string, b: string, c: string, tail: string)
    requires |a| < U64 && |b| < U64 && |c| < U64
    ensures var s := LittleField(a) + (LittleField(b) + (LittleField(c) + tail));
            ReadIdentity(s) ==
            match ReadTail(tail, [])
            case None => None
            case Some((scopes, implOwner, traitOwner)) => Some(ItemIdentity(a, b, c, scopes, implOwner, traitOwner))
  {
    LittleFieldReadsBack(a, LittleField(b) + (LittleField(c) + tail));
    LittleFieldReadsBack(b, LittleField(c) + tail);
    LittleFieldReadsBack(c, tail);
  }

  /** What is hashed reads back as exactly the item, field by field. */
  lemma PreimageReadsBack(item: ItemIdentity)
    requires Representable(item) && TagFreeKinds(item.scopes)
    ensures ReadIdentity(Preimage(item)) == Some(item)
  {
    LeadReadsBack(item.ownerPath, item.itemKind, item.symbol, Tail(item.scopes, item.implOwner, item.traitOwner));
    assert [] + item.scopes == item.scopes;
    TailReadsBack([], item.scopes, item.scopes, item.implOwner, item.traitOwner);
  }

  /** Equal preimages come from equal items, whenever no scope kind can pose as an owner tag. */
  lemma PreimageInjective(a: ItemIdentity, b: ItemIdentity)
    requires Representable(a) && Representable(b) && TagFreeKinds(a.scopes) && TagFreeKinds(b.scopes)
    requires Preimage(a) == Preimage(b)
    ensures a == b
  {
    PreimageReadsBack(a);
    PreimageReadsBack(b);
  }

  // ----- the visitor

  /** The item kinds under which the visitor opens a scope, besides `impl` and `trait`. */
  datatype ScopingKind = Enum | Function | ForeignModule | Module | Method {
    function Label(): string
    {
      match this
      case Enum => "enum"
      case Function => "function"
      case ForeignModule => "foreign-module"
      case Module => "module"
      case Method => "method"
    }
  }

  /** The bytes of an item in its owner's source. */
  datatype Slice = Slice(start: nat, end: nat)

  datatype Fact = Fact(item: ItemIdentity, slice: Slice)

  /**
   A syntax item: its own symbol, its slice unless its range is none of the source, and the items
   nested in it at any depth of other syntax.
   */
  datatype Node =
    | Plain(itemKind: string, symbol: string, slice: Option<Slice>, nested: seq<Node>)
    | Scoping(kind: ScopingKind, symbol: string, slice: Option<Slice>, nested: seq<Node>)
    | Impl(selfType: string, traitPath: Option<string>, slice: Option<Slice>, nested: seq<Node>)
    | TraitDecl(symbol: string, slice: Option<Slice>, nested: seq<Node>)

  /** Where an item stands: the open scopes and the owners in force. */
  datatype Context = Context(scopes: seq<ScopeFact>, implOwner: Option<string>, traitOwner: Option<string>) {
    function Enter(kind: string, symbol: string): Context
    {
      this.(scopes := scopes + [ScopeFact(kind, symbol)])
    }
  }

  function Recorded(owner: string, kind: string, symbol: string, slice: Option<Slice>, at: Context): seq<Fact>
  {
    if symbol == "" || slice.None? then []
    else [Fact(ItemIdentity(owner, kind, symbol, at.scopes, at.implOwner, at.traitOwner), slice.value)]
  }

  /** The facts of one item: itself, then everything nested in it, in its own context. */
  function FactsOf(owner: string, node: Node, at: Context): seq<Fact>
    decreases node, 1
  {
    match node
    case Plain(itemKind, symbol, slice, nested) =>
      Recorded(owner, itemKind, symbol, slice, at) + AllFacts(owner, nested, at)
    case Scoping(kind, symbol, slice, nested) =>
      Recorded(owner, kind.Label(), symbol, slice, at) + AllFacts(owner, nested, at.Enter(kind.Label(), symbol))
    case Impl(selfType, traitPath, slice, nested) =>
      var inside := at.(implOwner := Some(selfType), traitOwner := traitPath);
      Recorded(owner, "impl", selfType, slice, inside) + AllFacts(owner, nested, inside.Enter("impl", selfType))
    case TraitDecl(symbol, slice, nested) =>
      Recorded(owner, "trait", symbol, slice, at) +
      AllFacts(owner, nested, at.(traitOwner := Some(symbol)).Enter("trait", symbol))
  }

  function AllFacts(owner: string, nodes: seq<Node>, at: Context): seq<Fact>
    decreases nodes, 0
  {
    if nodes == [] then [] else FactsOf(owner, nodes[0], at) + AllFacts(owner, nodes[1..], at)
  }

  /** `RustNestedItemFactVisitorV1`: a scope stack pushed and popped, owners swapped and restored. */
  class Visitor {
    const ownerPath: string
    var scopes: seq<ScopeFact>
    var implOwner: Option<string>
    var traitOwner: Option<string>
    var facts: seq<Fact>

    constructor (ownerPath: string)
      ensures this.ownerPath == ownerPath
      ensures scopes == [] && implOwner == None && traitOwner == None && facts == []
    {
      this.ownerPath := ownerPath;
      scopes, implOwner, traitOwner, facts := [], None, None, [];
    }

    ghost function At(): Context
      reads this
    {
      Context(scopes, implOwner, traitOwner)
    }

    method Record(kind: string, symbol: string, slice: Option<Slice>)
      modifies this`facts
      ensures facts == old(facts) + Recorded(ownerPath, kind, symbol, slice, At())
    {
      if symbol == "" || slice.None? {
        return;
      }
      facts := facts + [Fact(ItemIdentity(ownerPath, kind, symbol, scopes, implOwner, traitOwner), slice.value)];
    }

    method EnterScope(kind: string, symbol: string)
      modifies this`scopes
      ensures scopes == old(scopes) + [ScopeFact(kind, symbol)]
    {
      scopes := scopes + [ScopeFact(kind, symbol)];
    }

    method PopScope()
      requires scopes != []
      modifies this`scopes
      ensures scopes == old(scopes)[..|old(scopes)| - 1]
    {
      scopes := scopes[..|scopes| - 1];
    }

    /** A visit leaves the stack and the owners as it found them and appends the item's facts. */
    method Visit(node: Node)
      modifies this
      ensures At() == old(At())
      ensures facts == old(facts) + FactsOf(ownerPath, node, old(At()))
      decreases node, 2
    {
      match node {
        case Plain(itemKind, symbol, slice, nested) =>
          Record(itemKind, symbol, slice);
          VisitAll(nested);
        case Scoping(kind, symbol, slice, nested) =>
          Record(kind.Label(), symbol, slice);
          VisitScoped(kind.Label(), symbol, nested);
        case Impl(_, _, _, _) =>
          VisitImpl(node);
        case TraitDecl(_, _, _) =>
          VisitTrait(node);
      }
    }

    method VisitScoped(kind: string, symbol: string, nested: seq<Node>)
      modifies this
      ensures At() == old(At())
      ensures facts == old(facts) + AllFacts(ownerPath, nested, old(At()).Enter(kind, symbol))
      decreases nested, 1
    {
      EnterScope(kind, symbol);
      VisitAll(nested);
      PopScope();
    }

    method VisitImpl(node: Node)
      requires node.Impl?
      modifies this
      ensures At() == old(At())
      ensures facts == old(facts) + FactsOf(ownerPath, node, old(At()))
      decreases node, 1
    {
      var previousImplOwner, previousTraitOwner := implOwner, traitOwner;
      implOwner, traitOwner := Some(node.selfType), node.traitPath;
      Record("impl", node.selfType, node.slice);
      VisitScoped("impl", node.selfType, node.nested);
      implOwner, traitOwner := previousImplOwner, previousTraitOwner;
    }

    method VisitTrait(node: Node)
      requires node.TraitDecl?
      modifies this
      ensures At() == old(At())
      ensures facts == old(facts) + FactsOf(ownerPath, node, old(At()))
      decreases node, 1
    {
      Record("trait", node.symbol, node.slice);
      var previousTraitOwner := traitOwner;
      traitOwner := Some(node.symbol);
      VisitScoped("trait", node.symbol, node.nested);
      traitOwner := previousTraitOwner;
    }

    method VisitAll(nodes: seq<Node>)
      modifies this
      ensures At() == old(At())
      ensures facts == old(facts) + AllFacts(ownerPath, nodes, old(At()))
      decreases nodes, 0
    {
      if nodes != [] {
        Visit(nodes[0]);
        VisitAll(nodes[1..]);
      }
    }
  }

  /** The kinds the visitor pushes: two to 255 bytes, so the low byte of their length is no tag. */
  ghost predicate ShortKinds(scopes: seq<ScopeFact>)
  {
    forall i :: 0 <= i < |scopes| ==> 2 <= |scopes[i].kind| < 256
  }

  lemma EnterKeepsShort(at: Context, kind: string, symbol: string)
    requires ShortKinds(at.scopes) && 2 <= |kind| < 256
    ensures ShortKinds(at.Enter(kind, symbol).scopes)
  {
  }

  lemma {:induction false} EmittedKinds(owner: string, node: Node, at: Context, i: nat)
    requires ShortKinds(at.scopes) && i < |FactsOf(owner, node, at)|
    ensures ShortKinds(FactsOf(owner, node, at)[i].item.scopes)
    decreases node, 1
  {
    match node
    case Plain(itemKind, symbol, slice, nested) =>
      var own := |Recorded(owner, itemKind, symbol, slice, at)|;
      if i >= own { AllEmittedKinds(owner, nested, at, i - own); }
    case Scoping(kind, symbol, slice, nested) =>
      var own := |Recorded(owner, kind.Label(), symbol, slice, at)|;
      EnterKeepsShort(at, kind.Label(), symbol);
      if i >= own { AllEmittedKinds(owner, nested, at.Enter(kind.Label(), symbol), i - own); }
    case Impl(selfType, traitPath, slice, nested) =>
      var inside := at.(implOwner := Some(selfType), traitOwner := traitPath);
      var own := |Recorded(owner, "impl", selfType, slice, inside)|;
      EnterKeepsShort(inside, "impl", selfType);
      if i >= own { AllEmittedKinds(owner, nested, inside.Enter("impl", selfType), i - own); }
    case TraitDecl(symbol, slice, nested) =>
      var own := |Recorded(owner, "trait", symbol, slice, at)|;
      var inside := at.(traitOwner := Some(symbol));
      EnterKeepsShort(inside, "trait", symbol);
      if i >= own { AllEmittedKinds(owner, nested, inside.Enter("trait", symbol), i - own); }
  }

  lemma {:induction false} AllEmittedKinds(owner: string, nodes: seq<Node>, at: Context, i: nat)
    requires ShortKinds(at.scopes) && i < |AllFacts(owner, nodes, at)|
    ensures ShortKinds(AllFacts(owner, nodes, at)[i].item.scopes)
    decreases nodes, 0
  {
    var first := |FactsOf(owner, nodes[0], at)|;
    if i < first {
      EmittedKinds(owner, nodes[0], at, i);
    } else {
      AllEmittedKinds(owner, nodes[1..], at, i - first);
    }
  }

  /** The facts of a whole file. */
  function FileFacts(owner: string, file: seq<Node>): seq<Fact>
  {
    AllFacts(owner, file, Context([], None, None))
  }

  // ----- the facts by chains of nested items

  /** Each item of a chain is nested in the one before, the first stands in the file. */
  ghost predicate IsChain(file: seq<Node>, chain: seq<Node>)
  {
    && |chain| >= 1 && chain[0] in file
    && forall k :: 0 <= k < |chain| - 1 ==> chain[k + 1] in chain[k].nested
  }

  function OwnKind(node: Node): string
  {
    match node
    case Plain(itemKind, _, _, _) => itemKind
    case Scoping(Enum, _, _, _) => "enum"
    case Scoping(Function, _, _, _) => "function"
    case Scoping(ForeignModule, _, _, _) => "foreign-module"
    case Scoping(Module, _, _, _) => "module"
    case Scoping(Method, _, _, _) => "method"
    case Impl(_, _, _, _) => "impl"
    case TraitDecl(_, _, _) => "trait"
  }

  function OwnSymbol(node: Node): string
  {
    if node.Impl? then node.selfType else node.symbol
  }

  /** The scopes that items open, outermost first. */
  function ScopesOf(nodes: seq<Node>): seq<ScopeFact>
  {
    if nodes == [] then []
    else
      var last := nodes[|nodes| - 1];
      ScopesOf(nodes[..|nodes| - 1]) + if last.Plain? then [] else [ScopeFact(OwnKind(last), OwnSymbol(last))]
  }

  /** The deepest implementation block on the chain, the item itself included. */
  ghost predicate DeepestImpl(chain: seq<Node>, k: nat)
  {
    k < |chain| && chain[k].Impl? && forall m :: k < m < |chain| ==> !chain[m].Impl?
  }

  ghost predicate ImplOwnerIs(chain: seq<Node>, owner: Option<string>)
  {
    match owner
    case None => forall k :: 0 <= k < |chain| ==> !chain[k].Impl?
    case Some(text) => exists k: nat :: DeepestImpl(chain, k) && chain[k].selfType == text
  }

  /** An implementation block, the item itself included, or a trait strictly above the item. */
  predicate GivesTrait(chain: seq<Node>, k: nat)
  {
    k < |chain| && (chain[k].Impl? || (chain[k].TraitDecl? && k < |chain| - 1))
  }

  ghost predicate DeepestTrait(chain: seq<Node>, k: nat)
  {
    GivesTrait(chain, k) && forall m: nat :: k < m < |chain| ==> !GivesTrait(chain, m)
  }

  ghost predicate TraitOwnerIs(chain: seq<Node>, owner: Option<string>)
  {
    || (owner.None? && forall k: nat :: k < |chain| ==> !GivesTrait(chain, k))
    || (exists k: nat ::
          DeepestTrait(chain, k) && owner == if chain[k].Impl? then chain[k].traitPath else Some(chain[k].symbol))
  }

  /** The fact of the item at the end of a chain, if it has a symbol and a slice. */
  ghost predicate ChainGives(owner: string, chain: seq<Node>, fact: Fact)
    requires |chain| >= 1
  {
    var last := chain[|chain| - 1];
    && OwnSymbol(last) != "" && last.slice == Some(fact.slice)
    && fact.item.ownerPath == owner && fact.item.itemKind == OwnKind(last) && fact.item.symbol == OwnSymbol(last)
    && fact.item.scopes == ScopesOf(chain[..|chain| - 1])
    && ImplOwnerIs(chain, fact.item.implOwner) && TraitOwnerIs(chain, fact.item.traitOwner)
  }

  ghost predicate SomeChainGives(owner: string, file: seq<Node>, fact: Fact)
  {
    exists chain :: IsChain(file, chain) && ChainGives(owner, chain, fact)
  }

  /** The context for the items nested in one. */
  function Inside(at: Context, node: Node): Context
  {
    match node
    case Plain(_, _, _, _) => at
    case Scoping(kind, symbol, _, _) => at.Enter(kind.Label(), symbol)
    case Impl(selfType, traitPath, _, _) =>
      at.(implOwner := Some(selfType), traitOwner := traitPath).Enter("impl", selfType)
    case TraitDecl(symbol, _, _) => at.(traitOwner := Some(symbol)).Enter("trait", symbol)
  }

  function InsideAll(at: Context, nodes: seq<Node>): Context
  {
    if nodes == [] then at else Inside(InsideAll(at, nodes[..|nodes| - 1]), nodes[|nodes| - 1])
  }

  /** The facts of the item alone. */
  function OwnFacts(owner: string, node: Node, at: Context): seq<Fact>
  {
    match node
    case Plain(itemKind, symbol, slice, _) => Recorded(owner, itemKind, symbol, slice, at)
    case Scoping(kind, symbol, slice, _) => Recorded(owner, kind.Label(), symbol, slice, at)
    case Impl(selfType, traitPath, slice, _) =>
      Recorded(owner, "impl", selfType, slice, at.(implOwner := Some(selfType), traitOwner := traitPath))
    case TraitDecl(symbol, slice, _) => Recorded(owner, "trait", symbol, slice, at)
  }

  lemma FactsSplit(owner: string, node: Node, at: Context)
    ensures FactsOf(owner, node, at) == OwnFacts(owner, node, at) + AllFacts(owner, node.nested, Inside(at, node))
  {
  }

  lemma {:induction false} InsideCons(at: Context, node: Node, nodes: seq<Node>)
    ensures InsideAll(at, [node] + nodes) == InsideAll(Inside(at, node), nodes)
  {
    var all := [node] + nodes;
    if nodes == [] {
      assert all[..0] == [] && all[0] == node;
    } else {
      InsideCons(at, node, nodes[..|nodes| - 1]);
      assert all[..|all| - 1] == [node] + nodes[..|nodes| - 1];
    }
  }

  /** The end of this chain emits the fact in this context. */
  ghost predicate EmittedBy(owner: string, nodes: seq<Node>, at: Context, chain: seq<Node>, fact: Fact)
  {
    && IsChain(nodes, chain)
    && fact in OwnFacts(owner, chain[|chain| - 1], InsideAll(at, chain[..|chain| - 1]))
  }

  ghost predicate Emitted(owner: string, nodes: seq<Node>, at: Context, fact: Fact)
  {
    exists chain :: EmittedBy(owner, nodes, at, chain, fact)
  }

  lemma {:induction false} AllFactsEach(owner: string, nodes: seq<Node>, at: Context, fact: Fact)
    ensures fact in AllFacts(owner, nodes, at) <==>
            exists i :: 0 <= i < |nodes| && fact in FactsOf(owner, nodes[i], at)
  {
    if nodes != [] {
      AllFactsEach(owner, nodes[1..], at, fact);
      assert forall i :: 0 < i < |nodes| ==> nodes[i] == nodes[1..][i - 1];
      if fact in AllFacts(owner, nodes[1..], at) {
        var i :| 0 <= i < |nodes[1..]| && fact in FactsOf(owner, nodes[1..][i], at);
        assert nodes[i + 1] == nodes[1..][i];
      }
    }
  }

  lemma {:induction false} FactIsEmitted(owner: string, nodes: seq<Node>, at: Context, fact: Fact)
    requires fact in AllFacts(owner, nodes, at)
    ensures Emitted(owner, nodes, at, fact)
    decreases nodes
  {
    AllFactsEach(owner, nodes, at, fact);
    var i :| 0 <= i < |nodes| && fact in FactsOf(owner, nodes[i], at);
    var node := nodes[i];
    FactsSplit(owner, node, at);
    if fact in OwnFacts(owner, node, at) {
      assert [node][..0] == [];
      assert EmittedBy(owner, nodes, at, [node], fact);
    } else {
      FactIsEmitted(owner, node.nested, Inside(at, node), fact);
      var chain :| EmittedBy(owner, node.nested, Inside(at, node), chain, fact);
      LongerChain(owner, nodes, at, node, chain, fact);
    }
  }

  lemma LongerChain(owner: string, nodes: seq<Node>, at: Context, node: Node, chain: seq<Node>, fact: Fact)
    requires node in nodes && EmittedBy(owner, node.nested, Inside(at, node), chain, fact)
    ensures EmittedBy(owner, nodes, at, [node] + chain, fact)
  {
    var longer := [node] + chain;
    InsideCons(at, node, chain[..|chain| - 1]);
    assert longer[..|longer| - 1] == [node] + chain[..|chain| - 1];
    forall k | 0 <= k < |longer| - 1 ensures longer[k + 1] in longer[k].nested {
      if k > 0 { assert chain[k] in chain[k - 1].nested; }
    }
  }

  lemma {:induction false} EmittedIsFact(owner: string, nodes: seq<Node>, at: Context, chain: seq<Node>, fact: Fact)
    requires EmittedBy(owner, nodes, at, chain, fact)
    ensures fact in AllFacts(owner, nodes, at)
    decreases |chain|
  {
    var i :| 0 <= i < |nodes| && nodes[i] == chain[0];
    var node := nodes[i];
    FactsSplit(owner, node, at);
    if |chain| == 1 {
      assert chain[..0] == [];
    } else {
      var rest := chain[1..];
      assert chain[..|chain| - 1] == [node] + rest[..|rest| - 1];
      InsideCons(at, node, rest[..|rest| - 1]);
      forall k | 0 <= k < |rest| - 1 ensures rest[k + 1] in rest[k].nested {
        assert chain[k + 2] in chain[k + 1].nested;
      }
      assert rest[0] in node.nested;
      EmittedIsFact(owner, node.nested, Inside(at, node), rest, fact);
    }
    AllFactsEach(owner, nodes, at, fact);
  }

  lemma LabelIsKind(node: Node)
    requires node.Scoping?
    ensures node.kind.Label() == OwnKind(node)
  {
  }

  /** Scopes and owners of the context above an item are those of the chain. */
  lemma {:induction false} ContextOfChain(above: seq<Node>)
    ensures var at := InsideAll(Context([], None, None), above);
            && at.scopes == ScopesOf(above) && ImplOwnerIs(above, at.implOwner) && AboveTrait(above, at.traitOwner)
  {
    if above != [] {
      var rest, last := above[..|above| - 1], above[|above| - 1];
      ContextOfChain(rest);
      if last.Scoping? { LabelIsKind(last); }
      ImplStep(rest, last, InsideAll(Context([], None, None), rest).implOwner);
      TraitStep(rest, last, InsideAll(Context([], None, None), rest).traitOwner);
      assert above == rest + [last];
    }
  }

  /** Implementation blocks and traits above an item, the deepest of them. */
  ghost predicate DeepestAbove(above: seq<Node>, k: nat)
  {
    && k < |above| && (above[k].Impl? || above[k].TraitDecl?)
    && forall m :: k < m < |above| ==> !above[m].Impl? && !above[m].TraitDecl?
  }

  ghost predicate AboveTrait(above: seq<Node>, owner: Option<string>)
  {
    || (owner.None? && forall k :: 0 <= k < |above| ==> !above[k].Impl? && !above[k].TraitDecl?)
    || (exists k: nat ::
          DeepestAbove(above, k) && owner == if above[k].Impl? then above[k].traitPath else Some(above[k].symbol))
  }

  lemma ImplStep(rest: seq<Node>, last: Node, owner: Option<string>)
    requires ImplOwnerIs(rest, owner)
    ensures ImplOwnerIs(rest + [last], if last.Impl? then Some(last.selfType) else owner)
  {
    var all := rest + [last];
    if last.Impl? {
      assert DeepestImpl(all, |rest|);
    } else if owner.Some? {
      var k: nat :| DeepestImpl(rest, k) && rest[k].selfType == owner.value;
      assert DeepestImpl(all, k);
    }
  }

  lemma TraitStep(rest: seq<Node>, last: Node, owner: Option<string>)
    requires AboveTrait(rest, owner)
    ensures AboveTrait(rest + [last],
              if last.Impl? then last.traitPath else if last.TraitDecl? then Some(last.symbol) else owner)
  {
    var all := rest + [last];
    if last.Impl? || last.TraitDecl? {
      assert DeepestAbove(all, |rest|);
    } else if !(owner.None? && forall k :: 0 <= k < |rest| ==> !rest[k].Impl? && !rest[k].TraitDecl?) {
      var k: nat :| DeepestAbove(rest, k) && owner == if rest[k].Impl? then rest[k].traitPath else Some(rest[k].symbol);
      assert DeepestAbove(all, k);
    }
  }

  /** With the item itself at the end of the chain. */
  lemma TraitAtEnd(above: seq<Node>, last: Node, owner: Option<string>)
    requires AboveTrait(above, owner)
    ensures TraitOwnerIs(above + [last], if last.Impl? then last.traitPath else owner)
  {
    var chain := above + [last];
    if last.Impl? {
      assert DeepestTrait(chain, |above|);
    } else if !(owner.None? && forall k :: 0 <= k < |above| ==> !above[k].Impl? && !above[k].TraitDecl?) {
      var k: nat :| DeepestAbove(above, k) &&
        owner == if above[k].Impl? then above[k].traitPath else Some(above[k].symbol);
      assert DeepestTrait(chain, k);
    }
  }

  lemma ImplOwnerUnique(chain: seq<Node>, a: Option<string>, b: Option<string>)
    requires ImplOwnerIs(chain, a) && ImplOwnerIs(chain, b)
    ensures a == b
  {
  }

  lemma TraitOwnerUnique(chain: seq<Node>, a: Option<string>, b: Option<string>)
    requires TraitOwnerIs(chain, a) && TraitOwnerIs(chain, b)
    ensures a == b
  {
  }

  /** What the item at the end of a chain emits is what the chain gives. */
  lemma EndOfChain(owner: string, chain: seq<Node>, fact: Fact)
    requires |chain| >= 1
    ensures fact in OwnFacts(owner, chain[|chain| - 1], InsideAll(Context([], None, None), chain[..|chain| - 1])) <==>
            ChainGives(owner, chain, fact)
  {
    var above, last := chain[..|chain| - 1], chain[|chain| - 1];
    var at := InsideAll(Context([], None, None), above);
    ContextOfChain(above);
    assert chain == above + [last];
    var implOwner := if last.Impl? then Some(last.selfType) else at.implOwner;
    var traitOwner := if last.Impl? then last.traitPath else at.traitOwner;
    ImplStep(above, last, at.implOwner);
    TraitAtEnd(above, last, at.traitOwner);
    if last.Scoping? { LabelIsKind(last); }
    if ChainGives(owner, chain, fact) {
      ImplOwnerUnique(chain, fact.item.implOwner, implOwner);
      TraitOwnerUnique(chain, fact.item.traitOwner, traitOwner);
    }
  }

  /** A fact is emitted for a file if and only if some chain of nested items gives it. */
  lemma FactExactlyWhen(owner: string, file: seq<Node>, fact: Fact)
    ensures fact in FileFacts(owner, file) <==> SomeChainGives(owner, file, fact)
  {
    var at := Context([], None, None);
    if fact in FileFacts(owner, file) {
      FactIsEmitted(owner, file, at, fact);
      var chain :| EmittedBy(owner, file, at, chain, fact);
      EndOfChain(owner, chain, fact);
    }
    if SomeChainGives(owner, file, fact) {
      var chain :| IsChain(file, chain) && ChainGives(owner, chain, fact);
      EndOfChain(owner, chain, fact);
      EmittedIsFact(owner, file, at, chain, fact);
    }
  }

  /** The items with a symbol and a slice, at any depth. */
  function EmittingCount(nodes: seq<Node>): nat
    decreases nodes
  {
    if nodes == [] then 0
    else
      (if OwnSymbol(nodes[0]) != "" && nodes[0].slice.Some? then 1 else 0) +
      EmittingCount(nodes[0].nested) + EmittingCount(nodes[1..])
  }

  /** Each of them gives one fact. */
  lemma {:induction false} OneFactEach(owner: string, nodes: seq<Node>, at: Context)
    ensures |AllFacts(owner, nodes, at)| == EmittingCount(nodes)
    decreases nodes
  {
    if nodes != [] {
      FactsSplit(owner, nodes[0], at);
      OneFactEach(owner, nodes[0].nested, Inside(at, nodes[0]));
      OneFactEach(owner, nodes[1..], at);
    }
  }

  // ----- the order of the facts

  /** By start, end, kind and symbol; scopes and owners do not count. */
  predicate Precedes(a: Fact, b: Fact)
  {
    || a.slice.start < b.slice.start
    || (a.slice.start == b.slice.start && a.slice.end < b.slice.end)
    || (a.slice == b.slice && Less(a.item.itemKind, b.item.itemKind))
    || (a.slice == b.slice && a.item.itemKind == b.item.itemKind && Less(a.item.symbol, b.item.symbol))
  }

  ghost predicate Ordered(facts: seq<Fact>)
  {
    forall i, j :: 0 <= i < j < |facts| ==> !Precedes(facts[j], facts[i])
  }

  lemma PrecedesAsymmetric(a: Fact, b: Fact)
    requires Precedes(a, b)
    ensures !Precedes(b, a)
  {
    if a.slice == b.slice {
      StrictlyLess(a.item.itemKind, b.item.itemKind);
      StrictlyLess(a.item.symbol, b.item.symbol);
    }
  }

  lemma StrictlyLess(a: string, b: string)
    ensures Less(a, b) ==> a != b && !Less(b, a)
  {
    Irreflexive(a);
    if Less(a, b) && Less(b, a) { Transitive(a, b, a); }
  }

  lemma NotAfterTransitive(a: Fact, b: Fact, c: Fact)
    requires !Precedes(b, a) && !Precedes(c, b)
    ensures !Precedes(c, a)
  {
    if a.slice == b.slice && b.slice == c.slice {
      NotLessTransitive(a.item.itemKind, b.item.itemKind, c.item.itemKind);
      if a.item.itemKind == b.item.itemKind && b.item.itemKind == c.item.itemKind {
        NotLessTransitive(a.item.symbol, b.item.symbol, c.item.symbol);
      }
      Trichotomy(a.item.itemKind, b.item.itemKind);
      Trichotomy(b.item.itemKind, c.item.itemKind);
      StrictlyLess(a.item.itemKind, b.item.itemKind);
      StrictlyLess(b.item.itemKind, c.item.itemKind);
    }
  }

  lemma NotLessTransitive(a: string, b: string, c: string)
    requires !Less(b, a) && !Less(c, b)
    ensures !Less(c, a)
  {
    Trichotomy(a, b);
    Trichotomy(b, c);
    if Less(a, b) && Less(b, c) { Transitive(a, b, c); }
    StrictlyLess(a, c);
  }

  function InsertFact(facts: seq<Fact>, x: Fact): (r: seq<Fact>)
    ensures multiset(r) == multiset(facts) + multiset{x}
  {
    if facts == [] then [x]
    else if Precedes(x, facts[0]) then [x] + facts
    else
      assert facts == [facts[0]] + facts[1..];
      [facts[0]] + InsertFact(facts[1..], x)
  }

  lemma {:induction false} InsertKeepsOrdered(facts: seq<Fact>, x: Fact)
    requires Ordered(facts)
    ensures Ordered(InsertFact(facts, x))
  {
    if facts != [] && Precedes(x, facts[0]) {
      PrecedesAsymmetric(x, facts[0]);
      forall j | 0 <= j < |facts| ensures !Precedes(facts[j], x) {
        if j > 0 { NotAfterTransitive(x, facts[0], facts[j]); }
      }
    } else if facts != [] {
      var rest := InsertFact(facts[1..], x);
      InsertKeepsOrdered(facts[1..], x);
      forall j | 0 <= j < |rest| ensures !Precedes(rest[j], facts[0]) {
        assert rest[j] in multiset(rest);
        assert rest[j] == x || rest[j] in facts[1..];
      }
    }
  }

  method SortFacts(facts: seq<Fact>) returns (sorted: seq<Fact>)
    ensures Ordered(sorted) && multiset(sorted) == multiset(facts)
  {
    sorted := [];
    for i := 0 to |facts|
      invariant Ordered(sorted) && multiset(sorted) == multiset(facts[..i])
    {
      assert facts[..i + 1] == facts[..i] + [facts[i]];
      InsertKeepsOrdered(sorted, facts[i]);
      sorted := InsertFact(sorted, facts[i]);
    }
    assert facts[..|facts|] == facts;
  }

  /** Earlier facts have the smaller start, end, kind and symbol, compared in this order. */
  lemma OrderedByKeys(facts: seq<Fact>, i: nat, j: nat)
    requires Ordered(facts) && i < j < |facts|
    ensures var a, b := facts[i], facts[j];
            || a.slice.start < b.slice.start
            || (a.slice.start == b.slice.start &&
                (|| a.slice.end < b.slice.end
                 || (a.slice.end == b.slice.end &&
                     (|| Less(a.item.itemKind, b.item.itemKind)
                      || (a.item.itemKind == b.item.itemKind &&
                          (a.item.symbol == b.item.symbol || Less(a.item.symbol, b.item.symbol)))))))
  {
    Trichotomy(facts[i].item.itemKind, facts[j].item.itemKind);
    Trichotomy(facts[i].item.symbol, facts[j].item.symbol);
  }

  datatype FactsError = OwnerPathMissing | SyntaxInvalid

  /** `rust_nested_item_facts_v1`: an owner path is needed, then syntax; then the file's facts in order. */
  method NestedItemFacts(owner: string, file: Option<seq<Node>>) returns (r: Result<seq<Fact>, FactsError>)
    ensures r == Err(OwnerPathMissing) <==> owner == ""
    ensures r == Err(SyntaxInvalid) <==> owner != "" && file.None?
    ensures r.Ok? ==> Ordered(r.value) && multiset(r.value) == multiset(FileFacts(owner, file.value))
  {
    if owner == "" {
      return Err(OwnerPathMissing);
    }
    if file.None? {
      return Err(SyntaxInvalid);
    }
    var visitor := new Visitor(owner);
    visitor.VisitAll(file.value);
    var facts := SortFacts(visitor.facts);
    return Ok(facts);
  }

  /** Items emitted from any two files are equal as soon as their hashed bytes are. */
  lemma EmittedPreimagesIdentify(owner: string, file: seq<Node>, i: nat, owner': string, file': seq<Node>, j: nat)
    requires i < |FileFacts(owner, file)| && j < |FileFacts(owner', file')|
    requires Representable(FileFacts(owner, file)[i].item) && Representable(FileFacts(owner', file')[j].item)
    requires Preimage(FileFacts(owner, file)[i].item) == Preimage(FileFacts(owner', file')[j].item)
    ensures FileFacts(owner, file)[i].item == FileFacts(owner', file')[j].item
  {
    AllEmittedKinds(owner, file, Context([], None, None), i);
    AllEmittedKinds(owner', file', Context([], None, None), j);
    ShortIsTagFree(FileFacts(owner, file)[i].item.scopes);
    ShortIsTagFree(FileFacts(owner', file')[j].item.scopes);
    PreimageInjective(FileFacts(owner, file)[i].item, FileFacts(owner', file')[j].item);
  }

  lemma ShortIsTagFree(scopes: seq<ScopeFact>)
    requires ShortKinds(scopes)
    ensures TagFreeKinds(scopes)
  {
  }
}
