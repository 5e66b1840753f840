/**
 Projection of one owner's parsed items: selectors deduplicated in order, item ids made from
 the identity path (src/provider_server/projection.rs:229-304).
 */
module ProjectionItems {
  import opened Wrappers
  import opened Text
  import opened Selector

  datatype Artifact = Artifact(identity: Identity, sourceByteStart: nat, sourceByteEnd: nat)

  datatype Item = Item(itemId: string, kind: string, name: string, selector: string, artifact: Artifact)

  /** The owner parser gives every item the language `rust` (src/exact_source_parse_artifact.rs:206-273). */
  ghost predicate OwnerItems(artifacts: seq<Artifact>)
  {
    forall k :: 0 <= k < |artifacts| ==>
      WellTyped(artifacts[k].identity) && artifacts[k].identity.languageId == "rust"
  }

  function ItemId(identity: Identity): string
  {
    Replace("item/" + IdentityPath(identity), '/', ':')
  }

  function ItemOf(relativePath: string, artifact: Artifact): Item
  {
    Item(ItemId(artifact.identity), artifact.identity.kind, artifact.identity.symbol,
         Print(artifact.identity, relativePath), artifact)
  }

  predicate FirstOccurrence(artifacts: seq<Artifact>, k: nat)
    requires k < |artifacts|
  {
    forall j :: 0 <= j < k ==> artifacts[j].identity != artifacts[k].identity
  }

  /** Positions of the first item of each identity among the first `n`. */
  function Kept(artifacts: seq<Artifact>, n: nat): (kept: seq<nat>)
    requires n <= |artifacts|
    ensures forall i :: 0 <= i < |kept| ==> kept[i] < n
  {
    if n == 0 then []
    else if FirstOccurrence(artifacts, n - 1) then Kept(artifacts, n - 1) + [n - 1]
    else Kept(artifacts, n - 1)
  }

  function Candidates(relativePath: string, artifacts: seq<Artifact>): (items: seq<Item>)
    ensures |items| == |artifacts|
  {
    seq(|artifacts|, i requires 0 <= i < |artifacts| => ItemOf(relativePath, artifacts[i]))
  }

  function Select(candidates: seq<Item>, positions: seq<nat>): (items: seq<Item>)
    requires forall i :: 0 <= i < |positions| ==> positions[i] < |candidates|
    ensures |items| == |positions|
    ensures forall i :: 0 <= i < |positions| ==> items[i] == candidates[positions[i]]
  {
    seq(|positions|, i requires 0 <= i < |positions| && positions[i] < |candidates| => candidates[positions[i]])
  }

  /** The items of an owner: the first of each identity. */
  function ItemsOf(relativePath: string, artifacts: seq<Artifact>): (items: seq<Item>)
    ensures |items| == |Kept(artifacts, |artifacts|)|
  {
    Select(Candidates(relativePath, artifacts), Kept(artifacts, |artifacts|))
  }

  /** Replacing `/` by `:` loses nothing where no `:` occurs. */
  lemma ReplaceSlashInjective(p: string, q: string)
    requires Without(p, ':') && Without(q, ':') && Replace(p, '/', ':') == Replace(q, '/', ':')
    ensures p == q
  {
    forall i | 0 <= i < |p| ensures i < |q| && p[i] == q[i] {
      assert Replace(p, '/', ':')[i] == Replace(q, '/', ':')[i];
    }
  }

  lemma CancelPrefix(prefix: string, p: string, q: string)
    requires prefix + p == prefix + q
    ensures p == q
  {
    assert (prefix + p)[|prefix|..] == p && (prefix + q)[|prefix|..] == q;
  }

  lemma ItemPathColonFree(identity: Identity)
    ensures Without("item/" + IdentityPath(identity), ':')
  {
    SplitPath(identity);
  }

  /** Equal item ids or selectors of one owner mean equal identities. */
  lemma NamesIdentify(a: Identity, b: Identity, relativePath: string)
    requires WellTyped(a) && WellTyped(b) && a.languageId == b.languageId
    ensures ItemId(a) == ItemId(b) ==> a == b
    ensures Print(a, relativePath) == Print(b, relativePath) ==> a == b
  {
    var p, q := IdentityPath(a), IdentityPath(b);
    if ItemId(a) == ItemId(b) {
      ItemPathColonFree(a);
      ItemPathColonFree(b);
      ReplaceSlashInjective("item/" + p, "item/" + q);
      CancelPrefix("item/", p, q);
    }
    if Print(a, relativePath) == Print(b, relativePath) {
      CancelPrefix(a.languageId + "://", relativePath + "#item/" + p, relativePath + "#item/" + q);
      CancelPrefix(relativePath + "#item/", p, q);
    }
    if p == q { PathInjective(a, b); }
  }

  lemma ReplaceAppend(p: string, q: string)
    ensures Replace(p + q, '/', ':') == Replace(p, '/', ':') + Replace(q, '/', ':')
  {
  }

  lemma ReplaceNothing(p: string)
    requires Without(p, '/')
    ensures Replace(p, '/', ':') == p
  {
  }

  lemma {:induction false} ReplaceJoin(parts: seq<string>)
    requires |parts| >= 1 && AllWithout(parts, '/')
    ensures Replace(Join(parts, '/'), '/', ':') == Join(parts, ':')
  {
    ReplaceNothing(parts[0]);
    if |parts| > 1 {
      assert AllWithout(parts[1..], '/');
      ReplaceJoin(parts[1..]);
      ReplaceAppend(parts[0] + "/", Join(parts[1..], '/'));
      ReplaceAppend(parts[0], "/");
      assert Replace("/", '/', ':') == ":";
    }
  }

  /** The id of an item spells `item` and the encoded components between colons. */
  lemma ItemIdSpells(identity: Identity)
    ensures ItemId(identity) == Join(["item"] + Components(identity), ':')
  {
    var parts := Components(identity);
    ComponentsAreSlashFree(identity, '/');
    ReplaceJoin(parts);
    ReplaceAppend("item/", IdentityPath(identity));
    assert Replace("item/", '/', ':') == "item:" == "item" + ":";
    assert (["item"] + parts)[1..] == parts;
  }

  /** What a projected item says of its artifact. */
  ghost predicate Describes(relativePath: string, item: Item)
  {
    && item.kind == item.artifact.identity.kind && item.name == item.artifact.identity.symbol
    && item.itemId == Join(["item"] + Components(item.artifact.identity), ':')
    && (IdentityValid(item.artifact.identity) ==>
          Parse(item.selector) == Ok(CanonicalSelector(item.artifact.identity, item.selector)))
    && item.selector ==
       "rust://" + (relativePath + "#item/" + Join(Components(item.artifact.identity), '/'))
  }

  lemma NoSchemeInRust()
    ensures !Contains("rust", "://") && "rust" + "://" == "rust://"
  {
    forall i ensures !OccursAt("rust", "://", i) {
      if OccursAt("rust", "://", i) { OccurrenceHead("rust", "://", i); }
    }
  }

  lemma ItemDescribes(relativePath: string, artifact: Artifact)
    requires WellTyped(artifact.identity) && artifact.identity.languageId == "rust"
    ensures Describes(relativePath, ItemOf(relativePath, artifact))
  {
    ItemIdSpells(artifact.identity);
    NoSchemeInRust();
    RoundTripExactlyWhen(artifact.identity, relativePath);
  }

  /** Every projected item carries the kind and name of its artifact, and names that lead back to it. */
  lemma ItemsDescribe(relativePath: string, artifacts: seq<Artifact>, i: nat)
    requires OwnerItems(artifacts) && i < |ItemsOf(relativePath, artifacts)|
    ensures Describes(relativePath, ItemsOf(relativePath, artifacts)[i])
  {
    ItemDescribes(relativePath, artifacts[Kept(artifacts, |artifacts|)[i]]);
  }

  ghost predicate NewSelector(candidates: seq<Item>, k: nat)
    requires k < |candidates|
  {
    forall j :: 0 <= j < k ==> candidates[j].selector != candidates[k].selector
  }

  /** The candidates among the first `n` whose selector appears for the first time. */
  ghost function Unseen(candidates: seq<Item>, n: nat): seq<Item>
    requires n <= |candidates|
  {
    if n == 0 then []
    else Unseen(candidates, n - 1) + if NewSelector(candidates, n - 1) then [candidates[n - 1]] else []
  }

  /** The filtering pass with its set of seen selectors. */
  method FilterSeen(candidates: seq<Item>) returns (items: seq<Item>)
    ensures items == Unseen(candidates, |candidates|)
  {
    items := [];
    var seenSelectors: set<string> := {};
    for n := 0 to |candidates|
      invariant forall j :: 0 <= j < n ==> candidates[j].selector in seenSelectors
      invariant forall s :: s in seenSelectors ==> exists j :: 0 <= j < n && candidates[j].selector == s
      invariant items == Unseen(candidates, n)
    {
      var item := candidates[n];
      if item.selector !in seenSelectors {
        items := items + [item];
      }
      seenSelectors := seenSelectors + {item.selector};
    }
  }

  /** The projection keeps exactly the first item of every identity, in order. */
  method ProjectItems(relativePath: string, artifacts: seq<Artifact>) returns (items: seq<Item>)
    requires OwnerItems(artifacts)
    ensures items == ItemsOf(relativePath, artifacts)
  {
    var candidates := Candidates(relativePath, artifacts);
    items := FilterSeen(candidates);
    forall k | 0 <= k < |artifacts| ensures NewSelector(candidates, k) <==> FirstOccurrence(artifacts, k) {
      NewMeansFirst(relativePath, artifacts, k);
    }
    UnseenIsKept(candidates, artifacts, |artifacts|);
  }

  lemma {:induction false} UnseenIsKept(candidates: seq<Item>, artifacts: seq<Artifact>, n: nat)
    requires |candidates| == |artifacts| && n <= |artifacts|
    requires forall k :: 0 <= k < |artifacts| ==> (NewSelector(candidates, k) <==> FirstOccurrence(artifacts, k))
    ensures Unseen(candidates, n) == Select(candidates, Kept(artifacts, n))
  {
    if n > 0 {
      UnseenIsKept(candidates, artifacts, n - 1);
      assert NewSelector(candidates, n - 1) <==> FirstOccurrence(artifacts, n - 1);
    }
  }

  lemma NewMeansFirst(relativePath: string, artifacts: seq<Artifact>, k: nat)
    requires OwnerItems(artifacts) && k < |artifacts|
    ensures NewSelector(Candidates(relativePath, artifacts), k) <==> FirstOccurrence(artifacts, k)
  {
    var candidates := Candidates(relativePath, artifacts);
    forall j | 0 <= j < k
      ensures candidates[j].selector == candidates[k].selector <==> artifacts[j].identity == artifacts[k].identity
    {
      NamesIdentify(artifacts[j].identity, artifacts[k].identity, relativePath);
    }
  }

  lemma {:induction false} KeptPositions(artifacts: seq<Artifact>, n: nat)
    requires n <= |artifacts|
    ensures forall i, j :: 0 <= i < j < |Kept(artifacts, n)| ==> Kept(artifacts, n)[i] < Kept(artifacts, n)[j]
    ensures forall i :: 0 <= i < |Kept(artifacts, n)| ==> FirstOccurrence(artifacts, Kept(artifacts, n)[i])
  {
    if n > 0 { KeptPositions(artifacts, n - 1); }
  }

  lemma {:induction false} KeptFinds(artifacts: seq<Artifact>, n: nat, k: nat) returns (i: nat)
    requires k < n <= |artifacts| && FirstOccurrence(artifacts, k)
    ensures i < |Kept(artifacts, n)| && Kept(artifacts, n)[i] == k
  {
    if k == n - 1 {
      i := |Kept(artifacts, n - 1)|;
    } else {
      i := KeptFinds(artifacts, n - 1, k);
    }
  }

  lemma {:induction false} FirstPosition(artifacts: seq<Artifact>, k: nat) returns (j: nat)
    requires k < |artifacts|
    ensures j <= k && artifacts[j].identity == artifacts[k].identity && FirstOccurrence(artifacts, j)
  {
    if FirstOccurrence(artifacts, k) {
      j := k;
    } else {
      var m :| 0 <= m < k && artifacts[m].identity == artifacts[k].identity;
      j := FirstPosition(artifacts, m);
    }
  }

  /** Within one owner, item ids and selectors are pairwise distinct. */
  lemma ItemIdsDistinct(relativePath: string, artifacts: seq<Artifact>, i: nat, j: nat)
    requires OwnerItems(artifacts)
    requires i < j < |Kept(artifacts, |artifacts|)|
    ensures var items := ItemsOf(relativePath, artifacts);
            items[i].itemId != items[j].itemId && items[i].selector != items[j].selector
  {
    var kept := Kept(artifacts, |artifacts|);
    KeptPositions(artifacts, |artifacts|);
    assert FirstOccurrence(artifacts, kept[j]);
    NamesIdentify(artifacts[kept[i]].identity, artifacts[kept[j]].identity, relativePath);
  }

  /** Every parsed item is represented by exactly one projected item: the first of its identity. */
  lemma EachIdentityKeptOnce(relativePath: string, artifacts: seq<Artifact>, k: nat) returns (i: nat)
    requires OwnerItems(artifacts) && k < |artifacts|
    ensures var items := ItemsOf(relativePath, artifacts);
            && i < |items| && items[i].artifact.identity == artifacts[k].identity
            && (forall m :: 0 <= m < |items| && items[m].artifact.identity == artifacts[k].identity ==> m == i)
            && exists j :: 0 <= j <= k && FirstOccurrence(artifacts, j) && items[i].artifact == artifacts[j]
  {
    var kept := Kept(artifacts, |artifacts|);
    KeptPositions(artifacts, |artifacts|);
    var j := FirstPosition(artifacts, k);
    i := KeptFinds(artifacts, |artifacts|, j);
    var items := ItemsOf(relativePath, artifacts);
    forall m | 0 <= m < |items| && items[m].artifact.identity == artifacts[k].identity ensures m == i {
      assert FirstOccurrence(artifacts, kept[m]) && FirstOccurrence(artifacts, kept[i]);
      assert artifacts[kept[m]].identity == artifacts[kept[i]].identity;
    }
    assert items[i].artifact == artifacts[j];
  }

  // ----- the projections attached to the items

  /** What projecting one item's callable gives: payloads, none without a callable, or an error. */
  datatype Projection = Attached(payloads: seq<string>) | Refused(message: string)

  datatype Projected = Projected(items: seq<Item>, projections: seq<seq<string>>) | IntegrityError(message: string)

  /** The first item of its identity is refused, and no earlier such item is. */
  ghost predicate FirstRefused(artifacts: seq<Artifact>, project: Artifact -> Projection, k: nat)
  {
    && k < |artifacts| && FirstOccurrence(artifacts, k) && project(artifacts[k]).Refused?
    && forall j :: 0 <= j < k && FirstOccurrence(artifacts, j) ==> project(artifacts[j]).Attached?
  }

  ghost predicate AttachedBelow(project: Artifact -> Projection, items: seq<Item>, projections: seq<seq<string>>)
  {
    |projections| <= |items| && forall i :: 0 <= i < |projections| ==>
      project(items[i].artifact) == Attached(projections[i])
  }

  /** The kept items before position `i` are all the first items before the i-th kept one. */
  lemma AttachedBefore(artifacts: seq<Artifact>, project: Artifact -> Projection, i: nat)
    requires i < |Kept(artifacts, |artifacts|)|
    requires forall m :: 0 <= m < i ==> project(artifacts[Kept(artifacts, |artifacts|)[m]]).Attached?
    requires project(artifacts[Kept(artifacts, |artifacts|)[i]]).Refused?
    ensures FirstRefused(artifacts, project, Kept(artifacts, |artifacts|)[i])
  {
    var kept := Kept(artifacts, |artifacts|);
    KeptPositions(artifacts, |artifacts|);
    forall j | 0 <= j < kept[i] && FirstOccurrence(artifacts, j) ensures project(artifacts[j]).Attached? {
      var m := KeptFinds(artifacts, |artifacts|, j);
    }
  }

  lemma AllAttached(artifacts: seq<Artifact>, project: Artifact -> Projection)
    requires var kept := Kept(artifacts, |artifacts|);
             forall m :: 0 <= m < |kept| ==> project(artifacts[kept[m]]).Attached?
    ensures forall k :: 0 <= k < |artifacts| && FirstOccurrence(artifacts, k) ==> project(artifacts[k]).Attached?
  {
    forall k | 0 <= k < |artifacts| && FirstOccurrence(artifacts, k) ensures project(artifacts[k]).Attached? {
      var m := KeptFinds(artifacts, |artifacts|, k);
    }
  }

  /**
   `projection_items`: the items with their projections, or the error of the first kept item that is
   refused; a repeated identity is never projected, so its refusal does not matter.
   */
  method ProjectOwner(relativePath: string, artifacts: seq<Artifact>, project: Artifact -> Projection)
    returns (r: Projected)
    requires OwnerItems(artifacts)
    ensures r.Projected? <==>
            forall k :: 0 <= k < |artifacts| && FirstOccurrence(artifacts, k) ==> project(artifacts[k]).Attached?
    ensures r.Projected? ==> r.items == ItemsOf(relativePath, artifacts) && |r.projections| == |r.items|
    ensures r.Projected? ==> AttachedBelow(project, r.items, r.projections)
    ensures r.IntegrityError? ==> exists k: nat ::
              FirstRefused(artifacts, project, k) && project(artifacts[k]) == Refused(r.message)
  {
    var items := ProjectItems(relativePath, artifacts);
    ghost var kept := Kept(artifacts, |artifacts|);
    assert forall i :: 0 <= i < |items| ==> items[i].artifact == artifacts[kept[i]];
    var projections: seq<seq<string>> := [];
    for i := 0 to |items|
      invariant |projections| == i && AttachedBelow(project, items, projections)
    {
      var projection := project(items[i].artifact);
      if projection.Refused? {
        AttachedBefore(artifacts, project, i);
        return IntegrityError(projection.message);
      }
      projections := projections + [projection.payloads];
    }
    AllAttached(artifacts, project);
    return Projected(items, projections);
  }
}
