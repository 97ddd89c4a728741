/** `detectIonicComponentsAndIcons` of `0002-generate-use-icons.ts`: a
    depth-first walk over the parsed Angular template that records the Ionic
    components used, the icon names it can determine, the `ion-icon` elements
    whose name it cannot determine, and whether router attributes occur.

    The walk is given twice: as functions (`Inspect`, `Walk`, `WalkAll`), which
    the lemmas reason about, and as the class `TemplateScan` whose recursive
    `Visit` updates its fields in place as the source's closure updates its
    local arrays and flags. The lemmas relate the walk to a pre-order listing
    of the inspected nodes, and characterise each result field over it. */
module TemplateWalk {
  import opened Common
  import opened IconNamePattern

  /** `node.type`: `Element$1`, `Template`, or any other node kind (text,
      bound text, comments, ...), which the walk neither inspects nor enters. */
  datatype NodeType = Element | Template | OtherType(typeName: string)

  /** A static attribute `name="value"`. */
  datatype TextAttribute = TextAttribute(name: string, value: string)

  /** A bound input `[name]="expression"`; only its name is consulted. */
  datatype BoundAttribute = BoundAttribute(name: string)

  /** A node of the parsed template. `sourceSpan` is the element's source text. */
  datatype Node = Node(
    kind: NodeType,
    name: string,
    tagName: string,
    attributes: seq<TextAttribute>,
    inputs: seq<BoundAttribute>,
    sourceSpan: string,
    children: seq<Node>)

  /** The five values the walk returns. */
  datatype Scan = Scan(
    ionicComponents: seq<string>,
    ionIcons: seq<string>,
    skippedIconsHtml: seq<string>,
    hasRouterLinkWithHref: bool,
    hasRouterLink: bool)

  const EmptyScan := Scan([], [], [], false, false)

  predicate IsInspected(n: Node) {
    n.kind == Element || n.kind == Template
  }

  /** A template node is named by `tagName`, an element by `name`. */
  function TagName(n: Node): string {
    if n.kind == Template then n.tagName else n.name
  }

  predicate IsRouterAttributeName(name: string) {
    name == "routerLink" || name == "routerDirection" || name == "routerAction"
  }

  predicate HasRouterAttribute(attributes: seq<TextAttribute>) {
    exists i :: 0 <= i < |attributes| && IsRouterAttributeName(attributes[i].name)
  }

  predicate IsIconNameAttribute(name: string) {
    name == "name" || name == "icon"
  }

  /** `attributes.find(a => a.name === "name" || a.name === "icon")?.value`. */
  function StaticIconName(attributes: seq<TextAttribute>): (r: Option<string>)
    ensures r.None? <==> forall i :: 0 <= i < |attributes| ==> !IsIconNameAttribute(attributes[i].name)
    ensures r.Some? ==> exists i :: (0 <= i < |attributes| && IsIconNameAttribute(attributes[i].name)
      && r.value == attributes[i].value
      && forall h :: 0 <= h < i ==> !IsIconNameAttribute(attributes[h].name))
  {
    if attributes == [] then None
    else if IsIconNameAttribute(attributes[0].name) then Some(attributes[0].value)
    else
      var r := StaticIconName(attributes[1..]);
      assert r.Some? ==> exists i :: (0 < i < |attributes| && IsIconNameAttribute(attributes[i].name)
        && r.value == attributes[i].value
        && forall h :: 0 <= h < i ==> !IsIconNameAttribute(attributes[h].name)) by {
        if r.Some? {
          var i :| 0 <= i < |attributes[1..]| && IsIconNameAttribute(attributes[1..][i].name)
            && r.value == attributes[1..][i].value
            && forall h :: 0 <= h < i ==> !IsIconNameAttribute(attributes[1..][h].name);
          assert IsIconNameAttribute(attributes[i + 1].name);
        }
      }
      r
  }

  /** `inputs.find(a => a.name === "name" || a.name === "icon")` is defined. */
  predicate HasBoundIconName(inputs: seq<BoundAttribute>) {
    exists i :: 0 <= i < |inputs| && IsIconNameAttribute(inputs[i].name)
  }

  /** What one element contributes to the icon lists. */
  datatype IconUse = NoIcon | IconName(icon: string) | SkippedIcon(html: string)

  /** The icon contribution of an element named `ion-icon`: the first static
      `name`/`icon` attribute's value; failing that, when a bound `name`/`icon`
      input exists, the quoted literal of a `{{ '...' }}` in the element's
      source text, or else that text itself as skipped. */
  function IconUseOf(n: Node): IconUse {
    if n.name != "ion-icon" then NoIcon
    else match StaticIconName(n.attributes)
      case Some(v) => IconName(v)
      case None =>
        if !HasBoundIconName(n.inputs) then NoIcon
        else match IconNameMatch(n.sourceSpan)
          case Some(v) => IconName(v)
          case None => SkippedIcon(n.sourceSpan)
  }

  /** The effect of inspecting one element or template node, before its
      children are visited. */
  function Inspect(st: Scan, n: Node, components: set<string>): Scan {
    InspectAnchor(InspectIcon(InspectComponent(st, n, components), n), n)
  }

  /** An Ionic component tag is recorded once, and its router attributes raise `hasRouterLink`. */
  function InspectComponent(st: Scan, n: Node, components: set<string>): Scan {
    if TagName(n) in components then
      st.(ionicComponents := AddUnique(st.ionicComponents, TagName(n)),
          hasRouterLink := st.hasRouterLink || HasRouterAttribute(n.attributes))
    else st
  }

  /** An icon name is recorded once; a skipped element text every time. */
  function InspectIcon(st: Scan, n: Node): Scan {
    match IconUseOf(n)
    case NoIcon => st
    case IconName(v) => st.(ionIcons := AddUnique(st.ionIcons, v))
    case SkippedIcon(t) => st.(skippedIconsHtml := st.skippedIconsHtml + [t])
  }

  /** Router attributes on an `a` element raise `hasRouterLinkWithHref`. */
  function InspectAnchor(st: Scan, n: Node): Scan {
    if n.name == "a" then
      st.(hasRouterLinkWithHref := st.hasRouterLinkWithHref || HasRouterAttribute(n.attributes))
    else st
  }

  /** `recursivelyFindIonicComponents(n)`: inspect an element or template node
      and then its children in order; any other node is left alone. */
  function Walk(st: Scan, n: Node, components: set<string>): Scan
    decreases n, 1
  {
    if IsInspected(n) then WalkAll(Inspect(st, n, components), n.children, components) else st
  }

  function WalkAll(st: Scan, ns: seq<Node>, components: set<string>): Scan
    decreases ns, 0
  {
    if ns == [] then st else WalkAll(Walk(st, ns[0], components), ns[1..], components)
  }

  /** The nodes `Walk` inspects, in the order it inspects them. */
  function Preorder(n: Node): seq<Node>
    decreases n, 1
  {
    if IsInspected(n) then [n] + PreorderAll(n.children) else []
  }

  function PreorderAll(ns: seq<Node>): seq<Node>
    decreases ns, 0
  {
    if ns == [] then [] else Preorder(ns[0]) + PreorderAll(ns[1..])
  }

  /** `Inspect` applied to each node of `ns` in turn. */
  function InspectAll(st: Scan, ns: seq<Node>, components: set<string>): Scan
    decreases |ns|
  {
    if ns == [] then st else InspectAll(Inspect(st, ns[0], components), ns[1..], components)
  }

  /** The skipped element texts contributed by `ns`, in order. */
  function SkippedOf(ns: seq<Node>): seq<string>
    decreases |ns|
  {
    if ns == [] then [] else SkippedBy(ns[0]) + SkippedOf(ns[1..])
  }

  function SkippedBy(n: Node): seq<string> {
    match IconUseOf(n) case SkippedIcon(t) => [t] case _ => []
  }

  /** The icon names contributed by `ns`, in order, repeats included. */
  function NamesOf(ns: seq<Node>): seq<string>
    decreases |ns|
  {
    if ns == [] then [] else NameBy(ns[0]) + NamesOf(ns[1..])
  }

  function NameBy(n: Node): seq<string> {
    match IconUseOf(n) case IconName(v) => [v] case _ => []
  }

  lemma {:induction false} InspectAllAppend(st: Scan, a: seq<Node>, b: seq<Node>, components: set<string>)
    ensures InspectAll(st, a + b, components) == InspectAll(InspectAll(st, a, components), b, components)
    decreases |a|
  {
    if a == [] {
      assert a + b == b;
    } else {
      assert (a + b)[0] == a[0] && (a + b)[1..] == a[1..] + b;
      InspectAllAppend(Inspect(st, a[0], components), a[1..], b, components);
    }
  }

  /** The recursive walk inspects exactly the pre-order listing of the nodes:
      element and template nodes are visited parent first, children in order,
      and no other node, nor anything below one, is inspected. */
  lemma {:induction false} WalkIsPreorder(st: Scan, n: Node, components: set<string>)
    ensures Walk(st, n, components) == InspectAll(st, Preorder(n), components)
    decreases n, 1
  {
    if IsInspected(n) {
      WalkAllIsPreorder(Inspect(st, n, components), n.children, components);
      InspectAllAppend(st, [n], PreorderAll(n.children), components);
      assert ([n] + PreorderAll(n.children))[0] == n;
    }
  }

  lemma {:induction false} WalkAllIsPreorder(st: Scan, ns: seq<Node>, components: set<string>)
    ensures WalkAll(st, ns, components) == InspectAll(st, PreorderAll(ns), components)
    decreases ns, 0
  {
    if ns != [] {
      WalkIsPreorder(st, ns[0], components);
      WalkAllIsPreorder(Walk(st, ns[0], components), ns[1..], components);
      InspectAllAppend(st, Preorder(ns[0]), PreorderAll(ns[1..]), components);
    }
  }

  lemma {:induction false} WalkAllAppend(st: Scan, a: seq<Node>, b: seq<Node>, components: set<string>)
    ensures WalkAll(st, a + b, components) == WalkAll(WalkAll(st, a, components), b, components)
    decreases |a|
  {
    if a == [] {
      assert a + b == b;
    } else {
      assert (a + b)[0] == a[0] && (a + b)[1..] == a[1..] + b;
      WalkAllAppend(Walk(st, a[0], components), a[1..], b, components);
    }
  }

  /** Only element and template nodes are listed. */
  lemma {:induction false} PreorderOnlyInspected(ns: seq<Node>)
    ensures forall m :: m in PreorderAll(ns) ==> IsInspected(m)
    decreases ns, 0
  {
    if ns != [] {
      if IsInspected(ns[0]) {
        PreorderOnlyInspected(ns[0].children);
      }
      PreorderOnlyInspected(ns[1..]);
    }
  }

  /** The components found are the distinct Ionic component tags among the
      inspected nodes, each once. */
  lemma {:induction false} InspectAllComponents(st: Scan, ns: seq<Node>, components: set<string>)
    requires NoDuplicates(st.ionicComponents)
    ensures NoDuplicates(InspectAll(st, ns, components).ionicComponents)
    ensures forall x :: x in InspectAll(st, ns, components).ionicComponents <==>
      x in st.ionicComponents || (x in components && exists k :: 0 <= k < |ns| && TagName(ns[k]) == x)
    decreases |ns|
  {
    if ns != [] {
      InspectAllComponents(Inspect(st, ns[0], components), ns[1..], components);
      forall k | 0 < k < |ns| ensures ns[k] == ns[1..][k - 1] { }
    }
  }

  /** The icon names found are the distinct names contributed by the inspected
      nodes, each once. */
  lemma {:induction false} InspectAllIcons(st: Scan, ns: seq<Node>, components: set<string>)
    requires NoDuplicates(st.ionIcons)
    ensures NoDuplicates(InspectAll(st, ns, components).ionIcons)
    ensures forall x :: x in InspectAll(st, ns, components).ionIcons <==>
      x in st.ionIcons || exists k :: 0 <= k < |ns| && IconUseOf(ns[k]) == IconName(x)
    decreases |ns|
  {
    if ns != [] {
      InspectAllIcons(Inspect(st, ns[0], components), ns[1..], components);
      forall k | 0 < k < |ns| ensures ns[k] == ns[1..][k - 1] { }
    }
  }

  /** The icon list is the earlier one followed by the names the inspected
      nodes contribute, in the order they are first contributed: each name is
      pushed when first met and never again. */
  lemma {:induction false} InspectAllIconsOrder(st: Scan, ns: seq<Node>, components: set<string>)
    ensures InspectAll(st, ns, components).ionIcons == DistinctAfter(st.ionIcons, NamesOf(ns))
    decreases |ns|
  {
    if ns != [] {
      var st' := Inspect(st, ns[0], components);
      InspectAllIconsOrder(st', ns[1..], components);
      var names := NameBy(ns[0]) + NamesOf(ns[1..]);
      match IconUseOf(ns[0])
      case IconName(v) =>
        assert st'.ionIcons == AddUnique(st.ionIcons, v);
        assert names[0] == v && names[1..] == NamesOf(ns[1..]);
      case _ =>
        assert st'.ionIcons == st.ionIcons;
        assert names == NamesOf(ns[1..]);
    }
  }

  /** Skipped element texts are appended in order, duplicates included. */
  lemma {:induction false} InspectAllSkipped(st: Scan, ns: seq<Node>, components: set<string>)
    ensures InspectAll(st, ns, components).skippedIconsHtml == st.skippedIconsHtml + SkippedOf(ns)
    decreases |ns|
  {
    if ns != [] {
      var st' := Inspect(st, ns[0], components);
      InspectSkippedStep(st, ns[0], components);
      InspectAllSkipped(st', ns[1..], components);
      var a, b, c := st.skippedIconsHtml, SkippedBy(ns[0]), SkippedOf(ns[1..]);
      assert SkippedOf(ns) == b + c;
      assert (a + b) + c == a + (b + c);
    }
  }

  /** Inspecting one node appends the text it skips, if any. */
  lemma InspectSkippedStep(st: Scan, n: Node, components: set<string>)
    ensures Inspect(st, n, components).skippedIconsHtml == st.skippedIconsHtml + SkippedBy(n)
  {
    match IconUseOf(n)
    case SkippedIcon(t) =>
    case _ => assert st.skippedIconsHtml + [] == st.skippedIconsHtml;
  }

  /** Inspecting one node raises the router flags that node asks for. */
  lemma InspectFlagsStep(st: Scan, n: Node, components: set<string>)
    ensures Inspect(st, n, components).hasRouterLink ==
      (st.hasRouterLink || (TagName(n) in components && HasRouterAttribute(n.attributes)))
    ensures Inspect(st, n, components).hasRouterLinkWithHref ==
      (st.hasRouterLinkWithHref || (n.name == "a" && HasRouterAttribute(n.attributes)))
  {
  }

  /** A skipped text is the source text of an element that contributed it. */
  lemma {:induction false} SkippedOfMeaning(ns: seq<Node>)
    ensures forall t :: t in SkippedOf(ns) <==> exists k :: 0 <= k < |ns| && IconUseOf(ns[k]) == SkippedIcon(t)
    decreases |ns|
  {
    if ns != [] {
      SkippedOfMeaning(ns[1..]);
      forall k | 0 < k < |ns| ensures ns[k] == ns[1..][k - 1] { }
    }
  }

  /** Each flag is only ever raised, and ends up raised exactly when some
      inspected node asks for it. */
  lemma {:induction false} InspectAllFlags(st: Scan, ns: seq<Node>, components: set<string>)
    ensures InspectAll(st, ns, components).hasRouterLink <==> (st.hasRouterLink
      || exists k :: 0 <= k < |ns| && TagName(ns[k]) in components && HasRouterAttribute(ns[k].attributes))
    ensures InspectAll(st, ns, components).hasRouterLinkWithHref <==> (st.hasRouterLinkWithHref
      || exists k :: 0 <= k < |ns| && ns[k].name == "a" && HasRouterAttribute(ns[k].attributes))
    decreases |ns|
  {
    if ns != [] {
      InspectFlagsStep(st, ns[0], components);
      InspectAllFlags(Inspect(st, ns[0], components), ns[1..], components);
      assert forall k :: 0 <= k < |ns[1..]| ==> ns[1..][k] == ns[k + 1];
      forall k | 0 < k < |ns| ensures ns[k] == ns[1..][k - 1] { }
    }
  }

  /** What the walk over a whole template returns, stated over the pre-order
      listing of its element and template nodes. */
  lemma DetectMeaning(nodes: seq<Node>, components: set<string>)
    ensures var r := WalkAll(EmptyScan, nodes, components);
      var order := PreorderAll(nodes);
      && NoDuplicates(r.ionicComponents)
      && (forall x :: x in r.ionicComponents <==>
            x in components && exists k :: 0 <= k < |order| && TagName(order[k]) == x)
      && NoDuplicates(r.ionIcons)
      && (forall x :: x in r.ionIcons <==> exists k :: 0 <= k < |order| && IconUseOf(order[k]) == IconName(x))
      && r.ionIcons == Distinct(NamesOf(order))
      && r.skippedIconsHtml == SkippedOf(order)
      && (r.hasRouterLink <==>
            exists k :: 0 <= k < |order| && TagName(order[k]) in components && HasRouterAttribute(order[k].attributes))
      && (r.hasRouterLinkWithHref <==>
            exists k :: 0 <= k < |order| && order[k].name == "a" && HasRouterAttribute(order[k].attributes))
  {
    var order := PreorderAll(nodes);
    WalkAllIsPreorder(EmptyScan, nodes, components);
    InspectAllComponents(EmptyScan, order, components);
    InspectAllIcons(EmptyScan, order, components);
    InspectAllIconsOrder(EmptyScan, order, components);
    InspectAllSkipped(EmptyScan, order, components);
    InspectAllFlags(EmptyScan, order, components);
    assert EmptyScan.skippedIconsHtml + SkippedOf(order) == SkippedOf(order);
  }

  /** A node that is neither an element nor a template contributes nothing,
      whatever lies beneath it. */
  lemma OtherNodesIgnored(st: Scan, n: Node, components: set<string>)
    requires !IsInspected(n)
    ensures Walk(st, n, components) == st
    ensures Preorder(n) == []
  {
  }

  /** An `ion-icon` element with a static `name` or `icon` attribute
      contributes the first such attribute's value, whatever its bound inputs
      and source text are. */
  lemma StaticNameWins(n: Node, i: nat)
    requires n.name == "ion-icon"
    requires i < |n.attributes| && IsIconNameAttribute(n.attributes[i].name)
    requires forall h :: 0 <= h < i ==> !IsIconNameAttribute(n.attributes[h].name)
    ensures IconUseOf(n) == IconName(n.attributes[i].value)
  {
    var r := StaticIconName(n.attributes);
    var j :| 0 <= j < |n.attributes| && IsIconNameAttribute(n.attributes[j].name)
      && r.value == n.attributes[j].value
      && forall h :: 0 <= h < j ==> !IsIconNameAttribute(n.attributes[h].name);
    assert j == i;
  }

  /** An `ion-icon` element whose name is only bound contributes the quoted
      text of the leftmost `{{ '...' }}` in its source text when there is one,
      and otherwise its whole source text as skipped; an element without a
      static or bound name contributes nothing. */
  lemma BoundNameOutcome(n: Node)
    requires n.name == "ion-icon"
    requires forall i :: 0 <= i < |n.attributes| ==> !IsIconNameAttribute(n.attributes[i].name)
    ensures !HasBoundIconName(n.inputs) ==> IconUseOf(n) == NoIcon
    ensures HasBoundIconName(n.inputs) ==>
      (IconUseOf(n) == SkippedIcon(n.sourceSpan) <==> forall i, j, k, e :: !PatternAt(n.sourceSpan, i, j, k, e))
    ensures HasBoundIconName(n.inputs) ==> forall i, j, k, e ::
      PatternAt(n.sourceSpan, i, j, k, e)
      && (forall i', j', k', e' :: i' < i ==> !PatternAt(n.sourceSpan, i', j', k', e'))
      ==> IconUseOf(n) == IconName(n.sourceSpan[j + 1..k])
  {
    IconNameMatchExact(n.sourceSpan);
  }

  /** Inspecting one node adds at most one icon name or one skipped text. */
  lemma AtMostOneIconPerNode(st: Scan, n: Node, components: set<string>)
    ensures var r := Inspect(st, n, components);
      |r.ionIcons| + |r.skippedIconsHtml| <= |st.ionIcons| + |st.skippedIconsHtml| + 1
  {
  }

  /** The walk of `detectIonicComponentsAndIcons` as an object whose fields are
      the closure's accumulators. */
  class TemplateScan {
    var ionicComponents: seq<string>
    var ionIcons: seq<string>
    var skippedIconsHtml: seq<string>
    var hasRouterLinkWithHref: bool
    var hasRouterLink: bool

    function State(): Scan
      reads this
    {
      Scan(ionicComponents, ionIcons, skippedIconsHtml, hasRouterLinkWithHref, hasRouterLink)
    }

    constructor()
      ensures State() == EmptyScan
    {
      ionicComponents, ionIcons, skippedIconsHtml := [], [], [];
      hasRouterLinkWithHref, hasRouterLink := false, false;
    }

    /** The body of `recursivelyFindIonicComponents` before it descends into the children. */
    method InspectNode(node: Node, components: set<string>)
      modifies this
      ensures State() == Inspect(old(State()), node, components)
    {
      var tagName := if node.kind == Template then node.tagName else node.name;

      if tagName in components {
        if tagName !in ionicComponents {
          ionicComponents := ionicComponents + [tagName];
        }
        var routerLink := HasRouterAttribute(node.attributes);
        if !hasRouterLink && routerLink {
          hasRouterLink := true;
        }
      }

      if node.name == "ion-icon" {
        var staticNameAttribute := StaticIconName(node.attributes);
        if staticNameAttribute.Some? {
          var iconName := staticNameAttribute.value;
          if iconName !in ionIcons {
            ionIcons := ionIcons + [iconName];
          }
        } else if HasBoundIconName(node.inputs) {
          var skippedIcon := node.sourceSpan;
          var iconNameMatch := IconNameMatch(skippedIcon);
          if iconNameMatch.Some? {
            if iconNameMatch.value !in ionIcons {
              ionIcons := ionIcons + [iconNameMatch.value];
            }
          } else {
            skippedIconsHtml := skippedIconsHtml + [skippedIcon];
          }
        }
      }

      if node.name == "a" {
        var routerLinkWithHref := HasRouterAttribute(node.attributes);
        if !hasRouterLinkWithHref && routerLinkWithHref {
          hasRouterLinkWithHref := true;
        }
      }
    }

    /** `recursivelyFindIonicComponents(node)`. */
    method Visit(node: Node, components: set<string>)
      modifies this
      ensures State() == Walk(old(State()), node, components)
      decreases node
    {
      if node.kind == Element || node.kind == Template {
        InspectNode(node, components);
        ghost var inspected := Inspect(old(State()), node, components);
        for i := 0 to |node.children|
          invariant State() == WalkAll(inspected, node.children[..i], components)
        {
          WalkAllAppend(inspected, node.children[..i], [node.children[i]], components);
          assert node.children[..i + 1] == node.children[..i] + [node.children[i]];
          Visit(node.children[i], components);
        }
        assert node.children[..|node.children|] == node.children;
      }
    }
  }

  /** `detectIonicComponentsAndIcons` applied to the parsed template nodes. */
  method DetectIonicComponentsAndIcons(nodes: seq<Node>, components: set<string>) returns (result: Scan)
    ensures result == WalkAll(EmptyScan, nodes, components)
    ensures NoDuplicates(result.ionicComponents) && NoDuplicates(result.ionIcons)
    ensures forall x :: x in result.ionicComponents ==> x in components
  {
    var scan := new TemplateScan();
    for i := 0 to |nodes|
      invariant scan.State() == WalkAll(EmptyScan, nodes[..i], components)
    {
      WalkAllAppend(EmptyScan, nodes[..i], [nodes[i]], components);
      assert nodes[..i + 1] == nodes[..i] + [nodes[i]];
      scan.Visit(nodes[i], components);
    }
    assert nodes[..|nodes|] == nodes;
    result := scan.State();
    DetectMeaning(nodes, components);
  }
}
