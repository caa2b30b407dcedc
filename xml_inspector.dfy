/**
 * BaseXmlInspector: building the inspector's merged XML tree from its input
 * documents, and inspecting a type (and a path below it) into an
 * inspection-result tree of entity, property and action elements.
 *
 * DOM changes made in place by the source (appendChild, setAttribute,
 * combineElements) are methods that return the changed element.
 */
module XmlInspector {
  import opened Wrappers
  import opened Dom
  import opened XmlLookup
  import opened XmlCombine
  import opened InspectorTraverse

  /** The InspectorExceptions the core throws (each wraps its cause, as newException(e) does). */
  datatype InspectorError =
    | NoXmlInput                          // "No XML input file specified"
    | RestrictImpliesInfer                // restrictAgainstObject together with inferInheritanceHierarchy
    | AmbiguousMatch(nodeName: string)    // an element that is both a property and an action
    | CombineFailed(combineError: CombineError)
    | TraversalFailed(traverseError: TraverseError)

  /** A parsed DOM Document: its document element, if it has one (hasChildNodes). */
  datatype Document = Document(documentElement: Option<Node>)

  /** What a parser hands over: document elements that are well-formed elements. */
  predicate Parsed(documents: seq<Document>) {
    forall k :: 0 <= k < |documents| && documents[k].documentElement.Some? ==>
      documents[k].documentElement.value.Element? && WellFormed(documents[k].documentElement.value)
  }

  /** The document elements of the documents that have one, in order. */
  function Roots(documents: seq<Document>): seq<Node>
    decreases |documents|
  {
    if documents == [] then []
    else
      var last := documents[|documents| - 1].documentElement;
      Roots(documents[..|documents| - 1]) + if last.Some? then [last.value] else []
  }

  lemma {:induction false} RootsPrefix(documents: seq<Document>, i: nat)
    requires i <= |documents|
    ensures Roots(documents[..i]) <= Roots(documents)
    decreases |documents|
  {
    if i < |documents| {
      var front := documents[..|documents| - 1];
      assert front[..i] == documents[..i];
      RootsPrefix(front, i);
    } else {
      assert documents[..i] == documents;
    }
  }

  lemma {:induction false} RootsParsed(documents: seq<Document>)
    requires Parsed(documents)
    ensures forall k :: 0 <= k < |Roots(documents)| ==> Roots(documents)[k].Element? && WellFormed(Roots(documents)[k])
    decreases |documents|
  {
    if documents != [] {
      RootsParsed(documents[..|documents| - 1]);
    }
  }

  /**
   * `steps[k]` is the master document element once the first k + 1 document
   * elements have been combined: the first one itself, then each further one
   * combined into the one before on the top-level type and name attributes.
   */
  ghost predicate Chain(h: Hooks, roots: seq<Node>, steps: seq<Node>) {
    && 0 < |steps| <= |roots|
    && steps[0] == roots[0]
    && (forall k :: 0 <= k < |steps| ==> steps[k].Element? && WellFormed(steps[k]))
    && (forall k :: 1 <= k < |steps| ==>
          roots[k].Element? && Merged(steps[k - 1], roots[k], h.topLevelTypeAttribute, h.nameAttribute, steps[k]))
  }

  /**
   * getDocumentElement(Document...): documents without a document element are
   * skipped; the first document element becomes the master and every later
   * one is combined into it. preprocessDocument does nothing.
   */
  method GetDocumentElement(h: Hooks, documents: seq<Document>) returns (r: Result<Option<Node>, InspectorError>, ghost steps: seq<Node>)
    requires Parsed(documents)
    ensures r.Ok? ==> (r.value.None? <==> Roots(documents) == [])
    ensures r.Ok? && r.value.Some? ==>
              var roots := Roots(documents);
              roots != [] && roots[0].Element? && r.value.value.Element? && WellFormed(r.value.value) &&
              r.value.value.name == roots[0].name && r.value.value.namespace == roots[0].namespace
    ensures |Roots(documents)| == 1 ==> r == Ok(Some(Roots(documents)[0]))
    ensures r.Err? ==> r.error.CombineFailed?
    ensures var roots := Roots(documents);
            r.Ok? && roots != [] ==> Chain(h, roots, steps) && |steps| == |roots| && r.value == Some(steps[|roots| - 1])
    ensures var roots := Roots(documents);
            r.Err? ==> Chain(h, roots, steps) && |steps| < |roots| &&
                       roots[|steps|].Element? && !Combinable(steps[|steps| - 1], roots[|steps|], h.topLevelTypeAttribute, h.nameAttribute)
  {
    ghost var roots := Roots(documents);
    RootsParsed(documents);
    var master: Option<Node> := None;
    steps := [];
    for i := 0 to |documents|
      invariant Roots(documents[..i]) <= roots
      invariant master.None? <==> Roots(documents[..i]) == []
      invariant master.None? ==> steps == []
      invariant master.Some? ==> Chain(h, roots, steps) && |steps| == |Roots(documents[..i])| &&
                                 master.value == steps[|steps| - 1]
    {
      RootsPrefix(documents, i + 1);
      assert documents[..i + 1][..i] == documents[..i];
      var document := documents[i].documentElement;
      if document.None? {
        continue;
      }
      if master.None? {
        master, steps := document, [document.value];
        continue;
      }
      var combined := CombineElements(master.value, document.value, h.topLevelTypeAttribute, h.nameAttribute);
      if combined.Err? {
        return Err(CombineFailed(combined.error)), steps;
      }
      ChainSnoc(h, roots, steps, combined.value);
      master, steps := Some(combined.value), steps + [combined.value];
    }
    assert documents[..|documents|] == documents;
    ChainKeepsName(h, roots, steps);
    r := Ok(master);
  }

  lemma ChainSnoc(h: Hooks, roots: seq<Node>, steps: seq<Node>, m: Node)
    requires Chain(h, roots, steps) && |steps| < |roots| && roots[|steps|].Element?
    requires Merged(steps[|steps| - 1], roots[|steps|], h.topLevelTypeAttribute, h.nameAttribute, m)
    ensures Chain(h, roots, steps + [m])
  {
  }

  lemma {:induction false} ChainKeepsName(h: Hooks, roots: seq<Node>, steps: seq<Node>)
    requires steps != [] ==> Chain(h, roots, steps)
    ensures steps != [] ==> steps[|steps| - 1].name == roots[0].name && steps[|steps| - 1].namespace == roots[0].namespace
    decreases |steps|
  {
    if |steps| > 1 {
      ChainKeepsName(h, roots, steps[..|steps| - 1]);
    }
  }

  /** `root` is what combining every one of `roots`, in order, into the first one gives. */
  ghost predicate MergedRoots(h: Hooks, roots: seq<Node>, root: Node) {
    exists steps :: Chain(h, roots, steps) && |steps| == |roots| && root == steps[|roots| - 1]
  }

  /** Combining stopped at a document element that does not combine into the ones before it. */
  ghost predicate CombineStops(h: Hooks, roots: seq<Node>) {
    exists steps :: Chain(h, roots, steps) && |steps| < |roots| && roots[|steps|].Element? &&
                    !Combinable(steps[|steps| - 1], roots[|steps|], h.topLevelTypeAttribute, h.nameAttribute)
  }

  /** The configuration of a BaseXmlInspector; input streams are already parsed. */
  datatype Config = Config(
    inputStreams: seq<Document>,
    documents: seq<Document>,
    restrictAgainstObject: bool,
    inferInheritanceHierarchy: bool)

  /** The constructor reads the input streams when there are any, the documents otherwise. */
  function Chosen(config: Config): seq<Document> {
    if |config.inputStreams| > 0 then config.inputStreams else config.documents
  }

  /**
   * The BaseXmlInspector constructor: the merged document element, then the
   * check that restrictAgainstObject and inferInheritanceHierarchy are not
   * both set.
   */
  method NewInspector(config: Config, hooks: Hooks, classes: map<string, seq<string>>) returns (r: Result<Inspector, InspectorError>)
    requires Parsed(config.inputStreams) && Parsed(config.documents)
    ensures var roots := Roots(Chosen(config));
            && (roots == [] ==> r.Err? && r.error == NoXmlInput)
            && (roots != [] && config.restrictAgainstObject && config.inferInheritanceHierarchy ==> r.Err?)
            && (r.Err? && r.error == RestrictImpliesInfer ==> config.restrictAgainstObject && config.inferInheritanceHierarchy)
            && (r.Ok? ==> r.value.Valid() && roots != [] && roots[0].Element? && r.value.root.name == roots[0].name &&
                          r.value.restrictAgainstObject == config.restrictAgainstObject &&
                          r.value.inferInheritanceHierarchy == config.inferInheritanceHierarchy &&
                          r.value.classes == classes && !(config.restrictAgainstObject && config.inferInheritanceHierarchy))
    ensures r.Ok? ==> r.value.hooks == hooks && MergedRoots(hooks, Roots(Chosen(config)), r.value.root)
    ensures r.Err? ==> r.error.NoXmlInput? || r.error.RestrictImpliesInfer? || r.error.CombineFailed?
    ensures r.Err? && r.error.CombineFailed? ==> CombineStops(hooks, Roots(Chosen(config)))
    ensures Roots(Chosen(config)) != [] && !(config.restrictAgainstObject && config.inferInheritanceHierarchy) ==>
              r.Ok? || r.error.CombineFailed?
  {
    var root: Option<Node> := None;
    ghost var roots := Roots(Chosen(config));
    if |config.inputStreams| > 0 {
      var merged, steps := GetDocumentElement(hooks, config.inputStreams);
      if merged.Err? {
        return Err(merged.error);
      }
      root := merged.value;
    } else if |config.documents| > 0 {
      var merged, steps := GetDocumentElement(hooks, config.documents);
      if merged.Err? {
        return Err(merged.error);
      }
      root := merged.value;
    } else {
      assert roots == [];
    }
    if root.None? {
      return Err(NoXmlInput);
    }
    if config.restrictAgainstObject && config.inferInheritanceHierarchy {
      return Err(RestrictImpliesInfer);
    }
    r := Ok(Inspector(root.value, config.restrictAgainstObject, config.inferInheritanceHierarchy, hooks, classes));
  }

  // ---------------------------------------------------------------- traits

  /** What inspectTrait makes of an element: a property or action element with these attributes. */
  datatype TraitSpec = TraitSpec(kind: string, attributes: map<string, string>)

  /**
   * inspectTrait's decision: a non-empty property map makes a property; else
   * a non-empty action map makes an action, unless inspectProperty returned a
   * (necessarily empty) map, which is an ambiguous match; else nothing.
   */
  function TraitOf(h: Hooks, x: Node): (r: Result<Option<TraitSpec>, InspectorError>)
    requires x.Element?
    ensures r.Ok? && r.value.Some? ==> |r.value.value.attributes| > 0
    ensures r.Ok? && r.value.Some? ==>
              (r.value.value.kind == PROPERTY && h.inspectProperty(x) == Some(r.value.value.attributes)) ||
              (r.value.value.kind == ACTION && h.inspectProperty(x).None? && h.inspectAction(x) == Some(r.value.value.attributes))
    ensures r.Err? <==> h.inspectProperty(x) == Some(map[]) && h.inspectAction(x).Some? && |h.inspectAction(x).value| > 0
    ensures r == Ok(None) <==> (h.inspectProperty(x).None? || |h.inspectProperty(x).value| == 0) &&
                               (h.inspectAction(x).None? || |h.inspectAction(x).value| == 0)
  {
    var p := h.inspectProperty(x);
    if p.Some? && |p.value| > 0 then Ok(Some(TraitSpec(PROPERTY, p.value)))
    else
      var a := h.inspectAction(x);
      if a.Some? && |a.value| > 0 then
        if p.Some? then Err(AmbiguousMatch(x.name)) else Ok(Some(TraitSpec(ACTION, a.value)))
      else Ok(None)
  }

  /** `e` is the element inspectTrait builds for `t`. */
  predicate IsTrait(t: TraitSpec, e: Node) {
    && e.Element? && e.name == t.kind && e.namespace == Some(NAMESPACE)
    && DistinctNames(e.attrs) && AttrMap(e.attrs) == t.attributes && e.children == []
  }

  /** The result of inspectTrait agrees with its decision. */
  predicate Realizes(v: Result<Option<TraitSpec>, InspectorError>, r: Result<Option<Node>, InspectorError>) {
    match v
    case Err(e) => r == Err(e)
    case Ok(None) => r == Ok(None)
    case Ok(Some(t)) => r.Ok? && r.value.Some? && IsTrait(t, r.value.value)
  }

  /** A String map as a setMapAsAttributes argument: every entry sets its attribute. */
  function AllSet(m: map<string, string>): map<string, Option<string>> {
    map k | k in m :: Some(m[k])
  }

  lemma MapAppliedAllSet(current: map<string, string>, m: map<string, string>)
    ensures MapApplied(current, Some(AllSet(m))) == current + m
  {
  }

  /** createElementNS(NAMESPACE, kind) followed by setMapAsAttributes(child, attributes). */
  method TraitElement(kind: string, attributes: map<string, string>) returns (child: Node)
    ensures IsTrait(TraitSpec(kind, attributes), child)
  {
    child := NewElement(NAMESPACE, kind);
    child := SetMapAsAttributes(child, Some(AllSet(attributes)));
    MapAppliedAllSet(map[], attributes);
  }

  /** inspectTrait. */
  method InspectTrait(h: Hooks, x: Node) returns (r: Result<Option<Node>, InspectorError>)
    requires x.Element?
    ensures Realizes(TraitOf(h, x), r)
  {
    var propertyAttributes := h.inspectProperty(x);
    if propertyAttributes.Some? && |propertyAttributes.value| > 0 {
      var child := TraitElement(PROPERTY, propertyAttributes.value);
      return Ok(Some(child));
    }
    var actionAttributes := h.inspectAction(x);
    if actionAttributes.Some? && |actionAttributes.value| > 0 {
      if propertyAttributes.Some? {
        return Err(AmbiguousMatch(x.name));
      }
      var child := TraitElement(ACTION, actionAttributes.value);
      return Ok(Some(child));
    }
    r := Ok(None);
  }

  /** The traits of the element siblings from position `i` on: the first failure, or every trait in order. */
  function TraitsFrom(h: Hooks, siblings: seq<Node>, i: nat): Result<seq<TraitSpec>, InspectorError>
    requires i <= |siblings|
    decreases |siblings| - i
  {
    if i == |siblings| then Ok([])
    else if siblings[i].Text? then TraitsFrom(h, siblings, i + 1)
    else
      match TraitOf(h, siblings[i])
      case Err(e) => Err(e)
      case Ok(None) => TraitsFrom(h, siblings, i + 1)
      case Ok(Some(t)) => Prepend([t], TraitsFrom(h, siblings, i + 1))
  }

  /** The traits of an element's children. */
  function Traits(h: Hooks, x: Node): Result<seq<TraitSpec>, InspectorError>
    requires x.Element?
  {
    TraitsFrom(h, x.children, 0)
  }

  function Prepend(done: seq<TraitSpec>, rest: Result<seq<TraitSpec>, InspectorError>): Result<seq<TraitSpec>, InspectorError> {
    match rest
    case Err(e) => Err(e)
    case Ok(ts) => Ok(done + ts)
  }

  lemma PrependTwice(done: seq<TraitSpec>, t: TraitSpec, rest: Result<seq<TraitSpec>, InspectorError>)
    ensures Prepend(done, Prepend([t], rest)) == Prepend(done + [t], rest)
  {
    if rest.Ok? {
      assert done + ([t] + rest.value) == (done + [t]) + rest.value;
    }
  }

  lemma PrependNothing(rest: Result<seq<TraitSpec>, InspectorError>)
    ensures Prepend([], rest) == rest
  {
    if rest.Ok? {
      assert [] + rest.value == rest.value;
    }
  }

  /** Text between element siblings adds no trait. */
  lemma {:induction false} TraitsFromSkip(h: Hooks, siblings: seq<Node>, i: nat, j: nat)
    requires i <= j <= |siblings|
    requires forall k :: i <= k < j ==> siblings[k].Text?
    ensures TraitsFrom(h, siblings, i) == TraitsFrom(h, siblings, j)
    decreases j - i
  {
    if i < j {
      TraitsFromSkip(h, siblings, i + 1, j);
    }
  }

  /** A position of `siblings`, or the end for null. */
  function Position(at: Option<nat>, n: nat): nat {
    if at.Some? then at.value else n
  }

  /** `e` is `toAddTo` with the elements for `specs` appended, in order. */
  predicate Appended(toAddTo: Node, specs: seq<TraitSpec>, e: Node)
    requires toAddTo.Element?
  {
    && e.Element? && e == toAddTo.(children := e.children)
    && |e.children| == |toAddTo.children| + |specs|
    && e.children[..|toAddTo.children|] == toAddTo.children
    && forall j :: 0 <= j < |specs| ==> IsTrait(specs[j], e.children[|toAddTo.children| + j])
  }

  lemma AppendedSnoc(toAddTo: Node, specs: seq<TraitSpec>, e: Node, t: TraitSpec, child: Node)
    requires toAddTo.Element? && Appended(toAddTo, specs, e) && IsTrait(t, child)
    ensures Appended(toAddTo, specs + [t], e.(children := e.children + [child]))
  {
    var e' := e.(children := e.children + [child]);
    assert e'.children[..|toAddTo.children|] == e.children[..|toAddTo.children|];
    forall j | 0 <= j < |specs| + 1
      ensures IsTrait((specs + [t])[j], e'.children[|toAddTo.children| + j])
    {
      if j < |specs| {
        assert e'.children[|toAddTo.children| + j] == e.children[|toAddTo.children| + j];
      }
    }
  }

  /** inspectTraitSiblings: inspects `start` and each following element sibling, appending each trait. */
  method InspectTraitSiblings(h: Hooks, toAddTo: Node, siblings: seq<Node>, start: Option<nat>)
    returns (r: Result<Node, InspectorError>)
    requires toAddTo.Element?
    requires start.Some? ==> start.value < |siblings| && siblings[start.value].Element?
    ensures var specs := TraitsFrom(h, siblings, Position(start, |siblings|));
            && (r.Ok? <==> specs.Ok?)
            && (r.Err? ==> r.error == specs.error)
            && (r.Ok? ==> Appended(toAddTo, specs.value, r.value))
  {
    var at: Option<nat> := start;
    var acc := toAddTo;
    ghost var done: seq<TraitSpec> := [];
    PrependNothing(TraitsFrom(h, siblings, Position(start, |siblings|)));
    while at.Some?
      invariant at.Some? ==> at.value < |siblings| && siblings[at.value].Element?
      invariant Appended(toAddTo, done, acc)
      invariant TraitsFrom(h, siblings, Position(start, |siblings|)) ==
                Prepend(done, TraitsFrom(h, siblings, Position(at, |siblings|)))
      decreases |siblings| - Position(at, |siblings|)
    {
      var inspected := InspectTrait(h, siblings[at.value]);
      if inspected.Err? {
        return Err(inspected.error);
      }
      if inspected.value.Some? {
        var t := TraitOf(h, siblings[at.value]).value.value;
        PrependTwice(done, t, TraitsFrom(h, siblings, at.value + 1));
        AppendedSnoc(toAddTo, done, acc, t, inspected.value.value);
        acc := acc.(children := acc.children + [inspected.value.value]);
        done := done + [t];
      }
      var next := NextSiblingElement(siblings, at.value);
      TraitsFromSkip(h, siblings, at.value + 1, Position(next, |siblings|));
      at := next;
    }
    assert done + [] == done;
    r := Ok(acc);
  }

  /** `e` is the entity element inspectTraits builds from an element's own traits. */
  predicate Entity(e: Node, specs: seq<TraitSpec>) {
    && e.Element? && e.name == ENTITY && e.namespace == Some(NAMESPACE) && e.attrs == []
    && |e.children| == |specs|
    && forall j :: 0 <= j < |specs| ==> IsTrait(specs[j], e.children[j])
  }

  lemma EntityWellFormed(e: Node, specs: seq<TraitSpec>)
    requires Entity(e, specs)
    ensures WellFormed(e)
  {
    forall j | 0 <= j < |e.children|
      ensures WellFormed(e.children[j])
    {
      assert IsTrait(specs[j], e.children[j]);
    }
  }

  // ---------------------------------------------------------------- inheritance

  /**
   * One level of inspectTraits' recursion: an element with the extends
   * attribute goes on to the top-level element traverse finds for it (with no
   * names, traverse is its top-level lookup); without one, or with none found,
   * the recursion stops.
   */
  function TraitsHop(ins: Inspector, x: Node): (r: Hop)
    ensures r.Move? ==> r.index < |ins.Tops()| && r.next == ins.Tops()[r.index] && r.next.Element?
    ensures var ext := ins.hooks.extendsAttribute;
            r == Halt(Reached(Some(x), None)) <==> ext.None? || !HasAttribute(x, ext.value)
    ensures var ext, tla := ins.hooks.extendsAttribute, ins.hooks.topLevelTypeAttribute;
            r.Move? ==> ext.Some? && HasAttribute(x, ext.value) &&
                        var t := GetAttribute(x, ext.value);
                        FindTopLevel(ins, t, None, Some(t)) == FoundAt(r.index) &&
                        (!ins.inferInheritanceHierarchy ==>
                           HasAttrValue(r.next, tla, t) &&
                           forall j :: 0 <= j < r.index ==> !HasAttrValue(ins.Tops()[j], tla, t))
    ensures var ext, tla := ins.hooks.extendsAttribute, ins.hooks.topLevelTypeAttribute;
            !ins.inferInheritanceHierarchy ==>
              (r == Halt(Reached(None, None)) <==>
                 ext.Some? && HasAttribute(x, ext.value) &&
                 forall j :: 0 <= j < |ins.Tops()| ==> !HasAttrValue(ins.Tops()[j], tla, GetAttribute(x, ext.value)))
    ensures var ext := ins.hooks.extendsAttribute;
            ext.Some? && HasAttribute(x, ext.value) ==>
              var t := GetAttribute(x, ext.value);
              (r.Move? <==> FindTopLevel(ins, t, None, Some(t)).FoundAt?)
    ensures r.Halt? ==> r.reached.property.None? && (r.reached.current.None? || r.reached.current == Some(x))
  {
    var h := ins.hooks;
    if h.extendsAttribute.None? || !HasAttribute(x, h.extendsAttribute.value) then Halt(Reached(Some(x), None))
    else
      var t := GetAttribute(x, h.extendsAttribute.value);
      match FindTopLevel(ins, t, None, Some(t))
      case Missing(_) => Halt(Reached(None, None))
      case FoundAt(i) => Move(i, ins.Tops()[i])
  }

  function TraitsHopper(ins: Inspector): Node -> Hop {
    (x: Node) => TraitsHop(ins, x)
  }

  lemma TraitsHopperBounded(ins: Inspector)
    ensures Bounded(TraitsHopper(ins), |ins.Tops()|)
  {
  }

  /** inspectTraits' recursion as written: `fuel` bounds its depth; None means it had not ended. */
  function InheritanceAsWritten(ins: Inspector, x: Node, fuel: nat): Option<Reached> {
    LoopAsWritten(TraitsHopper(ins), x, fuel)
  }

  /** The recursion, corrected: it does not go back to a top-level element it has already inspected. */
  function Inheritance(ins: Inspector, x: Node): Reached {
    TraitsHopperBounded(ins);
    Loop(TraitsHopper(ins), |ins.Tops()|, x, {})
  }

  /** The correction changes nothing where the source's recursion ends. */
  lemma CorrectedInheritance(ins: Inspector, x: Node, fuel: nat)
    requires InheritanceAsWritten(ins, x, fuel).Some?
    ensures Inheritance(ins, x) == InheritanceAsWritten(ins, x, fuel).value
  {
    TraitsHopperBounded(ins);
    LoopAgrees(TraitsHopper(ins), |ins.Tops()|, x, {}, fuel, ins.Tops());
  }

  /** An inspector over the cyclic pair A extends B, B extends A. */
  function CyclicInspector(): (ins: Inspector)
    ensures ins.Valid() && ins.Tops() == CyclicTops()
  {
    var root := Element(ROOT, Some(ROOT), Some(NAMESPACE), [], CyclicTops());
    assert WellFormed(root.children[0]) && WellFormed(root.children[1]);
    Inspector(root, false, false, ExtendsHooks(), map[])
  }

  /** inspectTraits as written never returns on A: A leads to B, and B back to A. */
  lemma InheritanceCycleNeverEnds(fuel: nat)
    ensures InheritanceAsWritten(CyclicInspector(), CyclicTops()[0], fuel).None?
  {
    var ins := CyclicInspector();
    var hop := TraitsHopper(ins);
    var a, b := CyclicTops()[0], CyclicTops()[1];
    assert GetAttribute(a, "extends") == "B" && GetAttribute(b, "extends") == "A";
    assert GetAttribute(a, "type") == "A" && GetAttribute(b, "type") == "B";
    assert IndexWithAttributeValue(ins.Tops(), "type", "B") == Some(1) by {
      assert !HasAttrValue(ins.Tops()[0], "type", "B");
    }
    assert IndexWithAttributeValue(ins.Tops(), "type", "A") == Some(0);
    assert hop(a) == Move(1, b);
    assert hop(b) == Move(0, a);
    assert Hops(hop, a, 2) == Some(a) by {
      assert Hops(hop, a, 0) == Some(a);
      assert Hops(hop, b, 1) == Some(a);
    }
    CycleNeverEnds(hop, a, 2, fuel);
  }

  /**
   * The second half of inspectTraits onto `base`: the element's own traits,
   * under a fresh entity element, combined into `base` by name; or the first
   * failure.
   */
  ghost predicate OwnTraitsOnto(h: Hooks, x: Node, base: Node, r: Result<Node, InspectorError>)
    requires x.Element? && base.Element?
  {
    match Traits(h, x)
    case Err(e) => r == Err(e)
    case Ok(ts) =>
      exists own :: Entity(own, ts) &&
        if Combinable(base, own, NAME, NAME) then r.Ok? && Merged(base, own, NAME, NAME, r.value)
        else r.Err? && r.error.CombineFailed?
  }

  /**
   * What inspectTraits makes of `x` onto `toAddTo`: first, when `x` extends a
   * top-level element not inspected yet, that element's traits (a failure
   * there is the result); then `x`'s own traits on top of what that gave.
   */
  ghost predicate InspectedTraits(ins: Inspector, x: Node, toAddTo: Node, visited: set<nat>, r: Result<Node, InspectorError>)
    requires x.Element? && toAddTo.Element?
    decreases Unvisited(|ins.Tops()|, visited)
  {
    var hop := TraitsHop(ins, x);
    if hop.Move? && hop.index !in visited then
      assert hop.index in Unvisited(|ins.Tops()|, visited) - Unvisited(|ins.Tops()|, visited + {hop.index});
      exists sub: Result<Node, InspectorError> ::
        && InspectedTraits(ins, hop.next, toAddTo, visited + {hop.index}, sub)
        && (sub.Err? ==> r == sub)
        && (sub.Ok? ==> sub.value.Element? && OwnTraitsOnto(ins.hooks, x, sub.value, r))
    else OwnTraitsOnto(ins.hooks, x, toAddTo, r)
  }

  /**
   * inspectTraits: the element the extends attribute names first (recursively),
   * then the element's own traits combined on top by name, so that a subclass's
   * trait attributes override the inherited ones. `visited` holds the top-level
   * elements already inspected on the way here.
   */
  method InspectTraits(ins: Inspector, toInspect: Option<Node>, toAddTo: Node, visited: set<nat>)
    returns (r: Result<Node, InspectorError>, ghost inherited: Node, ghost own: Node)
    requires ins.Valid() && toAddTo.Element? && WellFormed(toAddTo)
    requires toInspect.Some? ==> toInspect.value.Element?
    ensures toInspect.None? ==> r == Ok(toAddTo)
    ensures r.Ok? ==> r.value.Element? && WellFormed(r.value) && r.value.name == toAddTo.name &&
                      r.value.localName == toAddTo.localName && r.value.namespace == toAddTo.namespace &&
                      AttrMap(r.value.attrs) == AttrMap(toAddTo.attrs)
    ensures toInspect.Some? && Traits(ins.hooks, toInspect.value).Err? ==> r.Err?
    ensures r.Ok? && toInspect.Some? ==>
              var x := toInspect.value;
              && Traits(ins.hooks, x).Ok? && Entity(own, Traits(ins.hooks, x).value)
              && inherited.Element? && Merged(inherited, own, NAME, NAME, r.value)
              && (TraitsHop(ins, x).Halt? || TraitsHop(ins, x).index in visited ==> inherited == toAddTo)
    ensures toInspect.Some? ==> InspectedTraits(ins, toInspect.value, toAddTo, visited, r)
    decreases Unvisited(|ins.Tops()|, visited)
  {
    inherited, own := toAddTo, toAddTo;
    if toInspect.None? {
      return Ok(toAddTo), inherited, own;
    }
    var x := toInspect.value;
    var h := ins.hooks;
    var acc := toAddTo;
    if h.extendsAttribute.Some? && HasAttribute(x, h.extendsAttribute.value) {
      var t := GetAttribute(x, h.extendsAttribute.value);
      var top := LocateTopLevel(ins, t, None, Some(t));
      if top.FoundAt? && top.index !in visited {
        assert top.index in Unvisited(|ins.Tops()|, visited) - Unvisited(|ins.Tops()|, visited + {top.index});
        var superTraits, _, _ := InspectTraits(ins, Some(ins.Tops()[top.index]), acc, visited + {top.index});
        if superTraits.Err? {
          assert InspectedTraits(ins, x, toAddTo, visited, superTraits) by {
            assert InspectedTraits(ins, ins.Tops()[top.index], toAddTo, visited + {top.index}, superTraits);
          }
          return superTraits, inherited, own;
        }
        acc := superTraits.value;
        inherited := acc;
        r, own := InspectOwnTraits(h, x, acc);
        assert InspectedTraits(ins, x, toAddTo, visited, r) by {
          assert InspectedTraits(ins, ins.Tops()[top.index], toAddTo, visited + {top.index}, superTraits);
        }
        return;
      }
    }
    inherited := acc;
    r, own := InspectOwnTraits(h, x, acc);
  }

  /**
   * The second half of inspectTraits: the element's own traits, collected
   * under a new entity element and combined by name into `toAddTo`.
   */
  method InspectOwnTraits(h: Hooks, x: Node, toAddTo: Node) returns (r: Result<Node, InspectorError>, ghost own: Node)
    requires x.Element? && toAddTo.Element? && WellFormed(toAddTo)
    ensures Traits(h, x).Err? ==> r.Err?
    ensures r.Ok? ==> && Traits(h, x).Ok? && Entity(own, Traits(h, x).value)
                      && Merged(toAddTo, own, NAME, NAME, r.value)
                      && r.value.Element? && WellFormed(r.value) && r.value.name == toAddTo.name
                      && r.value.localName == toAddTo.localName && r.value.namespace == toAddTo.namespace
                      && AttrMap(r.value.attrs) == AttrMap(toAddTo.attrs)
    ensures OwnTraitsOnto(h, x, toAddTo, r)
  {
    own := toAddTo;
    var element := NewElement(NAMESPACE, ENTITY);
    var first := FirstChildElement(x);
    TraitsFromSkip(h, x.children, 0, Position(first, |x.children|));
    var traits := InspectTraitSiblings(h, element, x.children, first);
    if traits.Err? {
      return Err(traits.error), own;
    }
    var ownTraits := traits.value;
    own := ownTraits;
    EntityWellFormed(ownTraits, Traits(h, x).value);
    var combined := CombineElements(toAddTo, ownTraits, NAME, NAME);
    if combined.Err? {
      return Err(CombineFailed(combined.error)), own;
    }
    assert AttrMap(ownTraits.attrs) == map[];
    r := Ok(combined.value);
  }

  // ---------------------------------------------------------------- inspectAsDom

  /** What the live object's traversal reported, toward the parent property and toward the end of the path. */
  datatype ObjectPaths = ObjectPaths(toParent: ObjectWalk, toEnd: ObjectWalk)

  function ParentWalk(toInspect: Option<ObjectPaths>): Option<ObjectWalk> {
    if toInspect.Some? then Some(toInspect.value.toParent) else None
  }

  function EndWalk(toInspect: Option<ObjectPaths>): Option<ObjectWalk> {
    if toInspect.Some? then Some(toInspect.value.toEnd) else None
  }

  /** The parent attributes: inspectProperty of the property the path ends at, when there is a path. */
  function ParentAttributes(ins: Inspector, toInspect: Option<ObjectPaths>, t: string, names: seq<string>)
    : Result<Option<map<string, string>>, TraverseError>
    requires ins.Valid()
  {
    if |names| == 0 then Ok(None)
    else
      match Traversal(ins, ParentWalk(toInspect), t, true, names)
      case Err(e) => Err(e)
      case Ok(f) => Ok(if f.value.Some? then ins.hooks.inspectProperty(f.value.value) else None)
  }

  /** The entity's attributes: the parent attributes, then the declared type as its type attribute. */
  function EntityAttributes(parentAttributes: Option<map<string, string>>, declaredType: Option<string>): map<string, string> {
    var base := if parentAttributes.Some? then parentAttributes.value else map[];
    if declaredType.Some? then base[TYPE := declaredType.value] else base
  }

  /**
   * `root` is an inspection result: a root element of version 1.0 holding
   * exactly one entity, with the given attributes.
   */
  predicate InspectionResult(root: Node, attributes: map<string, string>) {
    && root.Element? && root.name == ROOT && root.namespace == Some(NAMESPACE)
    && AttrMap(root.attrs) == map[VERSION := "1.0"] && WellFormed(root)
    && |root.children| == 1 && root.children[0].Element?
    && root.children[0].name == ENTITY && root.children[0].namespace == Some(NAMESPACE)
    && AttrMap(root.children[0].attrs) == attributes
  }

  /** inspectAsDom(toInspect, type, names). */
  method InspectAsDom(ins: Inspector, toInspect: Option<ObjectPaths>, typeName: Option<string>, names: seq<string>)
    returns (r: Result<Option<Node>, InspectorError>)
    requires ins.Valid()
    ensures typeName.None? ==> r == Ok(None)
    ensures typeName.Some? ==>
              var t := typeName.value;
              var pa := ParentAttributes(ins, toInspect, t, names);
              var end := Traversal(ins, EndWalk(toInspect), t, false, names);
              && (pa.Err? ==> r == Err(TraversalFailed(pa.error)))
              && (pa.Ok? && end.Err? ==> r == Err(TraversalFailed(end.error)))
              && (pa.Ok? && end.Ok? && end.value.value.None? && (pa.value.None? || |pa.value.value| == 0) ==> r == Ok(None))
              && ((pa.Ok? && end.Ok? && end.value.value.Some? && end.value.value.value.Element? &&
                   Traits(ins.hooks, end.value.value.value).Err?) ==> r.Err?)
              && (r.Ok? && r.value.None? ==>
                    pa.Ok? && end.Ok? && (end.value.value.None? || pa.value.None?))
              && (r.Ok? && r.value.Some? ==>
                    pa.Ok? && end.Ok? &&
                    InspectionResult(r.value.value, EntityAttributes(pa.value, end.value.declaredType)) &&
                    (end.value.value.None? ==> r.value.value.children[0].children == []))
    ensures typeName.Some? ==>
              var t := typeName.value;
              var pa := ParentAttributes(ins, toInspect, t, names);
              var end := Traversal(ins, EndWalk(toInspect), t, false, names);
              pa.Ok? && end.Ok? ==> FoundInspected(ins, pa.value, end.value, r)
  {
    if typeName.None? {
      return Ok(None);
    }
    var t := typeName.value;
    var parentAttributes := InspectParent(ins, toInspect, t, names);
    if parentAttributes.Err? {
      return Err(TraversalFailed(parentAttributes.error));
    }
    var valueAndDeclaredType := Traverse(ins, EndWalk(toInspect), t, false, names);
    if valueAndDeclaredType.Err? {
      return Err(TraversalFailed(valueAndDeclaredType.error));
    }
    TraversalYieldsElement(ins, EndWalk(toInspect), t, false, names);
    r := InspectFound(ins, parentAttributes.value, valueAndDeclaredType.value);
  }

  /** The first block of inspectAsDom: when the path has a parent, inspectProperty of the property in it. */
  method InspectParent(ins: Inspector, toInspect: Option<ObjectPaths>, t: string, names: seq<string>)
    returns (r: Result<Option<map<string, string>>, TraverseError>)
    requires ins.Valid()
    ensures r == ParentAttributes(ins, toInspect, t, names)
  {
    r := Ok(None);
    if |names| > 0 {
      var propertyInParent := Traverse(ins, ParentWalk(toInspect), t, true, names);
      if propertyInParent.Err? {
        return Err(propertyInParent.error);
      }
      if propertyInParent.value.value.Some? {
        r := Ok(ins.hooks.inspectProperty(propertyInParent.value.value.value));
      }
    }
  }

  /**
   * What the rest of inspectAsDom makes of what traverse found: with no
   * element, nothing unless there are parent attributes; with an element, the
   * traits inspectTraits gives onto a new entity, and nothing when that
   * entity has no children, no attributes and there are no parent attributes;
   * otherwise an inspection result holding those traits.
   */
  ghost predicate FoundInspected(ins: Inspector, parentAttributes: Option<map<string, string>>, found: Found,
                                 r: Result<Option<Node>, InspectorError>)
  {
    var attributes := EntityAttributes(parentAttributes, found.declaredType);
    if found.value.None? then
      if parentAttributes.None? || |parentAttributes.value| == 0 then r == Ok(None)
      else r.Ok? && r.value.Some? && InspectionResult(r.value.value, attributes) && r.value.value.children[0].children == []
    else
      found.value.value.Element? &&
      exists t: Result<Node, InspectorError> ::
        && InspectedTraits(ins, found.value.value, NewElement(NAMESPACE, ENTITY), {}, t)
        && (t.Err? ==> r == Err(t.error))
        && (t.Ok? && t.value.children == [] && t.value.attrs == [] && parentAttributes.None? ==> r == Ok(None))
        && (t.Ok? && !(t.value.children == [] && t.value.attrs == [] && parentAttributes.None?) ==>
              r.Ok? && r.value.Some? && InspectionResult(r.value.value, attributes) &&
              r.value.value.children[0].children == t.value.children)
  }

  /**
   * The rest of inspectAsDom, from what traverse found: nothing to return, or
   * the inspection result.
   */
  method InspectFound(ins: Inspector, parentAttributes: Option<map<string, string>>, found: Found)
    returns (r: Result<Option<Node>, InspectorError>)
    requires ins.Valid() && (found.value.Some? ==> found.value.value.Element?)
    ensures found.value.None? && (parentAttributes.None? || |parentAttributes.value| == 0) ==> r == Ok(None)
    ensures found.value.Some? && Traits(ins.hooks, found.value.value).Err? ==> r.Err?
    ensures r.Ok? && r.value.None? ==> found.value.None? || parentAttributes.None?
    ensures r.Ok? && r.value.Some? ==>
              InspectionResult(r.value.value, EntityAttributes(parentAttributes, found.declaredType)) &&
              (found.value.None? ==> r.value.value.children[0].children == [])
    ensures FoundInspected(ins, parentAttributes, found, r)
  {
    var entity := NewElement(NAMESPACE, ENTITY);
    if found.value.None? {
      if parentAttributes.None? || |parentAttributes.value| == 0 {
        return Ok(None);
      }
    } else {
      var traits, _, _ := InspectTraits(ins, found.value, entity, {});
      if traits.Err? {
        return Err(traits.error);
      }
      entity := traits.value;
      if |entity.children| == 0 && |entity.attrs| == 0 && parentAttributes.None? {
        return Ok(None);
      }
      var root := InspectionRoot(entity, parentAttributes, found.declaredType);
      r := Ok(Some(root));
      assert InspectedTraits(ins, found.value.value, NewElement(NAMESPACE, ENTITY), {}, traits);
      return;
    }
    var root := InspectionRoot(entity, parentAttributes, found.declaredType);
    r := Ok(Some(root));
  }

  /**
   * The end of inspectAsDom: a root element of version 1.0 holding the entity,
   * which receives the parent attributes and then the declared type.
   */
  method InspectionRoot(entity: Node, parentAttributes: Option<map<string, string>>, declaredType: Option<string>)
    returns (root: Node)
    requires entity.Element? && WellFormed(entity) && AttrMap(entity.attrs) == map[]
    requires entity.name == ENTITY && entity.namespace == Some(NAMESPACE)
    ensures InspectionResult(root, EntityAttributes(parentAttributes, declaredType))
    ensures root.children[0].children == entity.children
  {
    root := NewElement(NAMESPACE, ROOT);
    root := SetAttribute(root, VERSION, "1.0");
    var attributes := if parentAttributes.Some? then Some(AllSet(parentAttributes.value)) else None;
    var e := SetMapAsAttributes(entity, attributes);
    if parentAttributes.Some? {
      MapAppliedAllSet(map[], parentAttributes.value);
    }
    if declaredType.Some? {
      e := SetAttribute(e, TYPE, declaredType.value);
    }
    assert WellFormed(e) by {
      assert e.children == entity.children;
    }
    root := root.(children := root.children + [e]);
    assert WellFormed(root) by {
      assert root.children == [e];
    }
  }
}
