/**
 * BaseXmlInspector.traverse: resolving a path `type/name1/name2/...` over the
 * inspector's merged XML tree, and the attribute-name hooks it is driven by.
 *
 * The inspector's state is a value: its root element, its two flags and its
 * hooks. Java reflection is replaced by `classes`, which maps each class
 * name the JVM knows to its superclass chain (nearest first), and the
 * restrictAgainstObject traversal of a live object by the `ObjectWalk` it
 * produced. traverseFromTopLevelTypeToNamedChildren is the identity, as in
 * the base class.
 */
module InspectorTraverse {
  import opened Wrappers
  import opened Dom
  import opened XmlLookup

  // The names of the inspection-result format (InspectionResultConstants).
  const NAMESPACE := "http://metawidget.org/inspection-result"
  const ROOT := "inspection-result"
  const ENTITY := "entity"
  const PROPERTY := "property"
  const ACTION := "action"
  const VERSION := "version"
  const TYPE := "type"
  const NAME := "name"

  /**
   * The methods subclasses override: the attribute names traverse reads,
   * and inspectProperty/inspectAction, which return null (None) or a map of
   * attributes for an element.
   */
  datatype Hooks = Hooks(
    topLevelTypeAttribute: string,
    nameAttribute: string,
    typeAttribute: string,
    extendsAttribute: Option<string>,
    referenceAttribute: Option<string>,
    inspectProperty: Node -> Option<map<string, string>>,
    inspectAction: Node -> Option<map<string, string>>)

  /** The hooks as BaseXmlInspector defines them. */
  function DefaultHooks(): (h: Hooks)
    ensures h.topLevelTypeAttribute == TYPE && h.nameAttribute == NAME && h.typeAttribute == TYPE
    ensures h.extendsAttribute.None? && h.referenceAttribute.None?
    ensures forall n :: h.inspectProperty(n).None? && h.inspectAction(n).None?
  {
    Hooks(TYPE, NAME, TYPE, None, None, (_: Node) => None, (_: Node) => None)
  }

  /** A constructed inspector: mRoot, mRestrictAgainstObject (set?), mInferInheritanceHierarchy. */
  datatype Inspector = Inspector(
    root: Node,
    restrictAgainstObject: bool,
    inferInheritanceHierarchy: bool,
    hooks: Hooks,
    classes: map<string, seq<string>>)
  {
    predicate Valid() {
      root.Element? && WellFormed(root)
    }

    /** The top-level elements: the children of the root. */
    function Tops(): seq<Node> {
      if root.Element? then root.children else []
    }
  }

  /**
   * What PropertyStyle.traverse reported for a live object: the class of the
   * value reached (None for null) and the declared type (None for null).
   */
  datatype ObjectWalk = ObjectWalk(valueClass: Option<string>, declaredType: Option<string>)

  /** ValueAndDeclaredType. */
  datatype Found = Found(value: Option<Node>, declaredType: Option<string>)

  /** The exceptions traverse throws. */
  datatype TraverseError =
    | UntypedProperty(name: string)   // a property with no type, no named and no referencing children
    | NoNames                         // onlyToParent with an object but no names: names[length - 1]

  // ---------------------------------------------------------------- the extends chain

  /** Where one round of the extends loop ends: at an element (or null) and a property (or null). */
  datatype Reached = Reached(current: Option<Node>, property: Option<Node>)

  /** One round of the extends loop: stop, or move on to top-level element `index`, which is `next`. */
  datatype Hop = Halt(reached: Reached) | Move(index: nat, next: Node)

  /**
   * One round of the extends loop over the top-level elements `tops`: stop when
   * `cur` extends nothing or nothing known, or at the extended element when it
   * declares `name`; otherwise move on to the extended element.
   */
  function ExtendsHop(tops: seq<Node>, h: Hooks, ext: string, cur: Node, name: string): (r: Hop)
    ensures r.Move? ==> r.index < |tops| && r.next == tops[r.index]
    ensures r.Halt? && r.reached.property.Some? ==>
              r.reached.current.Some? && r.reached.current.value in tops &&
              r.reached.property == GetChildWithAttributeValue(r.reached.current, h.nameAttribute, name)
    ensures r.Halt? && r.reached.current.Some? ==> r.reached.current.value == cur || r.reached.current.value in tops
    ensures r == Halt(Reached(Some(cur), None)) <==> !HasAttribute(cur, ext)
    ensures r.Move? ==> HasAttribute(cur, ext) && HasAttrValue(r.next, h.topLevelTypeAttribute, GetAttribute(cur, ext))
    ensures r.Move? ==> forall j :: 0 <= j < r.index ==> !HasAttrValue(tops[j], h.topLevelTypeAttribute, GetAttribute(cur, ext))
    ensures r.Move? ==> GetChildWithAttributeValue(Some(r.next), h.nameAttribute, name).None?
    ensures r == Halt(Reached(None, None)) <==>
              HasAttribute(cur, ext) &&
              forall j :: 0 <= j < |tops| ==> !HasAttrValue(tops[j], h.topLevelTypeAttribute, GetAttribute(cur, ext))
  {
    if !HasAttribute(cur, ext) then Halt(Reached(Some(cur), None))
    else
      match IndexWithAttributeValue(tops, h.topLevelTypeAttribute, GetAttribute(cur, ext))
      case None => Halt(Reached(None, None))
      case Some(i) =>
        var property := GetChildWithAttributeValue(Some(tops[i]), h.nameAttribute, name);
        if property.Some? then Halt(Reached(Some(tops[i]), property)) else Move(i, tops[i])
  }

  /**
   * Where a round of the extends loop goes when `cur` extends a type that has
   * a top-level element: it stops there with the named child when that
   * element has one, and moves there otherwise; a property it stops with is
   * always found under that element.
   */
  lemma ExtendsHopTarget(tops: seq<Node>, h: Hooks, ext: string, cur: Node, name: string)
    ensures var r := ExtendsHop(tops, h, ext, cur, name);
            HasAttribute(cur, ext) ==>
              var i := IndexWithAttributeValue(tops, h.topLevelTypeAttribute, GetAttribute(cur, ext));
              i.Some? ==>
                var property := GetChildWithAttributeValue(Some(tops[i.value]), h.nameAttribute, name);
                (r.Move? <==> property.None?) &&
                (r.Halt? ==> r.reached == Reached(Some(tops[i.value]), property))
    ensures var r := ExtendsHop(tops, h, ext, cur, name);
            r.Halt? && r.reached.property.Some? ==>
              HasAttribute(cur, ext) &&
              var i := IndexWithAttributeValue(tops, h.topLevelTypeAttribute, GetAttribute(cur, ext));
              i.Some? && r.reached.current == Some(tops[i.value])
  {
  }

  /** The extends loop's rounds for one format and one name, as a function of the element reached. */
  function Hopper(tops: seq<Node>, h: Hooks, ext: string, name: string): Node -> Hop
  {
    (x: Node) => ExtendsHop(tops, h, ext, x, name)
  }

  /** Every move of `hop` is to one of `n` positions. */
  ghost predicate Bounded(hop: Node -> Hop, n: nat) {
    forall x :: hop(x).Move? ==> hop(x).index < n
  }

  lemma HopperBounded(tops: seq<Node>, h: Hooks, ext: string, name: string)
    ensures Bounded(Hopper(tops, h, ext, name), |tops|)
  {
  }

  /**
   * A loop that repeats `hop` as the source's `while (true)` does, with no
   * guard against coming back to an element. `fuel` bounds the rounds; None
   * means the loop had not ended when the fuel ran out.
   */
  function LoopAsWritten(hop: Node -> Hop, x: Node, fuel: nat): Option<Reached>
    decreases fuel
  {
    if fuel == 0 then None
    else
      match hop(x)
      case Halt(r) => Some(r)
      case Move(_, next) => LoopAsWritten(hop, next, fuel - 1)
  }

  /** The positions below `n` not visited yet. */
  function Unvisited(n: nat, visited: set<nat>): set<nat> {
    set i | 0 <= i < n && i !in visited
  }

  /** The same loop, stopping with no property on coming back to a position already visited. */
  function Loop(hop: Node -> Hop, n: nat, x: Node, visited: set<nat>): Reached
    requires Bounded(hop, n)
    decreases Unvisited(n, visited)
  {
    match hop(x)
    case Halt(r) => r
    case Move(i, next) =>
      if i in visited then Reached(Some(next), None)
      else
        assert i in Unvisited(n, visited) - Unvisited(n, visited + {i});
        Loop(hop, n, next, visited + {i})
  }

  /** The element `k` rounds of the loop move to, if none of them stops. */
  function Hops(hop: Node -> Hop, x: Node, k: nat): Option<Node>
    decreases k
  {
    if k == 0 then Some(x)
    else
      match hop(x)
      case Halt(_) => None
      case Move(_, next) => Hops(hop, next, k - 1)
  }

  /** Some number of rounds lead from `x` to `y`. */
  ghost predicate Reaches(hop: Node -> Hop, x: Node, y: Node) {
    exists k: nat :: Hops(hop, x, k) == Some(y)
  }

  lemma {:induction false} HopsCompose(hop: Node -> Hop, x: Node, a: nat, y: Node, b: nat, z: Node)
    requires Hops(hop, x, a) == Some(y) && Hops(hop, y, b) == Some(z)
    ensures Hops(hop, x, a + b) == Some(z)
    decreases a
  {
    if a > 0 {
      HopsCompose(hop, hop(x).next, a - 1, y, b, z);
    }
  }

  /** After `m` rounds that all move on, the as-written loop goes on from where they lead. */
  lemma {:induction false} HopsThenLoop(hop: Node -> Hop, x: Node, m: nat, y: Node, fuel: nat)
    requires Hops(hop, x, m) == Some(y)
    ensures LoopAsWritten(hop, x, fuel) == if fuel <= m then None else LoopAsWritten(hop, y, fuel - m)
    decreases m
  {
    if m > 0 && fuel > 0 {
      HopsThenLoop(hop, hop(x).next, m - 1, y, fuel - 1);
    }
  }

  /** An element the as-written loop comes back to is never left: the loop does not end. */
  lemma {:induction false} CycleNeverEnds(hop: Node -> Hop, x: Node, m: nat, fuel: nat)
    requires m >= 1 && Hops(hop, x, m) == Some(x)
    ensures LoopAsWritten(hop, x, fuel).None?
    decreases fuel
  {
    HopsThenLoop(hop, x, m, x, fuel);
    if fuel > m {
      CycleNeverEnds(hop, x, m, fuel - m);
    }
  }

  /**
   * The guard changes nothing where the unguarded loop ends: whenever it
   * stops, the guarded one stops at the same element with the same property.
   * `visited` holds positions from which the loop reaches `x`.
   */
  lemma {:induction false} LoopAgrees(hop: Node -> Hop, n: nat, x: Node, visited: set<nat>, fuel: nat,
                                      tops: seq<Node>)
    requires Bounded(hop, n) && n == |tops|
    requires forall x' :: hop(x').Move? ==> hop(x').next == tops[hop(x').index]
    requires forall v | v in visited :: v < n && Reaches(hop, tops[v], x)
    requires LoopAsWritten(hop, x, fuel).Some?
    ensures Loop(hop, n, x, visited) == LoopAsWritten(hop, x, fuel).value
    decreases fuel
  {
    match hop(x)
    case Halt(_) =>
    case Move(i, next) =>
      assert Hops(hop, x, 1) == Some(next) by {
        assert Hops(hop, next, 0) == Some(next);
      }
      if i in visited {
        var k: nat :| Hops(hop, tops[i], k) == Some(x);
        HopsCompose(hop, next, k, x, 1, next);
        CycleNeverEnds(hop, next, k + 1, fuel - 1);
        assert false;
      } else {
        forall v | v in visited + {i}
          ensures v < n && Reaches(hop, tops[v], next)
        {
          if v == i {
            assert Hops(hop, tops[v], 0) == Some(next);
          } else {
            var k: nat :| Hops(hop, tops[v], k) == Some(x);
            HopsCompose(hop, tops[v], k, x, 1, next);
          }
        }
        LoopAgrees(hop, n, next, visited + {i}, fuel - 1, tops);
      }
  }

  /**
   * The extends loop as written: `fuel` bounds its rounds, None means it had
   * not ended when the fuel ran out.
   */
  function ExtendsWalkAsWritten(tops: seq<Node>, h: Hooks, ext: string, cur: Node, name: string, fuel: nat): Option<Reached>
  {
    LoopAsWritten(Hopper(tops, h, ext, name), cur, fuel)
  }

  /**
   * The extends loop, corrected: it stops, with no property, on coming back to
   * a top-level element it has already searched.
   */
  function ExtendsWalk(tops: seq<Node>, h: Hooks, ext: string, cur: Node, name: string): Reached
  {
    HopperBounded(tops, h, ext, name);
    Loop(Hopper(tops, h, ext, name), |tops|, cur, {})
  }

  /** The correction changes nothing where the source's loop ends. */
  lemma CorrectedExtendsWalk(tops: seq<Node>, h: Hooks, ext: string, x: Node, name: string, fuel: nat)
    requires ExtendsWalkAsWritten(tops, h, ext, x, name, fuel).Some?
    ensures ExtendsWalk(tops, h, ext, x, name) == ExtendsWalkAsWritten(tops, h, ext, x, name, fuel).value
  {
    HopperBounded(tops, h, ext, name);
    LoopAgrees(Hopper(tops, h, ext, name), |tops|, x, {}, fuel, tops);
  }

  /**
   * What the corrected loop finds is a real match: a property it returns is
   * the first child carrying the name of the top-level element it stopped at,
   * and the element it stops at is the start or a top-level element.
   */
  lemma {:induction false} LoopFinds(tops: seq<Node>, h: Hooks, ext: string, cur: Node, name: string, visited: set<nat>)
    requires Bounded(Hopper(tops, h, ext, name), |tops|)
    ensures var r := Loop(Hopper(tops, h, ext, name), |tops|, cur, visited);
            (r.current.Some? ==> r.current.value == cur || r.current.value in tops) &&
            (r.property.Some? ==> r.current.Some? && r.current.value in tops &&
                                  r.property == GetChildWithAttributeValue(r.current, h.nameAttribute, name))
    decreases Unvisited(|tops|, visited)
  {
    var hop := Hopper(tops, h, ext, name);
    assert hop(cur) == ExtendsHop(tops, h, ext, cur, name);
    match hop(cur)
    case Halt(_) =>
    case Move(i, next) =>
      if i !in visited {
        assert i in Unvisited(|tops|, visited) - Unvisited(|tops|, visited + {i});
        LoopFinds(tops, h, ext, next, name, visited + {i});
      }
  }

  lemma ExtendsWalkFinds(tops: seq<Node>, h: Hooks, ext: string, cur: Node, name: string)
    ensures var r := ExtendsWalk(tops, h, ext, cur, name);
            (r.current.Some? ==> r.current.value == cur || r.current.value in tops) &&
            (r.property.Some? ==> r.current.Some? && r.current.value in tops &&
                                  r.property == GetChildWithAttributeValue(r.current, h.nameAttribute, name))
  {
    HopperBounded(tops, h, ext, name);
    LoopFinds(tops, h, ext, cur, name, {});
  }

  /** Two top-level elements, A extending B and B extending A. */
  function CyclicTops(): (tops: seq<Node>)
    ensures |tops| == 2
  {
    [Element("entity", Some("entity"), None, [Attr("type", "A"), Attr("extends", "B")], []),
     Element("entity", Some("entity"), None, [Attr("type", "B"), Attr("extends", "A")], [])]
  }

  /** The hooks of an XML format with an extends attribute. */
  function ExtendsHooks(): (h: Hooks)
    ensures h.topLevelTypeAttribute == TYPE && h.nameAttribute == NAME && h.extendsAttribute == Some("extends")
  {
    DefaultHooks().(extendsAttribute := Some("extends"))
  }

  /**
   * The source's extends loop never ends on a cyclic chain: looking up a name
   * that neither A nor B declares, starting from A, the loop runs for ever
   * however much fuel it is given.
   */
  lemma ExtendsCycleNeverEnds(fuel: nat)
    ensures ExtendsWalkAsWritten(CyclicTops(), ExtendsHooks(), "extends", CyclicTops()[0], "x", fuel).None?
  {
    var tops, h := CyclicTops(), ExtendsHooks();
    var hop := Hopper(tops, h, "extends", "x");
    var a, b := tops[0], tops[1];
    assert GetAttribute(a, "extends") == "B" && GetAttribute(b, "extends") == "A";
    assert GetAttribute(a, "type") == "A" && GetAttribute(b, "type") == "B";
    assert IndexWithAttributeValue(tops, "type", "B") == Some(1) by {
      assert !HasAttrValue(tops[0], "type", "B");
    }
    assert IndexWithAttributeValue(tops, "type", "A") == Some(0);
    assert hop(a) == Move(1, b);
    assert hop(b) == Move(0, a);
    assert Hops(hop, a, 2) == Some(a) by {
      assert Hops(hop, a, 0) == Some(a);
      assert Hops(hop, b, 1) == Some(a);
    }
    CycleNeverEnds(hop, a, 2, fuel);
  }

  /** The corrected loop ends on the same input: back at B, which it has already searched, with no property. */
  lemma ExtendsCycleCorrected()
    ensures ExtendsWalk(CyclicTops(), ExtendsHooks(), "extends", CyclicTops()[0], "x") ==
            Reached(Some(CyclicTops()[1]), None)
  {
    var tops, h := CyclicTops(), ExtendsHooks();
    var hop := Hopper(tops, h, "extends", "x");
    var a, b := tops[0], tops[1];
    assert GetAttribute(a, "extends") == "B" && GetAttribute(b, "extends") == "A";
    assert GetAttribute(a, "type") == "A" && GetAttribute(b, "type") == "B";
    assert IndexWithAttributeValue(tops, "type", "B") == Some(1) by {
      assert !HasAttrValue(tops[0], "type", "B");
    }
    assert IndexWithAttributeValue(tops, "type", "A") == Some(0);
    assert hop(a) == Move(1, b);
    assert hop(b) == Move(0, a);
    HopperBounded(tops, h, "extends", "x");
    assert Loop(hop, 2, a, {1, 0}) == Reached(Some(b), None);
    assert Loop(hop, 2, b, {1}) == Loop(hop, 2, a, {1, 0});
    assert Loop(hop, 2, a, {}) == Loop(hop, 2, b, {1});
  }

  // ---------------------------------------------------------------- the stages of traverse

  /** How traverse starts: returning at once, or with the type, names and declared type to use. */
  datatype Start =
    | Early(found: Found)
    | Begin(typeToInspect: string, names: seq<string>, declaredType: Option<string>, objectClass: Option<string>)

  /**
   * The restrictAgainstObject stage: with an object and restrictAgainstObject
   * set, the object's own traversal decides the type (its class) and the names
   * left (the last one only for onlyToParent, none otherwise).
   */
  function Restrict(ins: Inspector, toTraverse: Option<ObjectWalk>, typeName: string, onlyToParent: bool,
                    names: seq<string>): (r: Result<Start, TraverseError>)
    ensures (toTraverse.None? || !ins.restrictAgainstObject) ==> r == Ok(Begin(typeName, names, Some(typeName), None))
    ensures r.Ok? && r.value.Begin? ==> |r.value.names| <= |names| && r.value.declaredType.Some?
    ensures toTraverse.Some? && ins.restrictAgainstObject && toTraverse.value.valueClass.None? ==>
              r == Ok(Early(Found(None, toTraverse.value.declaredType)))
    ensures toTraverse.Some? && ins.restrictAgainstObject && toTraverse.value.valueClass.Some? ==>
              (r.Err? <==> onlyToParent && names == []) &&
              (r.Err? ==> r.error == NoNames) &&
              (r.Ok? ==> r.value.Begin? &&
                         r.value.typeToInspect == toTraverse.value.valueClass.value &&
                         r.value.objectClass == toTraverse.value.valueClass &&
                         r.value.declaredType ==
                           (if toTraverse.value.declaredType.Some? then toTraverse.value.declaredType
                            else toTraverse.value.valueClass) &&
                         |r.value.names| == (if onlyToParent then 1 else 0) &&
                         (onlyToParent ==> r.value.names[0] == names[|names| - 1]))
  {
    if toTraverse.Some? && ins.restrictAgainstObject then
      var w := toTraverse.value;
      if w.valueClass.None? then Ok(Early(Found(None, w.declaredType)))
      else if onlyToParent && |names| == 0 then Err(NoNames)
      else
        var t := w.valueClass.value;
        Ok(Begin(t, if onlyToParent then [names[|names| - 1]] else [], Some(w.declaredType.GetOr(t)), w.valueClass))
    else Ok(Begin(typeName, names, Some(typeName), None))
  }

  /** Where the top-level lookup ends: at a top-level element, or with nothing and a declared type. */
  datatype TopLevel = FoundAt(index: nat) | Missing(declaredType: Option<string>)

  /** The first class of `chain` that has a top-level element. */
  function FirstTopLevel(tops: seq<Node>, h: Hooks, chain: seq<string>): (r: Option<nat>)
    ensures r.Some? ==> r.value < |tops|
    ensures r.Some? ==>
      exists k :: 0 <= k < |chain| && IndexWithAttributeValue(tops, h.topLevelTypeAttribute, chain[k]) == r &&
                  forall j :: 0 <= j < k ==> IndexWithAttributeValue(tops, h.topLevelTypeAttribute, chain[j]).None?
    ensures r.None? <==> forall k :: 0 <= k < |chain| ==>
              IndexWithAttributeValue(tops, h.topLevelTypeAttribute, chain[k]).None?
    decreases |chain|
  {
    if chain == [] then None
    else
      var here := IndexWithAttributeValue(tops, h.topLevelTypeAttribute, chain[0]);
      if here.Some? then here
      else
        var r := FirstTopLevel(tops, h, chain[1..]);
        assert forall k :: 1 <= k < |chain| ==> chain[k] == chain[1..][k - 1];
        r
  }

  /**
   * "Validate type": the top-level element whose type attribute is the type;
   * failing that, with an object or inferInheritanceHierarchy, the first
   * superclass that has one.
   */
  function FindTopLevel(ins: Inspector, t: string, objectClass: Option<string>, declared: Option<string>): (r: TopLevel)
    ensures r.FoundAt? ==> r.index < |ins.Tops()| && ins.Tops()[r.index].Element?
  {
    var h := ins.hooks;
    match IndexWithAttributeValue(ins.Tops(), h.topLevelTypeAttribute, t)
    case Some(i) => FoundAt(i)
    case None =>
      if objectClass.None? && !ins.inferInheritanceHierarchy then Missing(declared)
      else if objectClass.None? && t !in ins.classes then Missing(Some(t))
      else
        var c := objectClass.GetOr(t);
        var chain := if c in ins.classes then ins.classes[c] else [];
        match FirstTopLevel(ins.Tops(), h, chain)
        case Some(i) => FoundAt(i)
        case None => Missing(declared)
  }

  /** The outcome of one round of the names loop. */
  datatype Round = Continue(current: Node, declaredType: Option<string>) | Stop(found: Found) | Fail(error: TraverseError)

  /** "Traverse to new top-level element of the given declaredType". */
  function Descend(ins: Inspector, declared: string): (r: Round)
    requires ins.Valid()
    ensures r.Continue? || r == Stop(Found(None, Some(declared)))
    ensures var tops, h := ins.Tops(), ins.hooks;
            r.Continue? ==>
              exists i :: 0 <= i < |tops| && tops[i] == r.current &&
                HasAttrValue(r.current, h.topLevelTypeAttribute, declared) &&
                forall j :: 0 <= j < i ==> !HasAttrValue(tops[j], h.topLevelTypeAttribute, declared)
    ensures var h := ins.hooks;
            r.Continue? ==>
              r.declaredType == Some(if HasAttribute(r.current, h.typeAttribute) then GetAttribute(r.current, h.typeAttribute)
                                     else declared)
  {
    var h := ins.hooks;
    match IndexWithAttributeValue(ins.Tops(), h.topLevelTypeAttribute, declared)
    case None => Stop(Found(None, Some(declared)))
    case Some(i) =>
      var top := ins.Tops()[i];
      Continue(top, if HasAttribute(top, h.typeAttribute) then Some(GetAttribute(top, h.typeAttribute)) else Some(declared))
  }

  /** Descending continues whenever some top-level element has the declared type. */
  lemma DescendContinues(ins: Inspector, declared: string)
    requires ins.Valid()
    ensures var tops, h := ins.Tops(), ins.hooks;
            (exists i :: 0 <= i < |tops| && HasAttrValue(tops[i], h.topLevelTypeAttribute, declared)) ==>
              Descend(ins, declared).Continue?
  {
  }

  /**
   * The property lookup of one round: directly under `cur`, then along the
   * extends chain, then (as a second resort) by reference.
   */
  function LookUp(ins: Inspector, cur: Node, name: string): (r: Reached)
    requires ins.Valid()
  {
    var h := ins.hooks;
    var direct := GetChildWithAttributeValue(Some(cur), h.nameAttribute, name);
    if direct.None? && h.extendsAttribute.Some? then ExtendsWalk(ins.Tops(), h, h.extendsAttribute.value, cur, name)
    else Reached(Some(cur), direct)
  }

  /** One round of the names loop, for `name`; `last` is onlyToParent on the last name. */
  function NameRound(ins: Inspector, cur: Node, name: string, last: bool): Round
    requires ins.Valid()
  {
    var h := ins.hooks;
    var reached := LookUp(ins, cur, name);
    if reached.property.None? && h.referenceAttribute.Some? then
      var byReference := GetChildWithAttributeValue(reached.current, h.referenceAttribute.value, name);
      if byReference.None? then Stop(Found(None, None))
      else if last then Stop(Found(byReference, Some(name)))
      else Descend(ins, name)
    else if reached.property.None? then Stop(Found(None, None))
    else if last then Stop(Found(reached.property, None))
    else
      var p := reached.property.value;
      var declared := if HasAttribute(p, h.typeAttribute) then Some(GetAttribute(p, h.typeAttribute)) else None;
      if GetChildWithAttribute(Some(p), h.nameAttribute).Some? then Continue(p, declared)
      else if declared.None? then
        if h.referenceAttribute.None? || GetChildWithAttribute(Some(p), h.referenceAttribute.value).None?
        then Fail(UntypedProperty(name))
        else Continue(p, None)
      else Descend(ins, declared.value)
  }

  /** The names loop from position `i`, at element `cur` with declared type `declared`. */
  function WalkNames(ins: Inspector, cur: Node, declared: Option<string>, names: seq<string>, i: nat,
                     onlyToParent: bool): Result<Found, TraverseError>
    requires ins.Valid() && i <= |names|
    decreases |names| - i
  {
    if i == |names| then Ok(Found(Some(cur), declared))
    else
      match NameRound(ins, cur, names[i], onlyToParent && i == |names| - 1)
      case Stop(f) => Ok(f)
      case Fail(e) => Err(e)
      case Continue(next, d) => WalkNames(ins, next, d, names, i + 1, onlyToParent)
  }

  /** traverse(toTraverse, typeName, onlyToParent, names). */
  function Traversal(ins: Inspector, toTraverse: Option<ObjectWalk>, typeName: string, onlyToParent: bool,
                     names: seq<string>): Result<Found, TraverseError>
    requires ins.Valid()
  {
    match Restrict(ins, toTraverse, typeName, onlyToParent, names)
    case Err(e) => Err(e)
    case Ok(Early(f)) => Ok(f)
    case Ok(Begin(t, ns, declared, objectClass)) =>
      match FindTopLevel(ins, t, objectClass, declared)
      case Missing(d) => Ok(Found(None, d))
      case FoundAt(i) =>
        if ns == [] then Ok(Found(Some(ins.Tops()[i]), declared))
        else WalkNames(ins, ins.Tops()[i], None, ns, 0, onlyToParent)
  }

  // ---------------------------------------------------------------- what traverse promises

  /**
   * Without an object to follow and without inferInheritanceHierarchy, a type
   * with no top-level element yields no element and the type as declared type.
   */
  lemma NoTopLevelElement(ins: Inspector, typeName: string, onlyToParent: bool, names: seq<string>)
    requires ins.Valid() && !ins.inferInheritanceHierarchy
    requires forall j :: 0 <= j < |ins.Tops()| ==>
               !HasAttrValue(ins.Tops()[j], ins.hooks.topLevelTypeAttribute, typeName)
    ensures Traversal(ins, None, typeName, onlyToParent, names) == Ok(Found(None, Some(typeName)))
  {
  }

  /** With no names, traverse yields the first top-level element of the type itself. */
  lemma NoNamesGiveTopLevel(ins: Inspector, typeName: string, onlyToParent: bool, i: nat)
    requires ins.Valid() && i < |ins.Tops()|
    requires IndexWithAttributeValue(ins.Tops(), ins.hooks.topLevelTypeAttribute, typeName) == Some(i)
    ensures Traversal(ins, None, typeName, onlyToParent, []) == Ok(Found(Some(ins.Tops()[i]), Some(typeName)))
    ensures HasAttrValue(ins.Tops()[i], ins.hooks.topLevelTypeAttribute, typeName)
  {
  }

  /**
   * The order of the lookup: a child named `name` directly under `cur` wins;
   * otherwise the extends chain is searched; a property found either way
   * carries the name and is the first such child of the element it was found
   * under.
   */
  lemma LookUpOrder(ins: Inspector, cur: Node, name: string)
    requires ins.Valid()
    ensures var r, h := LookUp(ins, cur, name), ins.hooks;
            var direct := GetChildWithAttributeValue(Some(cur), h.nameAttribute, name);
            (direct.Some? ==> r == Reached(Some(cur), direct)) &&
            (direct.None? && h.extendsAttribute.None? ==> r == Reached(Some(cur), None)) &&
            (r.property.Some? ==> r.current.Some? && HasAttrValue(r.property.value, h.nameAttribute, name) &&
                                  r.property == GetChildWithAttributeValue(r.current, h.nameAttribute, name)) &&
            (r.current.Some? ==> r.current.value == cur || r.current.value in ins.Tops())
  {
    var h := ins.hooks;
    if GetChildWithAttributeValue(Some(cur), h.nameAttribute, name).None? && h.extendsAttribute.Some? {
      ExtendsWalkFinds(ins.Tops(), h, h.extendsAttribute.value, cur, name);
    }
  }

  /**
   * A round finds nothing — and traverse yields (null, null) — exactly when no
   * property carries the name, directly, along the extends chain or (when the
   * format has one) in the reference attribute.
   */
  lemma NotFoundRound(ins: Inspector, cur: Node, name: string, last: bool)
    requires ins.Valid()
    ensures var reached, h := LookUp(ins, cur, name), ins.hooks;
            (NameRound(ins, cur, name, last) == Stop(Found(None, None))) <==>
            (reached.property.None? &&
             (h.referenceAttribute.None? ||
              GetChildWithAttributeValue(reached.current, h.referenceAttribute.value, name).None?))
  {
  }

  /**
   * The round of the last name under onlyToParent returns the property
   * element itself: found by name (no declared type) or by reference (the
   * name as declared type).
   */
  lemma LastRoundReturnsProperty(ins: Inspector, cur: Node, name: string)
    requires ins.Valid()
    ensures var r, h := NameRound(ins, cur, name, true), ins.hooks;
            r.Stop? &&
            (r.found.value.Some? ==>
               (r.found.declaredType.None? && HasAttrValue(r.found.value.value, h.nameAttribute, name)) ||
               (r.found.declaredType == Some(name) && h.referenceAttribute.Some? &&
                HasAttrValue(r.found.value.value, h.referenceAttribute.value, name)))
  {
    LookUpOrder(ins, cur, name);
  }

  /**
   * A round throws exactly for a property found by name that has no type
   * attribute, no named children and no referencing children.
   */
  lemma UntypedPropertyFails(ins: Inspector, cur: Node, name: string, last: bool)
    requires ins.Valid()
    ensures var r, reached, h := NameRound(ins, cur, name, last), LookUp(ins, cur, name), ins.hooks;
            r.Fail? <==>
              (reached.property.Some? && !last &&
               !HasAttribute(reached.property.value, h.typeAttribute) &&
               GetChildWithAttribute(reached.property, h.nameAttribute).None? &&
               (h.referenceAttribute.None? ||
                GetChildWithAttribute(reached.property, h.referenceAttribute.value).None?))
    ensures NameRound(ins, cur, name, last).Fail? ==> NameRound(ins, cur, name, last).error == UntypedProperty(name)
  {
  }

  /**
   * With onlyToParent, traverse ends at the property for the last name:
   * whatever element it yields carries that name, or references it.
   */
  lemma {:induction false} OnlyToParentEndsAtProperty(ins: Inspector, cur: Node, declared: Option<string>,
                                                      names: seq<string>, i: nat)
    requires ins.Valid() && i < |names|
    ensures var r, h := WalkNames(ins, cur, declared, names, i, true), ins.hooks;
            var name := names[|names| - 1];
            r.Ok? && r.value.value.Some? ==>
              HasAttrValue(r.value.value.value, h.nameAttribute, name) ||
              (h.referenceAttribute.Some? && HasAttrValue(r.value.value.value, h.referenceAttribute.value, name))
    decreases |names| - i
  {
    if i == |names| - 1 {
      LastRoundReturnsProperty(ins, cur, names[i]);
    } else {
      match NameRound(ins, cur, names[i], false)
      case Stop(f) => NotLastStopHasNoValue(ins, cur, names[i]);
      case Fail(_) =>
      case Continue(next, d) => OnlyToParentEndsAtProperty(ins, next, d, names, i + 1);
    }
  }

  /** Before the last name, a round that stops yields no element. */
  lemma NotLastStopHasNoValue(ins: Inspector, cur: Node, name: string)
    requires ins.Valid()
    ensures NameRound(ins, cur, name, false).Stop? ==> NameRound(ins, cur, name, false).found.value.None?
  {
  }

  /** Every element a round moves to or stops at is an element node. */
  lemma RoundYieldsElement(ins: Inspector, cur: Node, name: string, last: bool)
    requires ins.Valid()
    ensures var r := NameRound(ins, cur, name, last);
            (r.Continue? ==> r.current.Element?) && (r.Stop? && r.found.value.Some? ==> r.found.value.value.Element?)
  {
    var h := ins.hooks;
    var reached := LookUp(ins, cur, name);
    LookUpOrder(ins, cur, name);
    if reached.property.None? && h.referenceAttribute.Some? {
      var byReference := GetChildWithAttributeValue(reached.current, h.referenceAttribute.value, name);
      if byReference.Some? {
        assert byReference.value.Element?;
        DescendElement(ins, name);
      }
    } else if reached.property.Some? && !last {
      var p := reached.property.value;
      assert p.Element?;
      if HasAttribute(p, h.typeAttribute) {
        DescendElement(ins, GetAttribute(p, h.typeAttribute));
      }
    }
  }

  /** Descending continues only at an element. */
  lemma DescendElement(ins: Inspector, declared: string)
    requires ins.Valid()
    ensures Descend(ins, declared).Continue? ==> Descend(ins, declared).current.Element?
  {
  }

  lemma {:induction false} WalkYieldsElement(ins: Inspector, cur: Node, declared: Option<string>, names: seq<string>,
                                             i: nat, onlyToParent: bool)
    requires ins.Valid() && i <= |names| && cur.Element?
    ensures var r := WalkNames(ins, cur, declared, names, i, onlyToParent);
            r.Ok? && r.value.value.Some? ==> r.value.value.value.Element?
    decreases |names| - i
  {
    if i < |names| {
      RoundYieldsElement(ins, cur, names[i], onlyToParent && i == |names| - 1);
      match NameRound(ins, cur, names[i], onlyToParent && i == |names| - 1)
      case Continue(next, d) => WalkYieldsElement(ins, next, d, names, i + 1, onlyToParent);
      case _ =>
    }
  }

  /** traverse only ever yields element nodes. */
  lemma TraversalYieldsElement(ins: Inspector, toTraverse: Option<ObjectWalk>, typeName: string, onlyToParent: bool,
                               names: seq<string>)
    requires ins.Valid()
    ensures var r := Traversal(ins, toTraverse, typeName, onlyToParent, names);
            r.Ok? && r.value.value.Some? ==> r.value.value.value.Element?
  {
    var start := Restrict(ins, toTraverse, typeName, onlyToParent, names);
    if start.Ok? && start.value.Begin? {
      var top := FindTopLevel(ins, start.value.typeToInspect, start.value.objectClass, start.value.declaredType);
      if top.FoundAt? {
        WalkYieldsElement(ins, ins.Tops()[top.index], None, start.value.names, 0, onlyToParent);
      }
    }
  }

  /** A declared type with no top-level element yields no element and that declared type. */
  lemma DeclaredTypeWithoutTopLevel(ins: Inspector, declared: string)
    requires ins.Valid()
    requires forall j :: 0 <= j < |ins.Tops()| ==>
               !HasAttrValue(ins.Tops()[j], ins.hooks.topLevelTypeAttribute, declared)
    ensures Descend(ins, declared) == Stop(Found(None, Some(declared)))
  {
  }

  // ---------------------------------------------------------------- traverse as the source runs it

  /** The extends loop, with the corrected stop on a top-level element already searched. */
  method WalkExtends(tops: seq<Node>, h: Hooks, ext: string, start: Node, name: string) returns (r: Reached)
    ensures r == ExtendsWalk(tops, h, ext, start, name)
  {
    ghost var hop := Hopper(tops, h, ext, name);
    HopperBounded(tops, h, ext, name);
    var cur := start;
    var visited: set<nat> := {};
    while true
      invariant Loop(hop, |tops|, cur, visited) == ExtendsWalk(tops, h, ext, start, name)
      decreases Unvisited(|tops|, visited)
    {
      assert hop(cur) == ExtendsHop(tops, h, ext, cur, name);
      if !HasAttribute(cur, ext) {
        return Reached(Some(cur), None);
      }
      var index := IndexWithAttributeValue(tops, h.topLevelTypeAttribute, GetAttribute(cur, ext));
      if index.None? {
        return Reached(None, None);
      }
      var i := index.value;
      var next := tops[i];
      var property := GetChildWithAttributeValue(Some(next), h.nameAttribute, name);
      if property.Some? {
        return Reached(Some(next), property);
      }
      if i in visited {
        return Reached(Some(next), None);
      }
      assert i in Unvisited(|tops|, visited) - Unvisited(|tops|, visited + {i});
      cur, visited := next, visited + {i};
    }
  }

  /** The superclass loop of "validate type": climbs `chain` until a class has a top-level element. */
  method ClimbSuperclasses(tops: seq<Node>, h: Hooks, chain: seq<string>) returns (r: Option<nat>)
    ensures r == FirstTopLevel(tops, h, chain)
  {
    var k := 0;
    while k < |chain|
      invariant k <= |chain|
      invariant FirstTopLevel(tops, h, chain) == FirstTopLevel(tops, h, chain[k..])
    {
      assert chain[k..][1..] == chain[k + 1..];
      var here := IndexWithAttributeValue(tops, h.topLevelTypeAttribute, chain[k]);
      if here.Some? {
        return here;
      }
      k := k + 1;
    }
    r := None;
  }

  /** "Validate type", with the superclass loop. */
  method LocateTopLevel(ins: Inspector, t: string, objectClass: Option<string>, declared: Option<string>)
    returns (r: TopLevel)
    ensures r == FindTopLevel(ins, t, objectClass, declared)
  {
    var h := ins.hooks;
    var top := IndexWithAttributeValue(ins.Tops(), h.topLevelTypeAttribute, t);
    if top.None? {
      if objectClass.None? && !ins.inferInheritanceHierarchy {
        return Missing(declared);
      }
      if objectClass.None? && t !in ins.classes {
        return Missing(Some(t));
      }
      var c := objectClass.GetOr(t);
      top := ClimbSuperclasses(ins.Tops(), h, if c in ins.classes then ins.classes[c] else []);
      if top.None? {
        return Missing(declared);
      }
    }
    r := FoundAt(top.value);
  }

  /** One round of the names loop. */
  method RunRound(ins: Inspector, cur: Node, name: string, last: bool) returns (r: Round)
    requires ins.Valid()
    ensures r == NameRound(ins, cur, name, last)
  {
    var h := ins.hooks;
    var current := Some(cur);
    var property := GetChildWithAttributeValue(current, h.nameAttribute, name);
    if property.None? && h.extendsAttribute.Some? {
      var reached := WalkExtends(ins.Tops(), h, h.extendsAttribute.value, cur, name);
      current, property := reached.current, reached.property;
    }
    var declared: Option<string> := None;
    if property.None? && h.referenceAttribute.Some? {
      property := GetChildWithAttributeValue(current, h.referenceAttribute.value, name);
      if property.None? {
        return Stop(Found(None, None));
      }
      declared := Some(name);
    }
    if property.None? {
      return Stop(Found(None, None));
    }
    if last {
      return Stop(Found(property, declared));
    }
    if declared.None? {
      var p := property.value;
      if HasAttribute(p, h.typeAttribute) {
        declared := Some(GetAttribute(p, h.typeAttribute));
      }
      if GetChildWithAttribute(Some(p), h.nameAttribute).Some? {
        return Continue(p, declared);
      }
      if !HasAttribute(p, h.typeAttribute) {
        if h.referenceAttribute.None? || GetChildWithAttribute(Some(p), h.referenceAttribute.value).None? {
          return Fail(UntypedProperty(name));
        }
        return Continue(p, declared);
      }
    }
    r := Descend(ins, declared.value);
  }

  /** traverse: the restrictAgainstObject stage, the top-level lookup, then the names loop. */
  method Traverse(ins: Inspector, toTraverse: Option<ObjectWalk>, typeName: string, onlyToParent: bool,
                  names: seq<string>) returns (r: Result<Found, TraverseError>)
    requires ins.Valid()
    ensures r == Traversal(ins, toTraverse, typeName, onlyToParent, names)
  {
    var start := Restrict(ins, toTraverse, typeName, onlyToParent, names);
    if start.Err? {
      return Err(start.error);
    }
    if start.value.Early? {
      return Ok(start.value.found);
    }
    var typeToInspect, namesToInspect, declared, objectClass :=
      start.value.typeToInspect, start.value.names, start.value.declaredType, start.value.objectClass;
    var top := LocateTopLevel(ins, typeToInspect, objectClass, declared);
    if top.Missing? {
      return Ok(Found(None, top.declaredType));
    }
    var cur := ins.Tops()[top.index];
    if |namesToInspect| == 0 {
      return Ok(Found(Some(cur), declared));
    }
    r := RunNames(ins, cur, namesToInspect, onlyToParent);
  }

  /** One round of the names loop, as a step of WalkNames. */
  method RunStep(ins: Inspector, cur: Node, declared: Option<string>, names: seq<string>, i: nat,
                 onlyToParent: bool) returns (round: Round)
    requires ins.Valid() && i < |names|
    ensures WalkNames(ins, cur, declared, names, i, onlyToParent) ==
            match round
            case Stop(f) => Ok(f)
            case Fail(e) => Err(e)
            case Continue(next, d) => WalkNames(ins, next, d, names, i + 1, onlyToParent)
  {
    round := RunRound(ins, cur, names[i], onlyToParent && i == |names| - 1);
  }

  /** The names loop; `declaredType` starts each round as null. */
  method RunNames(ins: Inspector, start: Node, names: seq<string>, onlyToParent: bool)
    returns (r: Result<Found, TraverseError>)
    requires ins.Valid()
    ensures r == WalkNames(ins, start, None, names, 0, onlyToParent)
  {
    var cur, declared := start, None;
    var loop := 0;
    while loop < |names|
      invariant loop <= |names|
      invariant WalkNames(ins, cur, declared, names, loop, onlyToParent) == WalkNames(ins, start, None, names, 0, onlyToParent)
    {
      var round := RunStep(ins, cur, declared, names, loop, onlyToParent);
      match round
      case Stop(f) => return Ok(f);
      case Fail(e) => return Err(e);
      case Continue(next, d) => cur, declared := next, d;
      loop := loop + 1;
    }
    r := Ok(Found(Some(cur), declared));
  }
}
