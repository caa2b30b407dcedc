/**
 * The read-only lookups of XmlUtils over an element's children and siblings,
 * and setMapAsAttributes.
 *
 * A Java `Element` reference that may be null is an `Option<Node>`; a sibling
 * is addressed by its position in its parent's child list, so "the element
 * itself" is an index into `siblings`.
 */
module XmlLookup {
  import opened Wrappers
  import opened Dom

  /** getLocalName: the local name, or the node name where the parser reports none. */
  function LocalName(n: Node): (r: string)
    ensures n.Element? && n.localName.Some? ==> r == n.localName.value
    ensures n.Element? && n.localName.None? ==> r == n.name
  {
    match n
    case Element(name, localName, _, _, _) => localName.GetOr(name)
    case Text(_) => "#text"
  }

  /** The child list of a node that may be absent; a text node has none. */
  function ChildNodes(e: Option<Node>): seq<Node>
  {
    if e.Some? && e.value.Element? then e.value.children else []
  }

  /** The first position at or after `from` whose node satisfies `p`. */
  function FirstFrom(s: seq<Node>, from: nat, p: Node -> bool): (r: Option<nat>)
    requires from <= |s|
    ensures r.Some? ==> from <= r.value < |s| && p(s[r.value])
    ensures r.Some? ==> forall j :: from <= j < r.value ==> !p(s[j])
    ensures r.None? ==> forall j :: from <= j < |s| ==> !p(s[j])
    decreases |s| - from
  {
    if from == |s| then None
    else if p(s[from]) then Some(from)
    else FirstFrom(s, from + 1, p)
  }

  predicate IsNamed(n: Node, name: string)
  {
    n.Element? && LocalName(n) == name
  }

  predicate HasAttr(n: Node, attribute: string)
  {
    n.Element? && HasAttribute(n, attribute)
  }

  /** What getChildWithAttributeValue compares: getAttribute yields "" for a missing attribute. */
  predicate HasAttrValue(n: Node, attribute: string, value: string)
  {
    n.Element? && GetAttribute(n, attribute) == value
  }

  /** Position of the first element child whose attribute equals `value`. */
  function IndexWithAttributeValue(s: seq<Node>, attribute: string, value: string): (r: Option<nat>)
    ensures r.Some? ==> r.value < |s| && HasAttrValue(s[r.value], attribute, value)
    ensures r.Some? ==> forall j :: 0 <= j < r.value ==> !HasAttrValue(s[j], attribute, value)
    ensures r.None? ==> forall j :: 0 <= j < |s| ==> !HasAttrValue(s[j], attribute, value)
  {
    FirstFrom(s, 0, n => HasAttrValue(n, attribute, value))
  }

  /** Position of the first element child that has the attribute at all. */
  function IndexWithAttribute(s: seq<Node>, attribute: string): (r: Option<nat>)
    ensures r.Some? ==> r.value < |s| && HasAttr(s[r.value], attribute)
    ensures r.Some? ==> forall j :: 0 <= j < r.value ==> !HasAttr(s[j], attribute)
    ensures r.None? ==> forall j :: 0 <= j < |s| ==> !HasAttr(s[j], attribute)
  {
    FirstFrom(s, 0, n => HasAttr(n, attribute))
  }

  /** Position of the first element child with the given local name. */
  function IndexNamed(s: seq<Node>, name: string): (r: Option<nat>)
    ensures r.Some? ==> r.value < |s| && IsNamed(s[r.value], name)
    ensures r.Some? ==> forall j :: 0 <= j < r.value ==> !IsNamed(s[j], name)
    ensures r.None? ==> forall j :: 0 <= j < |s| ==> !IsNamed(s[j], name)
  {
    FirstFrom(s, 0, n => IsNamed(n, name))
  }

  function At(s: seq<Node>, i: Option<nat>): Option<Node>
    requires i.Some? ==> i.value < |s|
  {
    if i.Some? then Some(s[i.value]) else None
  }

  /** getChildWithAttributeValue: the first element child, in document order, whose attribute equals `value`. */
  function GetChildWithAttributeValue(e: Option<Node>, attribute: string, value: string): (r: Option<Node>)
    ensures e.None? ==> r.None?
    ensures r.Some? ==> exists i :: 0 <= i < |ChildNodes(e)| && ChildNodes(e)[i] == r.value
                          && HasAttrValue(r.value, attribute, value)
                          && forall j :: 0 <= j < i ==> !HasAttrValue(ChildNodes(e)[j], attribute, value)
    ensures r.None? <==> forall j :: 0 <= j < |ChildNodes(e)| ==> !HasAttrValue(ChildNodes(e)[j], attribute, value)
  {
    var cs := ChildNodes(e);
    At(cs, IndexWithAttributeValue(cs, attribute, value))
  }

  /** getChildWithAttribute: the first element child that has the attribute. */
  function GetChildWithAttribute(e: Option<Node>, attribute: string): (r: Option<Node>)
    ensures e.None? ==> r.None?
    ensures r.Some? ==> exists i :: 0 <= i < |ChildNodes(e)| && ChildNodes(e)[i] == r.value
                          && HasAttr(r.value, attribute)
                          && forall j :: 0 <= j < i ==> !HasAttr(ChildNodes(e)[j], attribute)
    ensures r.None? <==> forall j :: 0 <= j < |ChildNodes(e)| ==> !HasAttr(ChildNodes(e)[j], attribute)
  {
    var cs := ChildNodes(e);
    At(cs, IndexWithAttribute(cs, attribute))
  }

  /**
   * getChildNamed: follows `names` one level at a time, each time taking the first
   * element child with that local name. No names at all yields null, as in the source.
   */
  function GetChildNamed(e: Option<Node>, names: seq<string>): (r: Option<Node>)
    ensures e.None? || names == [] ==> r.None?
    decreases |names|
  {
    if e.None? || names == [] then None
    else
      match At(ChildNodes(e), IndexNamed(ChildNodes(e), names[0]))
      case None => None
      case Some(child) => if |names| == 1 then Some(child) else GetChildNamed(Some(child), names[1..])
  }

  /** With one name, getChildNamed is the first element child of that local name. */
  lemma GetChildNamedOne(e: Node, name: string)
    ensures var r, cs := GetChildNamed(Some(e), [name]), ChildNodes(Some(e));
      && (r.None? <==> forall j :: 0 <= j < |cs| ==> !IsNamed(cs[j], name))
      && (r.Some? ==> exists i :: 0 <= i < |cs| && cs[i] == r.value && IsNamed(r.value, name)
                                  && forall j :: 0 <= j < i ==> !IsNamed(cs[j], name))
  {
  }

  /** A longer path is the shorter path followed by one more step; a missing step makes the rest null. */
  lemma {:induction false} GetChildNamedSnoc(e: Option<Node>, names: seq<string>, name: string)
    requires names != []
    ensures GetChildNamed(e, names + [name]) == GetChildNamed(GetChildNamed(e, names), [name])
    decreases |names|
  {
    if e.Some? {
      assert (names + [name])[0] == names[0];
      match At(ChildNodes(e), IndexNamed(ChildNodes(e), names[0]))
      case None =>
      case Some(child) =>
        if |names| > 1 {
          assert (names + [name])[1..] == names[1..] + [name];
          GetChildNamedSnoc(Some(child), names[1..], name);
        } else {
          assert (names + [name])[1..] == [name];
        }
    }
  }

  /** getFirstChildElement: position of the first child that is an element. */
  function FirstChildElement(parent: Node): (r: Option<nat>)
    requires parent.Element?
    ensures r.Some? ==> r.value < |parent.children| && parent.children[r.value].Element?
    ensures r.Some? ==> forall j :: 0 <= j < r.value ==> parent.children[j].Text?
    ensures r.None? ==> forall j :: 0 <= j < |parent.children| ==> parent.children[j].Text?
  {
    FirstFrom(parent.children, 0, (n: Node) => n.Element?)
  }

  /** getNextSiblingElement: the first element after position `at`. */
  function NextSiblingElement(siblings: seq<Node>, at: nat): (r: Option<nat>)
    requires at < |siblings|
    ensures r.Some? ==> at < r.value < |siblings| && siblings[r.value].Element?
    ensures r.Some? ==> forall j :: at < j < r.value ==> siblings[j].Text?
    ensures r.None? ==> forall j :: at < j < |siblings| ==> siblings[j].Text?
  {
    FirstFrom(siblings, at + 1, (n: Node) => n.Element?)
  }

  /**
   * getSiblingNamed: searches forward only, from the node after `at`, for an element
   * of that local name. A null element (`at` absent) yields null.
   */
  function GetSiblingNamed(siblings: seq<Node>, at: Option<nat>, name: string): (r: Option<nat>)
    requires at.Some? ==> at.value < |siblings|
    ensures at.None? ==> r.None?
    ensures r.Some? ==> at.Some? && at.value < r.value < |siblings| && IsNamed(siblings[r.value], name)
    ensures r.Some? ==> forall j :: at.value < j < r.value ==> !IsNamed(siblings[j], name)
    ensures at.Some? && r.None? ==> forall j :: at.value < j < |siblings| ==> !IsNamed(siblings[j], name)
  {
    if at.None? then None else FirstFrom(siblings, at.value + 1, n => IsNamed(n, name))
  }

  /** getSiblingWithAttribute: forward search for the next element that has the attribute. */
  function GetSiblingWithAttribute(siblings: seq<Node>, at: Option<nat>, attribute: string): (r: Option<nat>)
    requires at.Some? ==> at.value < |siblings|
    ensures at.None? ==> r.None?
    ensures r.Some? ==> at.Some? && at.value < r.value < |siblings| && HasAttr(siblings[r.value], attribute)
    ensures r.Some? ==> forall j :: at.value < j < r.value ==> !HasAttr(siblings[j], attribute)
    ensures at.Some? && r.None? ==> forall j :: at.value < j < |siblings| ==> !HasAttr(siblings[j], attribute)
  {
    if at.None? then None else FirstFrom(siblings, at.value + 1, n => HasAttr(n, attribute))
  }

  /**
   * The attribute map setMapAsAttributes promises: a null map changes nothing;
   * an entry with a null value removes that attribute; every other entry sets it;
   * attributes not named in the map keep their values.
   */
  function MapApplied(current: map<string, string>, attributes: Option<map<string, Option<string>>>): map<string, string>
  {
    match attributes
    case None => current
    case Some(a) =>
      map k | k in current.Keys + a.Keys && !(k in a && a[k].None?) ::
        if k in a then a[k].value else current[k]
  }

  /** The same, for the entries whose keys are in `done` only. */
  ghost function PartlyApplied(current: map<string, string>, a: map<string, Option<string>>, done: set<string>): map<string, string>
  {
    map k | k in current.Keys + (a.Keys * done) && !(k in done && k in a && a[k].None?) ::
      if k in done && k in a then a[k].value else current[k]
  }

  lemma PartlyAppliedNone(current: map<string, string>, a: map<string, Option<string>>)
    ensures PartlyApplied(current, a, {}) == current
  {
  }

  lemma PartlyAppliedAll(current: map<string, string>, a: map<string, Option<string>>)
    ensures PartlyApplied(current, a, a.Keys) == MapApplied(current, Some(a))
  {
  }

  /** Applying one more entry removes or overwrites exactly that key. */
  lemma PartlyAppliedStep(current: map<string, string>, a: map<string, Option<string>>, done: set<string>, key: string)
    requires key in a && key !in done
    ensures a[key].None? ==> PartlyApplied(current, a, done + {key}) == PartlyApplied(current, a, done) - {key}
    ensures a[key].Some? ==> PartlyApplied(current, a, done + {key}) == PartlyApplied(current, a, done)[key := a[key].value]
  {
    var before, after := PartlyApplied(current, a, done), PartlyApplied(current, a, done + {key});
    if a[key].None? {
      assert after.Keys == before.Keys - {key};
    } else {
      assert after.Keys == before.Keys + {key};
    }
  }

  /** setMapAsAttributes: writes the map's entries onto the element, one entry at a time. */
  method SetMapAsAttributes(e: Node, attributes: Option<map<string, Option<string>>>) returns (r: Node)
    requires e.Element? && DistinctNames(e.attrs)
    ensures r.Element? && DistinctNames(r.attrs)
    ensures r == e.(attrs := r.attrs)
    ensures AttrMap(r.attrs) == MapApplied(AttrMap(e.attrs), attributes)
  {
    r := e;
    if attributes.None? {
      return;
    }
    var a := attributes.value;
    var todo := a.Keys;
    ghost var done: set<string> := {};
    PartlyAppliedNone(AttrMap(e.attrs), a);
    while todo != {}
      invariant todo + done == a.Keys && todo !! done
      invariant r.Element? && DistinctNames(r.attrs) && r == e.(attrs := r.attrs)
      invariant AttrMap(r.attrs) == PartlyApplied(AttrMap(e.attrs), a, done)
      decreases todo
    {
      var key :| key in todo;
      var value := a[key];
      PartlyAppliedStep(AttrMap(e.attrs), a, done, key);
      if value.None? {
        r := RemoveAttribute(r, key);
      } else {
        r := SetAttribute(r, key, value.value);
      }
      todo := todo - {key};
      done := done + {key};
    }
    assert done == a.Keys;
    PartlyAppliedAll(AttrMap(e.attrs), a);
  }
}
