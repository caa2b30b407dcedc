/**
 * The part of the W3C DOM that the XML utilities work on, as values.
 *
 * An element carries its qualified node name, the local name the parser
 * reports (absent on some platforms), its namespace URI, its attributes in
 * the order of its NamedNodeMap and its child nodes in document order.
 * `AttrMap` is the view that getAttribute/hasAttribute present.
 */
module Dom {
  import opened Wrappers

  datatype Attr = Attr(name: string, value: string)

  datatype Node =
    | Element(name: string, localName: Option<string>, namespace: Option<string>,
              attrs: seq<Attr>, children: seq<Node>)
    | Text(text: string)

  /** The name-to-value view of an attribute list; a later entry wins. */
  function AttrMap(attrs: seq<Attr>): map<string, string>
  {
    if attrs == [] then map[]
    else AttrMap(attrs[..|attrs| - 1])[attrs[|attrs| - 1].name := attrs[|attrs| - 1].value]
  }

  /** The DOM never holds two attributes of the same name on one element. */
  predicate DistinctNames(attrs: seq<Attr>)
  {
    forall i, j :: 0 <= i < j < |attrs| ==> attrs[i].name != attrs[j].name
  }

  /** Every element of the tree has distinct attribute names. */
  predicate WellFormed(n: Node)
  {
    match n
    case Text(_) => true
    case Element(_, _, _, attrs, children) =>
      DistinctNames(attrs) && forall i :: 0 <= i < |children| ==> WellFormed(children[i])
  }

  /** Element.hasAttribute; a text node has no attributes. */
  predicate HasAttribute(n: Node, name: string)
  {
    n.Element? && name in AttrMap(n.attrs)
  }

  /** Element.getAttribute: the value, or the empty string when there is no such attribute. */
  function GetAttribute(n: Node, name: string): (v: string)
    ensures !HasAttribute(n, name) ==> v == ""
    ensures HasAttribute(n, name) ==> v == AttrMap(n.attrs)[name]
    ensures n.Element? && DistinctNames(n.attrs) ==>
              forall i :: 0 <= i < |n.attrs| && n.attrs[i].name == name ==> v == n.attrs[i].value
    ensures n.Text? || (forall i :: 0 <= i < |n.attrs| ==> n.attrs[i].name != name) ==> v == ""
  {
    if n.Element? then
      AttrMapKeys(n.attrs, name);
      AttrMapEntries(n.attrs);
      if HasAttribute(n, name) then AttrMap(n.attrs)[name] else ""
    else ""
  }

  /** With distinct names, each entry's value is what the view gives for its name. */
  lemma {:induction false} AttrMapEntries(attrs: seq<Attr>)
    ensures DistinctNames(attrs) ==>
              forall i :: 0 <= i < |attrs| ==> attrs[i].name in AttrMap(attrs) && AttrMap(attrs)[attrs[i].name] == attrs[i].value
    decreases |attrs|
  {
    if attrs != [] && DistinctNames(attrs) {
      var init := attrs[..|attrs| - 1];
      assert DistinctNames(init);
      AttrMapEntries(init);
      forall i | 0 <= i < |attrs| - 1
        ensures attrs[i].name in AttrMap(attrs) && AttrMap(attrs)[attrs[i].name] == attrs[i].value
      {
        assert init[i] == attrs[i];
      }
    }
  }

  /** Document.createElementNS for an unprefixed name. */
  function NewElement(namespace: string, name: string): (e: Node)
    ensures e.Element? && e.name == name && e.attrs == [] && e.children == []
    ensures WellFormed(e)
  {
    Element(name, Some(name), Some(namespace), [], [])
  }

  lemma {:induction false} AttrMapConcat(s: seq<Attr>, t: seq<Attr>)
    ensures AttrMap(s + t) == AttrMap(s) + AttrMap(t)
    decreases |t|
  {
    if t == [] {
      assert s + t == s;
    } else {
      var t' := t[..|t| - 1];
      assert (s + t)[..|s + t| - 1] == s + t';
      assert (s + t)[|s + t| - 1] == t[|t| - 1];
      AttrMapConcat(s, t');
    }
  }

  lemma AttrMapSingle(a: Attr)
    ensures AttrMap([a]) == map[a.name := a.value]
  {
    assert [a][..0] == [];
  }

  /** A name is a key of the view exactly when some entry carries it. */
  lemma {:induction false} AttrMapKeys(attrs: seq<Attr>, name: string)
    ensures name in AttrMap(attrs) <==> exists i :: 0 <= i < |attrs| && attrs[i].name == name
    decreases |attrs|
  {
    if attrs != [] {
      var init := attrs[..|attrs| - 1];
      AttrMapKeys(init, name);
      if name in AttrMap(init) {
        var i :| 0 <= i < |init| && init[i].name == name;
        assert attrs[i].name == name;
      }
      if i :| 0 <= i < |attrs| && attrs[i].name == name {
        if i < |attrs| - 1 {
          assert init[i].name == name;
        }
      }
    }
  }

  /** A name missing from every entry is not a key of the view. */
  lemma NotInAttrMap(attrs: seq<Attr>, name: string)
    requires forall i :: 0 <= i < |attrs| ==> attrs[i].name != name
    ensures name !in AttrMap(attrs)
  {
    AttrMapKeys(attrs, name);
  }

  /** The position of the attribute called `name`, if there is one. */
  function IndexOfName(attrs: seq<Attr>, name: string): (r: Option<nat>)
    ensures r.Some? ==> r.value < |attrs| && attrs[r.value].name == name
    ensures r.None? ==> forall i :: 0 <= i < |attrs| ==> attrs[i].name != name
    decreases |attrs|
  {
    if attrs == [] then None
    else if attrs[|attrs| - 1].name == name then Some(|attrs| - 1)
    else IndexOfName(attrs[..|attrs| - 1], name)
  }

  /** Overwriting the value of the entry at `i` overwrites that name in the view. */
  lemma AttrMapUpdateAt(attrs: seq<Attr>, i: nat, value: string)
    requires DistinctNames(attrs) && i < |attrs|
    ensures AttrMap(attrs[i := Attr(attrs[i].name, value)]) == AttrMap(attrs)[attrs[i].name := value]
  {
    var n := attrs[i].name;
    var pre, post := attrs[..i], attrs[i + 1..];
    assert attrs == pre + [attrs[i]] + post;
    assert attrs[i := Attr(n, value)] == pre + [Attr(n, value)] + post;
    NotInAttrMap(post, n);
    AttrMapConcat(pre + [attrs[i]], post);
    AttrMapConcat(pre + [Attr(n, value)], post);
    AttrMapConcat(pre, [attrs[i]]);
    AttrMapConcat(pre, [Attr(n, value)]);
    AttrMapSingle(attrs[i]);
    AttrMapSingle(Attr(n, value));
  }

  /** Element.setAttribute on the attribute list: an existing attribute keeps its place, a new one goes last. */
  function SetAttr(attrs: seq<Attr>, name: string, value: string): (r: seq<Attr>)
    requires DistinctNames(attrs)
    ensures DistinctNames(r)
    ensures AttrMap(r) == AttrMap(attrs)[name := value]
    ensures name in AttrMap(attrs) ==> |r| == |attrs|
    ensures name !in AttrMap(attrs) ==> r == attrs + [Attr(name, value)]
  {
    match IndexOfName(attrs, name)
    case Some(i) =>
      AttrMapUpdateAt(attrs, i, value);
      AttrMapKeys(attrs, name);
      attrs[i := Attr(name, value)]
    case None =>
      NotInAttrMap(attrs, name);
      assert (attrs + [Attr(name, value)])[..|attrs|] == attrs;
      attrs + [Attr(name, value)]
  }

  /** Element.removeAttribute on the attribute list: the others keep their order. */
  function RemoveAttr(attrs: seq<Attr>, name: string): (r: seq<Attr>)
    requires DistinctNames(attrs)
    ensures DistinctNames(r)
    ensures AttrMap(r) == AttrMap(attrs) - {name}
    ensures forall a :: a in r ==> a in attrs
    decreases |attrs|
  {
    if attrs == [] then []
    else
      var init, last := attrs[..|attrs| - 1], attrs[|attrs| - 1];
      assert DistinctNames(init);
      var front := RemoveAttr(init, name);
      if last.name == name then
        assert forall a :: a in init ==> a in attrs;
        front
      else
        RemoveAttrStep(init, last, front, name);
        front + [last]
  }

  lemma RemoveAttrStep(init: seq<Attr>, last: Attr, front: seq<Attr>, name: string)
    requires DistinctNames(init + [last]) && DistinctNames(front) && last.name != name
    requires AttrMap(front) == AttrMap(init) - {name}
    requires forall a :: a in front ==> a in init
    ensures DistinctNames(front + [last])
    ensures AttrMap(front + [last]) == AttrMap(init + [last]) - {name}
    ensures forall a :: a in front + [last] ==> a in init + [last]
  {
    LastNameFresh(init, last, front);
    DistinctSnoc(front, last);
    AttrMapSnoc(front, last);
    AttrMapSnoc(init, last);
    RemoveThenSet(AttrMap(init), name, last.name, last.value);
  }

  lemma RemoveThenSet(m: map<string, string>, name: string, k: string, v: string)
    requires k != name
    ensures (m - {name})[k := v] == m[k := v] - {name}
  {
  }

  /** No attribute taken from `init` shares its name with the attribute after `init`. */
  lemma LastNameFresh(init: seq<Attr>, last: Attr, front: seq<Attr>)
    requires DistinctNames(init + [last])
    requires forall a :: a in front ==> a in init
    ensures forall i :: 0 <= i < |front| ==> front[i].name != last.name
  {
    var attrs := init + [last];
    forall i | 0 <= i < |front| ensures front[i].name != last.name {
      assert front[i] in init;
      var j :| 0 <= j < |init| && init[j] == front[i];
      assert attrs[j] == init[j] && attrs[|init|] == last;
    }
  }

  lemma DistinctSnoc(front: seq<Attr>, last: Attr)
    requires DistinctNames(front)
    requires forall i :: 0 <= i < |front| ==> front[i].name != last.name
    ensures DistinctNames(front + [last])
  {
    var r := front + [last];
    forall i, j | 0 <= i < j < |r| ensures r[i].name != r[j].name {
      if j < |front| {
        assert r[i] == front[i] && r[j] == front[j];
      } else {
        assert r[i] == front[i] && r[j] == last;
      }
    }
  }

  lemma AttrMapSnoc(s: seq<Attr>, last: Attr)
    ensures AttrMap(s + [last]) == AttrMap(s)[last.name := last.value]
  {
    assert (s + [last])[..|s|] == s;
  }

  /** Element.setAttribute. */
  function SetAttribute(e: Node, name: string, value: string): (r: Node)
    requires e.Element? && DistinctNames(e.attrs)
    ensures r.Element? && DistinctNames(r.attrs)
    ensures r == e.(attrs := r.attrs)
    ensures AttrMap(r.attrs) == AttrMap(e.attrs)[name := value]
  {
    e.(attrs := SetAttr(e.attrs, name, value))
  }

  /** Element.removeAttribute. */
  function RemoveAttribute(e: Node, name: string): (r: Node)
    requires e.Element? && DistinctNames(e.attrs)
    ensures r.Element? && DistinctNames(r.attrs)
    ensures r == e.(attrs := r.attrs)
    ensures AttrMap(r.attrs) == AttrMap(e.attrs) - {name}
  {
    e.(attrs := RemoveAttr(e.attrs, name))
  }
}
