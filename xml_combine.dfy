/**
 * XmlUtils.combineElements: merges the attributes and the child elements of
 * `toAdd` into `master`, matching children on a "combine" attribute.
 *
 * The source changes `master` in place; here the method returns the combined
 * element. An exception becomes `Err`. The child list is walked exactly as the
 * source walks the live NodeList: each child of `toAdd` is looked up among the
 * CURRENT children of master, and the last combine point is tracked as a
 * position in that list.
 */
module XmlCombine {
  import opened Wrappers
  import opened Dom
  import opened XmlLookup

  /** The three RuntimeExceptions combineElements throws. */
  datatype CombineError =
    | MissingCombineAttribute(childNumber: nat, attribute: string)
    | DuplicateCombineValue(attribute: string, value: string)
    | NodeNameMismatch(value: string, existing: string, added: string)

  /** The element children of a child list, in order. */
  function Elements(s: seq<Node>): (r: seq<Node>)
    ensures forall x :: x in r <==> x in s && x.Element?
    decreases |s|
  {
    if s == [] then []
    else
      var init, last := s[..|s| - 1], s[|s| - 1];
      assert s == init + [last];
      Elements(init) + if last.Element? then [last] else []
  }

  /** The combine values carried by the element children of `s`. */
  function KeysOf(s: seq<Node>, top: string): set<string>
  {
    set t | 0 <= t < |s| && s[t].Element? :: GetAttribute(s[t], top)
  }

  /**
   * The error rules of combineElements, checked over the first `n` children of
   * `toAdd`: each element child has a non-empty combine value, no two share
   * one, and each can be combined with the master child it matches.
   */
  predicate PrefixCombinable(master: Node, toAdd: Node, n: nat, top: string, child: string)
    requires master.Element? && toAdd.Element? && n <= |toAdd.children|
    decreases toAdd, 0
  {
    var cs := toAdd.children;
    && (forall t :: 0 <= t < n && cs[t].Element? ==> GetAttribute(cs[t], top) != "")
    && (forall s, t :: 0 <= s < t < n && cs[s].Element? && cs[t].Element? ==>
          GetAttribute(cs[s], top) != GetAttribute(cs[t], top))
    && (forall t :: 0 <= t < n && cs[t].Element? ==> PairCombinable(master, cs[t], top, child))
  }

  /** combineElements succeeds exactly when this holds. */
  predicate Combinable(master: Node, toAdd: Node, top: string, child: string)
    requires master.Element? && toAdd.Element?
    decreases toAdd, 1
  {
    PrefixCombinable(master, toAdd, |toAdd.children|, top, child)
  }

  /**
   * A child of `toAdd` with no matching master child is always fine; one that
   * matches must have the same node name and combine recursively on the child
   * attribute.
   */
  predicate PairCombinable(master: Node, c: Node, top: string, child: string)
    requires master.Element? && c.Element?
    decreases c, 2
  {
    match IndexWithAttributeValue(master.children, top, GetAttribute(c, top))
    case None => true
    case Some(j) => master.children[j].name == c.name && Combinable(master.children[j], c, child, child)
  }

  /**
   * The child of toAdd (among its first `n`) that master child `i` is combined
   * with: only the first master child carrying a combine value takes part.
   */
  function Partner(master: Node, toAdd: Node, n: nat, top: string, i: nat): (r: Option<nat>)
    requires master.Element? && toAdd.Element? && n <= |toAdd.children| && i < |master.children|
    ensures r.Some? ==> r.value < n && toAdd.children[r.value].Element?
    ensures r.Some? ==> GetAttribute(toAdd.children[r.value], top) == GetAttribute(master.children[i], top)
  {
    var mc := master.children[i];
    if mc.Element? && IndexWithAttributeValue(master.children, top, GetAttribute(mc, top)) == Some(i) then
      var r := IndexWithAttributeValue(toAdd.children[..n], top, GetAttribute(mc, top));
      assert r.Some? ==> toAdd.children[..n][r.value] == toAdd.children[r.value];
      r
    else None
  }

  /** A child of toAdd that no master child matches. */
  predicate Unmatched(master: Node, top: string, c: Node)
    requires master.Element?
  {
    c.Element? && IndexWithAttributeValue(master.children, top, GetAttribute(c, top)).None?
  }

  /** What master child `i` has become: itself, or combined with its partner. */
  ghost predicate KeptOrMerged(master: Node, toAdd: Node, n: nat, top: string, child: string, i: nat, x: Node)
    requires master.Element? && toAdd.Element? && n <= |toAdd.children| && i < |master.children|
    decreases toAdd, 0
  {
    match Partner(master, toAdd, n, top, i)
    case None => x == master.children[i]
    case Some(t) => master.children[i].Element? && Merged(master.children[i], toAdd.children[t], child, child, x)
  }

  /**
   * `cs` is master's child list after the first `n` children of toAdd have been
   * processed: master's own children sit at the increasing positions `pos`, each
   * kept or combined; every other position `j` holds child `src[j]` of toAdd
   * verbatim, which matched nothing; and these positions correspond one to one
   * with the unmatched children of toAdd so far, so each of them is added
   * exactly once.
   */
  ghost predicate Embeds(master: Node, toAdd: Node, n: nat, top: string, child: string,
                         cs: seq<Node>, pos: seq<nat>, src: seq<nat>)
    requires master.Element? && toAdd.Element? && n <= |toAdd.children|
    decreases toAdd, 1
  {
    && |pos| == |master.children|
    && |src| == |cs|
    && (forall i :: 0 <= i < |pos| ==> pos[i] < |cs|)
    && (forall i, i' :: 0 <= i < i' < |pos| ==> pos[i] < pos[i'])
    && (forall i :: 0 <= i < |pos| ==> KeptOrMerged(master, toAdd, n, top, child, i, cs[pos[i]]))
    && (forall j :: 0 <= j < |cs| && j !in pos ==>
          src[j] < n && cs[j] == toAdd.children[src[j]] && Unmatched(master, top, cs[j]))
    && (forall j, j' :: 0 <= j < j' < |cs| && j !in pos && j' !in pos ==> src[j] != src[j'])
    && (forall t :: 0 <= t < n && Unmatched(master, top, toAdd.children[t]) ==>
          exists j :: 0 <= j < |cs| && j !in pos && src[j] == t)
  }

  /**
   * The outcome of a successful combineElements(master, toAdd, top, child):
   * master's name and namespace, master's attributes overwritten by toAdd's,
   * master's children in their order (each kept, or combined on `child` with
   * the toAdd child of the same combine value), and the unmatched element
   * children of toAdd added.
   */
  ghost predicate Merged(master: Node, toAdd: Node, top: string, child: string, m: Node)
    requires master.Element? && toAdd.Element?
    decreases toAdd, 2
  {
    && m.Element? && m.name == master.name && m.localName == master.localName && m.namespace == master.namespace
    && WellFormed(m)
    && AttrMap(m.attrs) == AttrMap(master.attrs) + AttrMap(toAdd.attrs)
    && exists pos, src :: Embeds(master, toAdd, |toAdd.children|, top, child, m.children, pos, src)
  }

  /** No element child of toAdd matches any child of master. */
  predicate NoMatches(master: Node, toAdd: Node, top: string)
    requires master.Element? && toAdd.Element?
  {
    forall t :: 0 <= t < |toAdd.children| && toAdd.children[t].Element? ==> Unmatched(master, top, toAdd.children[t])
  }

  /**
   * The attribute half of combineElements: every attribute of toAdd is set on
   * master (an empty one is removed first and then set again).
   */
  method MergeAttributes(master: Node, toAdd: Node) returns (m: Node)
    requires master.Element? && DistinctNames(master.attrs) && toAdd.Element?
    ensures m.Element? && DistinctNames(m.attrs) && m == master.(attrs := m.attrs)
    ensures AttrMap(m.attrs) == AttrMap(master.attrs) + AttrMap(toAdd.attrs)
  {
    m := master;
    var k := 0;
    while k < |toAdd.attrs|
      invariant k <= |toAdd.attrs|
      invariant m.Element? && DistinctNames(m.attrs) && m == master.(attrs := m.attrs)
      invariant AttrMap(m.attrs) == AttrMap(master.attrs) + AttrMap(toAdd.attrs[..k])
    {
      var a := toAdd.attrs[k];
      ghost var before := AttrMap(m.attrs);
      if a.value == "" {
        m := RemoveAttribute(m, a.name);
      }
      m := SetAttribute(m, a.name, a.value);
      OverwriteStep(AttrMap(master.attrs), toAdd.attrs, k, before);
      assert AttrMap(m.attrs) == before[a.name := a.value] by {
        if a.value == "" {
          assert AttrMap(m.attrs) == (before - {a.name})[a.name := a.value];
        }
      }
      k := k + 1;
    }
    assert toAdd.attrs[..k] == toAdd.attrs;
  }

  /** Setting the next attribute of toAdd extends the overwritten view by that attribute. */
  lemma OverwriteStep(base: map<string, string>, attrs: seq<Attr>, k: nat, cur: map<string, string>)
    requires k < |attrs| && cur == base + AttrMap(attrs[..k])
    ensures (cur - {attrs[k].name})[attrs[k].name := attrs[k].value] == base + AttrMap(attrs[..k + 1])
    ensures cur[attrs[k].name := attrs[k].value] == base + AttrMap(attrs[..k + 1])
  {
    assert attrs[..k + 1][..k] == attrs[..k];
  }

  /**
   * The state of master's child list during the outer loop: the live children,
   * the combine values seen so far (childNamesAdded) and the last combine point.
   */
  datatype Progress = Progress(children: seq<Node>, added: set<string>, point: Option<nat>)

  /**
   * The outer loop's invariant after the first `n` children of toAdd: they obey
   * the error rules, `added` holds their combine values, master's children are
   * embedded at `pos`, and, while nothing has matched, the elements of toAdd have
   * simply been appended.
   */
  ghost predicate Invariant(master: Node, toAdd: Node, n: nat, top: string, child: string,
                            p: Progress, pos: seq<nat>, src: seq<nat>, anyMatched: bool)
    requires master.Element? && toAdd.Element?
  {
    && n <= |toAdd.children|
    && PrefixCombinable(master, toAdd, n, top, child)
    && p.added == KeysOf(toAdd.children[..n], top)
    && Embeds(master, toAdd, n, top, child, p.children, pos, src)
    && (forall j :: 0 <= j < |p.children| ==> WellFormed(p.children[j]))
    && (p.point.Some? ==> p.point.value < |p.children|)
    && (!anyMatched ==> p.point.None? && p.children == master.children + Elements(toAdd.children[..n]))
    && (anyMatched ==> !NoMatches(master, toAdd, top))
  }

  /** combineElements. */
  method CombineElements(master: Node, toAdd: Node, top: string, child: string) returns (r: Result<Node, CombineError>)
    requires master.Element? && toAdd.Element? && WellFormed(master) && WellFormed(toAdd)
    ensures r.Ok? <==> Combinable(master, toAdd, top, child)
    ensures r.Ok? ==> Merged(master, toAdd, top, child, r.value)
    ensures r.Ok? && NoMatches(master, toAdd, top) ==> r.value.children == master.children + Elements(toAdd.children)
    decreases toAdd, 1
  {
    var m := MergeAttributes(master, toAdd);
    var p := Progress(m.children, {}, None);
    var n := 0;
    ghost var pos: seq<nat> := seq(|master.children|, i => i);
    ghost var src: seq<nat> := seq(|master.children|, i => 0);
    ghost var anyMatched := false;
    EmbedsStart(master, toAdd, top, child);
    assert toAdd.children[..0] == [];
    while n < |toAdd.children|
      invariant Invariant(master, toAdd, n, top, child, p, pos, src, anyMatched)
    {
      var next;
      next, pos, src, anyMatched := CombineChild(master, toAdd, n, top, child, p, pos, src, anyMatched);
      if next.Err? {
        return Err(next.error);
      }
      p := next.value;
      n := n + 1;
    }
    assert toAdd.children[..n] == toAdd.children;
    r := Ok(m.(children := p.children));
    assert Embeds(master, toAdd, |toAdd.children|, top, child, r.value.children, pos, src);
  }

  /**
   * One pass of combineElements' outer loop: child `n` of toAdd is skipped (not
   * an element), rejected, combined into the first current master child with the
   * same combine value, or inserted after the last combine point (appended when
   * there is none).
   */
  method CombineChild(master: Node, toAdd: Node, n: nat, top: string, child: string,
                      p: Progress, ghost pos: seq<nat>, ghost src: seq<nat>, ghost anyMatched: bool)
    returns (r: Result<Progress, CombineError>, ghost pos': seq<nat>, ghost src': seq<nat>, ghost anyMatched': bool)
    requires master.Element? && toAdd.Element? && WellFormed(toAdd) && n < |toAdd.children|
    requires Invariant(master, toAdd, n, top, child, p, pos, src, anyMatched)
    ensures r.Err? ==> !Combinable(master, toAdd, top, child)
    ensures r.Ok? ==> Invariant(master, toAdd, n + 1, top, child, r.value, pos', src', anyMatched')
    decreases toAdd, 0
  {
    var cs, c := p.children, toAdd.children[n];
    pos', src', anyMatched' := pos, src, anyMatched;
    if !c.Element? {
      InvariantSkip(master, toAdd, n, top, child, p, pos, src, anyMatched);
      r := Ok(p);
      return;
    }
    var key := GetAttribute(c, top);
    if key == "" || key in p.added {
      NotCombinableAt(master, toAdd, n, top, child);
      r := if key == "" then Err(MissingCombineAttribute(n + 1, top)) else Err(DuplicateCombineValue(top, key));
      return;
    }
    CurrentMatch(master, toAdd, n, top, child, cs, pos, src, key);
    var found := IndexWithAttributeValue(cs, top, key);
    if found.Some? {
      var j := found.value;
      if cs[j].name != c.name {
        NotCombinableAt(master, toAdd, n, top, child);
        r := Err(NodeNameMismatch(key, cs[j].name, c.name));
        return;
      }
      var sub := CombineElements(cs[j], c, child, child);
      if sub.Err? {
        NotCombinableAt(master, toAdd, n, top, child);
        r := Err(sub.error);
        return;
      }
      InvariantMatched(master, toAdd, n, top, child, p, pos, src, anyMatched, j, sub.value);
      anyMatched' := true;
      r := Ok(Progress(cs[j := sub.value], p.added + {key}, if j == |cs| - 1 then None else Some(j)));
      return;
    }
    var q := if p.point.Some? then p.point.value + 1 else |cs|;
    InvariantInserted(master, toAdd, n, top, child, p, pos, src, anyMatched, q);
    pos', src' := Shift(pos, q), src[..q] + [n] + src[q..];
    r := Ok(Progress(cs[..q] + [c] + cs[q..], p.added + {key}, if p.point.Some? then Some(q) else None));
  }

  lemma InvariantSkip(master: Node, toAdd: Node, n: nat, top: string, child: string,
                      p: Progress, pos: seq<nat>, src: seq<nat>, anyMatched: bool)
    requires master.Element? && toAdd.Element? && n < |toAdd.children| && !toAdd.children[n].Element?
    requires Invariant(master, toAdd, n, top, child, p, pos, src, anyMatched)
    ensures Invariant(master, toAdd, n + 1, top, child, p, pos, src, anyMatched)
  {
    ElementsSnoc(toAdd.children, n);
    KeysOfSnoc(toAdd.children, n, top);
    StepSkip(master, toAdd, n, top, child, p.children, pos, src);
    PrefixSkip(master, toAdd, n, top, child);
  }

  lemma InvariantMatched(master: Node, toAdd: Node, n: nat, top: string, child: string,
                         p: Progress, pos: seq<nat>, src: seq<nat>, anyMatched: bool, j: nat, merged: Node)
    requires master.Element? && toAdd.Element? && n < |toAdd.children| && toAdd.children[n].Element?
    requires Invariant(master, toAdd, n, top, child, p, pos, src, anyMatched)
    requires var c, key := toAdd.children[n], GetAttribute(toAdd.children[n], top);
      && key != "" && key !in p.added
      && IndexWithAttributeValue(p.children, top, key) == Some(j)
      && IndexWithAttributeValue(master.children, top, key).Some?
      && var i0 := IndexWithAttributeValue(master.children, top, key).value;
      && j == pos[i0] && p.children[j] == master.children[i0]
      && master.children[i0].name == c.name
      && Combinable(master.children[i0], c, child, child)
      && Merged(master.children[i0], c, child, child, merged)
    ensures var key := GetAttribute(toAdd.children[n], top);
      Invariant(master, toAdd, n + 1, top, child,
                Progress(p.children[j := merged], p.added + {key}, if j == |p.children| - 1 then None else Some(j)), pos, src, true)
  {
    var cs, c, key := p.children, toAdd.children[n], GetAttribute(toAdd.children[n], top);
    var i0 := IndexWithAttributeValue(master.children, top, key).value;
    KeysOfSnoc(toAdd.children, n, top);
    PrefixExtend(master, toAdd, n, top, child);
    StepMatched(master, toAdd, n, top, child, cs, pos, src, i0, merged);
    assert WellFormed(merged);
    WellFormedUpdate(cs, j, merged, cs[j := merged]);
    assert !Unmatched(master, top, toAdd.children[n]);
  }

  lemma InvariantInserted(master: Node, toAdd: Node, n: nat, top: string, child: string,
                          p: Progress, pos: seq<nat>, src: seq<nat>, anyMatched: bool, q: nat)
    requires master.Element? && toAdd.Element? && WellFormed(toAdd) && n < |toAdd.children| && toAdd.children[n].Element?
    requires Invariant(master, toAdd, n, top, child, p, pos, src, anyMatched)
    requires var key := GetAttribute(toAdd.children[n], top);
      && key != "" && key !in p.added
      && IndexWithAttributeValue(master.children, top, key).None?
    requires q == if p.point.Some? then p.point.value + 1 else |p.children|
    ensures var c, cs := toAdd.children[n], p.children;
      Invariant(master, toAdd, n + 1, top, child,
                Progress(cs[..q] + [c] + cs[q..], p.added + {GetAttribute(c, top)}, if p.point.Some? then Some(q) else None),
                Shift(pos, q), src[..q] + [n] + src[q..], anyMatched)
  {
    var cs, c := p.children, toAdd.children[n];
    var cs' := cs[..q] + [c] + cs[q..];
    var p' := Progress(cs', p.added + {GetAttribute(c, top)}, if p.point.Some? then Some(q) else None);
    KeysOfSnoc(toAdd.children, n, top);
    PrefixExtend(master, toAdd, n, top, child);
    StepInserted(master, toAdd, n, top, child, cs, pos, src, q);
    assert WellFormed(c);
    WellFormedInsert(cs, q, c);
    AppendedWhileUnmatched(master, toAdd, n, p, anyMatched, q);
  }

  /** While nothing has matched, there is no combine point and an unmatched child is appended. */
  lemma AppendedWhileUnmatched(master: Node, toAdd: Node, n: nat, p: Progress, anyMatched: bool, q: nat)
    requires master.Element? && toAdd.Element? && n < |toAdd.children| && toAdd.children[n].Element?
    requires !anyMatched ==> p.point.None? && p.children == master.children + Elements(toAdd.children[..n])
    requires q == if p.point.Some? then p.point.value + 1 else |p.children|
    ensures !anyMatched ==> p.children[..q] + [toAdd.children[n]] + p.children[q..]
                            == master.children + Elements(toAdd.children[..n + 1])
  {
    ElementsSnoc(toAdd.children, n);
    if !anyMatched {
      assert p.children[..q] + [toAdd.children[n]] + p.children[q..] == p.children + [toAdd.children[n]];
    }
  }

  /** Replacing a node of a well-formed list by a well-formed node keeps the list well formed. */
  lemma WellFormedUpdate(s: seq<Node>, j: nat, x: Node, s': seq<Node>)
    requires j < |s| && s' == s[j := x] && WellFormed(x) && forall i :: 0 <= i < |s| ==> WellFormed(s[i])
    ensures forall i :: 0 <= i < |s'| ==> WellFormed(s'[i])
  {
  }

  /** Inserting a well-formed node into a well-formed list keeps the list well formed. */
  lemma WellFormedInsert(s: seq<Node>, q: nat, x: Node)
    requires q <= |s| && WellFormed(x) && forall i :: 0 <= i < |s| ==> WellFormed(s[i])
    ensures var s' := s[..q] + [x] + s[q..]; forall i :: 0 <= i < |s'| ==> WellFormed(s'[i])
  {
    var s' := s[..q] + [x] + s[q..];
    forall i | 0 <= i < |s'| ensures WellFormed(s'[i]) {
      if i < q { assert s'[i] == s[i]; } else if i > q { assert s'[i] == s[i - 1]; }
    }
  }

  lemma ElementsSnoc(s: seq<Node>, n: nat)
    requires n < |s|
    ensures Elements(s[..n + 1]) == Elements(s[..n]) + if s[n].Element? then [s[n]] else []
  {
    assert s[..n + 1][..n] == s[..n];
  }

  lemma PrefixSkip(master: Node, toAdd: Node, n: nat, top: string, child: string)
    requires master.Element? && toAdd.Element? && n < |toAdd.children| && !toAdd.children[n].Element?
    requires PrefixCombinable(master, toAdd, n, top, child)
    ensures PrefixCombinable(master, toAdd, n + 1, top, child)
  {
  }

  /** Child n passes all three rules, so the rules hold for one more child. */
  lemma PrefixExtend(master: Node, toAdd: Node, n: nat, top: string, child: string)
    requires master.Element? && toAdd.Element? && n < |toAdd.children| && toAdd.children[n].Element?
    requires PrefixCombinable(master, toAdd, n, top, child)
    requires GetAttribute(toAdd.children[n], top) != ""
    requires GetAttribute(toAdd.children[n], top) !in KeysOf(toAdd.children[..n], top)
    requires PairCombinable(master, toAdd.children[n], top, child)
    ensures PrefixCombinable(master, toAdd, n + 1, top, child)
  {
    var cs := toAdd.children;
    forall s | 0 <= s < n && cs[s].Element?
      ensures GetAttribute(cs[s], top) != GetAttribute(cs[n], top)
    {
      assert cs[..n][s] == cs[s];
    }
  }

  /** Child n breaks one of the three rules, so combineElements fails. */
  lemma NotCombinableAt(master: Node, toAdd: Node, n: nat, top: string, child: string)
    requires master.Element? && toAdd.Element? && n < |toAdd.children| && toAdd.children[n].Element?
    requires var c := toAdd.children[n];
      || GetAttribute(c, top) == ""
      || GetAttribute(c, top) in KeysOf(toAdd.children[..n], top)
      || !PairCombinable(master, c, top, child)
    ensures !Combinable(master, toAdd, top, child)
  {
    var cs, c := toAdd.children, toAdd.children[n];
    if GetAttribute(c, top) in KeysOf(cs[..n], top) {
      var s :| 0 <= s < n && cs[..n][s].Element? && GetAttribute(cs[..n][s], top) == GetAttribute(c, top);
      assert cs[..n][s] == cs[s];
    }
  }

  /** Master's positions after an insertion at `q`. */
  ghost function Shift(pos: seq<nat>, q: nat): (r: seq<nat>)
    ensures |r| == |pos|
    ensures forall i :: 0 <= i < |pos| ==> r[i] == if pos[i] < q then pos[i] else pos[i] + 1
  {
    seq(|pos|, i requires 0 <= i < |pos| => if pos[i] < q then pos[i] else pos[i] + 1)
  }

  /**
   * After an insertion at `q`, the positions Shift(pos, q) holds are those pos
   * held, moved up past `q`; `q` itself is not one of them.
   */
  lemma ShiftHits(pos: seq<nat>, q: nat, j: nat)
    ensures q !in Shift(pos, q)
    ensures j < q ==> (j in Shift(pos, q) <==> j in pos)
    ensures j > q ==> (j in Shift(pos, q) <==> j - 1 in pos)
  {
    var pos' := Shift(pos, q);
    if j < q && j in pos {
      var i :| 0 <= i < |pos| && pos[i] == j;
      assert pos'[i] == j;
    }
    if j > q && j - 1 in pos {
      var i :| 0 <= i < |pos| && pos[i] == j - 1;
      assert pos'[i] == j;
    }
  }

  lemma KeysOfSnoc(s: seq<Node>, n: nat, top: string)
    requires n < |s|
    ensures KeysOf(s[..n + 1], top) == KeysOf(s[..n], top) + if s[n].Element? then {GetAttribute(s[n], top)} else {}
  {
    var p, p' := s[..n], s[..n + 1];
    var l, r := KeysOf(p', top), KeysOf(p, top) + if s[n].Element? then {GetAttribute(s[n], top)} else {};
    forall k | k in l ensures k in r {
      var t :| 0 <= t < |p'| && p'[t].Element? && GetAttribute(p'[t], top) == k;
      if t < n {
        assert p[t] == p'[t];
      }
    }
    forall k | k in r ensures k in l {
      if k in KeysOf(p, top) {
        var t :| 0 <= t < |p| && p[t].Element? && GetAttribute(p[t], top) == k;
        assert p'[t] == p[t];
      } else {
        assert p'[n] == s[n];
      }
    }
  }

  /** Looking among one more node finds the earlier match, or the new node, or nothing. */
  lemma IndexSnoc(s: seq<Node>, c: Node, top: string, k: string)
    ensures IndexWithAttributeValue(s + [c], top, k) ==
      if IndexWithAttributeValue(s, top, k).Some? then IndexWithAttributeValue(s, top, k)
      else if HasAttrValue(c, top, k) then Some(|s|) else None
  {
    var a, b := IndexWithAttributeValue(s + [c], top, k), IndexWithAttributeValue(s, top, k);
    assert forall j :: 0 <= j < |s| ==> (s + [c])[j] == s[j];
    assert (s + [c])[|s|] == c;
    if b.Some? {
      assert a.Some? && a.value <= b.value;
    } else if HasAttrValue(c, top, k) {
      assert a.Some?;
    }
  }

  /** Partners after one more child of toAdd has been processed. */
  lemma PartnerSnoc(master: Node, toAdd: Node, n: nat, top: string, i: nat)
    requires master.Element? && toAdd.Element? && n < |toAdd.children| && i < |master.children|
    ensures var c, mc := toAdd.children[n], master.children[i];
      Partner(master, toAdd, n + 1, top, i) ==
        if Partner(master, toAdd, n, top, i).Some? then Partner(master, toAdd, n, top, i)
        else if mc.Element? && IndexWithAttributeValue(master.children, top, GetAttribute(mc, top)) == Some(i)
                && HasAttrValue(c, top, GetAttribute(mc, top)) then Some(n)
        else None
  {
    assert toAdd.children[..n + 1] == toAdd.children[..n] + [toAdd.children[n]];
    var mc := master.children[i];
    IndexSnoc(toAdd.children[..n], toAdd.children[n], top, GetAttribute(mc, top));
  }

  lemma EmbedsStart(master: Node, toAdd: Node, top: string, child: string)
    requires master.Element? && toAdd.Element?
    ensures Embeds(master, toAdd, 0, top, child, master.children, seq(|master.children|, i => i),
                   seq(|master.children|, i => 0))
  {
    var pos: seq<nat> := seq(|master.children|, i => i);
    forall j | 0 <= j < |master.children| ensures j in pos {
      assert pos[j] == j;
    }
    forall i | 0 <= i < |pos| ensures KeptOrMerged(master, toAdd, 0, top, child, i, master.children[pos[i]]) {
      assert Partner(master, toAdd, 0, top, i).None?;
    }
  }

  lemma StepSkip(master: Node, toAdd: Node, n: nat, top: string, child: string, cs: seq<Node>, pos: seq<nat>, src: seq<nat>)
    requires master.Element? && toAdd.Element? && n < |toAdd.children| && !toAdd.children[n].Element?
    requires Embeds(master, toAdd, n, top, child, cs, pos, src)
    ensures Embeds(master, toAdd, n + 1, top, child, cs, pos, src)
  {
    forall i | 0 <= i < |pos|
      ensures KeptOrMerged(master, toAdd, n + 1, top, child, i, cs[pos[i]])
    {
      PartnerSnoc(master, toAdd, n, top, i);
      assert KeptOrMerged(master, toAdd, n, top, child, i, cs[pos[i]]);
    }
  }

  /** Combining keeps the combine value of the master child it was matched on. */
  lemma MergedKeepsKey(mc: Node, c: Node, top: string, m: Node)
    requires mc.Element? && c.Element? && m.Element?
    requires AttrMap(m.attrs) == AttrMap(mc.attrs) + AttrMap(c.attrs)
    requires GetAttribute(c, top) == GetAttribute(mc, top)
    ensures GetAttribute(m, top) == GetAttribute(mc, top)
  {
  }

  /**
   * A combine value not used by the children processed so far is found in the
   * current child list exactly where master's first child with that value now sits.
   */
  lemma CurrentMatch(master: Node, toAdd: Node, n: nat, top: string, child: string,
                     cs: seq<Node>, pos: seq<nat>, src: seq<nat>, k: string)
    requires master.Element? && toAdd.Element? && n <= |toAdd.children|
    requires Embeds(master, toAdd, n, top, child, cs, pos, src)
    requires k !in KeysOf(toAdd.children[..n], top)
    ensures IndexWithAttributeValue(master.children, top, k).None? ==> IndexWithAttributeValue(cs, top, k).None?
    ensures IndexWithAttributeValue(master.children, top, k).Some? ==>
      var i := IndexWithAttributeValue(master.children, top, k).value;
      IndexWithAttributeValue(cs, top, k) == Some(pos[i]) && cs[pos[i]] == master.children[i]
  {
    var mcs, prefix := master.children, toAdd.children[..n];
    // Inserted children and combined children carry combine values already used.
    forall j | 0 <= j < |cs| && j !in pos
      ensures GetAttribute(cs[j], top) in KeysOf(prefix, top)
    {
      assert prefix[src[j]] == cs[j];
    }
    forall i | 0 <= i < |pos| && Partner(master, toAdd, n, top, i).Some?
      ensures GetAttribute(mcs[i], top) in KeysOf(prefix, top)
      ensures GetAttribute(cs[pos[i]], top) == GetAttribute(mcs[i], top)
    {
      var t := Partner(master, toAdd, n, top, i).value;
      var c := toAdd.children[t];
      assert KeptOrMerged(master, toAdd, n, top, child, i, cs[pos[i]]);
      assert Merged(mcs[i], c, child, child, cs[pos[i]]);
      MergedKeepsKey(mcs[i], c, top, cs[pos[i]]);
      assert prefix[t] == c;
    }
    forall i | 0 <= i < |pos| && Partner(master, toAdd, n, top, i).None?
      ensures cs[pos[i]] == mcs[i]
    {
      assert KeptOrMerged(master, toAdd, n, top, child, i, cs[pos[i]]);
    }
    // So a current child carries k exactly when it is a master child that carries k.
    forall j | 0 <= j < |cs| && j in pos
      ensures exists i :: 0 <= i < |pos| && pos[i] == j && (HasAttrValue(cs[j], top, k) <==> HasAttrValue(mcs[i], top, k))
    {
      var i :| 0 <= i < |pos| && pos[i] == j;
    }
    match IndexWithAttributeValue(mcs, top, k)
    case None =>
      forall j | 0 <= j < |cs| ensures !HasAttrValue(cs[j], top, k) {
        if j in pos {
          var i :| 0 <= i < |pos| && pos[i] == j && (HasAttrValue(cs[j], top, k) <==> HasAttrValue(mcs[i], top, k));
        }
      }
    case Some(i) =>
      forall j | 0 <= j < pos[i] ensures !HasAttrValue(cs[j], top, k) {
        if j in pos {
          var i' :| 0 <= i' < |pos| && pos[i'] == j && (HasAttrValue(cs[j], top, k) <==> HasAttrValue(mcs[i'], top, k));
          assert i' < i;
        }
      }
      assert HasAttrValue(cs[pos[i]], top, k);
  }

  /** A matched child of toAdd replaces master's child at its position by the combined one. */
  lemma StepMatched(master: Node, toAdd: Node, n: nat, top: string, child: string, cs: seq<Node>, pos: seq<nat>,
                    src: seq<nat>, i0: nat, merged: Node)
    requires master.Element? && toAdd.Element? && n < |toAdd.children| && toAdd.children[n].Element?
    requires Embeds(master, toAdd, n, top, child, cs, pos, src)
    requires GetAttribute(toAdd.children[n], top) !in KeysOf(toAdd.children[..n], top)
    requires IndexWithAttributeValue(master.children, top, GetAttribute(toAdd.children[n], top)) == Some(i0)
    requires cs[pos[i0]] == master.children[i0]
    requires Merged(master.children[i0], toAdd.children[n], child, child, merged)
    ensures Embeds(master, toAdd, n + 1, top, child, cs[pos[i0] := merged], pos, src)
  {
    MatchedKeeps(master, toAdd, n, top, child, cs, pos, src, i0, merged);
    MatchedOthers(master, toAdd, n, top, child, cs, pos, src, i0, merged);
    MatchedCovers(master, toAdd, n, top, child, cs, pos, src, i0, merged);
  }

  lemma MatchedKeeps(master: Node, toAdd: Node, n: nat, top: string, child: string, cs: seq<Node>, pos: seq<nat>,
                     src: seq<nat>, i0: nat, merged: Node)
    requires master.Element? && toAdd.Element? && n < |toAdd.children| && toAdd.children[n].Element?
    requires Embeds(master, toAdd, n, top, child, cs, pos, src)
    requires IndexWithAttributeValue(master.children, top, GetAttribute(toAdd.children[n], top)) == Some(i0)
    requires GetAttribute(toAdd.children[n], top) !in KeysOf(toAdd.children[..n], top)
    requires Merged(master.children[i0], toAdd.children[n], child, child, merged)
    ensures var cs' := cs[pos[i0] := merged];
      forall i :: 0 <= i < |pos| ==> KeptOrMerged(master, toAdd, n + 1, top, child, i, cs'[pos[i]])
  {
    var cs' := cs[pos[i0] := merged];
    forall i | 0 <= i < |pos|
      ensures KeptOrMerged(master, toAdd, n + 1, top, child, i, cs'[pos[i]])
    {
      PartnerSnoc(master, toAdd, n, top, i);
      assert KeptOrMerged(master, toAdd, n, top, child, i, cs[pos[i]]);
      if i == i0 {
        assert Partner(master, toAdd, n + 1, top, i0) == Some(n);
      } else {
        assert pos[i] != pos[i0] by {
          if i < i0 { assert pos[i] < pos[i0]; } else { assert pos[i0] < pos[i]; }
        }
      }
    }
  }

  lemma MatchedOthers(master: Node, toAdd: Node, n: nat, top: string, child: string, cs: seq<Node>, pos: seq<nat>,
                      src: seq<nat>, i0: nat, merged: Node)
    requires master.Element? && toAdd.Element? && n < |toAdd.children|
    requires Embeds(master, toAdd, n, top, child, cs, pos, src)
    requires i0 < |pos|
    ensures var cs' := cs[pos[i0] := merged];
      forall j :: 0 <= j < |cs'| && j !in pos ==>
        src[j] < n + 1 && cs'[j] == toAdd.children[src[j]] && Unmatched(master, top, cs'[j])
  {
    var cs' := cs[pos[i0] := merged];
    forall j | 0 <= j < |cs'| && j !in pos
      ensures src[j] < n + 1 && cs'[j] == toAdd.children[src[j]] && Unmatched(master, top, cs'[j])
    {
      assert cs'[j] == cs[j];
    }
  }

  lemma MatchedCovers(master: Node, toAdd: Node, n: nat, top: string, child: string, cs: seq<Node>, pos: seq<nat>,
                      src: seq<nat>, i0: nat, merged: Node)
    requires master.Element? && toAdd.Element? && n < |toAdd.children| && toAdd.children[n].Element?
    requires Embeds(master, toAdd, n, top, child, cs, pos, src)
    requires IndexWithAttributeValue(master.children, top, GetAttribute(toAdd.children[n], top)) == Some(i0)
    ensures forall t :: 0 <= t < n + 1 && Unmatched(master, top, toAdd.children[t]) ==>
      exists j :: 0 <= j < |cs| && j !in pos && src[j] == t
  {
  }

  /** An unmatched child of toAdd is inserted at position `q`; master's children move up past it. */
  lemma StepInserted(master: Node, toAdd: Node, n: nat, top: string, child: string, cs: seq<Node>, pos: seq<nat>,
                     src: seq<nat>, q: nat)
    requires master.Element? && toAdd.Element? && n < |toAdd.children|
    requires Unmatched(master, top, toAdd.children[n])
    requires Embeds(master, toAdd, n, top, child, cs, pos, src)
    requires q <= |cs|
    ensures Embeds(master, toAdd, n + 1, top, child, cs[..q] + [toAdd.children[n]] + cs[q..], Shift(pos, q),
                   src[..q] + [n] + src[q..])
  {
    InsertedKeeps(master, toAdd, n, top, child, cs, pos, src, q);
    InsertedOthers(master, toAdd, n, top, child, cs, pos, src, q);
    InsertedOnce(master, toAdd, n, top, child, cs, pos, src, q);
    InsertedCovers(master, toAdd, n, top, child, cs, pos, src, q);
  }

  lemma InsertedKeeps(master: Node, toAdd: Node, n: nat, top: string, child: string, cs: seq<Node>, pos: seq<nat>,
                      src: seq<nat>, q: nat)
    requires master.Element? && toAdd.Element? && n < |toAdd.children|
    requires Unmatched(master, top, toAdd.children[n])
    requires Embeds(master, toAdd, n, top, child, cs, pos, src)
    requires q <= |cs|
    ensures var cs', pos' := cs[..q] + [toAdd.children[n]] + cs[q..], Shift(pos, q);
      forall i :: 0 <= i < |pos'| ==> pos'[i] < |cs'| && KeptOrMerged(master, toAdd, n + 1, top, child, i, cs'[pos'[i]])
  {
    var cs', pos' := cs[..q] + [toAdd.children[n]] + cs[q..], Shift(pos, q);
    forall i | 0 <= i < |pos'|
      ensures pos'[i] < |cs'| && KeptOrMerged(master, toAdd, n + 1, top, child, i, cs'[pos'[i]])
    {
      InsertIndex(cs, q, toAdd.children[n], pos[i]);
      KeptOrMergedSnoc(master, toAdd, n, top, child, i, cs[pos[i]]);
    }
  }

  /** Child n of toAdd is unmatched, so it leaves what master child `i` has become as it was. */
  lemma KeptOrMergedSnoc(master: Node, toAdd: Node, n: nat, top: string, child: string, i: nat, x: Node)
    requires master.Element? && toAdd.Element? && n < |toAdd.children| && i < |master.children|
    requires Unmatched(master, top, toAdd.children[n])
    requires KeptOrMerged(master, toAdd, n, top, child, i, x)
    ensures KeptOrMerged(master, toAdd, n + 1, top, child, i, x)
  {
    PartnerSnoc(master, toAdd, n, top, i);
  }

  /** Where an element of a list sits after an insertion at `q`. */
  lemma InsertIndex<T>(s: seq<T>, q: nat, x: T, k: nat)
    requires q <= |s| && k < |s|
    ensures var s' := s[..q] + [x] + s[q..];
      (k < q ==> s'[k] == s[k]) && (q <= k ==> s'[k + 1] == s[k])
  {
  }

  /** The position `j` of the list after an insertion at `q`: before it, the insertion, or after it. */
  lemma InsertAt<T>(s: seq<T>, q: nat, x: T, j: nat)
    requires q <= |s| && j <= |s|
    ensures var s' := s[..q] + [x] + s[q..];
      (j < q ==> s'[j] == s[j]) && (j == q ==> s'[j] == x) && (j > q ==> s'[j] == s[j - 1])
  {
  }

  lemma InsertedOthers(master: Node, toAdd: Node, n: nat, top: string, child: string, cs: seq<Node>, pos: seq<nat>,
                       src: seq<nat>, q: nat)
    requires master.Element? && toAdd.Element? && n < |toAdd.children|
    requires Unmatched(master, top, toAdd.children[n])
    requires Embeds(master, toAdd, n, top, child, cs, pos, src)
    requires q <= |cs|
    ensures var cs', pos', src' := cs[..q] + [toAdd.children[n]] + cs[q..], Shift(pos, q), src[..q] + [n] + src[q..];
      forall j :: 0 <= j < |cs'| && j !in pos' ==>
        src'[j] < n + 1 && cs'[j] == toAdd.children[src'[j]] && Unmatched(master, top, cs'[j])
  {
    var c := toAdd.children[n];
    var cs', pos', src' := cs[..q] + [c] + cs[q..], Shift(pos, q), src[..q] + [n] + src[q..];
    forall j | 0 <= j < |cs'| && j !in pos'
      ensures src'[j] < n + 1 && cs'[j] == toAdd.children[src'[j]] && Unmatched(master, top, cs'[j])
    {
      ShiftHits(pos, q, j);
      InsertAt(cs, q, c, j);
      InsertAt(src, q, n, j);
    }
  }

  /** The inserted position and the old ones still come from different children of toAdd. */
  lemma InsertedOnce(master: Node, toAdd: Node, n: nat, top: string, child: string, cs: seq<Node>, pos: seq<nat>,
                     src: seq<nat>, q: nat)
    requires master.Element? && toAdd.Element? && n < |toAdd.children|
    requires Embeds(master, toAdd, n, top, child, cs, pos, src)
    requires q <= |cs|
    ensures var pos', src' := Shift(pos, q), src[..q] + [n] + src[q..];
      forall j, j' :: 0 <= j < j' < |src'| && j !in pos' && j' !in pos' ==> src'[j] != src'[j']
  {
    var pos', src' := Shift(pos, q), src[..q] + [n] + src[q..];
    forall j, j' | 0 <= j < j' < |src'| && j !in pos' && j' !in pos'
      ensures src'[j] != src'[j']
    {
      ShiftHits(pos, q, j);
      ShiftHits(pos, q, j');
      InsertAt(src, q, n, j);
      InsertAt(src, q, n, j');
    }
  }

  lemma InsertedCovers(master: Node, toAdd: Node, n: nat, top: string, child: string, cs: seq<Node>, pos: seq<nat>,
                       src: seq<nat>, q: nat)
    requires master.Element? && toAdd.Element? && n < |toAdd.children|
    requires Embeds(master, toAdd, n, top, child, cs, pos, src)
    requires q <= |cs|
    ensures var pos', src' := Shift(pos, q), src[..q] + [n] + src[q..];
      forall t :: 0 <= t < n + 1 && Unmatched(master, top, toAdd.children[t]) ==>
        exists j :: 0 <= j < |src'| && j !in pos' && src'[j] == t
  {
    var pos', src' := Shift(pos, q), src[..q] + [n] + src[q..];
    forall t | 0 <= t < n + 1 && Unmatched(master, top, toAdd.children[t])
      ensures exists j :: 0 <= j < |src'| && j !in pos' && src'[j] == t
    {
      if t == n {
        ShiftHits(pos, q, q);
        InsertAt(src, q, n, q);
      } else {
        var j :| 0 <= j < |cs| && j !in pos && src[j] == t;
        var j' := if j < q then j else j + 1;
        ShiftHits(pos, q, j');
        InsertAt(src, q, n, j');
      }
    }
  }
}
