/**
 * ReadableIdProcessor: gives a JSF component a human-readable id derived from
 * its binding expression, made unique against the client ids already in use
 * (cached on the metawidget), with sequential ids for the children of a stub.
 *
 * Component ids and the cached client-id set are updated in place, so
 * components and the metawidget are objects. unwrapExpression + camelCase
 * is a function parameter (`readable`), FacesUtils.createUniqueId a string
 * parameter (`generated`), and the ids found by walking the view root a set
 * parameter (`viewIds`).
 */
module ReadableIds {
  import opened Wrappers

  const ACTION := "action"
  const METAWIDGET_SUFFIX := "_Metawidget"

  // ---------------------------------------------------------------- ids from expressions

  /** String.replace(char, char). */
  function ReplaceChar(s: string, from: char, to: char): (r: string)
    ensures |r| == |s| && forall i :: 0 <= i < |s| ==> r[i] == if s[i] == from then to else s[i]
  {
    seq(|s|, i requires 0 <= i < |s| => if s[i] == from then to else s[i])
  }

  /** `id.replace('[', '_').replace(']', '_')`: an id with no brackets, all else kept in place. */
  function ReplaceBrackets(id: string): (r: string)
    ensures |r| == |id|
    ensures forall i :: 0 <= i < |id| ==> r[i] == if id[i] == '[' || id[i] == ']' then '_' else id[i]
    ensures '[' !in r && ']' !in r
  {
    ReplaceChar(ReplaceChar(id, '[', '_'), ']', '_')
  }

  /** The base of the id: nested metawidgets get the "_Metawidget" suffix. */
  function BaseId(id: string, kind: Kind): (r: string)
    ensures kind == NestedMetawidget ==> r == id + METAWIDGET_SUFFIX && |r| == |id| + 11
    ensures kind != NestedMetawidget ==> r == id
  {
    if kind == NestedMetawidget then id + METAWIDGET_SUFFIX else id
  }

  // ---------------------------------------------------------------- candidates

  function Digit(d: nat): (c: char)
    requires d < 10
    ensures '0' <= c <= '9'
  {
    "0123456789"[d]
  }

  function DigitValue(c: char): nat {
    if '0' <= c <= '9' then (c as int - '0' as int) as nat else 0
  }

  /** Integer.toString for a non-negative int. */
  function DecimalString(n: nat): (s: string)
    ensures |s| > 0
    decreases n
  {
    if n < 10 then [Digit(n)] else DecimalString(n / 10) + [Digit(n % 10)]
  }

  function ParseDecimal(s: string): nat
    decreases |s|
  {
    if s == [] then 0 else 10 * ParseDecimal(s[..|s| - 1]) + DigitValue(s[|s| - 1])
  }

  /** Reading back the decimal digits gives the number: different numbers print differently. */
  lemma {:induction false} ParseDecimalString(n: nat)
    ensures ParseDecimal(DecimalString(n)) == n
    decreases n
  {
    var s := DecimalString(n);
    assert s[..|s| - 1] == if n < 10 then [] else DecimalString(n / 10);
    assert DigitValue(s[|s| - 1]) == n % 10 by {
      assert forall d :: 0 <= d < 10 ==> DigitValue(Digit(d)) == d;
    }
    if n >= 10 {
      ParseDecimalString(n / 10);
    }
  }

  /** The suffix-th id tried: the base itself, then base_2, base_3, ... */
  function Candidate(base: string, suffix: nat): string {
    if suffix > 1 then base + "_" + DecimalString(suffix) else base
  }

  /** Different suffixes give different ids. */
  lemma CandidateInjective(base: string, a: nat, b: nat)
    requires a >= 1 && b >= 1
    ensures Candidate(base, a) == Candidate(base, b) ==> a == b
  {
    if a > 1 && b > 1 {
      assert Candidate(base, a)[|base| + 1..] == DecimalString(a);
      assert Candidate(base, b)[|base| + 1..] == DecimalString(b);
      ParseDecimalString(a);
      ParseDecimalString(b);
    } else if a > 1 {
      assert |Candidate(base, a)| > |Candidate(base, b)|;
    } else if b > 1 {
      assert |Candidate(base, b)| > |Candidate(base, a)|;
    }
  }

  /** The first `n` candidates. */
  ghost function Candidates(base: string, n: nat): set<string>
    decreases n
  {
    if n == 0 then {} else Candidates(base, n - 1) + {Candidate(base, n)}
  }

  lemma {:induction false} CandidatesMembers(base: string, n: nat, x: string)
    ensures x in Candidates(base, n) <==> exists k :: 1 <= k <= n && x == Candidate(base, k)
    decreases n
  {
    if n > 0 {
      CandidatesMembers(base, n - 1, x);
      if exists k :: 1 <= k <= n && x == Candidate(base, k) {
        var k :| 1 <= k <= n && x == Candidate(base, k);
        assert k < n ==> x in Candidates(base, n - 1);
      }
      if x == Candidate(base, n) {
        assert 1 <= n <= n && x == Candidate(base, n);
      }
    }
  }

  /** The first `n` candidates are `n` different ids. */
  lemma {:induction false} CandidatesSize(base: string, n: nat)
    ensures |Candidates(base, n)| == n
    decreases n
  {
    if n > 0 {
      CandidatesSize(base, n - 1);
      if Candidate(base, n) in Candidates(base, n - 1) {
        CandidatesMembers(base, n - 1, Candidate(base, n));
        var k :| 1 <= k <= n - 1 && Candidate(base, n) == Candidate(base, k);
        CandidateInjective(base, n, k);
        assert false;
      }
    }
  }

  lemma SubsetSize<T>(a: set<T>, b: set<T>)
    requires a <= b
    ensures |a| <= |b|
  {
    assert b == a + (b - a);
  }

  /** The first candidate from the `k`-th on that is not in `ids`, when the ones before are all taken. */
  function FreeFrom(base: string, ids: set<string>, k: nat): (r: nat)
    requires k >= 1 && Candidates(base, k - 1) <= ids
    ensures r >= k && Candidate(base, r) !in ids
    ensures forall j :: k <= j < r ==> Candidate(base, j) in ids
    decreases |ids| - (k - 1)
  {
    if Candidate(base, k) !in ids then k
    else
      CandidatesSize(base, k);
      SubsetSize(Candidates(base, k), ids);
      FreeFrom(base, ids, k + 1)
  }

  /** The suffix of the first candidate not in use. */
  function FirstFree(base: string, ids: set<string>): (r: nat)
    ensures r >= 1 && Candidate(base, r) !in ids
    ensures forall j :: 1 <= j < r ==> Candidate(base, j) in ids
  {
    FreeFrom(base, ids, 1)
  }

  /**
   * Two assignments in a row never hand out the same id: the first id chosen
   * is registered, and the second is chosen among the ids not registered.
   */
  lemma NeverTwice(base1: string, base2: string, ids: set<string>)
    ensures var first := Candidate(base1, FirstFree(base1, ids));
            var second := Candidate(base2, FirstFree(base2, ids + {first}));
            first !in ids && second !in ids && first != second
  {
  }

  // ---------------------------------------------------------------- stub children

  /** How many of the first `j` children have no id. */
  function MissingBefore(ids: seq<Option<string>>, j: nat): nat
    requires j <= |ids|
    decreases j
  {
    if j == 0 then 0 else MissingBefore(ids, j - 1) + if ids[j - 1].None? then 1 else 0
  }

  /**
   * The id child `j` of a stub ends with: its own, or, for the k-th child
   * without one, the k-th candidate built on the stub's id.
   */
  function ChildId(base: string, ids: seq<Option<string>>, j: nat): Option<string>
    requires j < |ids|
  {
    if ids[j].Some? then ids[j] else Some(Candidate(base, MissingBefore(ids, j) + 1))
  }

  lemma {:induction false} MissingGrows(ids: seq<Option<string>>, i: nat, j: nat)
    requires i < j <= |ids| && ids[i].None?
    ensures MissingBefore(ids, i) < MissingBefore(ids, j)
    decreases j
  {
    if j > i + 1 {
      MissingGrows(ids, i, j - 1);
    }
  }

  /** The children without an id get different ids. */
  lemma ChildIdsDistinct(base: string, ids: seq<Option<string>>, i: nat, j: nat)
    requires i < j < |ids| && ids[i].None? && ids[j].None?
    ensures ChildId(base, ids, i) != ChildId(base, ids, j)
  {
    MissingGrows(ids, i, j);
    CandidateInjective(base, MissingBefore(ids, i) + 1, MissingBefore(ids, j) + 1);
  }

  /** The first child without an id gets the stub's id itself. */
  lemma FirstChildGetsBase(base: string, ids: seq<Option<string>>, j: nat)
    requires j < |ids| && ids[j].None?
    requires forall i :: 0 <= i < j ==> ids[i].Some?
    ensures ChildId(base, ids, j) == Some(base)
  {
    assert MissingBefore(ids, j) == 0 by {
      MissingNone(ids, j);
    }
  }

  lemma {:induction false} MissingNone(ids: seq<Option<string>>, j: nat)
    requires j <= |ids| && forall i :: 0 <= i < j ==> ids[i].Some?
    ensures MissingBefore(ids, j) == 0
    decreases j
  {
    if j > 0 {
      MissingNone(ids, j - 1);
    }
  }

  // ---------------------------------------------------------------- components

  /** What a component is an instance of: UIMetawidget, UIStub, or neither. */
  datatype Kind = Plain | NestedMetawidget | Stub

  class Component {
    var id: Option<string>
    const kind: Kind
    const children: seq<Component>
    /** getAction().getExpressionString(), for an ActionSource with a method binding. */
    const actionExpression: Option<string>
    /** getValueBinding("value").getExpressionString(), when there is a value binding. */
    const valueExpression: Option<string>

    constructor(id: Option<string>, kind: Kind, children: seq<Component>,
                actionExpression: Option<string>, valueExpression: Option<string>)
      ensures this.id == id && this.kind == kind && this.children == children
      ensures this.actionExpression == actionExpression && this.valueExpression == valueExpression
    {
      this.id := id;
      this.kind := kind;
      this.children := children;
      this.actionExpression := actionExpression;
      this.valueExpression := valueExpression;
    }
  }

  /** A component list as JSF keeps it: each child once, and not the parent itself. */
  predicate ChildList(parent: Component, cs: seq<Component>) {
    parent !in cs && forall a, b :: 0 <= a < b < |cs| ==> cs[a] != cs[b]
  }

  function IdsOf(cs: seq<Component>): (r: seq<Option<string>>)
    reads set c | c in cs
    ensures |r| == |cs| && forall j :: 0 <= j < |cs| ==> r[j] == cs[j].id
    decreases |cs|
  {
    if cs == [] then [] else IdsOf(cs[..|cs| - 1]) + [cs[|cs| - 1].id]
  }

  /** The metawidget, holding the client-id set cached for this processor (null until first needed). */
  class Metawidget {
    var clientIds: Option<set<string>>

    constructor()
      ensures clientIds.None?
    {
      clientIds := None;
    }
  }

  /** onStartBuild: drops the cached client-id set. */
  method OnStartBuild(metawidget: Metawidget)
    modifies metawidget
    ensures metawidget.clientIds.None?
  {
    metawidget.clientIds := None;
  }

  /** getClientIds: the cached set, or the ids in the view, cached from now on. */
  method GetClientIds(metawidget: Metawidget, viewIds: set<string>) returns (clientIds: set<string>)
    modifies metawidget
    ensures clientIds == old(metawidget.clientIds).GetOr(viewIds)
    ensures metawidget.clientIds == Some(clientIds)
  {
    if metawidget.clientIds.None? {
      metawidget.clientIds := Some(viewIds);
    }
    clientIds := metawidget.clientIds.value;
  }

  /** What setUniqueId(id, component, metawidget) leaves behind. */
  twostate predicate IdAssigned(id: string, component: Component, metawidget: Metawidget, viewIds: set<string>,
                                generated: string)
    reads component, metawidget, set c | c in component.children
  {
    var ids := old(metawidget.clientIds).GetOr(viewIds);
    var base := BaseId(id, component.kind);
    var chosen := Candidate(base, FirstFree(base, ids));
    var cs := component.children;
    && metawidget.clientIds == Some(ids + {chosen})
    && (component.kind != Stub ==>
          component.id == Some(chosen) && forall j :: 0 <= j < |cs| ==> cs[j].id == old(cs[j].id))
    && (component.kind == Stub ==>
          component.id == Some(generated) &&
          forall j :: 0 <= j < |cs| ==> cs[j].id == ChildId(chosen, old(IdsOf(cs)), j))
  }

  /**
   * The `while (true)` loop of setUniqueId: tries base, base_2, base_3, ...
   * and returns the first one not among the client ids.
   */
  method ChooseId(base: string, clientIds: set<string>) returns (nonDuplicateId: string)
    ensures nonDuplicateId == Candidate(base, FirstFree(base, clientIds))
    ensures nonDuplicateId !in clientIds
  {
    nonDuplicateId := base;
    var suffix := 1;
    while nonDuplicateId in clientIds
      invariant suffix >= 1 && Candidates(base, suffix - 1) <= clientIds
      invariant nonDuplicateId == Candidate(base, suffix)
      invariant FirstFree(base, clientIds) == FreeFrom(base, clientIds, suffix)
      decreases |clientIds| - (suffix - 1)
    {
      CandidatesSize(base, suffix);
      SubsetSize(Candidates(base, suffix), clientIds);
      suffix := suffix + 1;
      nonDuplicateId := Candidate(base, suffix);
    }
  }

  /**
   * setUniqueId(id, component, metawidget): the first candidate not in use
   * becomes the component's id (for a stub, its children's) and is added to
   * the client ids.
   */
  method SetUniqueId(id: string, component: Component, metawidget: Metawidget, viewIds: set<string>, generated: string)
    requires ChildList(component, component.children)
    modifies metawidget, component, set c | c in component.children
    ensures IdAssigned(id, component, metawidget, viewIds, generated)
  {
    var originalId := BaseId(id, component.kind);
    var clientIds := GetClientIds(metawidget, viewIds);
    var nonDuplicateId := ChooseId(originalId, clientIds);
    metawidget.clientIds := Some(clientIds + {nonDuplicateId});
    if component.kind == Stub {
      NumberStubChildren(component, nonDuplicateId);
      component.id := Some(generated);
      return;
    }
    component.id := Some(nonDuplicateId);
  }

  /** The stub loop: each child without an id gets the next candidate built on `base`. */
  method NumberStubChildren(stub: Component, base: string)
    requires ChildList(stub, stub.children)
    modifies set c | c in stub.children
    ensures forall j :: 0 <= j < |stub.children| ==> stub.children[j].id == ChildId(base, old(IdsOf(stub.children)), j)
  {
    var cs := stub.children;
    ghost var olds := IdsOf(cs);
    var childSuffix := 1;
    for i := 0 to |cs|
      invariant childSuffix == MissingBefore(olds, i) + 1
      invariant forall j :: 0 <= j < i ==> cs[j].id == ChildId(base, olds, j)
      invariant forall j :: i <= j < |cs| ==> cs[j].id == olds[j]
    {
      if cs[i].id.Some? {
        continue;
      }
      cs[i].id := Some(Candidate(base, childSuffix));
      childSuffix := childSuffix + 1;
    }
  }

  /** setUniqueId(component, expressionString, metawidget): the id comes from the expression. */
  method SetUniqueIdFromExpression(component: Component, expressionString: string, metawidget: Metawidget,
                                   viewIds: set<string>, readable: string -> string, generated: string)
    requires ChildList(component, component.children)
    modifies metawidget, component, set c | c in component.children
    ensures IdAssigned(ReplaceBrackets(readable(expressionString)), component, metawidget, viewIds, generated)
  {
    var id := ReplaceBrackets(readable(expressionString));
    SetUniqueId(id, component, metawidget, viewIds, generated);
  }

  /** The binding an id is based on: the method binding for actions, the value binding otherwise. */
  function Expression(component: Component, elementName: string): Option<string> {
    if elementName == ACTION then component.actionExpression else component.valueExpression
  }

  /**
   * processWidget: a component with an id is left alone; otherwise its id
   * comes from its binding, or is a generated one when it has no binding.
   */
  method ProcessWidget(component: Component, elementName: string, metawidget: Metawidget, viewIds: set<string>,
                       readable: string -> string, generated: string) returns (r: Component)
    requires ChildList(component, component.children)
    modifies metawidget, component, set c | c in component.children
    ensures r == component
    ensures old(component.id).Some? ==>
              component.id == old(component.id) && metawidget.clientIds == old(metawidget.clientIds) &&
              forall c :: c in component.children ==> c.id == old(c.id)
    ensures old(component.id).None? && Expression(component, elementName).None? ==>
              component.id == Some(generated) && metawidget.clientIds == old(metawidget.clientIds) &&
              forall c :: c in component.children ==> c.id == old(c.id)
    ensures old(component.id).None? && Expression(component, elementName).Some? ==>
              IdAssigned(ReplaceBrackets(readable(Expression(component, elementName).value)), component, metawidget,
                         viewIds, generated)
  {
    if component.id.Some? {
      return component;
    }
    var expression := Expression(component, elementName);
    if expression.Some? {
      SetUniqueIdFromExpression(component, expression.value, metawidget, viewIds, readable, generated);
    } else {
      component.id := Some(generated);
    }
    r := component;
  }
}
