/**
 * XmlUtils' own serialiser: escapeForXml and nodeToString.
 *
 * `Serialized` is the text nodeToString produces for a node; the method
 * `NodeToString` builds it the way the source does, with a StringBuilder
 * that its loops append to. The lemmas show what the escaping buys: the
 * escaped text carries no markup character, can be decoded back, and every
 * '<' of the output starts a tag.
 */
module XmlSerialize {
  import opened Wrappers
  import opened Dom

  // ---------------------------------------------------------------- escaping

  /** Matcher.replaceAll of a literal one-character pattern. */
  function ReplaceAll(s: string, c: char, rep: string): (r: string)
    decreases |s|
  {
    if s == [] then [] else (if s[0] == c then rep else [s[0]]) + ReplaceAll(s[1..], c, rep)
  }

  /** The five passes of escapeForXml, ampersand first. */
  function EscapePasses(s: string): string
  {
    var amp := ReplaceAll(s, '&', "&amp;");
    var lt := ReplaceAll(amp, '<', "&lt;");
    var gt := ReplaceAll(lt, '>', "&gt;");
    var quot := ReplaceAll(gt, '"', "&quot;");
    ReplaceAll(quot, '\'', "&apos;")
  }

  /** The entity each markup character is written as. */
  function EscapeChar(x: char): string
  {
    match x
    case '&' => "&amp;"
    case '<' => "&lt;"
    case '>' => "&gt;"
    case '"' => "&quot;"
    case '\'' => "&apos;"
    case _ => [x]
  }

  /** Escaping character by character, which the five passes amount to (EscapeIsFivePasses). */
  function EscapeChars(s: string): string
    decreases |s|
  {
    if s == [] then [] else EscapeChar(s[0]) + EscapeChars(s[1..])
  }

  /**
   * escapeForXml: null becomes the empty string; otherwise each markup character
   * becomes its entity, so the result holds no raw '<', '>', '"' or '\''.
   * Defined character by character; EscapeIsFivePasses shows it is the
   * five-pass replaceAll chain of the source.
   */
  function EscapeForXml(s: Option<string>): string
  {
    match s
    case None => ""
    case Some(text) => EscapeChars(text)
  }

  /** Escaped text holds none of the characters that delimit markup. */
  lemma EscapedIsPlain(s: Option<string>)
    ensures var r := EscapeForXml(s);
      (s.None? ==> r == "") && '<' !in r && '>' !in r && '"' !in r && '\'' !in r
  {
    if s.Some? {
      EscapeCharsNoMarkup(s.value);
    }
  }

  /** escapeForXml's five replaceAll passes, ampersand first, escape each character on its own. */
  lemma EscapeIsFivePasses(s: string)
    ensures EscapeForXml(Some(s)) == EscapePasses(s)
  {
    PassesCharwise(s);
  }

  lemma {:induction false} ReplaceAllConcat(s: string, t: string, c: char, rep: string)
    ensures ReplaceAll(s + t, c, rep) == ReplaceAll(s, c, rep) + ReplaceAll(t, c, rep)
    decreases |s|
  {
    if s == [] {
      assert s + t == t;
    } else {
      assert (s + t)[0] == s[0];
      assert (s + t)[1..] == s[1..] + t;
      ReplaceAllConcat(s[1..], t, c, rep);
    }
  }

  lemma {:induction false} ReplaceAllAbsent(s: string, c: char, rep: string)
    requires c !in s
    ensures ReplaceAll(s, c, rep) == s
    decreases |s|
  {
    if s != [] {
      assert s == [s[0]] + s[1..];
      ReplaceAllAbsent(s[1..], c, rep);
    }
  }

  lemma ReplaceAllOne(x: char, c: char, rep: string)
    ensures ReplaceAll([x], c, rep) == if x == c then rep else [x]
  {
    assert [x][1..] == [];
  }

  /** One pass over a single character, or over an entity that does not hold the pattern. */
  lemma Pass(a: string, x: char, c: char, rep: string)
    requires a == [x] || c !in a
    ensures a == [x] ==> ReplaceAll(a, c, rep) == if x == c then rep else [x]
    ensures c !in a ==> ReplaceAll(a, c, rep) == a
  {
    if c !in a {
      ReplaceAllAbsent(a, c, rep);
    } else {
      ReplaceAllOne(x, c, rep);
    }
  }

  /** The five passes turn one character into its entity. */
  lemma EscapeOne(x: char)
    ensures EscapePasses([x]) == EscapeChar(x)
  {
    if x == '&' {
      Pass([x], x, '&', "&amp;");
      EntityStaysAfter("&amp;", 1);
    } else if x == '<' {
      Pass([x], x, '&', "&amp;");
      Pass([x], x, '<', "&lt;");
      EntityStaysAfter("&lt;", 2);
    } else if x == '>' {
      Pass([x], x, '&', "&amp;");
      Pass([x], x, '<', "&lt;");
      Pass([x], x, '>', "&gt;");
      EntityStaysAfter("&gt;", 3);
    } else if x == '"' {
      Pass([x], x, '&', "&amp;");
      Pass([x], x, '<', "&lt;");
      Pass([x], x, '>', "&gt;");
      Pass([x], x, '"', "&quot;");
      EntityStaysAfter("&quot;", 4);
    } else {
      Pass([x], x, '&', "&amp;");
      Pass([x], x, '<', "&lt;");
      Pass([x], x, '>', "&gt;");
      Pass([x], x, '"', "&quot;");
      Pass([x], x, '\'', "&apos;");
    }
  }

  /** An entity written by pass `k` (and the character it replaced) is left alone by the later passes. */
  lemma EntityStaysAfter(e: string, k: nat)
    requires 1 <= k <= 4
    requires '<' !in e && '>' !in e && '"' !in e && '\'' !in e
    ensures k == 1 ==> ReplaceAll(ReplaceAll(ReplaceAll(ReplaceAll(e, '<', "&lt;"), '>', "&gt;"), '"', "&quot;"), '\'', "&apos;") == e
    ensures k == 2 ==> ReplaceAll(ReplaceAll(ReplaceAll(e, '>', "&gt;"), '"', "&quot;"), '\'', "&apos;") == e
    ensures k == 3 ==> ReplaceAll(ReplaceAll(e, '"', "&quot;"), '\'', "&apos;") == e
    ensures k == 4 ==> ReplaceAll(e, '\'', "&apos;") == e
  {
    ReplaceAllAbsent(e, '<', "&lt;");
    ReplaceAllAbsent(e, '>', "&gt;");
    ReplaceAllAbsent(e, '"', "&quot;");
    ReplaceAllAbsent(e, '\'', "&apos;");
  }

  lemma EscapePassesConcat(s: string, t: string)
    ensures EscapePasses(s + t) == EscapePasses(s) + EscapePasses(t)
  {
    var s1, t1 := ReplaceAll(s, '&', "&amp;"), ReplaceAll(t, '&', "&amp;");
    ReplaceAllConcat(s, t, '&', "&amp;");
    var s2, t2 := ReplaceAll(s1, '<', "&lt;"), ReplaceAll(t1, '<', "&lt;");
    ReplaceAllConcat(s1, t1, '<', "&lt;");
    var s3, t3 := ReplaceAll(s2, '>', "&gt;"), ReplaceAll(t2, '>', "&gt;");
    ReplaceAllConcat(s2, t2, '>', "&gt;");
    var s4, t4 := ReplaceAll(s3, '"', "&quot;"), ReplaceAll(t3, '"', "&quot;");
    ReplaceAllConcat(s3, t3, '"', "&quot;");
    ReplaceAllConcat(s4, t4, '\'', "&apos;");
  }

  /** Replacing '&' first means no entity is escaped twice: the passes escape character by character. */
  lemma {:induction false} PassesCharwise(s: string)
    ensures EscapePasses(s) == EscapeChars(s)
    decreases |s|
  {
    if s != [] {
      assert s == [s[0]] + s[1..];
      EscapePassesConcat([s[0]], s[1..]);
      EscapeOne(s[0]);
      PassesCharwise(s[1..]);
    }
  }

  lemma {:induction false} EscapeCharsNoMarkup(s: string)
    ensures var r := EscapeChars(s); '<' !in r && '>' !in r && '"' !in r && '\'' !in r
    decreases |s|
  {
    if s != [] {
      EscapeCharsNoMarkup(s[1..]);
      EscapeCharPlain(s[0]);
    }
  }

  lemma EscapeCharPlain(x: char)
    ensures var e := EscapeChar(x); '<' !in e && '>' !in e && '"' !in e && '\'' !in e
  {
  }

  /** Decoding of the five entities escapeForXml writes; the inverse of escaping. */
  function Unescape(s: string): string
    decreases |s|
  {
    if s == [] then []
    else if s[0] != '&' then [s[0]] + Unescape(s[1..])
    else if |s| >= 5 && s[..5] == "&amp;" then "&" + Unescape(s[5..])
    else if |s| >= 4 && s[..4] == "&lt;" then "<" + Unescape(s[4..])
    else if |s| >= 4 && s[..4] == "&gt;" then ">" + Unescape(s[4..])
    else if |s| >= 6 && s[..6] == "&quot;" then "\"" + Unescape(s[6..])
    else if |s| >= 6 && s[..6] == "&apos;" then "'" + Unescape(s[6..])
    else [s[0]] + Unescape(s[1..])
  }

  /** Escaping loses nothing: decoding the escaped text gives the text back. */
  lemma {:induction false} UnescapeEscape(s: string)
    ensures Unescape(EscapeForXml(Some(s))) == s
    decreases |s|
  {
    UnescapeEscapeChars(s);
  }

  lemma {:induction false} UnescapeEscapeChars(s: string)
    ensures Unescape(EscapeChars(s)) == s
    decreases |s|
  {
    if s != [] {
      UnescapeCons(s[0], EscapeChars(s[1..]));
      UnescapeEscapeChars(s[1..]);
      assert s == [s[0]] + s[1..];
    }
  }

  /** Decoding reads one escaped character back off the front. */
  lemma UnescapeCons(x: char, t: string)
    ensures Unescape(EscapeChar(x) + t) == [x] + Unescape(t)
  {
    match x
    case '&' => UnescapeEntity("&amp;", '&', t);
    case '<' => UnescapeEntity("&lt;", '<', t);
    case '>' => UnescapeEntity("&gt;", '>', t);
    case '"' => UnescapeEntity("&quot;", '"', t);
    case '\'' => UnescapeEntity("&apos;", '\'', t);
    case _ => UnescapePlain(x, t);
  }

  /** An entity at the front decodes to its character; the entities are tried in escapeForXml's order. */
  lemma UnescapeEntity(e: string, x: char, t: string)
    requires (e, x) in {("&amp;", '&'), ("&lt;", '<'), ("&gt;", '>'), ("&quot;", '"'), ("&apos;", '\'')}
    ensures Unescape(e + t) == [x] + Unescape(t)
  {
    var w := e + t;
    assert w[..|e|] == e && w[|e|..] == t;
    assert w[0] == '&' && w[1] == e[1] && w[2] == e[2];
  }

  /** A character that is not an entity's decodes to itself. */
  lemma UnescapePlain(x: char, t: string)
    requires x != '&'
    ensures Unescape([x] + t) == [x] + Unescape(t)
  {
    var w := [x] + t;
    assert w[0] == x && w[1..] == t;
  }

  // ---------------------------------------------------------------- trimming

  /** String.trim: drops leading and trailing characters up to and including the space. */
  function Trim(s: string): (r: string)
  {
    var st := TrimStart(s, 0);
    s[st..TrimEnd(s, st, |s|)]
  }

  /**
   * String.trim: the result is a slice of the input that neither starts nor
   * ends with a character at or below ' ', and everything cut off is such a
   * character.
   */
  lemma TrimSpec(s: string)
    ensures var r := Trim(s); r == [] || (r[0] > ' ' && r[|r| - 1] > ' ')
    ensures exists i, j :: 0 <= i <= j <= |s| && Trim(s) == s[i..j]
                           && (forall k :: 0 <= k < i ==> s[k] <= ' ')
                           && (forall k :: j <= k < |s| ==> s[k] <= ' ')
  {
    var st := TrimStart(s, 0);
    var len := TrimEnd(s, st, |s|);
    TrimStartSpec(s, 0);
    TrimEndSpec(s, st, |s|);
    assert Trim(s) == s[st..len];
  }

  function TrimStart(s: string, st: nat): (r: nat)
    requires st <= |s|
    ensures st <= r <= |s|
    decreases |s| - st
  {
    if st < |s| && s[st] <= ' ' then TrimStart(s, st + 1) else st
  }

  /** TrimStart stops at the first character above ' ', skipping only characters at or below it. */
  lemma {:induction false} TrimStartSpec(s: string, st: nat)
    requires st <= |s|
    ensures var r := TrimStart(s, st);
      (r < |s| ==> s[r] > ' ') && forall k :: st <= k < r ==> s[k] <= ' '
    decreases |s| - st
  {
    if st < |s| && s[st] <= ' ' {
      TrimStartSpec(s, st + 1);
    }
  }

  function TrimEnd(s: string, st: nat, len: nat): (r: nat)
    requires st <= len <= |s|
    ensures st <= r <= len
    decreases len
  {
    if st < len && s[len - 1] <= ' ' then TrimEnd(s, st, len - 1) else len
  }

  /** TrimEnd stops after the last character above ' ', dropping only characters at or below it. */
  lemma {:induction false} TrimEndSpec(s: string, st: nat, len: nat)
    requires st <= len <= |s|
    ensures var r := TrimEnd(s, st, len);
      (st < r ==> s[r - 1] > ' ') && forall k :: r <= k < len ==> s[k] <= ' '
    decreases len
  {
    if st < len && s[len - 1] <= ' ' {
      TrimEndSpec(s, st, len - 1);
    }
  }

  // ---------------------------------------------------------------- the text of a node

  /** The indentation `indent` writes: three spaces per level, none for -1. */
  function Indentation(indent: int): (r: string)
    ensures |r| == if indent <= 0 then 0 else 3 * indent
    ensures forall c :: c in r ==> c == ' '
    decreases if indent <= 0 then 0 else indent
  {
    if indent <= 0 then "" else Indentation(indent - 1) + "   "
  }

  /** The xmlns declaration, written when the namespace differs from the parent's. */
  function XmlnsText(namespace: Option<string>, parentNamespace: Option<string>): string
  {
    if namespace.Some? && (parentNamespace.None? || namespace.value != parentNamespace.value)
    then " xmlns=\"" + namespace.value + "\""
    else ""
  }

  /** The name attribute, always written first. */
  function NameAttrText(e: Node): string
  {
    if HasAttribute(e, "name") then " name=\"" + EscapeForXml(Some(GetAttribute(e, "name"))) + "\"" else ""
  }

  function AttrText(a: Attr): string
  {
    if a.name == "xmlns" || a.name == "name" then ""
    else " " + EscapeForXml(Some(a.name)) + "=\"" + EscapeForXml(Some(a.value)) + "\""
  }

  /** The other attributes in NamedNodeMap order, never xmlns or name. */
  function OtherAttrsText(attrs: seq<Attr>): string
    decreases |attrs|
  {
    if attrs == [] then "" else OtherAttrsText(attrs[..|attrs| - 1]) + AttrText(attrs[|attrs| - 1])
  }

  /** The opening tag without its final '>' or "/>": indentation, '<', name, xmlns and attributes. */
  function OpenTag(e: Node, indent: int, parentNamespace: Option<string>): string
    requires e.Element?
  {
    Indentation(indent) + "<" + TagRest(e, parentNamespace)
  }

  /** What follows '<' in an opening tag. */
  function TagRest(e: Node, parentNamespace: Option<string>): string
    requires e.Element?
  {
    EscapeForXml(Some(e.name)) + XmlnsText(e.namespace, parentNamespace) + NameAttrText(e) + OtherAttrsText(e.attrs)
  }

  function CloseTag(name: string): string
  {
    "</" + EscapeForXml(Some(name)) + ">"
  }

  function NextIndent(indent: int): int
  {
    if indent != -1 then indent + 1 else indent
  }

  /**
   * The text nodeToString(node, indent) produces; `parentNamespace` is the
   * namespace of the node's parent (None when there is no parent or it has none).
   */
  function Serialized(n: Node, indent: int, parentNamespace: Option<string>): string
    decreases n, if n.Element? then |n.children| + 3 else 0
  {
    match n
    case Text(text) => EscapeForXml(Some(Trim(text)))
    case Element(_, _, _, _, _) => ElementText(n, indent, parentNamespace)
  }

  /** The text of an element: its own tag around the text of its children. */
  function ElementText(n: Node, indent: int, parentNamespace: Option<string>): string
    requires n.Element?
    decreases n, |n.children| + 2
  {
    if n.children == [] then OpenTag(n, indent, parentNamespace) + "/>"
    else
      var body := OpenTag(n, indent, parentNamespace) + ">" + ChildrenText(n, |n.children|, indent);
      body + (if indent != -1 && LastIsTag(n, |n.children|) then "\n" + Indentation(indent) else "")
      + CloseTag(n.name)
  }

  /**
   * Whether the text of the first `k` children is empty or ends with '>': an
   * element child always ends with its tag, a text child that trims to nothing
   * writes nothing, and any other text child ends with a character of its own
   * (see BodyEndsWithTag).
   */
  function LastIsTag(parent: Node, k: nat): bool
    requires parent.Element? && k <= |parent.children|
  {
    if k == 0 then true
    else
      var c := parent.children[k - 1];
      if c.Element? then true
      else if Trim(c.text) == [] then LastIsTag(parent, k - 1)
      else false
  }

  /** The text of the first `k` children of `parent`, each element child on a new line when indenting. */
  function ChildrenText(parent: Node, k: nat, indent: int): string
    requires parent.Element? && k <= |parent.children|
    decreases parent, k + 1
  {
    if k == 0 then "" else ChildrenText(parent, k - 1, indent) + ChildText(parent, k - 1, indent)
  }

  /** What the loop over the children writes for child `i`: its separator, then its text. */
  function ChildText(parent: Node, i: nat, indent: int): string
    requires parent.Element? && i < |parent.children|
    decreases parent, 0
  {
    var c := parent.children[i];
    ChildSeparator(c, indent) + Serialized(c, NextIndent(indent), parent.namespace)
  }

  /** What precedes a child: a newline before an element child when indenting. */
  function ChildSeparator(c: Node, indent: int): string
  {
    if indent != -1 && c.Element? then "\n" else ""
  }

  // ---------------------------------------------------------------- the builder

  /** indent(builder, indent). */
  method Indent(b: string, indent: int) returns (r: string)
    ensures r == b + Indentation(indent)
  {
    r := b;
    var loop := 0;
    while loop < indent
      invariant 0 <= loop && (indent > 0 ==> loop <= indent) && (indent <= 0 ==> loop == 0)
      invariant r == b + Indentation(loop)
    {
      r := r + "   ";
      loop := loop + 1;
    }
  }

  /** nodeToString(node, indent): null for a null node. */
  method NodeToString(node: Option<Node>, indent: int, parentNamespace: Option<string>) returns (r: Option<string>)
    ensures node.None? ==> r.None?
    ensures node.Some? ==> r == Some(Serialized(node.value, indent, parentNamespace))
  {
    if node.None? {
      return None;
    }
    var s := SerializeNode(node.value, indent, parentNamespace);
    return Some(s);
  }

  /** nodeToString(node, pretty): indentation from 0 when pretty, none otherwise. */
  method NodeToStringPretty(node: Option<Node>, pretty: bool, parentNamespace: Option<string>) returns (r: Option<string>)
    ensures node.None? ==> r.None?
    ensures node.Some? ==> r == Some(Serialized(node.value, if pretty then 0 else -1, parentNamespace))
  {
    r := NodeToString(node, if pretty then 0 else -1, parentNamespace);
  }

  method SerializeNode(n: Node, indent: int, parentNamespace: Option<string>) returns (r: string)
    ensures r == Serialized(n, indent, parentNamespace)
    decreases n, 2
  {
    if n.Text? {
      return EscapeForXml(Some(Trim(n.text)));
    }
    var b := AppendOpenTag("", n, indent, parentNamespace);
    ghost var open := OpenTag(n, indent, parentNamespace);
    assert b == open;
    if |n.children| == 0 {
      return b + "/>";
    }
    b := b + ">";
    b := AppendChildren(b, n, indent);
    ghost var body := b;
    assert body == open + ">" + ChildrenText(n, |n.children|, indent);
    ghost var nl := if indent != -1 && LastIsTag(n, |n.children|) then "\n" + Indentation(indent) else "";
    BodyEndsWithTag(n, indent, parentNamespace);
    if indent != -1 && b[|b| - 1] == '>' {
      b := b + "\n";
      b := Indent(b, indent);
      Assoc(body, "\n", Indentation(indent));
    } else {
      assert body + nl == body;
    }
    assert b == body + nl;
    r := b + CloseTag(n.name);
  }

  /** The opening tag: indentation, name, the xmlns declaration, the name attribute, then the others. */
  method AppendOpenTag(b0: string, n: Node, indent: int, parentNamespace: Option<string>) returns (b: string)
    requires n.Element?
    ensures b == b0 + OpenTag(n, indent, parentNamespace)
  {
    b := Indent(b0, indent);
    b := b + "<";
    ghost var start := b;
    var nodeName := EscapeForXml(Some(n.name));
    b := b + nodeName;
    ghost var named := b;
    if n.namespace.Some? && (parentNamespace.None? || n.namespace.value != parentNamespace.value) {
      b := b + (" xmlns=\"" + n.namespace.value + "\"");
    }
    assert b == named + XmlnsText(n.namespace, parentNamespace);
    ghost var declared := b;
    if HasAttribute(n, "name") {
      b := b + (" name=\"" + EscapeForXml(Some(GetAttribute(n, "name"))) + "\"");
    }
    assert b == declared + NameAttrText(n);
    b := AppendAttributes(b, n.attrs);
    Regroup(b0, Indentation(indent), nodeName, XmlnsText(n.namespace, parentNamespace), NameAttrText(n), OtherAttrsText(n.attrs));
  }

  lemma Assoc(a: string, b: string, c: string)
    ensures a + b + c == a + (b + c)
  {
  }

  /** One step of a builder loop: appending the next piece keeps the builder equal to the prefix plus the text so far. */
  lemma AppendStep(b: string, b0: string, prev: string, piece: string)
    requires b == b0 + prev
    ensures b + piece == b0 + (prev + piece)
  {
  }

  lemma Regroup4(a: string, b: string, c: string, d: string)
    ensures a + b + c + d == a + (b + c + d)
  {
  }

  lemma Regroup(b0: string, ind: string, a: string, b: string, c: string, d: string)
    ensures b0 + ind + "<" + a + b + c + d == b0 + (ind + "<" + (a + b + c + d))
  {
  }

  /** The attributes other than xmlns and name, in order. */
  method AppendAttributes(b0: string, attrs: seq<Attr>) returns (b: string)
    ensures b == b0 + OtherAttrsText(attrs)
  {
    b := b0;
    var loop := 0;
    while loop < |attrs|
      invariant loop <= |attrs|
      invariant b == b0 + OtherAttrsText(attrs[..loop])
    {
      var attribute := attrs[loop];
      assert attrs[..loop + 1][..loop] == attrs[..loop];
      assert OtherAttrsText(attrs[..loop + 1]) == OtherAttrsText(attrs[..loop]) + AttrText(attribute);
      Assoc(b0, OtherAttrsText(attrs[..loop]), AttrText(attribute));
      if attribute.name != "xmlns" && attribute.name != "name" {
        b := b + (" " + EscapeForXml(Some(attribute.name)) + "=\"" + EscapeForXml(Some(attribute.value)) + "\"");
      }
      loop := loop + 1;
    }
    assert attrs[..loop] == attrs;
  }

  /** The children in order, element children on a new line when indenting. */
  method AppendChildren(b0: string, n: Node, indent: int) returns (b: string)
    requires n.Element?
    ensures b == b0 + ChildrenText(n, |n.children|, indent)
    decreases n, 1
  {
    b := b0;
    var loop := 0;
    while loop < |n.children|
      invariant loop <= |n.children|
      invariant b == b0 + ChildrenText(n, loop, indent)
    {
      ghost var before := b;
      b := AppendChild(b, n, loop, indent);
      AppendStep(before, b0, ChildrenText(n, loop, indent), ChildText(n, loop, indent));
      loop := loop + 1;
    }
  }

  /** The body of the children loop: a newline before an element child when indenting, then the child's text. */
  method AppendChild(b0: string, n: Node, k: nat, indent: int) returns (b: string)
    requires n.Element? && k < |n.children|
    ensures b == b0 + ChildText(n, k, indent)
    decreases n, 0
  {
    var childNode := n.children[k];
    b := b0;
    if indent != -1 && childNode.Element? {
      b := b + "\n";
    }
    assert b == b0 + ChildSeparator(childNode, indent);
    var text := SerializeNode(childNode, NextIndent(indent), n.namespace);
    Assoc(b0, ChildSeparator(childNode, indent), text);
    b := b + text;
  }

  // ---------------------------------------------------------------- what the output looks like

  /** How many times `x` occurs in `s`. */
  function Count(s: string, x: char): nat
    decreases |s|
  {
    if s == [] then 0 else (if s[0] == x then 1 else 0) + Count(s[1..], x)
  }

  lemma {:induction false} CountConcat(s: string, t: string, x: char)
    ensures Count(s + t, x) == Count(s, x) + Count(t, x)
    decreases |s|
  {
    if s == [] {
      assert s + t == t;
    } else {
      assert (s + t)[0] == s[0];
      assert (s + t)[1..] == s[1..] + t;
      CountConcat(s[1..], t, x);
    }
  }

  lemma {:induction false} CountAbsent(s: string, x: char)
    requires x !in s
    ensures Count(s, x) == 0
    decreases |s|
  {
    if s != [] {
      CountAbsent(s[1..], x);
    }
  }

  /** A piece that starts with `x` and holds no other `x`. */
  lemma CountLeading(x: char, rest: string)
    requires x !in rest
    ensures Count([x] + rest, x) == 1
  {
    assert ([x] + rest)[1..] == rest;
    CountAbsent(rest, x);
  }

  /** The number of tags nodeToString writes: one for an empty element, two otherwise. */
  function Tags(n: Node): nat
    decreases n, 1
  {
    match n
    case Text(_) => 0
    case Element(_, _, _, _, children) => if children == [] then 1 else 2 + ChildTags(n, |children|)
  }

  function ChildTags(parent: Node, k: nat): nat
    requires parent.Element? && k <= |parent.children|
    decreases parent, 0, k
  {
    if k == 0 then 0 else ChildTags(parent, k - 1) + Tags(parent.children[k - 1])
  }

  /** No namespace URI in the tree contains '<' (the xmlns value is written unescaped). */
  predicate PlainNamespaces(n: Node)
  {
    match n
    case Text(_) => true
    case Element(_, _, namespace, _, children) =>
      (namespace.Some? ==> '<' !in namespace.value)
      && forall c :: c in children ==> PlainNamespaces(c)
  }

  lemma {:induction false} OtherAttrsHaveNoLt(attrs: seq<Attr>)
    ensures '<' !in OtherAttrsText(attrs)
    decreases |attrs|
  {
    if attrs != [] {
      var a := attrs[|attrs| - 1];
      OtherAttrsHaveNoLt(attrs[..|attrs| - 1]);
      EscapedIsPlain(Some(a.name));
      EscapedIsPlain(Some(a.value));
    }
  }

  lemma TagRestHasNoLt(e: Node, parentNamespace: Option<string>)
    requires e.Element? && (e.namespace.Some? ==> '<' !in e.namespace.value)
    ensures '<' !in TagRest(e, parentNamespace)
  {
    var name, xmlns, nameAttr, others := EscapeForXml(Some(e.name)), XmlnsText(e.namespace, parentNamespace),
      NameAttrText(e), OtherAttrsText(e.attrs);
    EscapedIsPlain(Some(e.name));
    EscapedIsPlain(Some(GetAttribute(e, "name")));
    OtherAttrsHaveNoLt(e.attrs);
    assert '<' !in xmlns;
    assert '<' !in nameAttr;
    assert TagRest(e, parentNamespace) == name + xmlns + nameAttr + others;
  }

  /** A piece with one '<' between two pieces without one. */
  lemma CountOneBetween(a: string, b: string)
    requires '<' !in a && '<' !in b
    ensures Count(a + "<" + b, '<') == 1
  {
    CountAbsent(a, '<');
    CountLeading('<', b);
    assert a + "<" + b == a + ("<" + b);
    CountConcat(a, "<" + b, '<');
  }

  /** An opening tag holds exactly one '<'. */
  lemma OpenTagHasOneLt(e: Node, indent: int, parentNamespace: Option<string>)
    requires e.Element? && (e.namespace.Some? ==> '<' !in e.namespace.value)
    ensures Count(OpenTag(e, indent, parentNamespace), '<') == 1
  {
    TagRestHasNoLt(e, parentNamespace);
    CountOneBetween(Indentation(indent), TagRest(e, parentNamespace));
  }

  /** A closing tag holds exactly one '<'. */
  lemma CloseTagHasOneLt(name: string)
    ensures Count(CloseTag(name), '<') == 1
  {
    var rest := "/" + EscapeForXml(Some(name)) + ">";
    EscapedIsPlain(Some(name));
    assert CloseTag(name) == "<" + rest;
    CountLeading('<', rest);
  }

  /** The '<' count of an element with children: its two tags plus the children's. */
  lemma FramedCount(open: string, kids: string, nl: string, close: string)
    requires Count(open, '<') == 1 && Count(close, '<') == 1 && '<' !in nl
    ensures Count(open + ">" + kids + nl + close, '<') == 2 + Count(kids, '<')
  {
    CountAbsent(">", '<');
    CountAbsent(nl, '<');
    CountConcat(open, ">", '<');
    CountConcat(open + ">", kids, '<');
    CountConcat(open + ">" + kids, nl, '<');
    CountConcat(open + ">" + kids + nl, close, '<');
  }

  /**
   * Text and attribute values cannot inject markup: every '<' nodeToString
   * writes begins one of the node's tags.
   */
  lemma {:induction false} SerializedTags(n: Node, indent: int, parentNamespace: Option<string>)
    requires PlainNamespaces(n)
    ensures Count(Serialized(n, indent, parentNamespace), '<') == Tags(n)
    decreases n, if n.Element? then |n.children| + 1 else 0, 0
  {
    match n
    case Text(text) =>
      EscapedIsPlain(Some(Trim(text)));
      CountAbsent(Serialized(n, indent, parentNamespace), '<');
    case Element(name, _, namespace, _, children) =>
      var open := OpenTag(n, indent, parentNamespace);
      OpenTagHasOneLt(n, indent, parentNamespace);
      if children == [] {
        CountAbsent("/>", '<');
        CountConcat(open, "/>", '<');
      } else {
        var kids := ChildrenText(n, |children|, indent);
        ChildrenTags(n, |children|, indent);
        var body := open + ">" + kids;
        var nl := if indent != -1 && LastIsTag(n, |children|) then "\n" + Indentation(indent) else "";
        CloseTagHasOneLt(name);
        FramedCount(open, kids, nl, CloseTag(name));
      }
  }

  lemma {:induction false} ChildrenTags(parent: Node, k: nat, indent: int)
    requires parent.Element? && k <= |parent.children| && PlainNamespaces(parent)
    ensures Count(ChildrenText(parent, k, indent), '<') == ChildTags(parent, k)
    decreases parent, |parent.children|, k
  {
    if k > 0 {
      ChildrenTags(parent, k - 1, indent);
      var c := parent.children[k - 1];
      assert c in parent.children;
      SerializedTags(c, NextIndent(indent), parent.namespace);
      ChildrenTagsStep(parent, k, indent);
    }
  }

  lemma ChildrenTagsStep(parent: Node, k: nat, indent: int)
    requires parent.Element? && 0 < k <= |parent.children|
    requires Count(ChildrenText(parent, k - 1, indent), '<') == ChildTags(parent, k - 1)
    requires Count(Serialized(parent.children[k - 1], NextIndent(indent), parent.namespace), '<')
      == Tags(parent.children[k - 1])
    ensures Count(ChildrenText(parent, k, indent), '<') == ChildTags(parent, k)
  {
    var c := parent.children[k - 1];
    CountSeparated(ChildSeparator(c, indent), Serialized(c, NextIndent(indent), parent.namespace));
    CountConcat(ChildrenText(parent, k - 1, indent), ChildText(parent, k - 1, indent), '<');
  }

  /** A '<'-free separator adds nothing to the count of the text after it. */
  lemma CountSeparated(sep: string, text: string)
    requires '<' !in sep
    ensures Count(sep + text, '<') == Count(text, '<')
  {
    CountAbsent(sep, '<');
    CountConcat(sep, text, '<');
  }

  /** The opening tag begins with the indentation and '<'. */
  lemma OpenTagShape(e: Node, indent: int, parentNamespace: Option<string>)
    requires e.Element?
    ensures var open, ind := OpenTag(e, indent, parentNamespace), Indentation(indent);
      |open| > |ind| && open[..|ind|] == ind && open[|ind|] == '<'
  {
    PrefixKept(Indentation(indent) + "<", TagRest(e, parentNamespace), |Indentation(indent)|);
  }

  lemma PrefixKept(a: string, b: string, k: nat)
    requires k < |a|
    ensures (a + b)[..k] == a[..k] && (a + b)[k] == a[k]
  {
  }

  /** An element's text begins with its indentation and '<' and ends with '>'. */
  lemma SerializedElementShape(e: Node, indent: int, parentNamespace: Option<string>)
    requires e.Element?
    ensures var r, ind := Serialized(e, indent, parentNamespace), Indentation(indent);
      |r| > |ind| && r[..|ind|] == ind && r[|ind|] == '<' && r[|r| - 1] == '>'
  {
    var open := OpenTag(e, indent, parentNamespace);
    var ind := Indentation(indent);
    OpenTagShape(e, indent, parentNamespace);
    if e.children == [] {
      PrefixKept(open, "/>", |ind|);
    } else {
      var kids := ChildrenText(e, |e.children|, indent);
      var nl := if indent != -1 && LastIsTag(e, |e.children|) then "\n" + Indentation(indent) else "";
      CloseTagEnds(e.name);
      Framed(open, kids, nl, CloseTag(e.name), |ind|);
    }
  }

  lemma CloseTagEnds(name: string)
    ensures var close := CloseTag(name); close != [] && close[|close| - 1] == '>'
  {
    LastOfConcat("</" + EscapeForXml(Some(name)), ">");
  }

  /** What a text built from `open` and ending in `close` starts and ends with. */
  lemma Framed(open: string, kids: string, nl: string, close: string, k: nat)
    requires k < |open| && close != []
    ensures var r := open + ">" + kids + nl + close;
      |r| > k && r[..k] == open[..k] && r[k] == open[k] && r[|r| - 1] == close[|close| - 1]
  {
    var r := open + ">" + kids + nl + close;
    assert r == open + (">" + kids + nl + close);
    PrefixKept(open, ">" + kids + nl + close, k);
    LastOfConcat(open + ">" + kids + nl, close);
  }

  /** Escaping writes nothing exactly when there is nothing to escape. */
  lemma EscapeEmpty(s: string)
    ensures EscapeForXml(Some(s)) == [] <==> s == []
  {
    if s != [] {
      assert EscapeChars(s) == EscapeChar(s[0]) + EscapeChars(s[1..]);
      assert |EscapeChar(s[0])| > 0;
    }
  }

  lemma LastOfConcat(a: string, b: string)
    requires b != []
    ensures a + b != [] && (a + b)[|a + b| - 1] == b[|b| - 1]
  {
  }

  /** LastIsTag is the test "the children's text is empty or ends with '>'". */
  lemma {:induction false} ChildrenEndWithTag(parent: Node, k: nat, indent: int)
    requires parent.Element? && k <= |parent.children|
    ensures var t := ChildrenText(parent, k, indent);
      LastIsTag(parent, k) <==> (t == [] || t[|t| - 1] == '>')
    decreases k
  {
    if k > 0 {
      ChildrenEndWithTag(parent, k - 1, indent);
      var c := parent.children[k - 1];
      ChildLastStep(ChildrenText(parent, k - 1, indent), parent, k - 1, indent, LastIsTag(parent, k - 1));
    }
  }

  /** One step of ChildrenEndWithTag: appending child `c` to text whose last-'>' test is `wasTag`. */
  lemma ChildLastStep(prev: string, parent: Node, i: nat, indent: int, wasTag: bool)
    requires parent.Element? && i < |parent.children|
    requires wasTag <==> (prev == [] || prev[|prev| - 1] == '>')
    ensures var c, t := parent.children[i], prev + ChildText(parent, i, indent);
      (if c.Element? then true else if Trim(c.text) == [] then wasTag else false)
      <==> (t == [] || t[|t| - 1] == '>')
  {
    var c := parent.children[i];
    ChildEnd(c, NextIndent(indent), parent.namespace);
    LastStep(prev, ChildSeparator(c, indent), Serialized(c, NextIndent(indent), parent.namespace), wasTag,
      if c.Element? then true else if Trim(c.text) == [] then wasTag else false);
  }

  /**
   * A child's text is empty exactly when it is a text node that trims to nothing,
   * and otherwise ends with '>' exactly when the child is an element.
   */
  lemma ChildEnd(c: Node, indent: int, parentNamespace: Option<string>)
    ensures var text := Serialized(c, indent, parentNamespace);
      (text == [] <==> c.Text? && Trim(c.text) == [])
      && (text != [] ==> (text[|text| - 1] == '>' <==> c.Element?))
  {
    var text := Serialized(c, indent, parentNamespace);
    if c.Element? {
      SerializedElementShape(c, indent, parentNamespace);
    } else {
      EscapeEmpty(Trim(c.text));
      EscapedIsPlain(Some(Trim(c.text)));
      if text != [] {
        assert text[|text| - 1] in text;
      }
    }
  }

  /** How the last character of `prev + sep + text` follows from its pieces. */
  lemma LastStep(prev: string, sep: string, text: string, wasTag: bool, isTag: bool)
    requires wasTag <==> (prev == [] || prev[|prev| - 1] == '>')
    requires text == [] ==> sep == [] && (isTag <==> wasTag)
    requires text != [] ==> (isTag <==> text[|text| - 1] == '>')
    ensures var t := prev + (sep + text); isTag <==> (t == [] || t[|t| - 1] == '>')
  {
    if text == [] {
      assert prev + (sep + text) == prev;
    } else {
      LastOfConcat(sep, text);
      LastOfConcat(prev, sep + text);
    }
  }

  /**
   * The test nodeToString makes on its builder after the children, "the last
   * character is '>'", is LastIsTag.
   */
  lemma BodyEndsWithTag(n: Node, indent: int, parentNamespace: Option<string>)
    requires n.Element?
    ensures var body := OpenTag(n, indent, parentNamespace) + ">" + ChildrenText(n, |n.children|, indent);
      body[|body| - 1] == '>' <==> LastIsTag(n, |n.children|)
  {
    var t := ChildrenText(n, |n.children|, indent);
    ChildrenEndWithTag(n, |n.children|, indent);
    if t == [] {
      LastOfConcat(OpenTag(n, indent, parentNamespace), ">");
      assert OpenTag(n, indent, parentNamespace) + ">" + t == OpenTag(n, indent, parentNamespace) + ">";
    } else {
      LastOfConcat(OpenTag(n, indent, parentNamespace) + ">", t);
    }
  }
}
