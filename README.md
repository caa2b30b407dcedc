# Metawidget XML inspection core, modelled in Dafny

This project models three parts of Metawidget's Java core and proves properties about them.

- **`XmlUtils`**: the DOM helpers Metawidget builds everything else on:
  - the child and sibling lookups, by local name, by attribute and by attribute value;
  - `setMapAsAttributes`;
  - `combineElements`, the recursive merge of two element trees keyed on a combine attribute;
  - the serialiser `nodeToString` / `escapeForXml`;
  - `CachingContentHandler`, the SAX handler that records events, can pause and resume recording, and replays what it recorded.
- **`BaseXmlInspector`**: the inspector that works on XML metadata:
  - the constructor merges its input documents into one root (`getDocumentElement`) and checks its flags;
  - `traverse` resolves a path `type/name1/name2/…` over that root, following the name attribute, the `extends` chain, the reference attribute and the type attribute;
  - `inspectTraits` / `inspectTraitSiblings` / `inspectTrait` turn an element into an `entity` of `property` and `action` traits;
  - `inspectAsDom` wraps the result in an `inspection-result` root.
- **`ReadableIdProcessor`**: the JSF widget processor. It gives a component a readable id derived from its binding expression. The id is the first of `id`, `id_2`, `id_3`, … not already among the client ids cached on the metawidget. The children of a stub get ids numbered the same way.

DOM nodes are datatype values (`Dom.Node`). An in-place DOM change in the source becomes a method that returns the changed element. An element's attribute list is kept in insertion order. Its meaning as a map is `Dom.AttrMap`, where a later entry with the same name wins. `Dom.WellFormed` says that attribute names are distinct.

Three things are objects because the source updates their fields in place:
- `CachingContentHandler`, whose state is also available as the value `State()`;
- JSF components (`ReadableIds.Component`);
- the metawidget that caches the client ids (`ReadableIds.Metawidget`).

Each of their methods is proved against a function of the old state. The properties are then proved about those functions.

Modules and files:
- `wrappers.dfy`: Option and Result.
- `dom.dfy`: nodes and attribute maps.
- `xml_lookup.dfy`: lookups and `setMapAsAttributes`.
- `xml_combine.dfy`: `combineElements`.
- `xml_serialize.dfy`: `nodeToString` and `escapeForXml`.
- `xml_caching.dfy`: `CachingContentHandler`.
- `inspector_traverse.dfy`: `traverse` and the hooks.
- `xml_inspector.dfy`: the rest of `BaseXmlInspector`.
- `readable_id.dfy`: `ReadableIdProcessor`.

Two things come in from outside as inputs:
- **Java reflection.** `traverse` and `inspectAsDom` use reflection in two ways:
  - to climb the superclasses of a class; this is the map `classes` from a class name to its superclass chain;
  - to walk a live object under `restrictAgainstObject`; this is the `ObjectWalk` that walk produced.
- **Subclass hooks.** The hooks subclasses override are fields of `InspectorTraverse.Hooks`:
  - the attribute names;
  - `inspectProperty` / `inspectAction`, as functions.

  `DefaultHooks` gives the base class's values.

Code and documentation disagree in one place; the model follows the code:
- **`inspectTrait` (`BaseXmlInspector.java:526-528`).** The source reports an ambiguous match when `inspectProperty` returned a non-null but empty map and `inspectAction` returned a non-empty map. It does not do so when both are non-empty, because a non-empty property map returns first. The model does the same (`XmlInspector.TraitOf`).

A note on what the code does:
- **`combineElements` on empty attribute values (`XmlUtils.java:478-482`).** An attribute of `toAdd` with an empty value is removed and then set again to the empty string. The removal has no effect on the result: `master` ends up with the attribute present and empty. The model states the result as `AttrMap(master) + AttrMap(toAdd)`.

## Model

| member | source | states |
|---|---|---|
| Dom.GetAttribute | modules/java/core/src/main/java/org/metawidget/util/XmlUtils.java:501-503 | getAttribute yields "" when no entry of the element carries the name (and for a text node); with distinct names, it yields the value of the one entry that carries it |
| Dom.SetAttribute | modules/java/core/src/main/java/org/metawidget/util/XmlUtils.java:105 | setAttribute changes the attribute map at that name only, keeps names distinct and changes nothing else of the element |
| Dom.RemoveAttribute | modules/java/core/src/main/java/org/metawidget/util/XmlUtils.java:101 | removeAttribute drops that name from the attribute map and changes nothing else |
| XmlLookup.IndexNamed | modules/java/core/src/main/java/org/metawidget/util/XmlUtils.java:119-150 | the position of the first element with the local name; none before it has it; absent iff no child has it |
| XmlLookup.GetChildNamed | modules/java/core/src/main/java/org/metawidget/util/XmlUtils.java:119-150 | a null element or an empty path gives null |
| XmlLookup.GetChildNamedOne | modules/java/core/src/main/java/org/metawidget/util/XmlUtils.java:119-150 | one name: the first element child with that local name, null iff there is none |
| XmlLookup.GetChildNamedSnoc | modules/java/core/src/main/java/org/metawidget/util/XmlUtils.java:119-150 | a path of names is matched level by level: the lookup of names+[n] is the lookup of n below the lookup of names |
| XmlLookup.IndexWithAttribute | modules/java/core/src/main/java/org/metawidget/util/XmlUtils.java:152-175 | the first element carrying the attribute; none before it carries it; absent iff none does |
| XmlLookup.GetChildWithAttribute | modules/java/core/src/main/java/org/metawidget/util/XmlUtils.java:152-175 | null for a null element; otherwise the first element child with the attribute, null iff there is none |
| XmlLookup.IndexWithAttributeValue | modules/java/core/src/main/java/org/metawidget/util/XmlUtils.java:177-240 | the first element whose attribute has the value; none before it does; absent iff none does |
| XmlLookup.GetChildWithAttributeValue | modules/java/core/src/main/java/org/metawidget/util/XmlUtils.java:177-240 | null for a null element; otherwise the first element child, in document order, whose attribute equals the value, null iff there is none |
| XmlLookup.GetSiblingNamed | modules/java/core/src/main/java/org/metawidget/util/XmlUtils.java:248-271 | searches only after the given position: the first following element with the local name, or null when none follows |
| XmlLookup.GetSiblingWithAttribute | modules/java/core/src/main/java/org/metawidget/util/XmlUtils.java:279-304 | the first following sibling element carrying the attribute, or null when none follows |
| XmlLookup.FirstChildElement | modules/java/core/src/main/java/org/metawidget/util/XmlUtils.java:422-432 | the first child that is an element; everything before it is text; null iff all children are text |
| XmlLookup.NextSiblingElement | modules/java/core/src/main/java/org/metawidget/util/XmlUtils.java:434-452 | the next sibling that is an element; the nodes skipped are text; null iff only text follows |
| XmlLookup.SetMapAsAttributes | modules/java/core/src/main/java/org/metawidget/util/XmlUtils.java:91-108 | a null map changes nothing; null values remove their attribute, others set or overwrite it, every other attribute and the rest of the element are unchanged |
| XmlCombine.MergeAttributes | modules/java/core/src/main/java/org/metawidget/util/XmlUtils.java:470-483 | master's attributes become master's overridden by all of toAdd's (empty values included); name, namespace and children untouched |
| XmlCombine.CombineElements | modules/java/core/src/main/java/org/metawidget/util/XmlUtils.java:463-561 | fails iff some element child of toAdd lacks the combine value, repeats one, or matches a master child of another node name (recursively); on success master keeps its name, gets toAdd's attributes, keeps its own children in order (each matched one merged recursively on the child attribute), holds each unmatched element child of toAdd exactly once (a one-to-one correspondence between master's added children and toAdd's unmatched children), and with no match at all has them appended in order |
| XmlCombine.CombineChild | modules/java/core/src/main/java/org/metawidget/util/XmlUtils.java:494-560 | one round of the outer loop: an error only when the merge cannot succeed; otherwise the loop invariant (master's children kept or merged at increasing positions, each unmatched child inserted once) holds for one more child |
| XmlCombine.NotCombinableAt | modules/java/core/src/main/java/org/metawidget/util/XmlUtils.java:504-533 | each of the three error conditions on one child of toAdd makes the whole merge fail |
| XmlSerialize.EscapedIsPlain | modules/java/core/src/main/java/org/metawidget/util/XmlUtils.java:1592-1607 | null escapes to ""; the escaped text contains no raw <, >, " or ' |
| XmlSerialize.EscapeIsFivePasses | modules/java/core/src/main/java/org/metawidget/util/XmlUtils.java:1598-1606 | the character-wise escape equals the five replaceAll passes, & first |
| XmlSerialize.UnescapeEscape | modules/java/core/src/main/java/org/metawidget/util/XmlUtils.java:1592-1607 | escaping loses nothing: decoding the five entities gives the input back |
| XmlSerialize.TrimSpec | modules/java/core/src/main/java/org/metawidget/util/XmlUtils.java:1484 | String.trim removes exactly the leading and trailing characters <= ' ' |
| XmlSerialize.Indentation | modules/java/core/src/main/java/org/metawidget/util/XmlUtils.java:1585-1590 | three spaces per level, nothing for a negative level |
| XmlSerialize.Indent | modules/java/core/src/main/java/org/metawidget/util/XmlUtils.java:1585-1590 | the loop appends exactly that indentation |
| XmlSerialize.NodeToString | modules/java/core/src/main/java/org/metawidget/util/XmlUtils.java:1468-1474 | null for a null node, otherwise the serialised form |
| XmlSerialize.NodeToStringPretty | modules/java/core/src/main/java/org/metawidget/util/XmlUtils.java:362-365 | pretty starts at indent 0, otherwise at -1 (no line breaks) |
| XmlSerialize.SerializeNode | modules/java/core/src/main/java/org/metawidget/util/XmlUtils.java:1476-1583 | the builder code produces the serialised form: text trimmed and escaped; element as indented open tag, xmlns when the namespace differs from the parent's, name first, other attributes escaped, then "/>" or children and a close tag on a new indented line after a tag |
| XmlSerialize.AppendOpenTag | modules/java/core/src/main/java/org/metawidget/util/XmlUtils.java:1491-1542 | appends the indentation, tag name, xmlns and attributes in that order |
| XmlSerialize.AppendChildren | modules/java/core/src/main/java/org/metawidget/util/XmlUtils.java:1560-1568 | the child loop appends each child's text, a newline before elements when indenting |
| XmlSerialize.AppendChild | modules/java/core/src/main/java/org/metawidget/util/XmlUtils.java:1561-1567 | one round of the child loop |
| XmlSerialize.SerializedTags | modules/java/core/src/main/java/org/metawidget/util/XmlUtils.java:1487-1583 | with namespaces free of '<', the output holds one '<' per tag: one per empty element, two per element with children |
| XmlSerialize.SerializedElementShape | modules/java/core/src/main/java/org/metawidget/util/XmlUtils.java:1491-1579 | an element's text is its indentation, then '<', and ends with '>' |
| XmlSerialize.BodyEndsWithTag | modules/java/core/src/main/java/org/metawidget/util/XmlUtils.java:1570-1573 | the builder's "last character is '>'" test is the same as "the last child written was an element" (or none was) |
| XmlSerialize.ChildrenEndWithTag | modules/java/core/src/main/java/org/metawidget/util/XmlUtils.java:1560-1573 | the same equivalence for every prefix of the child list |
| XmlCaching.PauseStep | modules/java/core/src/main/java/org/metawidget/util/XmlUtils.java:816-827 | pause fails when already paused, and pause(false) fails with nothing cached; otherwise recording stops and pause(false) drops the last cached event |
| XmlCaching.UnpauseStep | modules/java/core/src/main/java/org/metawidget/util/XmlUtils.java:835-846 | unpause fails when not paused; otherwise recording resumes and unpause(true) appends the last event (null when there was none) |
| XmlCaching.ReceiveOutcome | modules/java/core/src/main/java/org/metawidget/util/XmlUtils.java:893-1036 | an event fails exactly for a second startDocument while recording, or once the delegate is released; pausing is unaffected |
| XmlCaching.ReceiveDone | modules/java/core/src/main/java/org/metawidget/util/XmlUtils.java:893-1036 | a successful event becomes the last event, is cached unless paused and forwarded to the delegate; endDocument releases the delegate |
| XmlCaching.ReplayAll | modules/java/core/src/main/java/org/metawidget/util/XmlUtils.java:857-866 | replay fails on an empty cache, then on a delegate still set |
| XmlCaching.ReplayStopsAtNull | modules/java/core/src/main/java/org/metawidget/util/XmlUtils.java:868-870 | replay delivers the cached events in order up to the first null entry, and succeeds iff there is none |
| XmlCaching.RecordingRun | modules/java/core/src/main/java/org/metawidget/util/XmlUtils.java:910-1019 | while recording, a run of ordinary events is cached and forwarded in order |
| XmlCaching.PausedRun | modules/java/core/src/main/java/org/metawidget/util/XmlUtils.java:910-1019 | while paused, events are forwarded but the cache does not change |
| XmlCaching.ReplayCached | modules/java/core/src/main/java/org/metawidget/util/XmlUtils.java:868-870 | replaying a cache of events gives those events back |
| XmlCaching.RecordThenReplay | modules/java/core/src/main/java/org/metawidget/util/XmlUtils.java:857-1036 | a whole document is forwarded, the delegate released at endDocument, and replay reproduces the document exactly |
| XmlCaching.PauseUnpauseRestores | modules/java/core/src/main/java/org/metawidget/util/XmlUtils.java:816-846 | pause(false) then unpause(true) right away restores the handler exactly |
| XmlCaching.PausedFragment | modules/java/core/src/main/java/org/metawidget/util/XmlUtils.java:816-846 | event, pause(false), events, unpause(true): the cache gains only the last event |
| XmlCaching.CachingContentHandler.constructor | modules/java/core/src/main/java/org/metawidget/util/XmlUtils.java:796-799 | a new handler: delegate set, nothing cached or forwarded, not paused |
| XmlCaching.CachingContentHandler.Pause | modules/java/core/src/main/java/org/metawidget/util/XmlUtils.java:816-827 | the fields change as PauseStep says |
| XmlCaching.CachingContentHandler.Unpause | modules/java/core/src/main/java/org/metawidget/util/XmlUtils.java:835-846 | the fields change as UnpauseStep says |
| XmlCaching.CachingContentHandler.Replay | modules/java/core/src/main/java/org/metawidget/util/XmlUtils.java:857-871 | the replay loop delivers what ReplayAll says |
| XmlCaching.CachingContentHandler.ReleaseDelegate | modules/java/core/src/main/java/org/metawidget/util/XmlUtils.java:881-886 | the delegate and the last event are dropped, the cache kept |
| XmlCaching.CachingContentHandler.DeliverToDelegate | modules/java/core/src/main/java/org/metawidget/util/XmlUtils.java:906 | forwarding to the delegate, failing once it is released |
| XmlCaching.CachingContentHandler.RecordEvent | modules/java/core/src/main/java/org/metawidget/util/XmlUtils.java:913-919 | the shared handler body: remember, cache unless paused, forward |
| XmlCaching.CachingContentHandler.StartDocument | modules/java/core/src/main/java/org/metawidget/util/XmlUtils.java:893-907 | as Receive, refusing a second document while recording |
| XmlCaching.CachingContentHandler.ProcessingInstruction | modules/java/core/src/main/java/org/metawidget/util/XmlUtils.java:910-920 | as Receive |
| XmlCaching.CachingContentHandler.SetDocumentLocator | modules/java/core/src/main/java/org/metawidget/util/XmlUtils.java:923-926 | forwarded, never cached |
| XmlCaching.CachingContentHandler.SkippedEntity | modules/java/core/src/main/java/org/metawidget/util/XmlUtils.java:929-939 | as Receive |
| XmlCaching.CachingContentHandler.StartPrefixMapping | modules/java/core/src/main/java/org/metawidget/util/XmlUtils.java:942-952 | as Receive |
| XmlCaching.CachingContentHandler.EndPrefixMapping | modules/java/core/src/main/java/org/metawidget/util/XmlUtils.java:955-965 | as Receive |
| XmlCaching.CachingContentHandler.StartElement | modules/java/core/src/main/java/org/metawidget/util/XmlUtils.java:968-978 | as Receive |
| XmlCaching.CachingContentHandler.Characters | modules/java/core/src/main/java/org/metawidget/util/XmlUtils.java:982-992 | the characters in range are received; a range outside the array fails and changes nothing |
| XmlCaching.CachingContentHandler.IgnorableWhitespace | modules/java/core/src/main/java/org/metawidget/util/XmlUtils.java:996-1006 | as Characters |
| XmlCaching.CachingContentHandler.EndElement | modules/java/core/src/main/java/org/metawidget/util/XmlUtils.java:1009-1019 | as Receive |
| XmlCaching.CachingContentHandler.EndDocument | modules/java/core/src/main/java/org/metawidget/util/XmlUtils.java:1022-1036 | as Receive, releasing the delegate afterwards |
| InspectorTraverse.Restrict | modules/java/core/src/main/java/org/metawidget/inspector/impl/BaseXmlInspector.java:581-609 | without an object or restrictAgainstObject, the type and names are used as given and the declared type is the type; with them, a null value returns (null, declaredType) at once; otherwise the object's class becomes the type, the declared type is the reported one or else the class, and the names become the last name (onlyToParent; no names is an error) or none |
| InspectorTraverse.FirstTopLevel | modules/java/core/src/main/java/org/metawidget/inspector/impl/BaseXmlInspector.java:637-646 | climbing the superclasses finds the top-level element of the nearest superclass that has one, null iff none has |
| InspectorTraverse.FindTopLevel | modules/java/core/src/main/java/org/metawidget/inspector/impl/BaseXmlInspector.java:613-651 | a top-level element found is one of the root's element children |
| InspectorTraverse.ClimbSuperclasses | modules/java/core/src/main/java/org/metawidget/inspector/impl/BaseXmlInspector.java:637-646 | the while loop computes FirstTopLevel |
| InspectorTraverse.LocateTopLevel | modules/java/core/src/main/java/org/metawidget/inspector/impl/BaseXmlInspector.java:613-651 | computes FindTopLevel |
| InspectorTraverse.NoTopLevelElement | modules/java/core/src/main/java/org/metawidget/inspector/impl/BaseXmlInspector.java:614-620 | with no top-level element of the type and no inference, traverse returns (null, declaredType) |
| InspectorTraverse.NoNamesGiveTopLevel | modules/java/core/src/main/java/org/metawidget/inspector/impl/BaseXmlInspector.java:653-663 | with no names, traverse returns the top-level element of the type |
| InspectorTraverse.ExtendsHop | modules/java/core/src/main/java/org/metawidget/inspector/impl/BaseXmlInspector.java:687-707 | one round of the extends loop stops at cur exactly when cur has no extends attribute; stops with nothing exactly when no top-level element has the extended type; a move goes to the first top-level element whose type is cur's extends value, and only when that element has no child with the name; a property it stops with is the named child of the element it stops at |
| InspectorTraverse.ExtendsHopTarget | modules/java/core/src/main/java/org/metawidget/inspector/impl/BaseXmlInspector.java:692-706 | when cur's extends value names a top-level element, the round moves to the first such element exactly when it has no child with the name, and otherwise stops there with that child; a property is only ever found under that element |
| InspectorTraverse.HopsThenLoop | modules/java/core/src/main/java/org/metawidget/inspector/impl/BaseXmlInspector.java:687-707 | running the loop m rounds from x is running it from where m rounds lead |
| InspectorTraverse.CycleNeverEnds | modules/java/core/src/main/java/org/metawidget/inspector/impl/BaseXmlInspector.java:687-707 | a loop that comes back to where it started never ends, for any number of rounds |
| InspectorTraverse.LoopAgrees | modules/java/core/src/main/java/org/metawidget/inspector/impl/BaseXmlInspector.java:687-707 | wherever the loop as written ends, the loop that stops on revisiting ends at the same place |
| InspectorTraverse.CorrectedExtendsWalk | modules/java/core/src/main/java/org/metawidget/inspector/impl/BaseXmlInspector.java:685-707 | the corrected extends walk agrees with the source's whenever the source's ends |
| InspectorTraverse.ExtendsWalkFinds | modules/java/core/src/main/java/org/metawidget/inspector/impl/BaseXmlInspector.java:680-707 | the extends walk ends at the start element or a top-level element, and any property found is the first child there with the name |
| InspectorTraverse.ExtendsCycleNeverEnds | modules/java/core/src/main/java/org/metawidget/inspector/impl/BaseXmlInspector.java:687-707 | two top-level elements extending each other, name found in neither: the source's loop never ends |
| InspectorTraverse.ExtendsCycleCorrected | modules/java/core/src/main/java/org/metawidget/inspector/impl/BaseXmlInspector.java:687-707 | on that input the corrected walk ends at the second element with no property |
| InspectorTraverse.WalkExtends | modules/java/core/src/main/java/org/metawidget/inspector/impl/BaseXmlInspector.java:685-707 | the while loop (corrected) computes ExtendsWalk |
| InspectorTraverse.LookUpOrder | modules/java/core/src/main/java/org/metawidget/inspector/impl/BaseXmlInspector.java:680-708 | a name is looked up directly under the current element first, then along the extends chain; a property found carries the name and is the first such child |
| InspectorTraverse.NotFoundRound | modules/java/core/src/main/java/org/metawidget/inspector/impl/BaseXmlInspector.java:713-730 | the result is (null, null) exactly when neither the name, the extends chain nor the reference attribute finds a child |
| InspectorTraverse.LastRoundReturnsProperty | modules/java/core/src/main/java/org/metawidget/inspector/impl/BaseXmlInspector.java:732-734 | with onlyToParent the last name returns the property element itself: one named so, or a reference with the name as declared type |
| InspectorTraverse.OnlyToParentEndsAtProperty | modules/java/core/src/main/java/org/metawidget/inspector/impl/BaseXmlInspector.java:674-734 | over a whole path with onlyToParent, an element returned carries the last name as name or reference |
| InspectorTraverse.UntypedPropertyFails | modules/java/core/src/main/java/org/metawidget/inspector/impl/BaseXmlInspector.java:736-761 | an exception is raised exactly for a property, not last, with no type attribute, no named children and no referencing children |
| InspectorTraverse.NotLastStopHasNoValue | modules/java/core/src/main/java/org/metawidget/inspector/impl/BaseXmlInspector.java:713-770 | a path that stops before its last name yields no element |
| InspectorTraverse.DeclaredTypeWithoutTopLevel | modules/java/core/src/main/java/org/metawidget/inspector/impl/BaseXmlInspector.java:766-770 | a declared type with no top-level element yields (null, declaredType) |
| InspectorTraverse.Descend | modules/java/core/src/main/java/org/metawidget/inspector/impl/BaseXmlInspector.java:766-783 | moving to a declared type either continues or stops with (null, declaredType); it continues only at the first top-level element of that type, whose type attribute (when present) replaces the declared type |
| InspectorTraverse.DescendContinues | modules/java/core/src/main/java/org/metawidget/inspector/impl/BaseXmlInspector.java:768-772 | when some top-level element has the declared type, descending continues (with DeclaredTypeWithoutTopLevel: it stops exactly when none has) |
| InspectorTraverse.RoundYieldsElement | modules/java/core/src/main/java/org/metawidget/inspector/impl/BaseXmlInspector.java:674-783 | each round continues from an element and returns only elements |
| InspectorTraverse.WalkYieldsElement | modules/java/core/src/main/java/org/metawidget/inspector/impl/BaseXmlInspector.java:674-786 | the walk over the names returns only elements |
| InspectorTraverse.TraversalYieldsElement | modules/java/core/src/main/java/org/metawidget/inspector/impl/BaseXmlInspector.java:577-787 | the value traverse returns is an element (the cast in inspectAsDom cannot fail) |
| InspectorTraverse.RunRound | modules/java/core/src/main/java/org/metawidget/inspector/impl/BaseXmlInspector.java:675-783 | one round of the names loop computes NameRound |
| InspectorTraverse.RunNames | modules/java/core/src/main/java/org/metawidget/inspector/impl/BaseXmlInspector.java:674-786 | the for loop over the names computes WalkNames |
| InspectorTraverse.Traverse | modules/java/core/src/main/java/org/metawidget/inspector/impl/BaseXmlInspector.java:577-787 | traverse computes Traversal, about which the lemmas above are proved |
| XmlInspector.GetDocumentElement | modules/java/core/src/main/java/org/metawidget/inspector/impl/BaseXmlInspector.java:392-418 | documents without a root are skipped; null iff none has one; a single root is returned as is; otherwise each later root is merged into the first in order (a chain of merges on the top-level type and name attributes) keeping the first's name, or the merge that cannot succeed is reported |
| XmlInspector.ChainKeepsName | modules/java/core/src/main/java/org/metawidget/inspector/impl/BaseXmlInspector.java:405-417 | the merged root has the first root's name and namespace |
| XmlInspector.NewInspector | modules/java/core/src/main/java/org/metawidget/inspector/impl/BaseXmlInspector.java:143-183 | input streams take precedence over documents; no root gives "No XML input file specified"; restrictAgainstObject with inferInheritanceHierarchy is refused; otherwise the inspector holds the hooks, the flags and the root that combining every document element in order into the first one gives (MergedRoots); a combine failure happens only at a document element that does not combine into the ones before it (CombineStops), and with a root and consistent flags the only possible error is a combine failure |
| XmlInspector.TraitOf | modules/java/core/src/main/java/org/metawidget/inspector/impl/BaseXmlInspector.java:506-537 | a non-empty property map makes a property; else a non-empty action map makes an action, or an ambiguous-match error when the property map was empty but not null; else nothing |
| XmlInspector.TraitElement | modules/java/core/src/main/java/org/metawidget/inspector/impl/BaseXmlInspector.java:513-514 | a new trait element carries exactly the map's attributes |
| XmlInspector.InspectTrait | modules/java/core/src/main/java/org/metawidget/inspector/impl/BaseXmlInspector.java:506-537 | returns the element TraitOf decides on, or its error |
| XmlInspector.TraitsFromSkip | modules/java/core/src/main/java/org/metawidget/inspector/impl/BaseXmlInspector.java:480-493 | text between elements contributes no traits |
| XmlInspector.InspectTraitSiblings | modules/java/core/src/main/java/org/metawidget/inspector/impl/BaseXmlInspector.java:480-494 | appends the traits of the element siblings from the start, in order, or fails with the first error |
| XmlInspector.TraitsHop | modules/java/core/src/main/java/org/metawidget/inspector/impl/BaseXmlInspector.java:453-458 | stops at cur exactly when the format has no extends attribute or cur does not carry it; otherwise it moves exactly when the top-level lookup (FindTopLevel, as traverse(null, extends, false) runs it) finds an element, and moves to that element; without inferInheritanceHierarchy that is the first top-level element whose type equals the extends value, and it stops with nothing exactly when there is none; a stop never carries a property |
| XmlInspector.CorrectedInheritance | modules/java/core/src/main/java/org/metawidget/inspector/impl/BaseXmlInspector.java:443-458 | the corrected recursion agrees with the source's whenever the source's ends |
| XmlInspector.InheritanceCycleNeverEnds | modules/java/core/src/main/java/org/metawidget/inspector/impl/BaseXmlInspector.java:453-458 | two top-level elements extending each other: the source's recursion never ends |
| XmlInspector.InspectTraits | modules/java/core/src/main/java/org/metawidget/inspector/impl/BaseXmlInspector.java:443-470 | null changes nothing; otherwise the extended element is done first, then the element's own traits are merged over it on the name attribute (subclass attributes win); the entity keeps its name and attributes; trait errors propagate; InspectedTraits states the whole chain: each step is the previous result with that element's own trait entity combined into it, and the first failure is the result |
| XmlInspector.InspectOwnTraits | modules/java/core/src/main/java/org/metawidget/inspector/impl/BaseXmlInspector.java:463-469 | the element's own traits, as an entity, merged into toAddTo on the name attribute; a trait error is returned as is, and a combine failure occurs exactly when the entity does not combine (OwnTraitsOnto) |
| XmlInspector.InspectParent | modules/java/core/src/main/java/org/metawidget/inspector/impl/BaseXmlInspector.java:301-309 | the parent attributes are inspectProperty of the property a non-empty path ends at |
| XmlInspector.InspectFound | modules/java/core/src/main/java/org/metawidget/inspector/impl/BaseXmlInspector.java:313-353 | no element and no parent attributes give null; with an element, the entity's children are the traits inspectTraits gives (InspectedTraits onto a new entity), trait errors propagate, and null is returned exactly when that entity has no children and no attributes and there are no parent attributes; every result's entity carries the parent attributes and the declared type (FoundInspected) |
| XmlInspector.InspectionRoot | modules/java/core/src/main/java/org/metawidget/inspector/impl/BaseXmlInspector.java:340-353 | a root of version 1.0 with the entity as only child, holding the parent attributes and then the declared type as type |
| XmlInspector.InspectAsDom | modules/java/core/src/main/java/org/metawidget/inspector/impl/BaseXmlInspector.java:277-361 | null type gives null; traversal errors propagate; no element and no parent attributes give null; a result is a version 1.0 root with one entity carrying the parent attributes and the declared type; after both traversals succeed, the result is what FoundInspected states of what traverse found |
| ReadableIds.ReplaceBrackets | modules/java/faces/core/src/main/java/org/metawidget/faces/component/widgetprocessor/ReadableIdProcessor.java:111 | every [ and ] becomes _, all other characters stay in place; no bracket is left |
| ReadableIds.ParseDecimalString | modules/java/faces/core/src/main/java/org/metawidget/faces/component/widgetprocessor/ReadableIdProcessor.java:138 | the decimal form of the suffix reads back as the suffix |
| ReadableIds.CandidateInjective | modules/java/faces/core/src/main/java/org/metawidget/faces/component/widgetprocessor/ReadableIdProcessor.java:129-139 | id, id_2, id_3, … are all different |
| ReadableIds.CandidatesSize | modules/java/faces/core/src/main/java/org/metawidget/faces/component/widgetprocessor/ReadableIdProcessor.java:132-139 | the first n candidates are n ids, so the loop ends within one more round than there are client ids |
| ReadableIds.FreeFrom | modules/java/faces/core/src/main/java/org/metawidget/faces/component/widgetprocessor/ReadableIdProcessor.java:132-139 | from suffix k on, the first candidate not in use; all before it are in use |
| ReadableIds.FirstFree | modules/java/faces/core/src/main/java/org/metawidget/faces/component/widgetprocessor/ReadableIdProcessor.java:128-139 | the chosen id is the first of id, id_2, id_3, … not in the client-id set |
| ReadableIds.NeverTwice | modules/java/faces/core/src/main/java/org/metawidget/faces/component/widgetprocessor/ReadableIdProcessor.java:128-139 | two assignments in a row hand out two different fresh ids |
| ReadableIds.ChooseId | modules/java/faces/core/src/main/java/org/metawidget/faces/component/widgetprocessor/ReadableIdProcessor.java:129-139 | the while (true) loop returns the FirstFree candidate, which is not in use |
| ReadableIds.ChildIdsDistinct | modules/java/faces/core/src/main/java/org/metawidget/faces/component/widgetprocessor/ReadableIdProcessor.java:147-169 | the stub children without an id get different ids |
| ReadableIds.FirstChildGetsBase | modules/java/faces/core/src/main/java/org/metawidget/faces/component/widgetprocessor/ReadableIdProcessor.java:159-166 | the first child without an id gets the chosen id itself |
| ReadableIds.NumberStubChildren | modules/java/faces/core/src/main/java/org/metawidget/faces/component/widgetprocessor/ReadableIdProcessor.java:147-169 | children with an id keep it and use up no suffix; the k-th child without one gets the k-th candidate on the chosen id |
| ReadableIds.OnStartBuild | modules/java/faces/core/src/main/java/org/metawidget/faces/component/widgetprocessor/ReadableIdProcessor.java:58-61 | the cached client-id set is cleared |
| ReadableIds.GetClientIds | modules/java/faces/core/src/main/java/org/metawidget/faces/component/widgetprocessor/ReadableIdProcessor.java:191-205 | the cached set, or the view's ids, which are cached from then on |
| ReadableIds.SetUniqueId | modules/java/faces/core/src/main/java/org/metawidget/faces/component/widgetprocessor/ReadableIdProcessor.java:115-181 | the client-id set grows by exactly the first free candidate built on the id (on the id plus _Metawidget for a nested metawidget, lines 117-124); a plain component gets it as id; a stub's children are numbered on it and the stub gets the generated id |
| ReadableIds.SetUniqueIdFromExpression | modules/java/faces/core/src/main/java/org/metawidget/faces/component/widgetprocessor/ReadableIdProcessor.java:108-113 | the id is the readable form of the expression with brackets replaced, then made unique as above |
| ReadableIds.ProcessWidget | modules/java/faces/core/src/main/java/org/metawidget/faces/component/widgetprocessor/ReadableIdProcessor.java:63-97 | a component with an id is returned unchanged; actions use the method binding, others the value binding; no binding gives the generated id without touching the client ids |

## Left out

- Parsing and document creation: `documentFromString`, `parse`, `newDocument`, the shared `DocumentBuilder`, `NopEntityResolver` and `getDocumentElement(ResourceResolver, InputStream...)`. The model starts from parsed trees (`XmlInspector.Document`).
- `synchronized` blocks: the model is sequential.
- In-place DOM identity: nodes are values, so aliasing between a master element and nodes held elsewhere is not captured. `importElement` is the identity on values. `getParentNode` becomes the parent's namespace, passed down to the serialiser.
- Java reflection. `ClassUtils.niceForName` and `getSuperclass` become the `classes` map. `PropertyStyle.traverse` for `restrictAgainstObject` becomes its reported `ObjectWalk`. `Class.getName` is the `valueClass` string.
- `validateAgainstClasses` in the constructor (BaseXmlInspector.java:185-248): it relies entirely on reflection over a PropertyStyle.
- Logging (`mLog.isTraceEnabled`, `documentToString` for the trace) and the text of exception messages. Errors are datatype cases.
- `inspectionResultToJsonSchema`, `attributesToJsonSchema`, `arrayToJsonSchema`: they depend on string utilities that are not part of this model.
- `getAttributesAsMap`, `getChildNamed`'s varargs null check, `documentToString` and `importElement`: these are thin wrappers. `Dom.AttrMap` plays the part of `getAttributesAsMap`.
- `CachingContentHandler`: `ArrayList.trimToSize` does nothing observable. The `toString` methods of the cached commands are left out. The SAX `Attributes` copy becomes a sequence of name/value pairs. A `Locator` becomes a number.
- Subclass overrides of `preprocessDocument` (identity here) and `traverseFromTopLevelTypeToNamedChildren` (identity, as in the base class).
- InspectionResultConstants.java is not part of this model. `NAMESPACE`'s value is assumed. The other names (`inspection-result`, `entity`, `property`, `action`, `version`, `type`, `name`) are the format's element and attribute names.
- `ReadableIdProcessor`:
  - `StringUtils.camelCase`, `FacesUtils.unwrapExpression` and `FacesUtils.createUniqueId` are inputs: the function `readable` and the string `generated`.
  - The view-root walk of `getClientIds` is the input set `viewIds`.
  - `onEndBuild` does nothing.
  - The cast of an action component to `ActionSource` is taken to succeed.
- ReadableIds.SetUniqueId: requires that a stub's child list holds each child once and not the stub itself, as a JSF component tree guarantees.
- ReadableIds.ParseDecimalString: Java's `int` suffix is unbounded here; the loop cannot run past the number of client ids, so a wrap-around is not reachable in practice.
- XmlCombine.CombineElements: states that master's children keep their order and that each unmatched child of toAdd is added exactly once, but not where; the position is stated only when nothing matches (appended at the end). The source inserts after the last combine point, which moves with each match and insertion (XmlUtils.java:537-559). So toAdd's order is not kept in general: master [A, B] and toAdd [B', x, A', y] give [A, y, B, x].
- Serialised attribute order: the model keeps attributes in insertion order, so `nodeToString` writes them in that order. In the source the order is whatever the DOM implementation's NamedNodeMap gives (Xerces sorts by name).
- XmlInspector.TraitOf: the hooks inspectProperty/inspectAction return maps of strings. A Java map with a null value, which setMapAsAttributes skips while isEmpty still counts it (BaseXmlInspector.java:512-514), is not modelled.
- ReadableIds.SetUniqueId: JSF's `UIComponent.setId` throws IllegalArgumentException for an invalid id; the model accepts any id.
- XmlLookup.GetChildNamed: its own contract states only the null cases. The path semantics are `GetChildNamedOne` and `GetChildNamedSnoc`.
- InspectorTraverse.FindTopLevel: states only that what it finds is a top-level element. Which one it finds is `FirstTopLevel`, `NoTopLevelElement` and `NoNamesGiveTopLevel`.
- Termination: the corrected extends walk and inheritance recursion stop on revisiting a top-level element (see Findings). The as-written versions take a fuel bound (`LoopAsWritten`), so "does not end" means "gives no result for any fuel".

## Findings

| source | as written | input that shows it | evidently intended | confidence | as-written member | corrected member |
|---|---|---|---|---|---|---|
| modules/java/core/src/main/java/org/metawidget/inspector/impl/BaseXmlInspector.java:687-707 | the `while (true)` loop follows `extends` from top-level element to top-level element until the name is found or the chain ends | with an extends attribute, top-level A (type=A, extends=B) and B (type=B, extends=A), neither with a child named x: traverse of A/x loops forever | stop, with no property, when the chain comes back to an element already visited | medium; not executed | InspectorTraverse.ExtendsCycleNeverEnds | InspectorTraverse.CorrectedExtendsWalk |
| modules/java/core/src/main/java/org/metawidget/inspector/impl/BaseXmlInspector.java:453-458 | `inspectTraits` recurses into the element its `extends` attribute names, with no record of where it has been | the same two elements: inspectTraits of A recurses A, B, A, … until the stack overflows | treat an already visited element as having no further superclass | medium; not executed | XmlInspector.InheritanceCycleNeverEnds | XmlInspector.CorrectedInheritance |
