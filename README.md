# Angular tag descriptors provider — a verified Dafny model

This project models `Angular2TagDescriptorsProvider`, the class through which
the Angular plugin of an IntelliJ-based IDE takes part in two host features:

- **tag-name completion** (`addTagNameVariants`): the provider appends
  suggestions to a completion list that the host owns. It first offers the
  three reserved Angular tags `ng-container`, `ng-content` and `ng-template`,
  each only when no item with that lookup string is in the list yet. Then it
  offers one item per element-directive selector name in the project index.
  A dedup set of names makes sure no name is offered twice. A group of
  directives yields nothing when its directive list is empty, its name is
  empty, its name was already offered, or its declarations proximity is
  `DOES_NOT_EXIST`. An offered item has priority 1 when its proximity is
  `IN_SCOPE` and 0 otherwise. It is grayed when its proximity is
  `PUBLIC_MODULE_EXPORT`.
- **tag resolution** (`getDescriptor`): the provider turns a written tag into
  an element descriptor, or into nothing. It returns nothing outside an
  Angular HTML context and for a tag defined by a namespace. A local name
  equal to a reserved tag, ignoring case, gets a built-in declaration named
  as written. Any other tag gets nothing when no directive is a candidate.
  Otherwise it is backed by the first exactly matched directive, or by the
  first candidate when none matches exactly.

Everything is in one module, `TagDescriptorsProvider`
(`tag_descriptors_provider.dfy`):

- The caller's `List<LookupElement>` is the class `LookupList` with one
  field, `items: seq<LookupItem<D>>`. The methods `AddTagNameVariants`,
  `AddLookupItem` and `AddBuiltInLookupItem` grow it in place. They are
  proved against the pure function `TagNameVariants`, and the lemmas state
  the source's guarantees about that function.
- The loops of `addTagNameVariants` are three helper methods:
  `CollectLookupStrings` builds the dedup set, `AddReservedTags` walks the
  reserved tags, and `AddDirectiveGroups` walks the directive index.
- `getDescriptor` is the pure function `GetDescriptor`.
- The collaborators are inputs:
  - the project's element directives are a sequence of `Group`s, each a name
    with its directives, in the index's iteration order;
  - the declarations scope is a function from a directive list to a
    `Proximity`;
  - the applicable-directives query gives the `candidates` and `matched`
    sequences;
  - the host's local-name helper is a function on strings;
  - "HTML tag in an Angular 2 context" and "defined by a namespace" are
    booleans of the `Tag`.
- What backs an item or a descriptor is a `Component`. `BuiltIn(name)`
  stands for the name string that backs a reserved completion item and for
  the synthetic implicit element of a reserved descriptor. `Selector(d)`
  stands for the selector element of directive `d`.

Details of the source's behaviour the model keeps:

- Angular2TagDescriptorsProvider.java:52 offers a reserved tag only when
  `names.add` reports it new, that is, only when no item with that lookup
  string is in the list yet.
- Angular2TagDescriptorsProvider.java:58 skips a directive group whose
  directive list is empty or whose name is empty, before it touches the
  dedup set.
- Angular2TagDescriptorsProvider.java:58 adds a group's name to the dedup
  set before Angular2TagDescriptorsProvider.java:74-76 drops the item for
  `DOES_NOT_EXIST`. A dropped group therefore still blocks later groups of
  the same name. With a map as the index no name repeats, so this has no
  visible effect. `DirectiveItems` models it exactly anyway.

## Model

| member | source | states |
|---|---|---|
| `TagDescriptorsProvider.LookupItemFor` | AngularJS/src/org/angular2/codeInsight/tags/Angular2TagDescriptorsProvider.java:69-87 | addLookupItem adds nothing exactly when the proximity is DOES_NOT_EXIST; otherwise it adds one item with the given name and component, priority 1 iff IN_SCOPE and 0 otherwise, grayed iff PUBLIC_MODULE_EXPORT |
| `TagDescriptorsProvider.LookupStringsAppend` | AngularJS/src/org/angular2/codeInsight/tags/Angular2TagDescriptorsProvider.java:48-50 | adding one item's lookup string to the set, as the loop does, gives the set of the list extended by that item |
| `TagDescriptorsProvider.ReservedItems` | AngularJS/src/org/angular2/codeInsight/tags/Angular2TagDescriptorsProvider.java:51-55 | walking the reserved names adds at most one item per name, and every added item is an in-scope built-in with priority 1 |
| `TagDescriptorsProvider.DirectiveItems` | AngularJS/src/org/angular2/codeInsight/tags/Angular2TagDescriptorsProvider.java:57-61 | walking the index adds at most one item per group, and every added item has a non-empty name and is backed by a directive selector |
| `TagDescriptorsProvider.TagNameVariants` | AngularJS/src/org/angular2/codeInsight/tags/Angular2TagDescriptorsProvider.java:41-62 | the resulting list keeps the original list as a prefix (completion only appends); outside an Angular HTML context the list is unchanged |
| `TagDescriptorsProvider.AddLookupItem` | AngularJS/src/org/angular2/codeInsight/tags/Angular2TagDescriptorsProvider.java:69-87 | the list grows by exactly the items LookupItemFor describes, and by nothing else |
| `TagDescriptorsProvider.AddBuiltInLookupItem` | AngularJS/src/org/angular2/codeInsight/tags/Angular2TagDescriptorsProvider.java:65-67 | a reserved tag is appended as one in-scope item (priority 1, not grayed), backed by its own name |
| `TagDescriptorsProvider.CollectLookupStrings` | AngularJS/src/org/angular2/codeInsight/tags/Angular2TagDescriptorsProvider.java:47-50 | the dedup set starts as exactly the lookup strings of the items already in the list |
| `TagDescriptorsProvider.AddReservedTags` | AngularJS/src/org/angular2/codeInsight/tags/Angular2TagDescriptorsProvider.java:51-55 | the list grows by the reserved items for the current dedup set, and the set afterwards also holds all three reserved names |
| `TagDescriptorsProvider.AddDirectiveGroups` | AngularJS/src/org/angular2/codeInsight/tags/Angular2TagDescriptorsProvider.java:56-62 | the list grows by exactly the directive items for the dedup set and the index |
| `TagDescriptorsProvider.AddTagNameVariants` | AngularJS/src/org/angular2/codeInsight/tags/Angular2TagDescriptorsProvider.java:41-63 | the caller's list afterwards is TagNameVariants of the list before: unchanged outside an Angular HTML context, otherwise only appended to |
| `TagDescriptorsProvider.ReservedItemsFresh` | AngularJS/src/org/angular2/codeInsight/tags/Angular2TagDescriptorsProvider.java:47-55 | the reserved items carry no name of the dedup set and no name twice; each is a reserved name as an in-scope, non-grayed built-in |
| `TagDescriptorsProvider.ReservedItemsInOrder` | AngularJS/src/org/angular2/codeInsight/tags/Angular2TagDescriptorsProvider.java:51-55 | ng-container, ng-content and ng-template are offered in that order, each iff it is not in the dedup set, each with priority 1 and not grayed |
| `TagDescriptorsProvider.DirectiveItemsFresh` | AngularJS/src/org/angular2/codeInsight/tags/Angular2TagDescriptorsProvider.java:57-61 | the directive items carry no name of the dedup set and no name twice |
| `TagDescriptorsProvider.DirectiveItemsFromGroups` | AngularJS/src/org/angular2/codeInsight/tags/Angular2TagDescriptorsProvider.java:57-61 | every directive item is the item of one contributing group (non-empty directives, non-empty new name, proximity not DOES_NOT_EXIST), backed by its first directive's selector |
| `TagDescriptorsProvider.DirectiveItemsCoverGroups` | AngularJS/src/org/angular2/codeInsight/tags/Angular2TagDescriptorsProvider.java:57-61 | with distinct selector names, every contributing group's item is among the directive items |
| `TagDescriptorsProvider.VariantsNoDuplicates` | AngularJS/src/org/angular2/codeInsight/tags/Angular2TagDescriptorsProvider.java:47-62 | no appended name equals a lookup string already in the list or another appended name |
| `TagDescriptorsProvider.VariantsReservedFirst` | AngularJS/src/org/angular2/codeInsight/tags/Angular2TagDescriptorsProvider.java:47-62 | the result is the old list, then the missing reserved tags in order, each as priority-1 built-in, then the directive items deduplicated against the old names and all three reserved names |
| `TagDescriptorsProvider.VariantsItemsFromSources` | AngularJS/src/org/angular2/codeInsight/tags/Angular2TagDescriptorsProvider.java:51-86 | every appended item is a reserved built-in with priority 1, or the item of a contributing directive group, with priority 1 iff IN_SCOPE and grayed iff PUBLIC_MODULE_EXPORT |
| `TagDescriptorsProvider.VariantsGroupContribution` | AngularJS/src/org/angular2/codeInsight/tags/Angular2TagDescriptorsProvider.java:57-61 | for an index with distinct names, a group yields a directive-backed item iff its list is non-empty, its name is non-empty and new, and its proximity is not DOES_NOT_EXIST |
| `TagDescriptorsProvider.GetDescriptor` | AngularJS/src/org/angular2/codeInsight/tags/Angular2TagDescriptorsProvider.java:91-112 | a descriptor exists iff the tag is an Angular HTML tag not defined by a namespace and its local name is reserved or some directive is a candidate; a descriptor always carries the local name |
| `TagDescriptorsProvider.DescriptorOutsideAngular` | AngularJS/src/org/angular2/codeInsight/tags/Angular2TagDescriptorsProvider.java:92-96 | outside an Angular HTML context, or for a tag a namespace defines, there is no descriptor |
| `TagDescriptorsProvider.ReservedTagResolvesBuiltIn` | AngularJS/src/org/angular2/codeInsight/tags/Angular2TagDescriptorsProvider.java:97-100 | a local name equal to a reserved tag ignoring case resolves to a built-in declaration carrying the name as written, whatever the directives |
| `TagDescriptorsProvider.IsReservedTag` | AngularJS/src/org/angular2/codeInsight/tags/Angular2TagDescriptorsProvider.java:98 | a local name passes the reserved-tag test exactly when lower-casing its ASCII letters gives ng-container, ng-content or ng-template |
| `TagDescriptorsProvider.LowerCaseTagMatch` | AngularJS/src/org/angular2/codeInsight/tags/Angular2TagDescriptorsProvider.java:98 | a lower-case tag name equals another name ignoring case exactly when it equals that name's lower-cased form |
| `TagDescriptorsProvider.EqualsIgnoreCaseTransitive` | AngularJS/src/org/angular2/codeInsight/tags/Angular2TagDescriptorsProvider.java:98 | case-insensitive equality, as the reserved-tag test uses it, is transitive |
| `TagDescriptorsProvider.ReservedResolutionIgnoresCase` | AngularJS/src/org/angular2/codeInsight/tags/Angular2TagDescriptorsProvider.java:97-100 | two local names differing only in case are both reserved or both not, and when reserved both resolve to built-in descriptors whose names are equal ignoring case |
| `TagDescriptorsProvider.DirectiveResolution` | AngularJS/src/org/angular2/codeInsight/tags/Angular2TagDescriptorsProvider.java:102-111 | a non-reserved tag has no descriptor iff there are no candidates; otherwise it is backed by matched[0] when something matched exactly, else by candidates[0] |

## Left out

- Icons, the gray foreground colour and the XML tag insert handler are UI
  decoration. The insert handler depends on `Language.isKindOf`. An item
  keeps only its `grayed` flag.
- PSI objects, `Project` and `Language` are not modelled. The only facts the
  provider takes from them are two booleans of `Tag` and the qualified name.
- The directive index, the declarations scope, the applicable-directives
  query, `XmlUtil.isTagDefinedByNamespace` and
  `XmlUtil.findLocalNameByQualifiedName` are code outside this file. The
  model takes their results as inputs and does not model how they are
  computed.
- The index is a `HashMap`, so its iteration order is unspecified. The model
  takes the order as an input sequence. The lemmas say nothing about the
  order of directive items among themselves. `DistinctGroupNames` states
  what a map guarantees, and only the lemmas that need it require it.
- `JSImplicitElementImpl.Builder` (the type string `E;;;`) and
  `getPsiElementForElement` build opaque objects. They are `BuiltIn(name)`
  and `Selector(d)`.
- IsReservedTag, GetDescriptor: the reserved-tag test folds case for ASCII letters only.
  Java's `String.equalsIgnoreCase` also matches a few non-ASCII characters
  whose case mapping is an ASCII letter (U+0130 and U+0131 against `i`).
- `PrioritizedLookupElement` stores the priority as a `double`. The model
  uses an `int`. The host's sorting by priority is not part of this file.
- Calling `getDescriptor` twice on the same inputs gives the same result,
  because `GetDescriptor` is a function. No lemma is needed for that.
