/**
 * Angular tag-name completion and tag resolution.
 *
 * The provider contributes to two host extension points:
 *  - tag-name completion: it appends suggestions to a list the host owns
 *    (the three reserved Angular tags, then one item per element directive
 *    selector name that is visible from the edited file);
 *  - tag resolution: it maps a written tag to a descriptor backed by a
 *    built-in declaration (reserved tags) or by a directive selector.
 *
 * The collaborators the provider queries (the project's directive index,
 * the declarations scope, the applicable-directives query, the host's
 * namespace helpers) are inputs here: sequences, booleans and functions.
 */
module TagDescriptorsProvider {

  datatype Option<T> = None | Some(value: T)

  // The three tags Angular reserves for its own structural elements.
  const NgContainer: string := "ng-container"
  const NgContent: string := "ng-content"
  const NgTemplate: string := "ng-template"

  /** The reserved tags in the order completion offers them. */
  const ReservedTags: seq<string> := [NgContainer, NgContent, NgTemplate]
  const ReservedSet: set<string> := {NgContainer, NgContent, NgTemplate}

  /** How reachable a declaration is from the edited file. */
  datatype Proximity = InScope | PublicModuleExport | DoesNotExist

  /**
   * What a suggestion or a descriptor is backed by: a synthetic built-in
   * declaration named after a reserved tag, or the selector of a directive
   * of the project (`D` is the index's opaque directive handle).
   */
  datatype Component<D> = BuiltIn(name: string) | Selector(directive: D)

  /**
   * One completion item: the string it inserts, what backs it, its sorting
   * priority and whether it is rendered grayed out. Items the host put in
   * the list before the provider runs are values of this type too.
   */
  datatype LookupItem<D> = LookupItem(lookupString: string, component: Component<D>, priority: int, grayed: bool)

  /** One entry of the index of element directives: a selector name and the directives declaring it. */
  datatype Group<D> = Group(name: string, directives: seq<D>)

  /** The caller-owned completion list, which the provider grows in place. */
  class LookupList<D> {
    var items: seq<LookupItem<D>>
  }

  /** The dedup set built from a list of items: the lookup string of every item, and nothing else. */
  function LookupStrings<D>(items: seq<LookupItem<D>>): set<string>
  {
    set i | 0 <= i < |items| :: items[i].lookupString
  }

  /** Adding one item's lookup string to the dedup set gives the set of the longer list. */
  lemma LookupStringsAppend<D>(items: seq<LookupItem<D>>, x: LookupItem<D>)
    ensures LookupStrings(items + [x]) == LookupStrings(items) + {x.lookupString}
  {
    assert forall i :: 0 <= i < |items| ==> (items + [x])[i] == items[i];
    assert (items + [x])[|items|] == x;
  }

  /** No item of `items` carries a name from `seen`. */
  ghost predicate FreshNames<D>(items: seq<LookupItem<D>>, seen: set<string>)
  {
    forall i :: 0 <= i < |items| ==> items[i].lookupString !in seen
  }

  /** No two items of `items` carry the same lookup string. */
  ghost predicate DistinctLookupStrings<D>(items: seq<LookupItem<D>>)
  {
    forall i, j :: 0 <= i < j < |items| ==> items[i].lookupString != items[j].lookupString
  }

  /** The index is a map from selector name to directives: no name twice. */
  ghost predicate DistinctGroupNames<D>(groups: seq<Group<D>>)
  {
    forall i, j :: 0 <= i < j < |groups| ==> groups[i].name != groups[j].name
  }

  // ---------------------------------------------------------------------------
  // Tag-name completion, as values
  // ---------------------------------------------------------------------------

  /**
   * The items one call of addLookupItem appends: nothing for a declaration
   * that does not exist from here; otherwise one item with priority 1 when
   * the declaration is in scope and 0 otherwise, grayed when it is only
   * reachable through a public module export.
   */
  function LookupItemFor<D>(component: Component<D>, name: string, proximity: Proximity): (r: seq<LookupItem<D>>)
    ensures |r| <= 1
    ensures r == [] <==> proximity == DoesNotExist
    ensures forall x :: x in r ==>
      && x.lookupString == name
      && x.component == component
      && (x.priority == 1 <==> proximity == InScope)
      && (x.priority == 0 <==> proximity != InScope)
      && (x.grayed <==> proximity == PublicModuleExport)
  {
    if proximity == DoesNotExist then []
    else [LookupItem(name, component, if proximity == InScope then 1 else 0, proximity == PublicModuleExport)]
  }

  /**
   * The items appended while walking the reserved `names` with the dedup set
   * `seen`: a name is offered, as an in-scope built-in, when the set did not
   * hold it yet, and it joins the set either way.
   */
  function ReservedItems<D>(seen: set<string>, names: seq<string>): (r: seq<LookupItem<D>>)
    ensures |r| <= |names|
    ensures forall x :: x in r ==> x.component.BuiltIn? && x.priority == 1
    decreases |names|
  {
    if |names| == 0 then []
    else if names[0] !in seen then
      LookupItemFor(BuiltIn(names[0]), names[0], InScope) + ReservedItems(seen + {names[0]}, names[1..])
    else
      ReservedItems(seen, names[1..])
  }

  /**
   * The items appended while walking the directive index with the dedup set
   * `seen`. A group with no directives or an empty name is skipped without
   * touching the set; otherwise its name joins the set and, if it was new,
   * the first directive's selector is offered with the group's proximity
   * (and dropped there when that proximity is DoesNotExist).
   */
  function DirectiveItems<D>(seen: set<string>, groups: seq<Group<D>>, proximity: seq<D> -> Proximity): (r: seq<LookupItem<D>>)
    ensures |r| <= |groups|
    ensures forall x :: x in r ==> x.lookupString != "" && x.component.Selector?
    decreases |groups|
  {
    if |groups| == 0 then []
    else
      var g := groups[0];
      if |g.directives| > 0 && g.name != "" && g.name !in seen then
        LookupItemFor(Selector(g.directives[0]), g.name, proximity(g.directives))
          + DirectiveItems(seen + {g.name}, groups[1..], proximity)
      else
        DirectiveItems(seen, groups[1..], proximity)
  }

  /**
   * The completion list after addTagNameVariants: unchanged outside an
   * Angular HTML context; otherwise the existing items followed by the
   * reserved tags and the directive selectors that were not offered yet.
   */
  function TagNameVariants<D>(existing: seq<LookupItem<D>>, isAngularHtml: bool,
                              groups: seq<Group<D>>, proximity: seq<D> -> Proximity): (r: seq<LookupItem<D>>)
    ensures |existing| <= |r| && r[..|existing|] == existing
    ensures !isAngularHtml ==> r == existing
  {
    if !isAngularHtml then existing
    else
      var seen := LookupStrings(existing);
      existing + ReservedItems(seen, ReservedTags) + DirectiveItems(seen + ReservedSet, groups, proximity)
  }

  /** A group yields an item: it has a directive and a new, non-empty name, and it exists from here. */
  ghost predicate Contributes<D>(g: Group<D>, seen: set<string>, proximity: seq<D> -> Proximity)
  {
    |g.directives| > 0 && g.name != "" && g.name !in seen && proximity(g.directives) != DoesNotExist
  }

  // ---------------------------------------------------------------------------
  // Tag-name completion: what the appended items are
  // ---------------------------------------------------------------------------

  /** Reserved items carry reserved names only, none from `seen`, none twice. */
  lemma {:induction false} ReservedItemsFresh<D>(seen: set<string>, names: seq<string>)
    ensures FreshNames(ReservedItems<D>(seen, names), seen)
    ensures DistinctLookupStrings(ReservedItems<D>(seen, names))
    ensures forall x :: x in ReservedItems<D>(seen, names) ==>
      x.lookupString in names && x == LookupItem(x.lookupString, BuiltIn(x.lookupString), 1, false)
    decreases |names|
  {
    if |names| > 0 {
      var rest := ReservedItems<D>(seen + {names[0]}, names[1..]);
      if names[0] !in seen {
        ReservedItemsFresh<D>(seen + {names[0]}, names[1..]);
        var r := ReservedItems<D>(seen, names);
        assert r == [LookupItem(names[0], BuiltIn(names[0]), 1, false)] + rest;
        forall i, j | 0 <= i < j < |r| ensures r[i].lookupString != r[j].lookupString {
          if i == 0 { assert r[j] == rest[j - 1]; }
        }
      } else {
        ReservedItemsFresh<D>(seen, names[1..]);
      }
    }
  }

  /** Directive items carry non-empty names, none from `seen`, none twice. */
  lemma {:induction false} DirectiveItemsFresh<D>(seen: set<string>, groups: seq<Group<D>>, proximity: seq<D> -> Proximity)
    ensures FreshNames(DirectiveItems(seen, groups, proximity), seen)
    ensures DistinctLookupStrings(DirectiveItems(seen, groups, proximity))
    decreases |groups|
  {
    if |groups| > 0 {
      var g := groups[0];
      if |g.directives| > 0 && g.name != "" && g.name !in seen {
        DirectiveItemsFresh(seen + {g.name}, groups[1..], proximity);
        var item := LookupItemFor(Selector(g.directives[0]), g.name, proximity(g.directives));
        var rest := DirectiveItems(seen + {g.name}, groups[1..], proximity);
        var r := DirectiveItems(seen, groups, proximity);
        assert r == item + rest;
        forall i, j | 0 <= i < j < |r| ensures r[i].lookupString != r[j].lookupString {
          if i < |item| { assert r[i] in item && r[j] == rest[j - |item|]; }
        }
      } else {
        DirectiveItemsFresh(seen, groups[1..], proximity);
      }
    }
  }

  /** Every directive item is the item of a contributing group, with that group's priority and gray flag. */
  lemma {:induction false} DirectiveItemsFromGroups<D>(seen: set<string>, groups: seq<Group<D>>, proximity: seq<D> -> Proximity)
    ensures forall x :: x in DirectiveItems(seen, groups, proximity) ==>
      exists g :: g in groups && Contributes(g, seen, proximity)
        && x in LookupItemFor(Selector(g.directives[0]), g.name, proximity(g.directives))
    decreases |groups|
  {
    if |groups| > 0 {
      var g := groups[0];
      assert forall h :: h in groups[1..] ==> h in groups;
      if |g.directives| > 0 && g.name != "" && g.name !in seen {
        DirectiveItemsFromGroups(seen + {g.name}, groups[1..], proximity);
      } else {
        DirectiveItemsFromGroups(seen, groups[1..], proximity);
      }
    }
  }

  /** With distinct selector names, every contributing group's item is offered. */
  lemma {:induction false} DirectiveItemsCoverGroups<D>(seen: set<string>, groups: seq<Group<D>>, proximity: seq<D> -> Proximity)
    requires DistinctGroupNames(groups)
    ensures forall g :: g in groups && Contributes(g, seen, proximity) ==>
      LookupItemFor(Selector(g.directives[0]), g.name, proximity(g.directives))[0] in DirectiveItems(seen, groups, proximity)
    decreases |groups|
  {
    if |groups| > 0 {
      var g0 := groups[0];
      var seen' := if |g0.directives| > 0 && g0.name != "" && g0.name !in seen then seen + {g0.name} else seen;
      DirectiveItemsCoverGroups(seen', groups[1..], proximity);
      forall g | g in groups && Contributes(g, seen, proximity)
        ensures LookupItemFor(Selector(g.directives[0]), g.name, proximity(g.directives))[0] in DirectiveItems(seen, groups, proximity)
      {
        if g != g0 {
          var k :| 0 <= k < |groups| && groups[k] == g;
          assert g.name != g0.name;
          assert g in groups[1..];
        }
      }
    }
  }

  /** The appended items never repeat a name already in the list, nor one another. */
  lemma VariantsNoDuplicates<D>(existing: seq<LookupItem<D>>, groups: seq<Group<D>>, proximity: seq<D> -> Proximity)
    ensures var appended := TagNameVariants(existing, true, groups, proximity)[|existing|..];
      FreshNames(appended, LookupStrings(existing)) && DistinctLookupStrings(appended)
  {
    var seen := LookupStrings(existing);
    var reserved := ReservedItems<D>(seen, ReservedTags);
    var directives := DirectiveItems(seen + ReservedSet, groups, proximity);
    ReservedItemsFresh<D>(seen, ReservedTags);
    DirectiveItemsFresh(seen + ReservedSet, groups, proximity);
    var appended := TagNameVariants(existing, true, groups, proximity)[|existing|..];
    assert appended == reserved + directives;
    forall i, j | 0 <= i < j < |appended| ensures appended[i].lookupString != appended[j].lookupString {
      if i < |reserved| <= j {
        assert appended[i] in reserved && appended[j] == directives[j - |reserved|];
      }
    }
  }

  /** The reserved tags the set does not hold, in order, each as an in-scope, non-grayed built-in. */
  lemma ReservedItemsInOrder<D>(seen: set<string>)
    ensures ReservedItems<D>(seen, ReservedTags)
         == (if NgContainer in seen then [] else [LookupItem(NgContainer, BuiltIn(NgContainer), 1, false)])
          + (if NgContent in seen then [] else [LookupItem(NgContent, BuiltIn(NgContent), 1, false)])
          + (if NgTemplate in seen then [] else [LookupItem(NgTemplate, BuiltIn(NgTemplate), 1, false)])
  {
    var s1 := if NgContainer in seen then seen else seen + {NgContainer};
    var s2 := if NgContent in s1 then s1 else s1 + {NgContent};
    var s3 := if NgTemplate in s2 then s2 else s2 + {NgTemplate};
    var t1, t2 := [NgContent, NgTemplate], [NgTemplate];
    assert ReservedTags[1..] == t1 && t1[1..] == t2 && t2[1..] == [];
    assert NgContent in s1 <==> NgContent in seen;
    assert NgTemplate in s2 <==> NgTemplate in seen;
    var a: seq<LookupItem<D>> := if NgContainer in seen then [] else [LookupItem(NgContainer, BuiltIn(NgContainer), 1, false)];
    var b: seq<LookupItem<D>> := if NgContent in seen then [] else [LookupItem(NgContent, BuiltIn(NgContent), 1, false)];
    var c: seq<LookupItem<D>> := if NgTemplate in seen then [] else [LookupItem(NgTemplate, BuiltIn(NgTemplate), 1, false)];
    assert ReservedItems<D>(s3, t2[1..]) == [];
    assert ReservedItems<D>(s2, t2) == c;
    assert ReservedItems<D>(s1, t1) == b + c;
    assert ReservedItems<D>(seen, ReservedTags) == a + (b + c);
  }

  /**
   * The reserved tags come first, in the order ng-container, ng-content,
   * ng-template, each exactly when the list did not hold it, as an in-scope
   * (priority 1), non-grayed built-in; the directive items follow, deduplicated
   * against the existing names and all three reserved names.
   */
  lemma VariantsReservedFirst<D>(existing: seq<LookupItem<D>>, groups: seq<Group<D>>, proximity: seq<D> -> Proximity)
    ensures var seen := LookupStrings(existing);
      TagNameVariants(existing, true, groups, proximity)
        == existing
           + (if NgContainer in seen then [] else [LookupItem(NgContainer, BuiltIn(NgContainer), 1, false)])
           + (if NgContent in seen then [] else [LookupItem(NgContent, BuiltIn(NgContent), 1, false)])
           + (if NgTemplate in seen then [] else [LookupItem(NgTemplate, BuiltIn(NgTemplate), 1, false)])
           + DirectiveItems(seen + ReservedSet, groups, proximity)
  {
    ReservedItemsInOrder<D>(LookupStrings(existing));
  }

  /**
   * Every appended item is either a reserved tag offered as an in-scope,
   * non-grayed built-in, or the item of a directive group that contributes:
   * one with a directive and a non-empty name not offered before, whose
   * proximity is not DoesNotExist; its priority is 1 exactly when that
   * proximity is InScope, and it is grayed exactly when it is PublicModuleExport.
   */
  lemma VariantsItemsFromSources<D>(existing: seq<LookupItem<D>>, groups: seq<Group<D>>, proximity: seq<D> -> Proximity)
    ensures var seen := LookupStrings(existing) + ReservedSet;
      forall x :: x in TagNameVariants(existing, true, groups, proximity)[|existing|..] ==>
        || (x.lookupString in ReservedSet && x == LookupItem(x.lookupString, BuiltIn(x.lookupString), 1, false))
        || (exists g :: g in groups && Contributes(g, seen, proximity)
              && x in LookupItemFor(Selector(g.directives[0]), g.name, proximity(g.directives)))
  {
    var seen := LookupStrings(existing);
    var reserved := ReservedItems<D>(seen, ReservedTags);
    var directives := DirectiveItems(seen + ReservedSet, groups, proximity);
    ReservedItemsFresh<D>(seen, ReservedTags);
    DirectiveItemsFromGroups(seen + ReservedSet, groups, proximity);
    assert TagNameVariants(existing, true, groups, proximity)[|existing|..] == reserved + directives;
    assert forall n :: n in ReservedTags ==> n in ReservedSet;
  }

  /**
   * With distinct selector names (the index is a map), a group yields a
   * directive-backed item exactly when it contributes: an empty directive
   * list, an empty name, a name already offered or a DoesNotExist
   * proximity each keep it out.
   */
  lemma VariantsGroupContribution<D>(existing: seq<LookupItem<D>>, groups: seq<Group<D>>, proximity: seq<D> -> Proximity)
    requires DistinctGroupNames(groups)
    ensures var appended := TagNameVariants(existing, true, groups, proximity)[|existing|..];
      forall g :: g in groups ==>
        ((exists x :: x in appended && x.component.Selector? && x.lookupString == g.name)
          <==> Contributes(g, LookupStrings(existing) + ReservedSet, proximity))
  {
    var seen := LookupStrings(existing);
    var reserved := ReservedItems<D>(seen, ReservedTags);
    var directives := DirectiveItems(seen + ReservedSet, groups, proximity);
    var appended := TagNameVariants(existing, true, groups, proximity)[|existing|..];
    assert appended == reserved + directives;
    ReservedItemsFresh<D>(seen, ReservedTags);
    VariantsReservedFirst(existing, groups, proximity);
    DirectiveItemsFromGroups(seen + ReservedSet, groups, proximity);
    DirectiveItemsCoverGroups(seen + ReservedSet, groups, proximity);
    forall g | g in groups
      ensures (exists x :: x in appended && x.component.Selector? && x.lookupString == g.name)
          <==> Contributes(g, seen + ReservedSet, proximity)
    {
      if Contributes(g, seen + ReservedSet, proximity) {
        var x := LookupItemFor(Selector(g.directives[0]), g.name, proximity(g.directives))[0];
        assert x in directives && x in appended;
      }
      if x :| x in appended && x.component.Selector? && x.lookupString == g.name {
        assert x !in reserved;
        assert x in directives;
        var h :| h in groups && Contributes(h, seen + ReservedSet, proximity)
          && x in LookupItemFor(Selector(h.directives[0]), h.name, proximity(h.directives));
        var i :| 0 <= i < |groups| && groups[i] == g;
        var j :| 0 <= j < |groups| && groups[j] == h;
        assert h.name == g.name;
        assert i == j;
      }
    }
  }

  // ---------------------------------------------------------------------------
  // Tag-name completion, in place
  // ---------------------------------------------------------------------------

  /** addLookupItem with an explicit backing component and proximity. */
  method AddLookupItem<D>(elements: LookupList<D>, component: Component<D>, name: string, proximity: Proximity)
    modifies elements
    ensures elements.items == old(elements.items) + LookupItemFor(component, name, proximity)
  {
    if proximity == DoesNotExist {
      return;
    }
    var priority := if proximity == InScope then 1 else 0;
    var grayed := proximity == PublicModuleExport;
    elements.items := elements.items + [LookupItem(name, component, priority, grayed)];
  }

  /** addLookupItem for a reserved tag: backed by its own name, always in scope. */
  method AddBuiltInLookupItem<D>(elements: LookupList<D>, name: string)
    modifies elements
    ensures elements.items == old(elements.items) + [LookupItem(name, BuiltIn(name), 1, false)]
  {
    AddLookupItem(elements, BuiltIn(name), name, InScope);
  }

  /** The dedup set addTagNameVariants starts from: the lookup strings of the caller's items. */
  method CollectLookupStrings<D>(elements: LookupList<D>) returns (names: set<string>)
    ensures names == LookupStrings(elements.items)
  {
    names := {};
    for i := 0 to |elements.items|
      invariant names == LookupStrings(elements.items[..i])
    {
      assert elements.items[..i + 1] == elements.items[..i] + [elements.items[i]];
      LookupStringsAppend(elements.items[..i], elements.items[i]);
      names := names + {elements.items[i].lookupString};
    }
    assert elements.items[..|elements.items|] == elements.items;
  }

  /** The first loop of addTagNameVariants: offers each reserved tag the set does not hold yet. */
  method AddReservedTags<D>(elements: LookupList<D>, seen: set<string>) returns (names: set<string>)
    modifies elements
    ensures elements.items == old(elements.items) + ReservedItems(seen, ReservedTags)
    ensures names == seen + ReservedSet
  {
    names := seen;
    var reserved := ReservedTags;
    for i := 0 to |reserved|
      invariant names == seen + (set k | 0 <= k < i :: reserved[k])
      invariant elements.items + ReservedItems(names, reserved[i..]) == old(elements.items) + ReservedItems(seen, reserved)
    {
      var name := reserved[i];
      assert reserved[i..][1..] == reserved[i + 1..];
      label Before:
      var added := name !in names;
      ghost var before, rest := names, ReservedItems<D>(names + {name}, reserved[i + 1..]);
      names := names + {name};
      if added {
        assert ReservedItems(before, reserved[i..]) == [LookupItem(name, BuiltIn(name), 1, false)] + rest;
        AddBuiltInLookupItem(elements, name);
        assert elements.items + rest == old@Before(elements.items) + ([LookupItem(name, BuiltIn(name), 1, false)] + rest);
      } else {
        assert names == before;
      }
    }
    assert (set k | 0 <= k < 3 :: reserved[k]) == ReservedSet by {
      assert reserved[0] == NgContainer && reserved[1] == NgContent && reserved[2] == NgTemplate;
    }
  }

  /** The walk of addTagNameVariants over the directive index. */
  method AddDirectiveGroups<D>(elements: LookupList<D>, seen: set<string>,
                               groups: seq<Group<D>>, proximity: seq<D> -> Proximity)
    modifies elements
    ensures elements.items == old(elements.items) + DirectiveItems(seen, groups, proximity)
  {
    var names := seen;
    for j := 0 to |groups|
      invariant elements.items + DirectiveItems(names, groups[j..], proximity)
             == old(elements.items) + DirectiveItems(seen, groups, proximity)
    {
      var g := groups[j];
      assert groups[j..][1..] == groups[j + 1..];
      label Before:
      if |g.directives| > 0 && g.name != "" {
        var added := g.name !in names;
        ghost var before, rest := names, DirectiveItems(names + {g.name}, groups[j + 1..], proximity);
        names := names + {g.name};
        if added {
          ghost var item := LookupItemFor(Selector(g.directives[0]), g.name, proximity(g.directives));
          assert DirectiveItems(before, groups[j..], proximity) == item + rest;
          AddLookupItem(elements, Selector(g.directives[0]), g.name, proximity(g.directives));
          assert elements.items + rest == old@Before(elements.items) + (item + rest);
        } else {
          assert names == before;
        }
      }
    }
  }

  /**
   * addTagNameVariants: appends the reserved tags and the visible element
   * directive selectors to the caller's list, skipping every name that is
   * already there or was appended before.
   */
  method AddTagNameVariants<D>(elements: LookupList<D>, isAngularHtml: bool,
                               groups: seq<Group<D>>, proximity: seq<D> -> Proximity)
    modifies elements
    ensures elements.items == TagNameVariants(old(elements.items), isAngularHtml, groups, proximity)
  {
    if !isAngularHtml {
      return;
    }
    var names := CollectLookupStrings(elements);
    names := AddReservedTags(elements, names);
    AddDirectiveGroups(elements, names, groups, proximity);
  }

  // ---------------------------------------------------------------------------
  // Tag resolution
  // ---------------------------------------------------------------------------

  /**
   * The tag being resolved, as far as the provider looks at it: whether it
   * is an HTML tag in an Angular 2 context, whether the host's namespace
   * machinery defines it, and its qualified name as written.
   */
  datatype Tag = Tag(isAngularHtml: bool, definedByNamespace: bool, qualifiedName: string)

  /** A resolved element descriptor: the tag's local name and the declaration backing it. */
  datatype Descriptor<D> = TagDescriptor(name: string, declaration: Component<D>)

  /** Lower-casing of the ASCII letters; every other character is left alone. */
  function ToLowerAscii(c: char): (r: char)
    ensures !('A' <= r <= 'Z')
    ensures ('a' <= r <= 'z') <==> ('A' <= c <= 'Z' || 'a' <= c <= 'z')
  {
    if 'A' <= c <= 'Z' then (c as int + 32) as char else c
  }

  /** A string with every ASCII letter lower-cased. */
  function LowerAscii(s: string): string
  {
    seq(|s|, i requires 0 <= i < |s| => ToLowerAscii(s[i]))
  }

  /** String equality ignoring the case of ASCII letters. */
  predicate EqualsIgnoreCase(a: string, b: string)
  {
    |a| == |b| && forall i :: 0 <= i < |a| ==> ToLowerAscii(a[i]) == ToLowerAscii(b[i])
  }

  /** A name already in lower case equals another ignoring case exactly when it equals the other's lower-cased form. */
  lemma {:induction false} LowerCaseTagMatch(t: string, name: string)
    requires LowerAscii(t) == t
    ensures EqualsIgnoreCase(t, name) <==> LowerAscii(name) == t
  {
    if EqualsIgnoreCase(t, name) {
      forall i | 0 <= i < |t| ensures LowerAscii(name)[i] == t[i] {
        assert LowerAscii(t)[i] == t[i];
      }
    }
    if LowerAscii(name) == t {
      forall i | 0 <= i < |t| ensures ToLowerAscii(t[i]) == ToLowerAscii(name[i]) {
        assert LowerAscii(t)[i] == t[i];
      }
    }
  }

  /**
   * The local name is one of the reserved tags, in any letter case: exactly
   * when lower-casing it gives ng-container, ng-content or ng-template.
   */
  predicate IsReservedTag(name: string)
    ensures IsReservedTag(name) <==> LowerAscii(name) in ReservedSet
  {
    LowerCaseTagMatch(NgContainer, name);
    LowerCaseTagMatch(NgContent, name);
    LowerCaseTagMatch(NgTemplate, name);
    EqualsIgnoreCase(NgContainer, name) || EqualsIgnoreCase(NgContent, name) || EqualsIgnoreCase(NgTemplate, name)
  }

  /**
   * getDescriptor. `localName` is the host's local-name extraction;
   * `candidates` and `matched` are the directives the applicable-directives
   * query finds for the tag (structurally eligible, and matching exactly).
   * A descriptor is found only for an Angular HTML tag that no namespace
   * defines, and then exactly when the local name is reserved or some
   * directive is a candidate; it always carries the local name.
   */
  function GetDescriptor<D>(tag: Tag, localName: string -> string, candidates: seq<D>, matched: seq<D>): (r: Option<Descriptor<D>>)
    ensures r.Some? <==> tag.isAngularHtml && !tag.definedByNamespace
                         && (IsReservedTag(localName(tag.qualifiedName)) || |candidates| > 0)
    ensures r.Some? ==> r.value.name == localName(tag.qualifiedName)
  {
    if !tag.isAngularHtml then None
    else if tag.definedByNamespace then None
    else
      var tagName := localName(tag.qualifiedName);
      if IsReservedTag(tagName) then Some(TagDescriptor(tagName, BuiltIn(tagName)))
      else if |candidates| == 0 then None
      else Some(TagDescriptor(tagName, Selector(if |matched| == 0 then candidates[0] else matched[0])))
  }

  /** Outside an Angular HTML context, or for a tag a namespace defines, nothing is resolved. */
  lemma DescriptorOutsideAngular<D>(tag: Tag, localName: string -> string, candidates: seq<D>, matched: seq<D>)
    requires !tag.isAngularHtml || tag.definedByNamespace
    ensures GetDescriptor(tag, localName, candidates, matched) == None
  {
  }

  /** A reserved local name, in any case, resolves to a built-in declaration carrying the name as written. */
  lemma ReservedTagResolvesBuiltIn<D>(tag: Tag, localName: string -> string, candidates: seq<D>, matched: seq<D>)
    requires tag.isAngularHtml && !tag.definedByNamespace
    requires IsReservedTag(localName(tag.qualifiedName))
    ensures var name := localName(tag.qualifiedName);
      GetDescriptor(tag, localName, candidates, matched) == Some(TagDescriptor(name, BuiltIn(name)))
  {
  }

  /** Equality ignoring case is transitive. */
  lemma {:induction false} EqualsIgnoreCaseTransitive(a: string, b: string, c: string)
    requires EqualsIgnoreCase(a, b) && EqualsIgnoreCase(b, c)
    ensures EqualsIgnoreCase(a, c)
  {
    forall i | 0 <= i < |a| ensures ToLowerAscii(a[i]) == ToLowerAscii(c[i]) {
      assert ToLowerAscii(a[i]) == ToLowerAscii(b[i]);
      assert ToLowerAscii(b[i]) == ToLowerAscii(c[i]);
    }
  }

  /**
   * Two local names that differ only in letter case resolve alike: both to
   * built-in descriptors, or neither to one, whatever the directives.
   */
  lemma ReservedResolutionIgnoresCase<D>(tag1: Tag, tag2: Tag, localName: string -> string,
                                         candidates1: seq<D>, matched1: seq<D>, candidates2: seq<D>, matched2: seq<D>)
    requires tag1.isAngularHtml && !tag1.definedByNamespace
    requires tag2.isAngularHtml && !tag2.definedByNamespace
    requires EqualsIgnoreCase(localName(tag1.qualifiedName), localName(tag2.qualifiedName))
    ensures IsReservedTag(localName(tag1.qualifiedName)) <==> IsReservedTag(localName(tag2.qualifiedName))
    ensures IsReservedTag(localName(tag1.qualifiedName)) ==>
      && GetDescriptor(tag1, localName, candidates1, matched1).Some?
      && GetDescriptor(tag2, localName, candidates2, matched2).Some?
      && GetDescriptor(tag1, localName, candidates1, matched1).value.declaration.BuiltIn?
      && GetDescriptor(tag2, localName, candidates2, matched2).value.declaration.BuiltIn?
      && EqualsIgnoreCase(GetDescriptor(tag1, localName, candidates1, matched1).value.name,
                          GetDescriptor(tag2, localName, candidates2, matched2).value.name)
  {
    var n1, n2 := localName(tag1.qualifiedName), localName(tag2.qualifiedName);
    assert EqualsIgnoreCase(n2, n1);
    forall r | r in ReservedTags ensures EqualsIgnoreCase(r, n1) <==> EqualsIgnoreCase(r, n2) {
      if EqualsIgnoreCase(r, n1) { EqualsIgnoreCaseTransitive(r, n1, n2); }
      if EqualsIgnoreCase(r, n2) { EqualsIgnoreCaseTransitive(r, n2, n1); }
    }
  }

  /**
   * A non-reserved tag resolves exactly when there is a candidate, and then
   * to the first exactly matching directive, or to the first candidate when
   * no directive matches exactly.
   */
  lemma DirectiveResolution<D>(tag: Tag, localName: string -> string, candidates: seq<D>, matched: seq<D>)
    requires tag.isAngularHtml && !tag.definedByNamespace
    requires !IsReservedTag(localName(tag.qualifiedName))
    ensures GetDescriptor(tag, localName, candidates, matched).None? <==> |candidates| == 0
    ensures |candidates| > 0 && |matched| > 0 ==>
      GetDescriptor(tag, localName, candidates, matched).value.declaration == Selector(matched[0])
    ensures |candidates| > 0 && |matched| == 0 ==>
      GetDescriptor(tag, localName, candidates, matched).value.declaration == Selector(candidates[0])
  {
  }
}
