/**
 * The toolbar view: an ordered collection of items whose elements a focus
 * tracker mirrors, and the routine that fills the collection from a toolbar
 * configuration and a component factory.
 */
module Toolbar {
  import opened ToolbarItems

  datatype Option<T> = None | Some(value: T)

  /** The text of the warning logged for a configuration entry that the
      factory has no component for; it opens with the warning's code,
      `toolbarview-missing-component`. */
  const MissingComponentMessage: string :=
    "toolbarview-missing-component: There is no such component in the factory."

  /** A factory of named toolbar components.  Only its interface is modelled:
      the names it has, and a creation that yields a new view (with a new
      element) for a name it has. */
  class ComponentFactory {
    const components: set<string>

    constructor (components: set<string>)
      ensures this.components == components
    {
      this.components := components;
    }

    /** Whether the factory has a component for the name: for an entry other
        than the separator entry, exactly when that entry expands to the
        factory's component, and exactly when it is not warned about. */
    function Has(name: string): (b: bool)
      ensures name != SeparatorToken ==> (b <==> Expand([name], components) == [Component(name)])
      ensures name != SeparatorToken ==> (!b <==> Missing([name], components) == [name])
    {
      name in components
    }

    method Create(name: string) returns (item: Item)
      requires Has(name)
      ensures item.kind == Component(name)
      ensures fresh(item.element)
    {
      var element := new Element();
      item := Item(Component(name), element);
    }
  }

  /** One logged warning: its message and its payload, the missing name and
      the factory that lacks it. */
  datatype Warning = Warning(message: string, name: string, factory: ComponentFactory)

  /** The warnings logged, in order, for the given missing names. */
  function MissingWarnings(names: seq<string>, factory: ComponentFactory): seq<Warning>
  {
    seq(|names|, k requires 0 <= k < |names| => Warning(MissingComponentMessage, names[k], factory))
  }

  class ToolbarView {
    /** The toolbar's item collection, in order. */
    var items: seq<Item>
    /** The elements registered with the toolbar's focus tracker. */
    var trackedElements: set<Element>
    /** The warnings logged so far. */
    var warnings: seq<Warning>

    /** The focus tracker mirrors the item collection: it tracks exactly the
        items' elements, and no element belongs to two items. */
    ghost predicate Valid()
      reads this
    {
      trackedElements == Elements(items) && DistinctElements(items)
    }

    constructor ()
      ensures Valid()
      ensures items == [] && trackedElements == {} && warnings == []
    {
      items := [];
      trackedElements := {};
      warnings := [];
    }

    /** Adds an item at the end of the collection; the collection's add
        handler registers the item's element with the focus tracker. */
    method Add(item: Item)
      requires Valid()
      requires item.element !in trackedElements
      modifies this
      ensures Valid()
      ensures items == old(items) + [item]
      ensures trackedElements == old(trackedElements) + {item.element}
      ensures warnings == old(warnings)
    {
      AppendKeepsMirror(items, item);
      items := items + [item];
      trackedElements := trackedElements + {item.element};
    }

    /** Removes the item at an index of the collection, if there is one; the
        collection's remove handler deregisters that item's element and no
        other. */
    method Remove(index: nat) returns (removed: Option<Item>)
      requires Valid()
      modifies this
      ensures Valid()
      ensures index < |old(items)| ==>
                && removed == Some(old(items)[index])
                && items == old(items)[..index] + old(items)[index + 1..]
                && trackedElements == old(trackedElements) - {old(items)[index].element}
      ensures index >= |old(items)| ==>
                removed == None && items == old(items) && trackedElements == old(trackedElements)
      ensures warnings == old(warnings)
    {
      if index < |items| {
        var item := items[index];
        RemoveKeepsMirror(items, index);
        items := items[..index] + items[index + 1..];
        trackedElements := trackedElements - {item.element};
        removed := Some(item);
      } else {
        removed := None;
      }
    }

    /** Handles one configuration entry: appends a new separator for the
        separator entry (without asking the factory), appends the factory's
        new component for a name the factory has, and logs one warning about
        any other name. */
    method AddEntry(name: string, factory: ComponentFactory)
      requires Valid()
      modifies this
      ensures Valid()
      ensures |items| == |old(items)| + |EntryKinds(name, factory.components)|
      ensures items[..|old(items)|] == old(items)
      ensures Kinds(items[|old(items)|..]) == EntryKinds(name, factory.components)
      ensures warnings == old(warnings) + MissingWarnings(EntryMissing(name, factory.components), factory)
      ensures |warnings| == |old(warnings)| + |EntryMissing(name, factory.components)|
      ensures warnings[..|old(warnings)|] == old(warnings)
      ensures forall k :: 0 <= k < |EntryMissing(name, factory.components)| ==>
                warnings[|old(warnings)| + k]
                == Warning(MissingComponentMessage, EntryMissing(name, factory.components)[k], factory)
      ensures forall k :: |old(items)| <= k < |items| ==> fresh(items[k].element)
    {
      if name == SeparatorToken {
        var element := new Element();
        Add(Item(Separator, element));
      } else if factory.Has(name) {
        var item := factory.Create(name);
        Add(item);
      } else {
        warnings := warnings + [Warning(MissingComponentMessage, name, factory)];
      }
    }

    /** Expands a toolbar configuration into items using the factory.  An
        absent configuration changes nothing.  Otherwise the entries are
        handled in order, each by AddEntry, so an entry the factory lacks
        does not stop the entries after it. */
    method FillFromConfig(config: Option<seq<string>>, factory: ComponentFactory)
      requires Valid()
      modifies this
      ensures Valid()
      ensures config.None? ==>
                items == old(items) && trackedElements == old(trackedElements) && warnings == old(warnings)
      ensures config.Some? ==>
                && |items| == |old(items)| + |Expand(config.value, factory.components)|
                && items[..|old(items)|] == old(items)
                && Kinds(items[|old(items)|..]) == Expand(config.value, factory.components)
                && trackedElements == old(trackedElements) + Elements(items[|old(items)|..])
                && warnings == old(warnings) + MissingWarnings(Missing(config.value, factory.components), factory)
      ensures config.Some? ==>
                && |warnings| == |old(warnings)| + |Missing(config.value, factory.components)|
                && warnings[..|old(warnings)|] == old(warnings)
                && forall k :: 0 <= k < |Missing(config.value, factory.components)| ==>
                     warnings[|old(warnings)| + k]
                     == Warning(MissingComponentMessage, Missing(config.value, factory.components)[k], factory)
      ensures forall k :: |old(items)| <= k < |items| ==> fresh(items[k].element)
    {
      if config.None? {
        return;
      }
      var names := config.value;
      ghost var before := items;
      ghost var logged := warnings;
      var i := 0;
      while i < |names|
        invariant 0 <= i <= |names|
        invariant Valid()
        invariant |items| == |before| + |Expand(names[..i], factory.components)|
        invariant items[..|before|] == before
        invariant Kinds(items[|before|..]) == Expand(names[..i], factory.components)
        invariant warnings == logged + MissingWarnings(Missing(names[..i], factory.components), factory)
        invariant forall k :: |before| <= k < |items| ==> fresh(items[k].element)
      {
        ExpandStep(names, i, factory.components);
        ghost var mid := items;
        AddEntry(names[i], factory);
        ExtendAfterPrefix(before, mid, items);
        MissingWarningsConcat(Missing(names[..i], factory.components), EntryMissing(names[i], factory.components), factory);
        i := i + 1;
      }
      assert names[..i] == names;
      ElementsOfSuffix(before, items);
    }
  }

  /** A client of the contracts above: the configuration `bold | italic
      missing`, with a factory that has `bold` and `italic`, fills an empty
      toolbar with bold, a separator and italic, tracked by the focus tracker,
      and logs one warning, about `missing`; an absent configuration then
      changes nothing. */
  method FillFromConfigExample()
  {
    var factory := new ComponentFactory({"bold", "italic"});
    var toolbar := new ToolbarView();
    toolbar.FillFromConfig(Some(["bold", "|", "italic", "missing"]), factory);
    ExampleConfig();
    assert toolbar.items[0..] == toolbar.items;
    assert Kinds(toolbar.items) == [Component("bold"), Separator, Component("italic")];
    assert toolbar.warnings == [Warning(MissingComponentMessage, "missing", factory)];
    assert toolbar.trackedElements == Elements(toolbar.items);
    toolbar.FillFromConfig(None, factory);
    assert |toolbar.items| == 3 && |toolbar.warnings| == 1;
  }

  /** A client of Add and Remove: removing the item just added returns it and
      restores the collection, the tracked elements and the log. */
  method AddThenRemoveRestores(toolbar: ToolbarView, item: Item) returns (removed: Option<Item>)
    requires toolbar.Valid()
    requires item.element !in toolbar.trackedElements
    modifies toolbar
    ensures toolbar.Valid()
    ensures removed == Some(item)
    ensures toolbar.items == old(toolbar.items)
    ensures toolbar.trackedElements == old(toolbar.trackedElements)
    ensures toolbar.warnings == old(toolbar.warnings)
  {
    toolbar.Add(item);
    removed := toolbar.Remove(|toolbar.items| - 1);
    assert toolbar.items == old(toolbar.items);
  }

  /** The warnings for two lists of names are those of the first list followed
      by those of the second. */
  lemma MissingWarningsConcat(a: seq<string>, b: seq<string>, factory: ComponentFactory)
    ensures MissingWarnings(a + b, factory) == MissingWarnings(a, factory) + MissingWarnings(b, factory)
  {
  }

  /** If mid extends before and after extends mid, then after extends before
      and what after adds to before is what mid adds followed by what after
      adds to mid, kind by kind. */
  lemma ExtendAfterPrefix(before: seq<Item>, mid: seq<Item>, after: seq<Item>)
    requires |before| <= |mid| <= |after|
    requires mid[..|before|] == before && after[..|mid|] == mid
    ensures after[..|before|] == before
    ensures after[|before|..] == mid[|before|..] + after[|mid|..]
    ensures Kinds(after[|before|..]) == Kinds(mid[|before|..]) + Kinds(after[|mid|..])
  {
  }

  /** The elements of a sequence that extends a prefix with distinct elements
      are those of the prefix and those of the rest. */
  lemma ElementsOfSuffix(prefix: seq<Item>, items: seq<Item>)
    requires |prefix| <= |items| && items[..|prefix|] == prefix
    ensures Elements(items) == Elements(prefix) + Elements(items[|prefix|..])
  {
  }
}
