/**
 * Toolbar items, the DOM elements they render to, and the expansion of a
 * toolbar configuration (a list of item names) into items.  Everything here
 * is a value; the toolbar object that holds the items is in module Toolbar.
 */
module ToolbarItems {

  /** A rendered DOM element.  Only its identity matters: the focus tracker
      keeps a set of them. */
  class Element {
    constructor ()
    {
    }
  }

  /** What an item view is: the separator created for the separator entry of
      a configuration, or the component a factory created for a name. */
  datatype Kind = Separator | Component(name: string)

  /** An item view of the toolbar together with the element it renders to. */
  datatype Item = Item(kind: Kind, element: Element)

  /** The configuration entry that stands for a separator. */
  const SeparatorToken: string := "|"

  /** The elements of a sequence of items. */
  ghost function Elements(items: seq<Item>): set<Element>
  {
    set k | 0 <= k < |items| :: items[k].element
  }

  /** No two items of the sequence share an element. */
  ghost predicate DistinctElements(items: seq<Item>)
  {
    forall j, k :: 0 <= j < k < |items| ==> items[j].element != items[k].element
  }

  /** The kinds of a sequence of items, in order. */
  function Kinds(items: seq<Item>): seq<Kind>
  {
    seq(|items|, k requires 0 <= k < |items| => items[k].kind)
  }

  /** Appending an item whose element is new to the sequence extends the set
      of elements by exactly that element and keeps the elements distinct. */
  lemma AppendKeepsMirror(items: seq<Item>, item: Item)
    requires DistinctElements(items)
    requires item.element !in Elements(items)
    ensures DistinctElements(items + [item])
    ensures Elements(items + [item]) == Elements(items) + {item.element}
  {
    var s := items + [item];
    forall j, k | 0 <= j < k < |s| ensures s[j].element != s[k].element {
      if k < |items| {
        assert s[j] == items[j] && s[k] == items[k];
      } else {
        assert s[j].element in Elements(items);
      }
    }
    forall e | e in Elements(s) ensures e in Elements(items) + {item.element} {
      var k :| 0 <= k < |s| && s[k].element == e;
      if k < |items| { assert items[k].element == e; }
    }
    forall e | e in Elements(items) ensures e in Elements(s) {
      var k :| 0 <= k < |items| && items[k].element == e;
      assert s[k].element == e;
    }
    assert s[|items|].element == item.element;
  }

  /** Removing the item at an index of a sequence with distinct elements
      removes exactly that item's element from the set of elements, and the
      elements stay distinct. */
  lemma RemoveKeepsMirror(items: seq<Item>, index: nat)
    requires DistinctElements(items)
    requires index < |items|
    ensures DistinctElements(items[..index] + items[index + 1..])
    ensures Elements(items[..index] + items[index + 1..]) == Elements(items) - {items[index].element}
  {
    var s := items[..index] + items[index + 1..];
    assert |s| == |items| - 1;
    assert forall k :: 0 <= k < |s| ==> s[k] == items[if k < index then k else k + 1];
    forall e | e in Elements(items) - {items[index].element} ensures e in Elements(s) {
      var k :| 0 <= k < |items| && items[k].element == e;
      assert k != index;
      if k < index {
        assert s[k].element == e;
      } else {
        assert s[k - 1].element == e;
      }
    }
  }

  /** Removing an item just appended undoes the append: the sequence and its
      set of elements are as before. */
  lemma AddThenRemove(items: seq<Item>, item: Item)
    requires DistinctElements(items)
    requires item.element !in Elements(items)
    ensures (items + [item])[..|items|] + (items + [item])[|items| + 1..] == items
    ensures Elements(items + [item]) - {item.element} == Elements(items)
  {
  }

  /** The items one configuration entry expands to: a separator for the
      separator entry whatever the factory has, the factory's component for a
      name the factory has, and nothing otherwise. */
  function EntryKinds(name: string, components: set<string>): (kinds: seq<Kind>)
    ensures |kinds| + |EntryMissing(name, components)| == 1
    ensures forall k :: k in kinds ==> k == Separator || (k.name == name && name in components)
  {
    if name == SeparatorToken then [Separator]
    else if name in components then [Component(name)]
    else []
  }

  /** The names one configuration entry is warned about: the entry itself when
      it is not the separator entry and the factory lacks it. */
  function EntryMissing(name: string, components: set<string>): (names: seq<string>)
    ensures |names| <= 1
    ensures forall n :: n in names ==> n == name && n != SeparatorToken && n !in components
    ensures name != SeparatorToken && name !in components ==> names == [name]
  {
    if name != SeparatorToken && name !in components then [name] else []
  }

  /** The kinds of the items a configuration expands to, in order, given the
      names of the components the factory has. */
  function Expand(config: seq<string>, components: set<string>): (kinds: seq<Kind>)
    ensures |kinds| <= |config|
  {
    if config == [] then [] else EntryKinds(config[0], components) + Expand(config[1..], components)
  }

  /** The names a configuration is warned about, in order. */
  function Missing(config: seq<string>, components: set<string>): (names: seq<string>)
    ensures |names| <= |config|
  {
    if config == [] then [] else EntryMissing(config[0], components) + Missing(config[1..], components)
  }

  /** Every item of an expansion is a separator or a component the factory
      has for a name of the configuration other than the separator entry;
      every warning is about a name of the configuration, other than the
      separator entry, that the factory lacks. */
  lemma {:induction false} ExpandSound(config: seq<string>, components: set<string>)
    ensures forall k :: k in Expand(config, components) ==>
              k == Separator || (k.name in config && k.name != SeparatorToken && k.name in components)
    ensures forall n :: n in Missing(config, components) ==>
              n in config && n != SeparatorToken && n !in components
    decreases |config|
  {
    if config != [] {
      ExpandSound(config[1..], components);
      assert forall n :: n in config[1..] ==> n in config;
    }
  }

  /** A configuration of one entry expands to that entry's items and
      warnings. */
  lemma ExpandSingle(name: string, components: set<string>)
    ensures Expand([name], components) == EntryKinds(name, components)
    ensures Missing([name], components) == EntryMissing(name, components)
  {
  }

  /** Expansion proceeds entry by entry: the items of two configurations,
      one after the other, are the items of their concatenation. */
  lemma {:induction false} ExpandConcat(a: seq<string>, b: seq<string>, components: set<string>)
    ensures Expand(a + b, components) == Expand(a, components) + Expand(b, components)
    decreases |a|
  {
    if a == [] {
      assert a + b == b;
    } else {
      var ab := a + b;
      assert ab[0] == a[0] && ab[1..] == a[1..] + b;
      ExpandConcat(a[1..], b, components);
      calc {
        Expand(ab, components);
        EntryKinds(a[0], components) + Expand(a[1..] + b, components);
        EntryKinds(a[0], components) + (Expand(a[1..], components) + Expand(b, components));
        Expand(a, components) + Expand(b, components);
      }
    }
  }

  /** Likewise for the warnings: those of two configurations, one after the
      other, are those of their concatenation. */
  lemma {:induction false} MissingConcat(a: seq<string>, b: seq<string>, components: set<string>)
    ensures Missing(a + b, components) == Missing(a, components) + Missing(b, components)
    decreases |a|
  {
    if a == [] {
      assert a + b == b;
    } else {
      var ab := a + b;
      assert ab[0] == a[0] && ab[1..] == a[1..] + b;
      MissingConcat(a[1..], b, components);
      calc {
        Missing(ab, components);
        EntryMissing(a[0], components) + Missing(a[1..] + b, components);
        EntryMissing(a[0], components) + (Missing(a[1..], components) + Missing(b, components));
        Missing(a, components) + Missing(b, components);
      }
    }
  }

  /** The items of a configuration are, in this order, those of the entries
      before index i, those of entry i, and those of the entries after it.
      So the items come in the order of their entries, and an entry the
      factory lacks adds no item while the entries after it are still
      expanded. */
  lemma ExpandAt(config: seq<string>, components: set<string>, i: nat)
    requires i < |config|
    ensures Expand(config, components)
            == Expand(config[..i], components) + EntryKinds(config[i], components) + Expand(config[i + 1..], components)
  {
    var pre, rest := config[..i], config[i..];
    assert config == pre + rest;
    assert rest[0] == config[i] && rest[1..] == config[i + 1..];
    ExpandConcat(pre, rest, components);
  }

  /** Likewise the warnings of a configuration are those of the entries
      before index i, then that of entry i if any, then those after it. */
  lemma MissingAt(config: seq<string>, components: set<string>, i: nat)
    requires i < |config|
    ensures Missing(config, components)
            == Missing(config[..i], components) + EntryMissing(config[i], components) + Missing(config[i + 1..], components)
  {
    var pre, rest := config[..i], config[i..];
    assert config == pre + rest;
    assert rest[0] == config[i] && rest[1..] == config[i + 1..];
    MissingConcat(pre, rest, components);
  }

  /** Expanding the first i + 1 entries is expanding the first i, then
      entry i. */
  lemma ExpandStep(config: seq<string>, i: nat, components: set<string>)
    requires i < |config|
    ensures Expand(config[..i + 1], components) == Expand(config[..i], components) + EntryKinds(config[i], components)
    ensures Missing(config[..i + 1], components) == Missing(config[..i], components) + EntryMissing(config[i], components)
  {
    assert config[..i + 1] == config[..i] + [config[i]];
    ExpandConcat(config[..i], [config[i]], components);
    MissingConcat(config[..i], [config[i]], components);
    ExpandSingle(config[i], components);
  }

  /** Whether the factory has a component named like the separator entry
      makes no difference: that entry always becomes a separator. */
  lemma {:induction false} SeparatorIgnoresFactory(config: seq<string>, components: set<string>)
    ensures Expand(config, components) == Expand(config, components - {SeparatorToken})
    ensures Missing(config, components) == Missing(config, components - {SeparatorToken})
    decreases |config|
  {
    if config != [] {
      SeparatorIgnoresFactory(config[1..], components);
      var x, without := config[0], components - {SeparatorToken};
      assert EntryKinds(x, components) == EntryKinds(x, without) by {
        assert x != SeparatorToken ==> (x in components <==> x in without);
      }
      assert EntryMissing(x, components) == EntryMissing(x, without) by {
        assert x != SeparatorToken ==> (x in components <==> x in without);
      }
    }
  }

  /** Indices of the separator entries of a configuration. */
  ghost function SeparatorEntries(config: seq<string>): set<int>
  {
    set k | 0 <= k < |config| && config[k] == SeparatorToken
  }

  /** Indices of the entries other than the separator that the factory has. */
  ghost function KnownEntries(config: seq<string>, components: set<string>): set<int>
  {
    set k | 0 <= k < |config| && config[k] != SeparatorToken && config[k] in components
  }

  /** Indices of the entries other than the separator that the factory lacks. */
  ghost function MissingEntries(config: seq<string>, components: set<string>): set<int>
  {
    set k | 0 <= k < |config| && config[k] != SeparatorToken && config[k] !in components
  }

  /** Appending one entry to a configuration adds its index to the index
      set of the entries it belongs to, and to no other. */
  lemma SeparatorEntriesSnoc(init: seq<string>, last: string)
    ensures SeparatorEntries(init + [last])
            == SeparatorEntries(init) + (if last == SeparatorToken then {|init|} else {})
    ensures |init| !in SeparatorEntries(init)
  {
  }

  lemma KnownEntriesSnoc(init: seq<string>, last: string, components: set<string>)
    ensures KnownEntries(init + [last], components)
            == KnownEntries(init, components)
               + (if last != SeparatorToken && last in components then {|init|} else {})
    ensures |init| !in KnownEntries(init, components)
  {
  }

  lemma MissingEntriesSnoc(init: seq<string>, last: string, components: set<string>)
    ensures MissingEntries(init + [last], components)
            == MissingEntries(init, components)
               + (if last != SeparatorToken && last !in components then {|init|} else {})
    ensures |init| !in MissingEntries(init, components)
  {
  }

  /** The items of a configuration number its separator entries plus the
      other entries the factory has. */
  lemma {:induction false} ItemCount(config: seq<string>, components: set<string>)
    ensures |Expand(config, components)| == |SeparatorEntries(config)| + |KnownEntries(config, components)|
    decreases |config|
  {
    if config == [] {
      assert SeparatorEntries(config) == {};
      assert KnownEntries(config, components) == {};
    } else {
      var n := |config| - 1;
      var init, last := config[..n], config[n];
      assert config == init + [last];
      ItemCount(init, components);
      ExpandConcat(init, [last], components);
      ExpandSingle(last, components);
      SeparatorEntriesSnoc(init, last);
      KnownEntriesSnoc(init, last, components);
    }
  }

  /** The warnings of a configuration number the entries other than the
      separator that the factory lacks. */
  lemma {:induction false} WarningCount(config: seq<string>, components: set<string>)
    ensures |Missing(config, components)| == |MissingEntries(config, components)|
    decreases |config|
  {
    if config == [] {
      assert MissingEntries(config, components) == {};
    } else {
      var n := |config| - 1;
      var init, last := config[..n], config[n];
      assert config == init + [last];
      WarningCount(init, components);
      MissingConcat(init, [last], components);
      ExpandSingle(last, components);
      MissingEntriesSnoc(init, last, components);
    }
  }

  /** Counting law: the items of a configuration number its separator entries
      plus the other entries the factory has; the warnings number the entries
      the factory lacks; and every entry gives exactly one of the two. */
  lemma {:induction false} CountingLaw(config: seq<string>, components: set<string>)
    ensures |Expand(config, components)| == |SeparatorEntries(config)| + |KnownEntries(config, components)|
    ensures |Missing(config, components)| == |MissingEntries(config, components)|
    ensures |Expand(config, components)| + |Missing(config, components)| == |config|
    decreases |config|
  {
    ItemCount(config, components);
    WarningCount(config, components);
    if config != [] {
      CountingLaw(config[1..], components);
    }
  }

  /** The configuration `bold | italic missing` with a factory that has `bold`
      and `italic` gives three items (bold, a separator, italic) and one
      warning, about `missing`. */
  lemma ExampleConfig()
    ensures Expand(["bold", "|", "italic", "missing"], {"bold", "italic"})
            == [Component("bold"), Separator, Component("italic")]
    ensures Missing(["bold", "|", "italic", "missing"], {"bold", "italic"}) == ["missing"]
  {
  }
}
