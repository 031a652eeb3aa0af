# Toolbar view: configuration expansion and focus-tracker mirror

This project models the bookkeeping core of CKEditor 5's `ToolbarView`
(`packages/ckeditor5-ui/src/toolbar/toolbarview.js`) and proves properties of it
in Dafny.

A toolbar holds an ordered collection of item views. Its focus tracker keeps
the set of DOM elements it watches in step with that collection. When an item
is added to the collection, its element is registered with the tracker. When
an item is removed, its element is deregistered. `fillFromConfig` expands a
toolbar configuration, which is a list of item names, into items. The entry
`'|'` becomes a new separator view. A name the component factory has becomes
`factory.create(name)`. Any other name is skipped with a
`toolbarview-missing-component` warning that carries the name and the factory.
An absent configuration does nothing.

Files:

- `toolbar_items.dfy`, module `ToolbarItems`, holds the values.
  - `Element` is a DOM element; only its identity matters.
  - `Kind` is either `Separator` or `Component(name)`.
  - `Item` pairs a kind with the element the item renders to.
  - `Elements` and `DistinctElements` describe a sequence of items.
  - `Expand` and `Missing` are the specification of the expansion. `Expand`
    gives the kinds of the items a configuration adds, in order. `Missing`
    gives the names it warns about, in order. Both take the set of names the
    factory has.
  - The lemmas about these functions are here too.
- `toolbar_view.dfy`, module `Toolbar`, holds the objects.
  - `ComponentFactory` answers `Has` and creates a new item with a new element.
  - `Warning` is a logged warning: the warning text, the name, and the factory.
  - `ToolbarView` has three fields: `items`, `trackedElements` (the focus
    tracker's set) and `warnings` (the log).
  - Its invariant `Valid()` says that the tracked elements are exactly the
    elements of the items, and that no two items share an element.
  - `Add` and `Remove` are the collection changes together with the add and
    remove handlers that update the tracker.
  - `AddEntry` is the callback applied to each configuration entry.
  - `FillFromConfig` is the loop over the configuration. Its contract ties the
    new state to `Expand` and `Missing`.

The add handler (toolbarview.js:91-93) registers every item's element, and
line 131 adds the separator through the same collection, so a separator's
element is tracked like any other.

## Model

| member | source | states |
|---|---|---|
| `Toolbar.ToolbarView.constructor` | packages/ckeditor5-ui/src/toolbar/toolbarview.js:28-45 | a new toolbar has no items, tracks no element and has logged nothing, and its mirror invariant holds |
| `Toolbar.ToolbarView.Add` | packages/ckeditor5-ui/src/toolbar/toolbarview.js:91-93 | adding an item appends it to the collection, adds exactly its element to the tracked set, leaves the log alone and keeps the mirror invariant |
| `Toolbar.ToolbarView.Remove` | packages/ckeditor5-ui/src/toolbar/toolbarview.js:95-97 | removing the item at an index returns it, drops it from the collection and removes exactly its element from the tracked set; an index with no item changes nothing; the mirror invariant is kept |
| `Toolbar.ComponentFactory.Create` | packages/ckeditor5-ui/src/toolbar/toolbarview.js:132-133 | for a name the factory has, creation yields a component for that name rendering a new element |
| `Toolbar.ComponentFactory.Has` | packages/ckeditor5-ui/src/toolbar/toolbarview.js:132 | for an entry other than the separator entry, the factory has it exactly when the entry expands to the factory's component, and lacks it exactly when the entry is warned about |
| `ToolbarItems.EntryKinds` | packages/ckeditor5-ui/src/toolbar/toolbarview.js:130-152 | each entry gives exactly one of an item or a warning; its item, if any, is a separator or the component for that very name, which the factory has |
| `ToolbarItems.EntryMissing` | packages/ckeditor5-ui/src/toolbar/toolbarview.js:134-151 | an entry is warned about at most once, only under its own name, only when it is not the separator entry and the factory lacks it, and always in that case |
| `Toolbar.ToolbarView.AddEntry` | packages/ckeditor5-ui/src/toolbar/toolbarview.js:129-152 | one entry appends exactly the items `EntryKinds` gives (a separator for the separator entry, the factory's component for a known name, nothing otherwise), with new elements, after the unchanged old items; the old log stays an unchanged prefix and grows by one warning per name `EntryMissing` gives, each carrying the `toolbarview-missing-component` message and the payload of that name and the factory (lines 148-151) |
| `Toolbar.ToolbarView.FillFromConfig` | packages/ckeditor5-ui/src/toolbar/toolbarview.js:124-154 | an absent configuration changes nothing; otherwise the old items stay an unchanged prefix, the appended items have the kinds `Expand` gives in the configuration's order, all with new elements, the tracked set grows by exactly their elements, and the old log stays an unchanged prefix followed by exactly one warning per name `Missing` gives, in order, each carrying the `toolbarview-missing-component` message and the payload of that name and the factory (lines 148-151) |
| `ToolbarItems.AppendKeepsMirror` | packages/ckeditor5-ui/src/toolbar/toolbarview.js:91-93 | appending an item whose element is new adds exactly that element to the items' elements and keeps them distinct |
| `ToolbarItems.RemoveKeepsMirror` | packages/ckeditor5-ui/src/toolbar/toolbarview.js:95-97 | removing the item at an index removes exactly its element from the items' elements, no other, and keeps them distinct |
| `ToolbarItems.AddThenRemove` | packages/ckeditor5-ui/src/toolbar/toolbarview.js:91-97 | the value-level step of the round trip: dropping the last item of a sequence just extended by it restores both the sequence and the set of its elements |
| `Toolbar.AddThenRemoveRestores` | packages/ckeditor5-ui/src/toolbar/toolbarview.js:91-97 | on the toolbar, adding an item and then removing the item at the last index returns that item and restores the collection, the tracked elements and the log, keeping the mirror invariant |
| `ToolbarItems.Expand` | packages/ckeditor5-ui/src/toolbar/toolbarview.js:129-153 | a configuration adds at most one item per entry |
| `ToolbarItems.Missing` | packages/ckeditor5-ui/src/toolbar/toolbarview.js:134-151 | a configuration logs at most one warning per entry |
| `ToolbarItems.ExpandSound` | packages/ckeditor5-ui/src/toolbar/toolbarview.js:130-151 | every added item is a separator or a component for a configured name other than the separator entry that the factory has; every warning is about a configured name other than the separator entry that the factory lacks |
| `ToolbarItems.ExpandSingle` | packages/ckeditor5-ui/src/toolbar/toolbarview.js:130-151 | a one-entry configuration gives exactly that entry's items and warnings |
| `ToolbarItems.ExpandConcat` | packages/ckeditor5-ui/src/toolbar/toolbarview.js:129-153 | the items of a concatenation of configurations are the items of the first one followed by those of the second |
| `ToolbarItems.MissingConcat` | packages/ckeditor5-ui/src/toolbar/toolbarview.js:134-153 | the warnings of a concatenation of configurations are those of the first one followed by those of the second |
| `ToolbarItems.ExpandAt` | packages/ckeditor5-ui/src/toolbar/toolbarview.js:129-153 | the items are those of the entries before entry i, then entry i's, then those of the entries after it: items follow the order of their entries, and a missing entry adds nothing without stopping the later ones |
| `ToolbarItems.MissingAt` | packages/ckeditor5-ui/src/toolbar/toolbarview.js:134-153 | the warnings are those of the entries before entry i, then entry i's, then those after it |
| `ToolbarItems.ExpandStep` | packages/ckeditor5-ui/src/toolbar/toolbarview.js:129-153 | expanding the first i+1 entries is expanding the first i and then entry i, for items and warnings |
| `ToolbarItems.SeparatorIgnoresFactory` | packages/ckeditor5-ui/src/toolbar/toolbarview.js:130-132 | whether the factory has a component named like the separator entry changes neither the items nor the warnings: the separator entry always becomes a separator |
| `ToolbarItems.ItemCount` | packages/ckeditor5-ui/src/toolbar/toolbarview.js:129-133 | the number of items added equals the number of separator entries plus the number of other entries the factory has |
| `ToolbarItems.WarningCount` | packages/ckeditor5-ui/src/toolbar/toolbarview.js:134-151 | the number of warnings equals the number of entries other than the separator entry that the factory lacks |
| `ToolbarItems.CountingLaw` | packages/ckeditor5-ui/src/toolbar/toolbarview.js:129-153 | bundles ItemCount and WarningCount, and adds the sum law: items added plus warnings logged equals the number of entries |
| `ToolbarItems.ExampleConfig` | packages/ckeditor5-ui/src/toolbar/toolbarview.js:129-153 | the configuration bold, separator, italic, missing, with a factory of `bold` and `italic` gives bold, a separator and italic, and one warning, about `missing` |

## Left out

- `focus()` and the arrow-key bindings (lines 62-73, 113-115) are not modelled. They delegate to `FocusCycler` in `../focuscycler`, and that file is not part of this model.
- The template is not modelled: the `ck-toolbar` class, the rendering of the children and the `mousedown` `preventDefault` binding (lines 75-89). This is DOM templating and event handling.
- `init()` and `keystrokes.listenTo(this.element)` (lines 103-108) are not modelled. This is DOM event wiring and the `View` lifecycle.
- `log.warn` is not real output here. It appends a `Warning` to the `warnings` field, with the warning text and the `{ name, factory }` payload.
- `ComponentFactory`, `FocusTracker`, `ToolbarSeparatorView`, `View`, `ViewCollection` and the locale are not part of this model. They appear only through what the toolbar uses.
  - The factory is a fixed set of names. `Has` is membership in that set.
  - `Create` yields a component tagged with the name, rendering a new element. That stands for the new view the factory's registered callback returns.
  - The focus tracker is a set of elements.
  - A separator is a `Separator` item with a new element.
- Toolbar.ToolbarView.Add: requires that the item's element is not tracked already. The collection and focus tracker code that would reject a repeated view is not part of this model.
- Toolbar.ComponentFactory.Create: always yields a view with a new element. A registered callback that returns a view already in `items` would make `items.add` at line 133 fail and stop the rest of `config.map`; that case is not modelled.
- Toolbar.ToolbarView.Remove: removes only by index. Removal by reference or id, insertion at an index, and the collection's own error behaviour are not modelled, because the collection class is not part of this model. An index with no item returns `None` and changes nothing.
- Toolbar.ToolbarView.FillFromConfig: JavaScript's "falsy configuration" is modelled as `None`. This covers `undefined`, `null` and other falsy values. A present but empty list is `Some([])`, which also changes nothing.
- Toolbar.ToolbarView.FillFromConfig: how often `factory.has` is consulted is not stated in a contract. `AddEntry` does not consult the factory for `'|'`, as in the code.
