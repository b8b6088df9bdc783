/** NodeManagerWidget (NodeManagerWidget.cpp): the row of per-effect item
    widgets. It keeps a map from key to item and the items placed in its
    layout; the set of dirty keys, whose accessors are declared in
    NodeManagerWidget.h without a body, is kept as a plain set. */
module NodeManager {
  import opened Containers

  type Key = string

  /** A NodeItemWidget, reduced to its identity and its key. */
  class NodeItemWidget {
    const key: Key

    constructor (key: Key)
      ensures this.key == key
    {
      this.key := key;
    }
  }

  /** QLayout::removeWidget: drops every layout entry for `w` and keeps the
      others, each as often as before, in their order (`RemoveWidgetAppend`). */
  function RemoveWidget<T(==)>(items: seq<T>, w: T): (r: seq<T>)
    ensures forall x :: x in r ==> x in items && x != w
    ensures forall x :: x in items && x != w ==> x in r
    ensures multiset(r) == multiset(items)[w := 0]
    ensures w !in items ==> r == items
    ensures w in items ==> |r| < |items|
  {
    if items == [] then []
    else
      assert items == [items[0]] + items[1..];
      if items[0] == w then RemoveWidget(items[1..], w)
      else [items[0]] + RemoveWidget(items[1..], w)
  }

  /** Removal works piece by piece: removing from a concatenation removes
      from each part and keeps the parts in order. With the one-item case
      this fixes the order of what stays. */
  lemma {:induction false} RemoveWidgetAppend<T>(a: seq<T>, b: seq<T>, w: T)
    ensures RemoveWidget(a + b, w) == RemoveWidget(a, w) + RemoveWidget(b, w)
    decreases |a|
  {
    if a == [] {
      assert a + b == b;
    } else {
      assert (a + b)[1..] == a[1..] + b;
      RemoveWidgetAppend(a[1..], b, w);
    }
  }

  class NodeManagerWidget {
    /** m_widgets. */
    var widgets: map<Key, NodeItemWidget>
    /** The items in layout(), in order. */
    var layout: seq<NodeItemWidget>
    /** The keys with unsaved edits. */
    var dirty: set<Key>

    ghost predicate Valid()
      reads this
    {
      forall k :: k in widgets ==> widgets[k].key == k
    }

    /** A fresh manager with an empty horizontal layout. */
    constructor ()
      ensures Valid()
      ensures widgets == map[] && layout == [] && dirty == {}
    {
      widgets := map[];
      layout := [];
      dirty := {};
    }

    /** The caller must pass an item whose key is not registered yet (the
        source asserts it). The item is registered under its key and put at
        the end of the layout. */
    method Add(item: NodeItemWidget)
      requires Valid()
      requires item.key !in widgets
      modifies this`widgets, this`layout
      ensures Valid()
      ensures widgets == old(widgets)[item.key := item]
      ensures layout == old(layout) + [item]
      ensures |layout| == |old(layout)| + 1
    {
      widgets := Insert(widgets, item.key, item);
      layout := layout + [item];
    }

    /** Takes the item of `key` out of the layout and reports whether the
        key was registered. The map entry is not erased, so the key stays
        mapped (to an item the source has deleted). */
    method Remove(key: Key) returns (found: bool)
      modifies this`layout
      ensures found <==> key in widgets
      ensures widgets == old(widgets)
      ensures found ==> layout == RemoveWidget(old(layout), widgets[key]) && widgets[key] !in layout
      ensures !found ==> layout == old(layout)
    {
      match Find(widgets, key)
      case Some(item) =>
        layout := RemoveWidget(layout, item);
        found := true;
      case None =>
        found := false;
    }

    /** markDirty, taken as insertion into the dirty set. */
    method MarkDirty(key: Key)
      requires Valid()
      modifies this`dirty
      ensures Valid()
      ensures dirty == old(dirty) + {key}
    {
      dirty := dirty + {key};
    }

    /** unmarkDirty, taken as removal from the dirty set. */
    method UnmarkDirty(key: Key)
      requires Valid()
      modifies this`dirty
      ensures Valid()
      ensures dirty == old(dirty) - {key}
    {
      dirty := dirty - {key};
    }
  }
}
