/** `MyNetworkTree`: reading a media server's Browse answer into
    `(objectID, title[, url])` entries, and what activating a tree item does
    with them. The Browse call and the XML parser are collaborators: the
    model receives the parsed children, or `None` when the call, the lookup
    of `"Result"` or the parse raised. */
module NetworkTree {
  import opened Wrappers

  /** One child element of an answer item: its tag (namespace included) and text. */
  datatype Spec = Spec(tag: string, text: string)

  /** One item of the answer: its attribute values in document order, and its child elements. */
  datatype Child = Child(values: seq<string>, specs: seq<Spec>)

  /** A Python tuple `(objectID, title, url, ...)`. */
  type Entry = seq<string>

  /** The entries gathered so far, and whether an exception ended the walk. */
  datatype Browse = Browse(entries: seq<Entry>, failed: bool)

  /** Python's `sub in s` on strings. */
  predicate Contains(s: string, sub: string)
    decreases |s|
  {
    (|sub| <= |s| && s[..|sub|] == sub) || (|s| > 0 && Contains(s[1..], sub))
  }

  predicate IsTitle(sp: Spec) { Contains(sp.tag, "title") }

  predicate IsRes(sp: Spec) { Contains(sp.tag, "res") }

  /** One spec: a title appends `(values[0], text)` (IndexError when the
      item has no attributes); a res extends the LAST entry of the list,
      whichever item it came from (IndexError when the list is empty). */
  function SpecStep(acc: seq<Entry>, c: Child, sp: Spec): (r: Browse)
    ensures r.failed ==> r.entries == acc || (IsTitle(sp) && |r.entries| == |acc| + 1)
    ensures !IsTitle(sp) && !IsRes(sp) ==> r == Browse(acc, false)
    ensures IsTitle(sp) && |c.values| == 0 ==> r == Browse(acc, true)
    ensures IsTitle(sp) && |c.values| > 0 && !IsRes(sp) ==> r == Browse(acc + [[c.values[0], sp.text]], false)
    ensures IsTitle(sp) && |c.values| > 0 && IsRes(sp) ==> r == Browse(acc + [[c.values[0], sp.text, sp.text]], false)
    ensures !IsTitle(sp) && IsRes(sp) && |acc| == 0 ==> r == Browse(acc, true)
    ensures !IsTitle(sp) && IsRes(sp) && |acc| > 0 ==>
      r == Browse(acc[..|acc| - 1] + [acc[|acc| - 1] + [sp.text]], false)
  {
    var t :=
      if !IsTitle(sp) then Browse(acc, false)
      else if |c.values| == 0 then Browse(acc, true)
      else Browse(acc + [[c.values[0], sp.text]], false);
    if t.failed || !IsRes(sp) then t
    else if |t.entries| == 0 then Browse(t.entries, true)
    else
      var e := t.entries;
      assert IsTitle(sp) && |c.values| > 0 ==>
        e[..|e| - 1] == acc && e[|e| - 1] + [sp.text] == [c.values[0], sp.text, sp.text];
      Browse(e[..|e| - 1] + [e[|e| - 1] + [sp.text]], false)
  }

  /** The inner loop over one item's specs, stopping at the first exception. */
  function Specs(acc: seq<Entry>, c: Child, specs: seq<Spec>): Browse
    decreases |specs|
  {
    if |specs| == 0 then Browse(acc, false)
    else
      var b := SpecStep(acc, c, specs[0]);
      if b.failed then b else Specs(b.entries, c, specs[1..])
  }

  /** The outer loop over the items, stopping at the first exception. */
  function Children(acc: seq<Entry>, cs: seq<Child>): Browse
    decreases |cs|
  {
    if |cs| == 0 then Browse(acc, false)
    else
      var b := Specs(acc, cs[0], cs[0].specs);
      if b.failed then b else Children(b.entries, cs[1..])
  }

  /** `browseChildren`: the bare `except` hands back whatever was gathered
      before the exception, and nothing when the call itself failed. */
  function BrowseChildren(answer: Option<seq<Child>>): (r: seq<Entry>)
    ensures answer.None? ==> r == []
    ensures Entries(r)
  {
    match answer
    case None => []
    case Some(cs) =>
      ChildrenKeep([], cs);
      Children([], cs).entries
  }

  // ---------------------------------------------------------------------------
  // What the walk keeps
  // ---------------------------------------------------------------------------

  /** Every entry has at least an id and a title, and entries gathered
      earlier are kept, exception or not; only the last one can grow. */
  predicate Keeps(acc: seq<Entry>, out: seq<Entry>)
  {
    |out| >= |acc| &&
    (|acc| > 0 ==> out[..|acc| - 1] == acc[..|acc| - 1] && acc[|acc| - 1] <= out[|acc| - 1])
  }

  predicate Entries(es: seq<Entry>)
  {
    forall k :: 0 <= k < |es| ==> |es[k]| >= 2
  }

  lemma KeepsTrans(a: seq<Entry>, b: seq<Entry>, c: seq<Entry>)
    requires Keeps(a, b) && Keeps(b, c)
    ensures Keeps(a, c)
  {
    if |a| > 0 {
      assert b[..|a| - 1] == b[..|b| - 1][..|a| - 1] by {
        if |b| > |a| {
          assert b[..|b| - 1][..|a| - 1] == b[..|a| - 1];
        }
      }
      if |b| == |a| {
        assert c[..|a| - 1] == a[..|a| - 1];
      } else {
        assert b[|a| - 1] == b[..|b| - 1][|a| - 1];
        assert c[|a| - 1] == c[..|b| - 1][|a| - 1];
        assert c[..|a| - 1] == c[..|b| - 1][..|a| - 1];
      }
    }
  }

  lemma SpecStepKeeps(acc: seq<Entry>, c: Child, sp: Spec)
    requires Entries(acc)
    ensures Entries(SpecStep(acc, c, sp).entries)
    ensures Keeps(acc, SpecStep(acc, c, sp).entries)
  {
    var t :=
      if !IsTitle(sp) then Browse(acc, false)
      else if |c.values| == 0 then Browse(acc, true)
      else Browse(acc + [[c.values[0], sp.text]], false);
    assert Keeps(acc, t.entries);
    if !t.failed && IsRes(sp) && |t.entries| > 0 {
      var e := t.entries;
      var r := e[..|e| - 1] + [e[|e| - 1] + [sp.text]];
      assert r[..|e| - 1] == e[..|e| - 1];
      assert e[|e| - 1] <= r[|e| - 1];
      assert Keeps(e, r);
      KeepsTrans(acc, e, r);
    }
  }

  lemma {:induction false} SpecsKeep(acc: seq<Entry>, c: Child, specs: seq<Spec>)
    requires Entries(acc)
    ensures Entries(Specs(acc, c, specs).entries)
    ensures Keeps(acc, Specs(acc, c, specs).entries)
    decreases |specs|
  {
    if |specs| > 0 {
      var b := SpecStep(acc, c, specs[0]);
      SpecStepKeeps(acc, c, specs[0]);
      if !b.failed {
        SpecsKeep(b.entries, c, specs[1..]);
        KeepsTrans(acc, b.entries, Specs(b.entries, c, specs[1..]).entries);
      }
    }
  }

  lemma {:induction false} ChildrenKeep(acc: seq<Entry>, cs: seq<Child>)
    requires Entries(acc)
    ensures Entries(Children(acc, cs).entries)
    ensures Keeps(acc, Children(acc, cs).entries)
    decreases |cs|
  {
    if |cs| > 0 {
      var b := Specs(acc, cs[0], cs[0].specs);
      SpecsKeep(acc, cs[0], cs[0].specs);
      if !b.failed {
        ChildrenKeep(b.entries, cs[1..]);
        KeepsTrans(acc, b.entries, Children(b.entries, cs[1..]).entries);
      }
    }
  }

  // ---------------------------------------------------------------------------
  // The intended reading of a well-formed answer
  // ---------------------------------------------------------------------------

  /** The texts of the res specs, in order. */
  function ResTexts(specs: seq<Spec>): (ts: seq<string>)
    ensures |ts| <= |specs|
  {
    if |specs| == 0 then []
    else (if IsRes(specs[0]) then [specs[0].text] else []) + ResTexts(specs[1..])
  }

  /** An item as a DIDL-Lite listing describes it: attributes present, a
      title first, and no further title. */
  predicate WellFormed(c: Child)
  {
    |c.values| > 0 && |c.specs| > 0 && IsTitle(c.specs[0]) && !IsRes(c.specs[0]) &&
    forall k :: 1 <= k < |c.specs| ==> !IsTitle(c.specs[k])
  }

  /** The entry an item stands for: its id, its title, then its urls. */
  function EntryOf(c: Child): Entry
    requires WellFormed(c)
  {
    [c.values[0], c.specs[0].text] + ResTexts(c.specs[1..])
  }

  lemma {:induction false} ResTail(acc: seq<Entry>, c: Child, specs: seq<Spec>)
    requires |acc| > 0
    requires forall k :: 0 <= k < |specs| ==> !IsTitle(specs[k])
    ensures Specs(acc, c, specs) ==
      Browse(acc[..|acc| - 1] + [acc[|acc| - 1] + ResTexts(specs)], false)
    decreases |specs|
  {
    var last := acc[|acc| - 1];
    if |specs| == 0 {
      assert last + [] == last;
      assert acc == acc[..|acc| - 1] + [last];
    } else {
      var sp := specs[0];
      var next := if IsRes(sp) then acc[..|acc| - 1] + [last + [sp.text]] else acc;
      assert SpecStep(acc, c, sp) == Browse(next, false);
      assert |next| == |acc| && next[..|acc| - 1] == acc[..|acc| - 1];
      assert forall k :: 0 <= k < |specs[1..]| ==> !IsTitle(specs[1..][k]) by {
        forall k | 0 <= k < |specs[1..]| ensures !IsTitle(specs[1..][k]) {
          assert specs[1..][k] == specs[k + 1];
        }
      }
      ResTail(next, c, specs[1..]);
      var nl := next[|next| - 1];
      assert nl == (if IsRes(sp) then last + [sp.text] else last);
      assert ResTexts(specs) == (if IsRes(sp) then [sp.text] else []) + ResTexts(specs[1..]);
      assert nl + ResTexts(specs[1..]) == last + ResTexts(specs);
    }
  }

  /** A well-formed item adds exactly its own entry. */
  lemma WellFormedItem(acc: seq<Entry>, c: Child)
    requires WellFormed(c)
    ensures Specs(acc, c, c.specs) == Browse(acc + [EntryOf(c)], false)
  {
    var head := [c.values[0], c.specs[0].text];
    var acc1 := acc + [head];
    assert SpecStep(acc, c, c.specs[0]) == Browse(acc1, false);
    assert forall k :: 0 <= k < |c.specs[1..]| ==> !IsTitle(c.specs[1..][k]) by {
      forall k | 0 <= k < |c.specs[1..]| ensures !IsTitle(c.specs[1..][k]) {
        assert c.specs[1..][k] == c.specs[k + 1];
      }
    }
    ResTail(acc1, c, c.specs[1..]);
    assert acc1[..|acc1| - 1] == acc;
  }

  /** A well-formed answer yields one entry per item, in order, each with
      as many urls as the item has res elements — and no exception. */
  lemma {:induction false} WellFormedAnswer(acc: seq<Entry>, cs: seq<Child>)
    requires forall k :: 0 <= k < |cs| ==> WellFormed(cs[k])
    ensures !Children(acc, cs).failed
    ensures |Children(acc, cs).entries| == |acc| + |cs|
    ensures Children(acc, cs).entries[..|acc|] == acc
    ensures forall k :: 0 <= k < |cs| ==> Children(acc, cs).entries[|acc| + k] == EntryOf(cs[k])
    decreases |cs|
  {
    if |cs| > 0 {
      WellFormedItem(acc, cs[0]);
      var acc1 := acc + [EntryOf(cs[0])];
      WellFormedAnswer(acc1, cs[1..]);
      var out := Children(acc, cs).entries;
      assert out == Children(acc1, cs[1..]).entries;
      assert out[..|acc|] == out[..|acc1|][..|acc|];
      forall k | 0 <= k < |cs|
        ensures out[|acc| + k] == EntryOf(cs[k])
      {
        if k == 0 {
          assert out[|acc|] == out[..|acc1|][|acc|];
        } else {
          assert cs[k] == cs[1..][k - 1];
        }
      }
    }
  }

  /** A res element before any title has no entry to extend: the
      IndexError is swallowed and the answer reads as empty. */
  lemma ResBeforeTitle(c: Child, rest: seq<Child>)
    requires |c.specs| > 0 && IsRes(c.specs[0]) && !IsTitle(c.specs[0])
    ensures BrowseChildren(Some([c] + rest)) == []
  {
    assert ([c] + rest)[0] == c;
  }

  // ---------------------------------------------------------------------------
  // The tree
  // ---------------------------------------------------------------------------

  /** A tree item with its ancestry: `parent` is `None` for a device at the top level. */
  datatype NetItem = NetItem(displayText: string, itemID: string, address: Option<string>, parent: Option<NetItem>)

  /** `addParentItem`: a device is browsed from object id `"0"`. */
  function AddParentItem(deviceName: string): (it: NetItem)
    ensures it.itemID == "0" && it.parent.None? && it.address.None?
    ensures Path(it) == [deviceName]
  {
    NetItem(deviceName, "0", None, None)
  }

  /** `addChildItem`: a child under `parent`. */
  function AddChildItem(displayName: string, itemID: string, address: Option<string>, parent: NetItem): (it: NetItem)
    ensures it.parent == Some(parent)
    ensures Path(it) == Path(parent) + [displayName]
  {
    NetItem(displayName, itemID, address, Some(parent))
  }

  /** The names from the device down to the item. */
  function Path(it: NetItem): (p: seq<string>)
    ensures |p| >= 1 && p[|p| - 1] == it.displayText
  {
    (match it.parent case None => [] case Some(q) => Path(q)) + [it.displayText]
  }

  /** `getParent(it, text)`: prepend names while climbing to the top, which
      leaves the item's path from its device in front of `text`. */
  function GetParent(it: Option<NetItem>, text: seq<string>): (r: seq<string>)
    ensures it.None? ==> r == text
    ensures it.Some? ==> r == Path(it.value) + text
  {
    match it
    case None => text
    case Some(t) =>
      var up := match t.parent case None => [] case Some(q) => Path(q);
      assert up + ([t.displayText] + text) == Path(t) + text;
      GetParent(t.parent, [t.displayText] + text)
  }

  /** What one activation does: the items added below it, and the values
      sent with `playMediaFile` (at most one). */
  datatype Click = Click(added: seq<NetItem>, played: seq<Option<string>>)

  predicate Usable(out: Entry) { |out| == 2 || |out| == 3 }

  /** The item an entry of length 2 (a container) or 3 (media with a url) adds. */
  function ChildItem(it: NetItem, out: Entry): NetItem
    requires Usable(out)
  {
    AddChildItem(out[1], out[0], if |out| == 3 then Some(out[2]) else None, it)
  }

  /** The entries the loop over `outs` acts on, in order. */
  function UsableEntries(outs: seq<Entry>): (u: seq<Entry>)
    ensures |u| <= |outs|
    ensures forall o :: o in u <==> o in outs && Usable(o)
    ensures (forall k :: 0 <= k < |outs| ==> Usable(outs[k])) ==> u == outs
  {
    if |outs| == 0 then []
    else
      var rest := UsableEntries(outs[1..]);
      assert forall o :: o in outs <==> o == outs[0] || o in outs[1..];
      assert (forall k :: 0 <= k < |outs| ==> Usable(outs[k])) ==>
        forall k :: 0 <= k < |outs[1..]| ==> Usable(outs[1..][k]);
      if Usable(outs[0]) then [outs[0]] + rest else rest
  }

  lemma {:induction false} UsableEntriesAppend(a: seq<Entry>, b: seq<Entry>)
    ensures UsableEntries(a + b) == UsableEntries(a) + UsableEntries(b)
    decreases |a|
  {
    if |a| > 0 {
      assert (a + b)[0] == a[0];
      assert (a + b)[1..] == a[1..] + b;
      UsableEntriesAppend(a[1..], b);
    } else {
      assert a + b == b;
    }
  }

  /** The loop over `outs`: one child per entry of length 2 or 3, in the
      order of the entries; entries of any other length are skipped. */
  function AddChildren(it: NetItem, outs: seq<Entry>): (added: seq<NetItem>)
    ensures |added| == |UsableEntries(outs)| <= |outs|
    ensures forall i :: 0 <= i < |added| ==> added[i] == ChildItem(it, UsableEntries(outs)[i])
    ensures forall c :: c in added ==> exists o :: o in outs && Usable(o) && c == ChildItem(it, o)
    ensures forall o :: o in outs && Usable(o) ==> ChildItem(it, o) in added
  {
    if |outs| == 0 then []
    else
      var rest := AddChildren(it, outs[1..]);
      assert forall o :: o in outs[1..] ==> o in outs;
      assert forall o :: o in outs ==> o == outs[0] || o in outs[1..];
      var u := UsableEntries(outs[1..]);
      if Usable(outs[0]) then
        assert UsableEntries(outs) == [outs[0]] + u;
        assert forall i :: 1 <= i < |u| + 1 ==> ([outs[0]] + u)[i] == u[i - 1];
        [ChildItem(it, outs[0])] + rest
      else
        assert UsableEntries(outs) == u;
        rest
  }

  /** `__itemClicked(it)` given the item's child count and its browse result:
      an unexpanded item gets its children; an unexpanded item with no
      children at all is played from its address. */
  function ItemClicked(it: NetItem, childCount: nat, outs: seq<Entry>): (r: Click)
    ensures childCount != 0 ==> r == Click([], [])
    ensures childCount == 0 ==> r.added == AddChildren(it, outs)
    ensures |r.played| <= 1
    ensures r.played == (if childCount == 0 && |outs| == 0 then [it.address] else [])
    ensures forall c :: c in r.added ==> c.parent == Some(it) && Path(c) == Path(it) + [c.displayText]
    ensures forall c :: c in r.added ==> (c.address.Some? <==> exists o :: o in outs && |o| == 3 && c == ChildItem(it, o))
  {
    if childCount != 0 then Click([], [])
    else Click(AddChildren(it, outs), if |outs| == 0 then [it.address] else [])
  }

  /** Browsing an unexpanded container whose answer is well formed adds one
      item per listed item: titled as listed, and playable exactly when the
      listing gives it one url. */
  lemma ExpandWellFormed(it: NetItem, cs: seq<Child>)
    requires forall k :: 0 <= k < |cs| ==> WellFormed(cs[k])
    ensures forall k :: 0 <= k < |cs| && WellFormed(cs[k]) && |ResTexts(cs[k].specs[1..])| <= 1 ==>
      ChildItem(it, EntryOf(cs[k])) in ItemClicked(it, 0, BrowseChildren(Some(cs))).added
  {
    WellFormedAnswer([], cs);
    var outs := BrowseChildren(Some(cs));
    forall k | 0 <= k < |cs| && |ResTexts(cs[k].specs[1..])| <= 1
      ensures ChildItem(it, EntryOf(cs[k])) in ItemClicked(it, 0, outs).added
    {
      assert outs[k] == EntryOf(cs[k]);
      assert outs[k] in outs;
    }
  }
}
