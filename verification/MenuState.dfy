/**
 Live menu state (native_shell.rs): on Linux an update searches the item tree, on the
 other systems it goes through a flat map of handles filled when the menu is built. On a
 validated menu the two agree.
 */
module MenuState {
  import opened Outcomes
  import opened MenuValidation

  /** The two updates an application can ask for. */
  datatype Change = SetEnabled(enabled: bool) | SetChecked(checked: bool)

  // ------------------------------------------------------------- the tree search

  /** `set_item_checked` looks for a checkbox with the id, `set_item_enabled` for any item. */
  predicate Hits(kind: Kind, id: string, wanted: string, change: Change) {
    id == wanted && (change.SetChecked? ==> kind.Checkbox?)
  }

  function ChangeItem(item: MenuItem, change: Change): MenuItem {
    match change
    case SetEnabled(enabled) => item.(enabled := enabled)
    case SetChecked(checked) => item.(checked := checked)
  }

  /** `set_item_enabled` and `set_item_checked`: the item itself, then its children, then the rest. */
  function SetItem(items: seq<MenuItem>, id: string, change: Change): Option<seq<MenuItem>>
    decreases items
  {
    if items == [] then None
    else if Hits(items[0].kind, items[0].id, id, change) then
      Some([ChangeItem(items[0], change)] + items[1..])
    else
      var below := SetItem(items[0].items, id, change);
      if below.Some? then Some([items[0].(items := below.value)] + items[1..])
      else
        var rest := SetItem(items[1..], id, change);
        if rest.Some? then Some([items[0]] + rest.value) else None
  }

  /** `find_checked`. */
  function FindChecked(items: seq<MenuItem>, id: string): Option<bool>
    decreases items
  {
    if items == [] then None
    else if items[0].id == id && items[0].kind.Checkbox? then Some(items[0].checked)
    else
      var below := FindChecked(items[0].items, id);
      if below.Some? then below else FindChecked(items[1..], id)
  }

  // ----------------------------------------------------- the search on the flat list

  function ChangeEntry(e: Entry, change: Change): Entry {
    match change
    case SetEnabled(enabled) => e.(enabled := enabled)
    case SetChecked(checked) => e.(checked := checked)
  }

  /** The position of the first entry the update hits, or the length when there is none. */
  function FirstHit(flat: seq<Entry>, id: string, change: Change): (i: nat)
    ensures i <= |flat|
    ensures i < |flat| ==> Hits(flat[i].kind, flat[i].id, id, change)
    ensures forall k | 0 <= k < i :: !Hits(flat[k].kind, flat[k].id, id, change)
  {
    if flat == [] then 0
    else if Hits(flat[0].kind, flat[0].id, id, change) then 0
    else 1 + FirstHit(flat[1..], id, change)
  }

  function SetFlat(flat: seq<Entry>, id: string, change: Change): Option<seq<Entry>> {
    var i := FirstHit(flat, id, change);
    if i == |flat| then None else Some(flat[i := ChangeEntry(flat[i], change)])
  }

  lemma {:induction false} FirstHitConcat(a: seq<Entry>, b: seq<Entry>, id: string, change: Change)
    ensures var i := FirstHit(a, id, change);
            FirstHit(a + b, id, change) == if i < |a| then i else |a| + FirstHit(b, id, change)
  {
    if a == [] {
      assert a + b == b;
    } else {
      assert (a + b)[1..] == a[1..] + b;
      FirstHitConcat(a[1..], b, id, change);
    }
  }

  lemma UpdateFront<T>(a: seq<T>, b: seq<T>, i: nat, x: T)
    requires i < |a|
    ensures (a + b)[i := x] == a[i := x] + b
  {
  }

  lemma UpdateBack<T>(a: seq<T>, b: seq<T>, i: nat, x: T)
    requires i < |b|
    ensures (a + b)[|a| + i := x] == a + b[i := x]
  {
  }

  lemma SetFlatConcat(a: seq<Entry>, b: seq<Entry>, id: string, change: Change)
    ensures SetFlat(a + b, id, change)
         == if SetFlat(a, id, change).Some? then Some(SetFlat(a, id, change).value + b)
            else if SetFlat(b, id, change).Some? then Some(a + SetFlat(b, id, change).value)
            else None
  {
    FirstHitConcat(a, b, id, change);
    var i, j := FirstHit(a, id, change), FirstHit(b, id, change);
    if i < |a| {
      UpdateFront(a, b, i, ChangeEntry(a[i], change));
    } else if j < |b| {
      UpdateBack(a, b, j, ChangeEntry(b[j], change));
    }
  }

  /** Searching and changing the tree is searching and changing one entry of the flat list. */
  lemma {:induction false} SetItemIsSetFlat(items: seq<MenuItem>, depth: nat, id: string, change: Change)
    ensures SetItem(items, id, change).Some? <==> SetFlat(Flat(items, depth), id, change).Some?
    ensures SetItem(items, id, change).Some? ==>
              && Flat(SetItem(items, id, change).value, depth) == SetFlat(Flat(items, depth), id, change).value
              && |SetItem(items, id, change).value| == |items|
    decreases items
  {
    if items != [] {
      var head := items[0];
      var own, below, rest := [EntryOf(head, depth)], Flat(head.items, depth + 1), Flat(items[1..], depth);
      SetItemIsSetFlat(head.items, depth + 1, id, change);
      SetItemIsSetFlat(items[1..], depth, id, change);
      SetFlatConcat(own + below, rest, id, change);
      SetFlatConcat(own, below, id, change);
      OneEntryFlat(own[0], id, change);
      if SetItem(items, id, change).Some? {
        var changed := SetItem(items, id, change).value;
        assert changed == [changed[0]] + changed[1..];
        assert changed[1..] == if SetItem(head.items, id, change).None? && !Hits(head.kind, head.id, id, change)
                               then SetItem(items[1..], id, change).value else items[1..];
        assert Flat(changed, depth)
            == [EntryOf(changed[0], depth)] + Flat(changed[0].items, depth + 1) + Flat(changed[1..], depth);
      }
    }
  }

  lemma OneEntryFlat(e: Entry, id: string, change: Change)
    ensures SetFlat([e], id, change) == if Hits(e.kind, e.id, id, change) then Some([ChangeEntry(e, change)]) else None
  {
    assert FirstHit([e], id, change) == if Hits(e.kind, e.id, id, change) then 0 else 1 + FirstHit([e][1..], id, change);
    assert [e][0 := ChangeEntry(e, change)] == [ChangeEntry(e, change)];
  }

  // ------------------------------------------------------------- the handle map

  /** A native item reachable by its id; its state is what the platform shows. */
  datatype Handle = Handle(kind: Kind, enabled: bool, checked: bool)

  type Handles = map<string, Handle>

  function HandleOf(e: Entry): Handle {
    Handle(e.kind, e.enabled, e.checked)
  }

  /** The map with the handle of one item; separators have none. */
  function WithHandle(handles: Handles, item: MenuItem): Handles {
    if item.kind.Separator? then handles else handles[item.id := Handle(item.kind, item.enabled, item.checked)]
  }

  /** `build_item`: children before their submenu. */
  function Build(items: seq<MenuItem>, handles: Handles): Handles
    decreases items
  {
    if items == [] then handles
    else
      var below := if items[0].kind.Submenu? then Build(items[0].items, handles) else handles;
      Build(items[1..], WithHandle(below, items[0]))
  }

  /** `set_menu_enabled` and `set_menu_checked` through the map. */
  function SetHandle(handles: Handles, id: string, change: Change): Option<Handles> {
    if id !in handles then None
    else
      var h := handles[id];
      match change
      case SetEnabled(enabled) => Some(handles[id := h.(enabled := enabled)])
      case SetChecked(checked) => if h.kind.Checkbox? then Some(handles[id := h.(checked := checked)]) else None
  }

  /**
   What an update through the map does: it succeeds for an item that is there, and a checkbox
   when it is to be checked; the item then shows what was asked for, and nothing else changes.
   */
  lemma HandleShowsUpdate(handles: Handles, id: string, change: Change)
    ensures SetHandle(handles, id, change).Some? <==>
            id in handles && (change.SetChecked? ==> handles[id].kind == Checkbox)
    ensures SetHandle(handles, id, change).Some? ==>
              var after := SetHandle(handles, id, change).value;
              && after.Keys == handles.Keys && after[id].kind == handles[id].kind
              && (forall other | other in handles && other != id :: after[other] == handles[other])
              && match change
                 case SetEnabled(enabled) => after[id].enabled == enabled && after[id].checked == handles[id].checked
                 case SetChecked(checked) => after[id].checked == checked && after[id].enabled == handles[id].enabled
  {
  }

  /** The map has a handle for every item that is no separator, with that item's state. */
  ghost predicate Mirrors(handles: Handles, flat: seq<Entry>) {
    && handles.Keys == IdSet(flat)
    && forall i | 0 <= i < |flat| && !flat[i].kind.Separator? :: handles[flat[i].id] == HandleOf(flat[i])
  }

  ghost predicate Fine(flat: seq<Entry>) {
    EntriesFine(flat) && DistinctIds(flat)
  }

  /** The map before, with the handles of these entries added or replaced. */
  ghost predicate Added(before: Handles, flat: seq<Entry>, after: Handles) {
    && after.Keys == before.Keys + IdSet(flat)
    && (forall id | id in before && id !in IdSet(flat) :: after[id] == before[id])
    && forall i | 0 <= i < |flat| && !flat[i].kind.Separator? :: after[flat[i].id] == HandleOf(flat[i])
  }

  lemma AddedConcat(before: Handles, a: seq<Entry>, middle: Handles, b: seq<Entry>, after: Handles)
    requires Added(before, a, middle) && Added(middle, b, after)
    requires IdSet(a) !! IdSet(b)
    ensures Added(before, a + b, after)
  {
    IdSetConcat(a, b);
    forall i | 0 <= i < |a + b| && !(a + b)[i].kind.Separator?
      ensures after[(a + b)[i].id] == HandleOf((a + b)[i])
    {
      if i < |a| {
        assert a[i].id in IdSet(a);
        assert after[a[i].id] == middle[a[i].id];
      }
    }
  }

  /** The order of adding disjoint entries does not matter. */
  lemma AddedSwap(before: Handles, a: seq<Entry>, b: seq<Entry>, after: Handles)
    requires Added(before, a + b, after)
    ensures Added(before, b + a, after)
  {
    IdSetConcat(a, b);
    IdSetConcat(b, a);
    forall i | 0 <= i < |b + a| && !(b + a)[i].kind.Separator?
      ensures after[(b + a)[i].id] == HandleOf((b + a)[i])
    {
      if i < |b| {
        assert (a + b)[|a| + i] == (b + a)[i];
      } else {
        assert (a + b)[i - |b|] == (b + a)[i];
      }
    }
  }

  /** The handle of the item itself, after those of its children. */
  lemma OwnHandleAdds(head: MenuItem, depth: nat, handles: Handles, built: Handles)
    requires Fine([EntryOf(head, depth)] + Flat(head.items, depth + 1))
    requires Added(handles, Flat(head.items, depth + 1), built)
    ensures Added(handles, [EntryOf(head, depth)] + Flat(head.items, depth + 1), WithHandle(built, head))
  {
    var own, below := [EntryOf(head, depth)], Flat(head.items, depth + 1);
    FineConcat(own, below);
    DistinctConcat(own, below);
    OneEntry(own[0]);
    assert Added(built, own, WithHandle(built, head));
    AddedConcat(handles, below, built, own, WithHandle(built, head));
    AddedSwap(handles, below, own, WithHandle(built, head));
  }

  lemma {:induction false} BuildAdds(items: seq<MenuItem>, depth: nat, handles: Handles)
    requires Fine(Flat(items, depth))
    ensures Added(handles, Flat(items, depth), Build(items, handles))
    decreases items
  {
    if items == [] {
      assert IdSet([]) == {};
    } else {
      var head := items[0];
      var first, rest := [EntryOf(head, depth)] + Flat(head.items, depth + 1), Flat(items[1..], depth);
      FineParts(first, rest);
      FineParts([EntryOf(head, depth)], Flat(head.items, depth + 1));
      OnlySubmenusHold(head, depth);
      var built := if head.kind.Submenu? then Build(head.items, handles) else handles;
      BuildAdds(head.items, depth + 1, handles);
      OwnHandleAdds(head, depth, handles, built);
      BuildAdds(items[1..], depth, WithHandle(built, head));
      AddedConcat(handles, first, WithHandle(built, head), rest, Build(items, handles));
    }
  }

  lemma FineParts(a: seq<Entry>, b: seq<Entry>)
    requires Fine(a + b)
    ensures Fine(a) && Fine(b) && IdSet(a) !! IdSet(b)
  {
    FineConcat(a, b);
    DistinctConcat(a, b);
  }

  lemma OnlySubmenusHold(head: MenuItem, depth: nat)
    requires Fine([EntryOf(head, depth)])
    ensures head.kind.Submenu? || head.items == []
  {
    OneEntry(EntryOf(head, depth));
    assert KindRules(EntryOf(head, depth));
  }

  /** What `build_item` comes to when the platform reads accelerators by `parses`. */
  function BuildAll(items: seq<MenuItem>, handles: Handles, parses: string -> bool): Option<Handles>
    decreases items
  {
    if items == [] then Some(handles)
    else if items[0].accelerator.Some? && !parses(items[0].accelerator.value) then None
    else
      var built := if items[0].kind.Submenu? then BuildAll(items[0].items, handles, parses) else Some(handles);
      if built.None? then None else BuildAll(items[1..], WithHandle(built.value, items[0]), parses)
  }

  /** The platform reads every accelerator of the menu. */
  ghost predicate Readable(flat: seq<Entry>, parses: string -> bool) {
    forall i | 0 <= i < |flat| && flat[i].accelerator.Some? :: parses(flat[i].accelerator.value)
  }

  lemma ReadableConcat(a: seq<Entry>, b: seq<Entry>, parses: string -> bool)
    ensures Readable(a + b, parses) <==> Readable(a, parses) && Readable(b, parses)
  {
    if Readable(a + b, parses) {
      assert forall i | 0 <= i < |a| :: (a + b)[i] == a[i];
      assert forall i | 0 <= i < |b| :: (a + b)[|a| + i] == b[i];
    }
  }

  lemma ReadableOne(e: Entry, parses: string -> bool)
    ensures Readable([e], parses) <==> (e.accelerator.Some? ==> parses(e.accelerator.value))
  {
    assert [e][0] == e;
  }

  /**
   On a validated menu building succeeds exactly when the platform reads every accelerator,
   and then it gives the map that `Build` describes.
   */
  lemma {:induction false} BuildSucceedsExactly(items: seq<MenuItem>, depth: nat, handles: Handles, parses: string -> bool)
    requires Fine(Flat(items, depth))
    ensures BuildAll(items, handles, parses)
         == if Readable(Flat(items, depth), parses) then Some(Build(items, handles)) else None
    decreases items
  {
    if items != [] {
      var head := items[0];
      var own, below, rest := [EntryOf(head, depth)], Flat(head.items, depth + 1), Flat(items[1..], depth);
      FineParts(own + below, rest);
      FineParts(own, below);
      OnlySubmenusHold(head, depth);
      ReadableConcat(own + below, rest, parses);
      ReadableConcat(own, below, parses);
      ReadableOne(own[0], parses);
      BuildSucceedsExactly(head.items, depth + 1, handles, parses);
      var built := if head.kind.Submenu? then Build(head.items, handles) else handles;
      BuildSucceedsExactly(items[1..], depth, WithHandle(built, head), parses);
    }
  }

  /** The map built for a validated menu mirrors its items. */
  lemma BuildMirrors(items: seq<MenuItem>)
    requires WellFormed(items)
    ensures Mirrors(Build(items, map[]), Flat(items, 1))
  {
    BuildAdds(items, 1, map[]);
  }

  // ------------------------------------------------------------- the two agree

  lemma {:induction false} IdentifiersNonEmpty(flat: seq<Entry>, i: nat)
    requires EntriesFine(flat) && i < |flat|
    ensures flat[i].id == "" <==> flat[i].kind.Separator?
  {
    assert KindRules(flat[i]);
  }

  /** With distinct ids there is at most one entry to hit. */
  lemma HitIsUnique(flat: seq<Entry>, handles: Handles, id: string, change: Change)
    requires Fine(flat) && Mirrors(handles, flat) && id != ""
    ensures SetFlat(flat, id, change).Some? <==> SetHandle(handles, id, change).Some?
  {
    var i := FirstHit(flat, id, change);
    if i < |flat| {
      IdentifiersNonEmpty(flat, i);
      assert id in IdSet(flat);
    }
    if id in handles {
      var k :| 0 <= k < |flat| && !flat[k].kind.Separator? && flat[k].id == id;
      assert handles[flat[k].id] == HandleOf(flat[k]);
      if i < |flat| {
        IdentifiersNonEmpty(flat, i);
        assert i == k;
      } else {
        assert !Hits(flat[k].kind, flat[k].id, id, change);
      }
    }
  }

  /** A successful update changes one entry and keeps the forest valid. */
  lemma UpdateKeepsFine(flat: seq<Entry>, id: string, change: Change)
    requires Fine(flat) && SetFlat(flat, id, change).Some? && id != ""
    ensures Fine(SetFlat(flat, id, change).value)
  {
    var i := FirstHit(flat, id, change);
    var flat' := SetFlat(flat, id, change).value;
    assert KindRules(flat[i]) && flat[i].depth <= MAX_DEPTH;
    forall k | 0 <= k < |flat'|
      ensures flat'[k].depth <= MAX_DEPTH && KindRules(flat'[k])
    {
      assert k != i ==> flat'[k] == flat[k];
    }
    forall k, l | 0 <= k < l < |flat'| && !flat'[k].kind.Separator? && !flat'[l].kind.Separator?
      ensures flat'[k].id != flat'[l].id
    {
      assert flat'[k].id == flat[k].id && flat'[l].id == flat[l].id;
      assert flat'[k].kind == flat[k].kind && flat'[l].kind == flat[l].kind;
    }
  }

  lemma UpdateKeepsIds(flat: seq<Entry>, id: string, change: Change)
    requires SetFlat(flat, id, change).Some?
    ensures IdSet(SetFlat(flat, id, change).value) == IdSet(flat)
  {
    var flat' := SetFlat(flat, id, change).value;
    assert forall k | 0 <= k < |flat| :: flat'[k].id == flat[k].id && flat'[k].kind == flat[k].kind;
    forall x | x in IdSet(flat)
      ensures x in IdSet(flat')
    {
      var k :| 0 <= k < |flat| && !flat[k].kind.Separator? && flat[k].id == x;
      assert flat'[k].id == x;
    }
  }

  lemma UpdateKeepsMirror(flat: seq<Entry>, handles: Handles, id: string, change: Change)
    requires Fine(flat) && Mirrors(handles, flat) && id != ""
    requires SetFlat(flat, id, change).Some? && SetHandle(handles, id, change).Some?
    ensures Mirrors(SetHandle(handles, id, change).value, SetFlat(flat, id, change).value)
  {
    var i := FirstHit(flat, id, change);
    var flat' := SetFlat(flat, id, change).value;
    var handles' := SetHandle(handles, id, change).value;
    UpdateKeepsIds(flat, id, change);
    IdentifiersNonEmpty(flat, i);
    assert handles'.Keys == IdSet(flat') by {
      assert handles'.Keys == handles.Keys + {id};
      assert id in handles;
    }
    forall k | 0 <= k < |flat'| && !flat'[k].kind.Separator?
      ensures handles'[flat'[k].id] == HandleOf(flat'[k])
    {
      assert flat'[k].kind == flat[k].kind && flat'[k].id == flat[k].id;
      assert handles[flat[k].id] == HandleOf(flat[k]);
      if k != i {
        assert flat[k].id != flat[i].id;
      }
    }
  }

  /** One update on both sides, starting from a validated menu and its mirror. */
  lemma UpdateAgrees(items: seq<MenuItem>, handles: Handles, id: string, change: Change)
    requires WellFormed(items) && Mirrors(handles, Flat(items, 1)) && id != ""
    ensures SetItem(items, id, change).Some? <==> SetHandle(handles, id, change).Some?
    ensures SetItem(items, id, change).Some? ==>
              var items' := SetItem(items, id, change).value;
              && WellFormed(items')
              && Mirrors(SetHandle(handles, id, change).value, Flat(items', 1))
              && exists i | 0 <= i < |Flat(items, 1)| ::
                   && Flat(items, 1)[i].id == id
                   && Flat(items', 1) == Flat(items, 1)[i := ChangeEntry(Flat(items, 1)[i], change)]
  {
    var flat := Flat(items, 1);
    SetItemIsSetFlat(items, 1, id, change);
    HitIsUnique(flat, handles, id, change);
    if SetFlat(flat, id, change).Some? {
      UpdateKeepsFine(flat, id, change);
      UpdateKeepsMirror(flat, handles, id, change);
    }
  }

  /** The item with the id in the tree then has the state that was asked for, and the others keep theirs. */
  lemma TreeShowsUpdate(items: seq<MenuItem>, id: string, change: Change, i: nat)
    requires WellFormed(items) && id != "" && SetItem(items, id, change).Some?
    requires i < |Flat(items, 1)| && Flat(items, 1)[i].id == id
    ensures var flat, after := Flat(items, 1), Flat(SetItem(items, id, change).value, 1);
            && |after| == |flat|
            && (forall k | 0 <= k < |flat| && k != i :: after[k] == flat[k])
            && match change
               case SetEnabled(enabled) => after[i] == flat[i].(enabled := enabled)
               case SetChecked(checked) => flat[i].kind == Checkbox && after[i] == flat[i].(checked := checked)
  {
    var flat := Flat(items, 1);
    SetItemIsSetFlat(items, 1, id, change);
    var hit := FirstHit(flat, id, change);
    IdentifiersNonEmpty(flat, hit);
    IdentifiersNonEmpty(flat, i);
    assert DistinctIds(flat);
    assert hit == i;
  }

  /** A request for an update, as an effect of the application carries it. */
  datatype Update = Update(id: string, change: Change)

  function TreeAfter(items: seq<MenuItem>, updates: seq<Update>): seq<MenuItem>
    decreases |updates|
  {
    if updates == [] then items
    else
      var r := SetItem(items, updates[0].id, updates[0].change);
      TreeAfter(if r.Some? then r.value else items, updates[1..])
  }

  function HandlesAfter(handles: Handles, updates: seq<Update>): Handles
    decreases |updates|
  {
    if updates == [] then handles
    else
      var r := SetHandle(handles, updates[0].id, updates[0].change);
      HandlesAfter(if r.Some? then r.value else handles, updates[1..])
  }

  ghost predicate Named(updates: seq<Update>) {
    forall i | 0 <= i < |updates| :: updates[i].id != ""
  }

  lemma {:induction false} RunAgrees(items: seq<MenuItem>, handles: Handles, updates: seq<Update>)
    requires WellFormed(items) && Mirrors(handles, Flat(items, 1)) && Named(updates)
    ensures WellFormed(TreeAfter(items, updates))
    ensures Mirrors(HandlesAfter(handles, updates), Flat(TreeAfter(items, updates), 1))
    decreases |updates|
  {
    if updates != [] {
      var id, change := updates[0].id, updates[0].change;
      UpdateAgrees(items, handles, id, change);
      var tree, native := SetItem(items, id, change), SetHandle(handles, id, change);
      RunAgrees(if tree.Some? then tree.value else items, if native.Some? then native.value else handles, updates[1..]);
    }
  }

  /**
   From a validated menu, after any updates by non-empty ids, the next one succeeds on
   both platforms or on neither, and both show the same state for every item.
   */
  lemma PlatformsAgree(items: seq<MenuItem>, updates: seq<Update>, next: Update)
    requires WellFormed(items) && Named(updates) && next.id != ""
    ensures var tree, native := TreeAfter(items, updates), HandlesAfter(Build(items, map[]), updates);
            && Mirrors(native, Flat(tree, 1))
            && (SetItem(tree, next.id, next.change).Some? <==> SetHandle(native, next.id, next.change).Some?)
  {
    BuildMirrors(items);
    RunAgrees(items, Build(items, map[]), updates);
    UpdateAgrees(TreeAfter(items, updates), HandlesAfter(Build(items, map[]), updates), next.id, next.change);
  }

  /**
   Without the condition on the id the platforms differ: a separator has the empty id in
   the tree and no handle. Outcomes agree exactly when the id is not empty, or the update
   is for a checkbox, or the menu has no separator.
   */
  lemma OutcomesAgreeExactly(items: seq<MenuItem>, handles: Handles, id: string, change: Change)
    requires WellFormed(items) && Mirrors(handles, Flat(items, 1))
    ensures (SetItem(items, id, change).Some? <==> SetHandle(handles, id, change).Some?) <==>
            (id != "" || change.SetChecked? || forall e | e in Flat(items, 1) :: !e.kind.Separator?)
  {
    var flat := Flat(items, 1);
    if id != "" {
      UpdateAgrees(items, handles, id, change);
    } else {
      SetItemIsSetFlat(items, 1, id, change);
      forall i | 0 <= i < |flat|
        ensures flat[i].id == "" <==> flat[i].kind.Separator?
      {
        IdentifiersNonEmpty(flat, i);
      }
      assert id !in handles;
      var i := FirstHit(flat, id, change);
      if i < |flat| {
        assert flat[i] in flat && flat[i].kind.Separator?;
      } else if e :| e in flat && e.kind.Separator? {
        var k :| 0 <= k < |flat| && flat[k] == e;
        assert !Hits(flat[k].kind, flat[k].id, id, change);
      }
    }
  }

  /** The checked state of the first checkbox with the id. */
  function Shown(flat: seq<Entry>, id: string): Option<bool> {
    var i := FirstHit(flat, id, SetChecked(true));
    if i == |flat| then None else Some(flat[i].checked)
  }

  lemma ShownConcat(a: seq<Entry>, b: seq<Entry>, id: string)
    ensures Shown(a + b, id) == if Shown(a, id).Some? then Shown(a, id) else Shown(b, id)
  {
    FirstHitConcat(a, b, id, SetChecked(true));
  }

  lemma ShownOne(e: Entry, id: string)
    ensures Shown([e], id) == if e.id == id && e.kind.Checkbox? then Some(e.checked) else None
  {
    OneEntryFlat(e, id, SetChecked(true));
  }

  lemma {:induction false} FindCheckedIsShown(items: seq<MenuItem>, depth: nat, id: string)
    ensures FindChecked(items, id) == Shown(Flat(items, depth), id)
    decreases items
  {
    if items != [] {
      var own, below, rest := EntryOf(items[0], depth), Flat(items[0].items, depth + 1), Flat(items[1..], depth);
      FindCheckedIsShown(items[0].items, depth + 1, id);
      FindCheckedIsShown(items[1..], depth, id);
      ShownConcat([own] + below, rest, id);
      ShownConcat([own], below, id);
      ShownOne(own, id);
    }
  }

  /** Selecting a checkbox on Linux toggles what the handle shows elsewhere. */
  lemma FindCheckedAgrees(items: seq<MenuItem>, handles: Handles, id: string)
    requires WellFormed(items) && Mirrors(handles, Flat(items, 1))
    ensures FindChecked(items, id)
         == if id in handles && handles[id].kind.Checkbox? then Some(handles[id].checked) else None
  {
    var flat := Flat(items, 1);
    FindCheckedIsShown(items, 1, id);
    var i := FirstHit(flat, id, SetChecked(true));
    assert i < |flat| ==> flat[i].id in IdSet(flat) && handles[flat[i].id] == HandleOf(flat[i]);
    if id in handles && handles[id].kind.Checkbox? {
      var k :| 0 <= k < |flat| && !flat[k].kind.Separator? && flat[k].id == id;
      assert handles[flat[k].id] == HandleOf(flat[k]);
      assert Hits(flat[k].kind, flat[k].id, id, SetChecked(true));
      assert i <= k;
      assert i == k;
    }
  }

  // --------------------------------------------------------------- the two trays

  /** A result for the rest of a list, with the items before it. */
  function Behind(front: seq<MenuItem>, rest: Option<seq<MenuItem>>): Option<seq<MenuItem>> {
    if rest.Some? then Some(front + rest.value) else None
  }

  lemma Replaced(items: seq<MenuItem>, i: nat, item: MenuItem)
    requires i < |items|
    ensures items[..i] + ([item] + items[i + 1..]) == items[i := item]
  {
  }

  /** What the search makes of the rest of a list from item `i` on. */
  lemma SearchFrom(items: seq<MenuItem>, i: nat, id: string, change: Change)
    requires i < |items|
    ensures var item := items[i];
            Behind(items[..i], SetItem(items[i..], id, change))
            == if Hits(item.kind, item.id, id, change) then Some(items[i := ChangeItem(item, change)])
               else if SetItem(item.items, id, change).Some? then
                 Some(items[i := item.(items := SetItem(item.items, id, change).value)])
               else Behind(items[..i + 1], SetItem(items[i + 1..], id, change))
  {
    var item, rest := items[i], items[i..];
    assert rest[0] == item && rest[1..] == items[i + 1..];
    var below, after := SetItem(item.items, id, change), SetItem(items[i + 1..], id, change);
    if Hits(item.kind, item.id, id, change) {
      Replaced(items, i, ChangeItem(item, change));
    } else if below.Some? {
      Replaced(items, i, item.(items := below.value));
    } else if after.Some? {
      assert items[..i] + ([item] + after.value) == items[..i + 1] + after.value;
    }
  }

  /** The loop of `set_item_enabled` and `set_item_checked`, which returns at the first hit. */
  method SetItemIn(items: seq<MenuItem>, id: string, change: Change) returns (found: bool, after: seq<MenuItem>)
    ensures found == SetItem(items, id, change).Some?
    ensures after == if found then SetItem(items, id, change).value else items
    decreases items
  {
    ghost var goal := SetItem(items, id, change);
    assert items[0..] == items && items[..0] == [];
    assert goal.Some? ==> [] + goal.value == goal.value;
    for i := 0 to |items|
      invariant Behind(items[..i], SetItem(items[i..], id, change)) == goal
    {
      SearchFrom(items, i, id, change);
      if Hits(items[i].kind, items[i].id, id, change) {
        return true, items[i := ChangeItem(items[i], change)];
      }
      var below;
      found, below := SetItemIn(items[i].items, id, change);
      if found {
        return true, items[i := items[i].(items := below)];
      }
    }
    return false, items;
  }

  /** The loop of `find_checked`. */
  method FindCheckedIn(items: seq<MenuItem>, id: string) returns (checked: Option<bool>)
    ensures checked == FindChecked(items, id)
    decreases items
  {
    assert items[0..] == items;
    for i := 0 to |items|
      invariant FindChecked(items, id) == FindChecked(items[i..], id)
    {
      assert items[i..][0] == items[i] && items[i..][1..] == items[i + 1..];
      if items[i].id == id && items[i].kind.Checkbox? {
        return Some(items[i].checked);
      }
      checked := FindCheckedIn(items[i].items, id);
      if checked.Some? {
        return;
      }
    }
    return None;
  }

  /** The Linux tray owns the item tree. */
  class LinuxTray {
    var items: seq<MenuItem>

    constructor (items: seq<MenuItem>)
      ensures this.items == items
    {
      this.items := items;
    }

    /** `set_menu_enabled` and `set_menu_checked`. */
    method Apply(update: Update) returns (ok: bool)
      modifies this
      ensures items == TreeAfter(old(items), [update])
      ensures ok == SetItem(old(items), update.id, update.change).Some?
    {
      assert [update][1..] == [];
      ok, items := SetItemIn(items, update.id, update.change);
    }

    /** Selecting a checkbox item in the tray. */
    method Activate(id: string)
      modifies this
      ensures var before := FindChecked(old(items), id);
              items == TreeAfter(old(items), [Update(id, SetChecked(!(before.Some? && before.value)))])
    {
      var checked := FindCheckedIn(items, id);
      var _ := Apply(Update(id, SetChecked(!(checked.Some? && checked.value))));
    }
  }

  /** The macOS and Windows tray keeps the handles of the items it built. */
  class NativeTray {
    var handles: Handles

    constructor ()
      ensures handles == map[]
    {
      handles := map[];
    }

    /** `build_item` for each item of a menu; false when the platform cannot read an accelerator. */
    method BuildInto(items: seq<MenuItem>, parses: string -> bool) returns (ok: bool)
      modifies this
      ensures var r := BuildAll(items, old(handles), parses);
              ok == r.Some? && (ok ==> handles == r.value)
      decreases items
    {
      assert items[0..] == items;
      for i := 0 to |items|
        invariant BuildAll(items, old(handles), parses) == BuildAll(items[i..], handles, parses)
      {
        assert items[i..][0] == items[i] && items[i..][1..] == items[i + 1..];
        if items[i].accelerator.Some? && !parses(items[i].accelerator.value) {
          return false;
        }
        if items[i].kind.Submenu? {
          ok := BuildInto(items[i].items, parses);
          if !ok {
            return;
          }
        }
        if !items[i].kind.Separator? {
          handles := handles[items[i].id := Handle(items[i].kind, items[i].enabled, items[i].checked)];
        }
      }
      return true;
    }

    /** `set_menu_enabled` and `set_menu_checked`. */
    method Apply(update: Update) returns (ok: bool)
      modifies this
      ensures handles == HandlesAfter(old(handles), [update])
      ensures ok == SetHandle(old(handles), update.id, update.change).Some?
    {
      assert [update][1..] == [];
      if update.id !in handles {
        return false;
      }
      var h := handles[update.id];
      match update.change
      case SetEnabled(enabled) =>
        handles := handles[update.id := h.(enabled := enabled)];
        return true;
      case SetChecked(checked) =>
        if !h.kind.Checkbox? {
          return false;
        }
        handles := handles[update.id := h.(checked := checked)];
        return true;
    }
  }
}
