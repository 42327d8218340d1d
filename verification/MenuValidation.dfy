/**
 Validation of native menus (protocol lib.rs): a recursion that threads a set of
 identifiers and a counter through a forest, and what it accepts.
 */
module MenuValidation {
  import opened Outcomes
  import opened Identifiers

  const MAX_DEPTH: nat := 8
  const MAX_ITEMS: nat := 256
  const MAX_USIZE: nat := 0xFFFF_FFFF_FFFF_FFFF

  datatype Kind = Command | Checkbox | Separator | Submenu

  datatype MenuItem = MenuItem(
    kind: Kind,
    id: string,
    title: string,
    enabled: bool,
    checked: bool,
    accelerator: Option<string>,
    items: seq<MenuItem>)

  datatype Menu = Menu(id: string, title: string, items: seq<MenuItem>)

  datatype Tray = Tray(menuId: string, tooltip: string)

  datatype MenuError =
    | TooDeep
    | BadSeparator
    | BadIdentifier
    | BadText
    | Duplicated
    | HasChildren
    | CheckedCommand
    | BadAccelerator
    | BadSubmenu
    | EmptyMenu
    | TooManyItems
    | TooManyMenus
    | TrayMissing
    | TrayMenuUnknown

  // ------------------------------------------------------------ what is accepted

  /** One item of the forest with its depth, without its children. */
  datatype Entry = Entry(
    kind: Kind,
    id: string,
    title: string,
    enabled: bool,
    checked: bool,
    accelerator: Option<string>,
    hasItems: bool,
    depth: nat)

  function EntryOf(item: MenuItem, depth: nat): Entry {
    Entry(item.kind, item.id, item.title, item.enabled, item.checked, item.accelerator, item.items != [], depth)
  }

  /** Every item of the forest, parents before children. */
  function Flat(items: seq<MenuItem>, depth: nat): seq<Entry>
    decreases items
  {
    if items == [] then []
    else [EntryOf(items[0], depth)] + Flat(items[0].items, depth + 1) + Flat(items[1..], depth)
  }

  /** The rules of one kind of item. */
  predicate KindRules(e: Entry) {
    match e.kind
    case Separator => e.id == "" && e.title == "" && !e.checked && e.accelerator.None? && !e.hasItems
    case Submenu => NamedWell(e) && !e.checked && e.accelerator.None? && e.hasItems
    case _ =>
      && NamedWell(e) && !e.hasItems
      && (e.kind.Command? ==> !e.checked)
      && (e.accelerator.Some? ==> ValidAccelerator(e.accelerator.value))
  }

  predicate NamedWell(e: Entry) {
    ValidIdentifier(e.id) && ValidText(e.title, 80, false)
  }

  ghost predicate EntriesFine(flat: seq<Entry>) {
    forall i | 0 <= i < |flat| :: flat[i].depth <= MAX_DEPTH && KindRules(flat[i])
  }

  /** No two items other than separators share an identifier. */
  ghost predicate DistinctIds(flat: seq<Entry>) {
    forall i, j | 0 <= i < j < |flat| && !flat[i].kind.Separator? && !flat[j].kind.Separator? ::
      flat[i].id != flat[j].id
  }

  /** The forest rules, stated on the list of all items. */
  ghost predicate WellFormed(items: seq<MenuItem>) {
    var flat := Flat(items, 1);
    EntriesFine(flat) && DistinctIds(flat) && |flat| <= MAX_ITEMS
  }

  // ---------------------------------------------------------------- the recursion

  /** The identifiers seen so far and the number of items. */
  datatype Ledger = Ledger(ids: set<string>, count: nat)

  function Count(n: nat): nat {
    if n >= MAX_USIZE then MAX_USIZE else n + 1
  }

  /** `MenuItemConfig::validate`. */
  function CheckItem(item: MenuItem, depth: nat, l: Ledger): Result<Ledger, MenuError>
    decreases item, 1
  {
    if depth > MAX_DEPTH then Err(TooDeep)
    else
      var counted := l.(count := Count(l.count));
      match item.kind
      case Separator =>
        if item.id != "" || item.title != "" || item.checked || item.accelerator.Some? || item.items != []
        then Err(BadSeparator) else Ok(counted)
      case Submenu =>
        if !ValidIdentifier(item.id) then Err(BadIdentifier)
        else if !ValidText(item.title, 80, false) then Err(BadText)
        else if item.id in l.ids then Err(Duplicated)
        else if item.checked || item.accelerator.Some? || item.items == [] then Err(BadSubmenu)
        else CheckItems(item.items, depth + 1, counted.(ids := l.ids + {item.id}))
      case _ =>
        if !ValidIdentifier(item.id) then Err(BadIdentifier)
        else if !ValidText(item.title, 80, false) then Err(BadText)
        else if item.id in l.ids then Err(Duplicated)
        else if item.items != [] then Err(HasChildren)
        else if item.kind.Command? && item.checked then Err(CheckedCommand)
        else if item.accelerator.Some? && !ValidAccelerator(item.accelerator.value) then Err(BadAccelerator)
        else Ok(counted.(ids := l.ids + {item.id}))
  }

  function CheckItems(items: seq<MenuItem>, depth: nat, l: Ledger): Result<Ledger, MenuError>
    decreases items, 0
  {
    if items == [] then Ok(l)
    else
      var first := CheckItem(items[0], depth, l);
      if first.Err? then first else CheckItems(items[1..], depth, first.value)
  }

  // ------------------------------------------------------------------- exactness

  function IdSet(flat: seq<Entry>): set<string> {
    set i | 0 <= i < |flat| && !flat[i].kind.Separator? :: flat[i].id
  }

  /** What a validation of these entries from `l` comes to. */
  ghost predicate Agrees(r: Result<Ledger, MenuError>, flat: seq<Entry>, l: Ledger) {
    && (r.Ok? <==> EntriesFine(flat) && DistinctIds(flat) && IdSet(flat) !! l.ids)
    && (r.Ok? ==> r.value.ids == l.ids + IdSet(flat))
    && (r.Ok? ==> r.value.count == if l.count + |flat| > MAX_USIZE then MAX_USIZE else l.count + |flat|)
  }

  lemma IdSetConcat(a: seq<Entry>, b: seq<Entry>)
    ensures IdSet(a + b) == IdSet(a) + IdSet(b)
  {
    forall id | id in IdSet(a) + IdSet(b)
      ensures id in IdSet(a + b)
    {
      if id in IdSet(a) {
        var i :| 0 <= i < |a| && !a[i].kind.Separator? && a[i].id == id;
        assert (a + b)[i] == a[i];
      } else {
        var i :| 0 <= i < |b| && !b[i].kind.Separator? && b[i].id == id;
        assert (a + b)[|a| + i] == b[i];
      }
    }
  }

  lemma DistinctConcat(a: seq<Entry>, b: seq<Entry>)
    ensures DistinctIds(a + b) <==> DistinctIds(a) && DistinctIds(b) && IdSet(a) !! IdSet(b)
  {
    var c := a + b;
    if DistinctIds(c) {
      forall i, j | 0 <= i < j < |b| && !b[i].kind.Separator? && !b[j].kind.Separator?
        ensures b[i].id != b[j].id
      {
        assert c[|a| + i] == b[i] && c[|a| + j] == b[j];
      }
      forall i, j | 0 <= i < j < |a| && !a[i].kind.Separator? && !a[j].kind.Separator?
        ensures a[i].id != a[j].id
      {
        assert c[i] == a[i] && c[j] == a[j];
      }
      forall i, j | 0 <= i < |a| && 0 <= j < |b| && !a[i].kind.Separator? && !b[j].kind.Separator?
        ensures a[i].id != b[j].id
      {
        assert c[i] == a[i] && c[|a| + j] == b[j];
      }
    } else if DistinctIds(a) && DistinctIds(b) {
      var i, j :| 0 <= i < j < |c| && !c[i].kind.Separator? && !c[j].kind.Separator? && c[i].id == c[j].id;
      assert i < |a| <= j;
      assert c[i].id in IdSet(a) && b[j - |a|].id in IdSet(b);
    }
  }

  lemma FineConcat(a: seq<Entry>, b: seq<Entry>)
    ensures EntriesFine(a + b) <==> EntriesFine(a) && EntriesFine(b)
  {
    if EntriesFine(a + b) {
      assert forall i | 0 <= i < |a| :: (a + b)[i] == a[i];
      assert forall i | 0 <= i < |b| :: (a + b)[|a| + i] == b[i];
    }
  }

  /** Validating one list after another is validating their concatenation. */
  lemma AgreesConcat(r1: Result<Ledger, MenuError>, a: seq<Entry>, l: Ledger, r2: Result<Ledger, MenuError>, b: seq<Entry>)
    requires Agrees(r1, a, l)
    requires r1.Ok? ==> Agrees(r2, b, r1.value)
    ensures Agrees(if r1.Err? then r1 else r2, a + b, l)
  {
    IdSetConcat(a, b);
    DistinctConcat(a, b);
    FineConcat(a, b);
  }

  lemma OneEntry(e: Entry)
    ensures IdSet([e]) == if e.kind.Separator? then {} else {e.id}
    ensures DistinctIds([e])
    ensures EntriesFine([e]) <==> e.depth <= MAX_DEPTH && KindRules(e)
  {
    assert [e][0] == e;
  }

  /** The entry of an item on its own: one more is counted, and its id is taken. */
  lemma OwnEntryAgrees(e: Entry, l: Ledger)
    requires l.count <= MAX_USIZE
    requires e.depth <= MAX_DEPTH && KindRules(e) && (e.kind.Separator? || e.id !in l.ids)
    ensures Agrees(Ok(Ledger(if e.kind.Separator? then l.ids else l.ids + {e.id}, Count(l.count))), [e], l)
  {
    OneEntry(e);
  }

  lemma {:induction false} CheckItemAgrees(item: MenuItem, depth: nat, l: Ledger)
    requires l.count <= MAX_USIZE
    ensures Agrees(CheckItem(item, depth, l), [EntryOf(item, depth)] + Flat(item.items, depth + 1), l)
    decreases item, 1
  {
    var e, below := EntryOf(item, depth), Flat(item.items, depth + 1);
    OneEntry(e);
    FineConcat([e], below);
    if depth <= MAX_DEPTH && KindRules(e) && (e.kind.Separator? || e.id !in l.ids) {
      var own: Result<Ledger, MenuError> :=
        Ok(Ledger(if e.kind.Separator? then l.ids else l.ids + {e.id}, Count(l.count)));
      OwnEntryAgrees(e, l);
      CheckItemsAgree(item.items, depth + 1, own.value);
      AgreesConcat(own, [e], l, CheckItems(item.items, depth + 1, own.value), below);
    } else {
      IdSetConcat([e], below);
    }
  }

  lemma {:induction false} CheckItemsAgree(items: seq<MenuItem>, depth: nat, l: Ledger)
    requires l.count <= MAX_USIZE
    ensures Agrees(CheckItems(items, depth, l), Flat(items, depth), l)
    decreases items, 0
  {
    if items == [] {
      assert IdSet([]) == {};
    } else {
      CheckItemAgrees(items[0], depth, l);
      var first := CheckItem(items[0], depth, l);
      if first.Ok? {
        CheckItemsAgree(items[1..], depth, first.value);
        AgreesConcat(first, [EntryOf(items[0], depth)] + Flat(items[0].items, depth + 1), l,
                     CheckItems(items[1..], depth, first.value), Flat(items[1..], depth));
      } else {
        AgreesConcat(first, [EntryOf(items[0], depth)] + Flat(items[0].items, depth + 1), l, first, Flat(items[1..], depth));
      }
    }
  }

  /** The validator accepts exactly the well-formed forests. */
  lemma AcceptsExactlyWellFormed(items: seq<MenuItem>)
    ensures var r := CheckItems(items, 1, Ledger({}, 0));
            r.Ok? && r.value.count <= MAX_ITEMS <==> WellFormed(items)
  {
    CheckItemsAgree(items, 1, Ledger({}, 0));
  }

  // ------------------------------------------------------------------ the code

  class ItemLedger {
    var ids: set<string>
    var count: nat

    constructor ()
      ensures ids == {} && count == 0
    {
      ids, count := {}, 0;
    }

    ghost function View(): Ledger
      reads this
    {
      Ledger(ids, count)
    }

    method ValidateItem(item: MenuItem, depth: nat) returns (error: Option<MenuError>)
      modifies this
      ensures var r := CheckItem(item, depth, old(View()));
              if r.Ok? then error == None && View() == r.value else error == Some(r.error)
      decreases item, 1
    {
      if depth > MAX_DEPTH {
        return Some(TooDeep);
      }
      count := Count(count);
      match item.kind
      case Separator =>
        if item.id != "" || item.title != "" || item.checked || item.accelerator.Some? || |item.items| > 0 {
          return Some(BadSeparator);
        }
        return None;
      case Submenu =>
        if !ValidIdentifier(item.id) {
          return Some(BadIdentifier);
        }
        if !ValidText(item.title, 80, false) {
          return Some(BadText);
        }
        if item.id in ids {
          return Some(Duplicated);
        }
        ids := ids + {item.id};
        if item.checked || item.accelerator.Some? || |item.items| == 0 {
          return Some(BadSubmenu);
        }
        error := ValidateItems(item.items, depth + 1);
      case _ =>
        if !ValidIdentifier(item.id) {
          return Some(BadIdentifier);
        }
        if !ValidText(item.title, 80, false) {
          return Some(BadText);
        }
        if item.id in ids {
          return Some(Duplicated);
        }
        ids := ids + {item.id};
        if |item.items| > 0 {
          return Some(HasChildren);
        }
        if item.kind.Command? && item.checked {
          return Some(CheckedCommand);
        }
        if item.accelerator.Some? && !ValidAccelerator(item.accelerator.value) {
          return Some(BadAccelerator);
        }
        return None;
    }

    /** The `for` loops over the items of a menu and of a submenu. */
    method ValidateItems(items: seq<MenuItem>, depth: nat) returns (error: Option<MenuError>)
      modifies this
      ensures var r := CheckItems(items, depth, old(View()));
              if r.Ok? then error == None && View() == r.value else error == Some(r.error)
      decreases items, 0
    {
      for i := 0 to |items|
        invariant CheckItems(items, depth, old(View())) == CheckItems(items[i..], depth, View())
      {
        assert items[i..][0] == items[i] && items[i..][1..] == items[i + 1..];
        error := ValidateItem(items[i], depth);
        if error.Some? {
          return;
        }
      }
      error := None;
    }
  }

  /** The items of all menus of a shell, in order. */
  function AllItems(menus: seq<Menu>): seq<MenuItem> {
    if menus == [] then [] else AllItems(menus[..|menus| - 1]) + menus[|menus| - 1].items
  }

  predicate NamedMenu(menu: Menu) {
    ValidIdentifier(menu.id) && ValidText(menu.title, 80, false) && menu.items != []
  }

  /** What `ShellConfig::validate` accepts as menus and tray. */
  ghost predicate WellFormedShell(menus: seq<Menu>, tray: Option<Tray>) {
    && |menus| <= 1
    && (forall i | 0 <= i < |menus| :: NamedMenu(menus[i]))
    && WellFormed(AllItems(menus))
    && (menus != [] ==> tray.Some?)
    && (tray.Some? ==>
          && ValidIdentifier(tray.value.menuId) && ValidText(tray.value.tooltip, 128, false)
          && exists i | 0 <= i < |menus| :: menus[i].id == tray.value.menuId)
  }

  lemma {:induction false} CheckItemsConcat(a: seq<MenuItem>, b: seq<MenuItem>, l: Ledger)
    ensures var first := CheckItems(a, 1, l);
            CheckItems(a + b, 1, l) == if first.Err? then first else CheckItems(b, 1, first.value)
    decreases |a|
  {
    if a == [] {
      assert a + b == b;
    } else {
      assert (a + b)[1..] == a[1..] + b;
      var first := CheckItem(a[0], 1, l);
      if first.Ok? {
        CheckItemsConcat(a[1..], b, first.value);
      }
    }
  }

  lemma {:induction false} PrefixRejected(menus: seq<Menu>, n: nat)
    requires n <= |menus| && CheckItems(AllItems(menus[..n]), 1, Ledger({}, 0)).Err?
    ensures CheckItems(AllItems(menus), 1, Ledger({}, 0)).Err?
    decreases |menus|
  {
    if n < |menus| {
      var init := menus[..|menus| - 1];
      assert init[..n] == menus[..n];
      PrefixRejected(init, n);
      CheckItemsConcat(AllItems(init), menus[|menus| - 1].items, Ledger({}, 0));
    } else {
      assert menus[..n] == menus;
    }
  }

  function MenuIds(menus: seq<Menu>): set<string> {
    set i | 0 <= i < |menus| :: menus[i].id
  }

  lemma MenuIdsGrow(menus: seq<Menu>, i: nat)
    requires i < |menus|
    ensures MenuIds(menus[..i + 1]) == MenuIds(menus[..i]) + {menus[i].id}
  {
    var longer, shorter := menus[..i + 1], menus[..i];
    assert forall k | 0 <= k < i :: longer[k] == shorter[k];
    assert longer[i] == menus[i];
    forall id | id in MenuIds(shorter) + {menus[i].id}
      ensures id in MenuIds(longer)
    {
      if id in MenuIds(shorter) {
        var k :| 0 <= k < i && shorter[k].id == id;
        assert longer[k].id == id;
      }
    }
  }

  /** What the validation of all items up to menu `i` comes to. */
  function CheckedUpTo(menus: seq<Menu>, i: nat): Result<Ledger, MenuError>
    requires i <= |menus|
  {
    CheckItems(AllItems(menus[..i]), 1, Ledger({}, 0))
  }

  lemma NextMenu(menus: seq<Menu>, i: nat, l: Ledger)
    requires i < |menus| && CheckedUpTo(menus, i) == Ok(l)
    ensures CheckedUpTo(menus, i + 1) == CheckItems(menus[i].items, 1, l)
  {
    assert menus[..i + 1][..i] == menus[..i];
    CheckItemsConcat(AllItems(menus[..i]), menus[i].items, Ledger({}, 0));
  }

  /** The checks of one menu before its items. */
  method ValidateMenuName(menu: Menu) returns (error: Option<MenuError>)
    ensures error == None <==> NamedMenu(menu)
  {
    if !ValidIdentifier(menu.id) {
      return Some(BadIdentifier);
    }
    if !ValidText(menu.title, 80, false) {
      return Some(BadText);
    }
    if |menu.items| == 0 {
      return Some(EmptyMenu);
    }
    return None;
  }

  /** The loop over the menus, which share one ledger. */
  method ValidateMenus(menus: seq<Menu>, ledger: ItemLedger) returns (error: Option<MenuError>, menuIds: set<string>)
    requires ledger.View() == Ledger({}, 0)
    modifies ledger
    ensures error == None ==>
              && menuIds == MenuIds(menus)
              && (forall i | 0 <= i < |menus| :: NamedMenu(menus[i]))
              && CheckItems(AllItems(menus), 1, Ledger({}, 0)) == Ok(ledger.View())
    ensures error.Some? ==>
              || |menus| > 1
              || (exists i | 0 <= i < |menus| :: !NamedMenu(menus[i]))
              || CheckItems(AllItems(menus), 1, Ledger({}, 0)).Err?
  {
    menuIds := {};
    assert menus[..0] == [] && menus[..|menus|] == menus;
    for i := 0 to |menus|
      invariant CheckedUpTo(menus, i) == Ok(ledger.View())
      invariant forall k | 0 <= k < i :: NamedMenu(menus[k])
      invariant menuIds == MenuIds(menus[..i])
    {
      error := ValidateMenuName(menus[i]);
      if error.Some? {
        return;
      }
      NextMenu(menus, i, ledger.View());
      error := ledger.ValidateItems(menus[i].items, 1);
      if error.Some? {
        PrefixRejected(menus, i + 1);
        return;
      }
      if menus[i].id in menuIds {
        return Some(Duplicated), menuIds;
      }
      MenuIdsGrow(menus, i);
      menuIds := menuIds + {menus[i].id};
    }
    error := None;
  }

  /** The menu and tray part of `ShellConfig::validate`. */
  method ValidateShell(menus: seq<Menu>, tray: Option<Tray>) returns (error: Option<MenuError>)
    ensures error == None <==> WellFormedShell(menus, tray)
  {
    var ledger := new ItemLedger();
    AcceptsExactlyWellFormed(AllItems(menus));
    var menuIds;
    error, menuIds := ValidateMenus(menus, ledger);
    if error.Some? {
      return;
    }
    if ledger.count > MAX_ITEMS {
      return Some(TooManyItems);
    }
    if |menus| > 1 {
      return Some(TooManyMenus);
    }
    if |menus| > 0 && tray.None? {
      return Some(TrayMissing);
    }
    if tray.Some? {
      if !ValidIdentifier(tray.value.menuId) {
        return Some(BadIdentifier);
      }
      if !ValidText(tray.value.tooltip, 128, false) {
        return Some(BadText);
      }
      if tray.value.menuId !in menuIds {
        return Some(TrayMenuUnknown);
      }
    }
    return None;
  }
}
