/**
 * The pop-up menus of the tables: each item carries a condition on the number of selected rows
 * that decides whether it is enabled.
 */
module Menus {
  import opened Wrappers

  datatype MenuCondition = MoreThanZero | ExactlyOne

  /** Whether an item with the condition is enabled for a number of selected rows: with one row
      every item is, with none no item is, and with several only the items for any selection. */
  function EnabledFor(c: MenuCondition, selected: int): (enabled: bool)
    ensures selected == 1 ==> enabled
    ensures selected <= 0 ==> !enabled
    ensures selected >= 2 ==> (enabled <==> c == MoreThanZero)
  {
    match c
    case MoreThanZero => selected > 0
    case ExactlyOne => selected == 1
  }

  datatype MenuItem = MenuItem(text: string, enabled: bool)

  datatype MenuError = SizeMismatch

  class Menu {
    var items: seq<MenuItem>
    const conditions: seq<MenuCondition>

    ghost predicate Valid()
      reads this
    {
      |items| == |conditions|
    }

    constructor(items: seq<MenuItem>, conditions: seq<MenuCondition>)
      requires |items| == |conditions|
      ensures this.items == items && this.conditions == conditions
      ensures Valid()
    {
      this.items := items;
      this.conditions := conditions;
    }

    /** `new Menu(menu, conditions)`: refused when there are not as many conditions as items. */
    static method Create(items: seq<MenuItem>, conditions: seq<MenuCondition>) returns (r: Result<Menu, MenuError>)
      ensures r.Ok? <==> |items| == |conditions|
      ensures r.Ok? ==> fresh(r.value) && r.value.items == items && r.value.conditions == conditions
    {
      if |items| != |conditions| {
        return Err(SizeMismatch);
      }
      var m := new Menu(items, conditions);
      return Ok(m);
    }

    /** Sets every item's enabled flag from its condition and the number of selected rows; the
        texts and the number of items stay. */
    method UpdateActions(selectedRowsNum: int)
      requires Valid()
      modifies this
      ensures Valid()
      ensures |items| == |old(items)|
      ensures forall i :: 0 <= i < |items| ==> items[i].text == old(items)[i].text
      ensures forall i :: 0 <= i < |items| ==> items[i].enabled == EnabledFor(conditions[i], selectedRowsNum)
    {
      var cId := 0;
      while cId < |items|
        invariant 0 <= cId <= |items| == |old(items)| == |conditions|
        invariant forall i :: 0 <= i < |items| ==> items[i].text == old(items)[i].text
        invariant forall i :: 0 <= i < cId ==> items[i].enabled == EnabledFor(conditions[i], selectedRowsNum)
      {
        if conditions[cId] == MoreThanZero {
          items := items[cId := items[cId].(enabled := selectedRowsNum > 0)];
        } else if conditions[cId] == ExactlyOne {
          items := items[cId := items[cId].(enabled := selectedRowsNum == 1)];
        }
        cId := cId + 1;
      }
    }
  }

  /** Collects items and their conditions side by side. */
  class MenuBuilder {
    var items: seq<MenuItem>
    var conditions: seq<MenuCondition>

    ghost predicate Valid()
      reads this
    {
      |items| == |conditions|
    }

    constructor()
      ensures items == [] && conditions == []
      ensures Valid()
    {
      items := [];
      conditions := [];
    }

    /** Appends an item together with its condition. */
    method AddMenuItem(item: MenuItem, condition: MenuCondition)
      requires Valid()
      modifies this
      ensures Valid()
      ensures items == old(items) + [item] && conditions == old(conditions) + [condition]
    {
      conditions := conditions + [condition];
      items := items + [item];
    }

    /** Building never trips the menu's size check, because items and conditions are only ever
        added together. */
    method Build() returns (r: Result<Menu, MenuError>)
      requires Valid()
      ensures r.Ok?
      ensures fresh(r.value) && r.value.items == items && r.value.conditions == conditions
    {
      r := Menu.Create(items, conditions);
    }
  }
}
