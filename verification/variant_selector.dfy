/** The size picker on the product page: a row of tiles, one per variant, with a selected
    index that starts at 0 and moves only to variants that are in stock. */
module VariantSelector {
  import opened Wrappers
  import opened Catalog

  /** What one tile shows. */
  datatype Tile = Tile(
    sizeLabel: string,
    price: int,
    struckMrp: Option<int>,
    outOfStock: bool,
    onlyLeft: Option<int>,
    selected: bool)

  const InitialIndex: nat := 0

  /** The MRP is struck through next to the price when it is higher. */
  function StruckMrp(v: Variant): (r: Option<int>)
    ensures r.Some? <==> v.mrp > v.price
    ensures r.Some? ==> r.value == v.mrp && r.value > v.price
  {
    if v.mrp > v.price then Some(v.mrp) else None
  }

  /** "Only N left" appears for a stock that is not 0 and below 10. A negative stock is not
      excluded by the condition and would show too. */
  function OnlyLeft(v: Variant): (r: Option<int>)
    ensures r.Some? <==> v.stock != 0 && v.stock < 10
    ensures r.Some? ==> r.value == v.stock && r.value < 10
  {
    if v.stock != 0 && v.stock < 10 then Some(v.stock) else None
  }

  /** The tiles; nothing at all for an empty list. */
  function Render(vs: seq<Variant>, selectedIndex: nat): (r: Option<seq<Tile>>)
    ensures r.None? <==> |vs| == 0
    ensures r.Some? ==> |r.value| == |vs|
    ensures r.Some? ==> forall k :: 0 <= k < |vs| ==>
      r.value[k].sizeLabel == vs[k].sizeLabel && r.value[k].price == vs[k].price
      && (r.value[k].struckMrp.Some? <==> vs[k].mrp > vs[k].price)
      && (r.value[k].outOfStock <==> vs[k].stock == 0)
      && (r.value[k].onlyLeft.Some? ==> !r.value[k].outOfStock)
      && (r.value[k].selected <==> k == selectedIndex)
    ensures r.Some? ==> forall k :: 0 <= k < |vs| ==>
      r.value[k].struckMrp == StruckMrp(vs[k]) && r.value[k].onlyLeft == OnlyLeft(vs[k])
  {
    if |vs| == 0 then None
    else
      Some(seq(|vs|, k requires 0 <= k < |vs| =>
        Tile(vs[k].sizeLabel, vs[k].price, StruckMrp(vs[k]), vs[k].stock == 0, OnlyLeft(vs[k]), k == selectedIndex)))
  }

  /** A click on tile `idx`: ignored for a sold-out variant; otherwise the tile becomes the
      selected one and its variant is reported to the page. Returns the new index and what
      was reported. */
  function Click(vs: seq<Variant>, selectedIndex: nat, idx: nat): (r: (nat, Option<Variant>))
    requires idx < |vs|
    ensures vs[idx].stock == 0 ==> r.0 == selectedIndex && r.1.None?
    ensures vs[idx].stock != 0 ==> r.0 == idx && r.1 == Some(vs[r.0])
  {
    if vs[idx].stock == 0 then (selectedIndex, None)
    else (idx, Some(vs[idx]))
  }

  /** The page's record of the chosen variant after a run of clicks, starting from the
      variant it preselected: each reported variant replaces it. */
  function ClickRun(vs: seq<Variant>, selectedIndex: nat, chosen: Option<Variant>, clicks: seq<nat>): (r: (nat, Option<Variant>))
    requires forall k :: 0 <= k < |clicks| ==> clicks[k] < |vs|
    decreases |clicks|
  {
    if |clicks| == 0 then (selectedIndex, chosen)
    else
      var step := Click(vs, selectedIndex, clicks[0]);
      ClickRun(vs, step.0, if step.1.Some? then step.1 else chosen, clicks[1..])
  }

  /** After any run of clicks, either no click took effect and the page keeps what it had,
      or the page's variant is the in-stock variant under the selected tile. */
  lemma {:induction false} ClickRunAgrees(vs: seq<Variant>, selectedIndex: nat, chosen: Option<Variant>, clicks: seq<nat>)
    requires forall k :: 0 <= k < |clicks| ==> clicks[k] < |vs|
    ensures var r := ClickRun(vs, selectedIndex, chosen, clicks);
      (r == (selectedIndex, chosen))
      || (r.0 < |vs| && r.1 == Some(vs[r.0]) && vs[r.0].stock != 0)
    decreases |clicks|
  {
    if |clicks| > 0 {
      var step := Click(vs, selectedIndex, clicks[0]);
      var chosen' := if step.1.Some? then step.1 else chosen;
      ClickRunAgrees(vs, step.0, chosen', clicks[1..]);
    }
  }
}
