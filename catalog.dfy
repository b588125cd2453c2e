/**
 * The `AtomTsd` constructor: one selectable entry per definition of the
 * package catalog, in catalog order. The catalog file itself is an input.
 */
module Catalog {

  /** A catalog definition: its name, its project, and `info.projectUrl`. */
  datatype Def = Def(name: string, project: string, projectUrl: string)

  /** An entry of `_items`. */
  datatype Entry = Entry(displayName: string, name: string)

  /** The text shown for a definition in the selection list. */
  function DisplayName(d: Def): string {
    if d.project == d.name then d.project + " - " + d.projectUrl
    else d.name + " (" + d.project + ") - " + d.projectUrl
  }

  /**
   * Every display name starts with the definition's name and ends with ` - ` and the
   * project URL; the project is shown in parentheses after the name exactly
   * when it differs from the name.
   */
  lemma DisplayNameShape(d: Def)
    ensures var shown := DisplayName(d);
      |shown| >= |d.name| + 3 + |d.projectUrl| &&
      shown[..|d.name|] == d.name &&
      shown[|shown| - |d.projectUrl| - 3..] == " - " + d.projectUrl &&
      (d.project == d.name <==> shown == d.name + " - " + d.projectUrl) &&
      (d.project != d.name ==> shown[|d.name|..|d.name| + 2 + |d.project| + 1] == " (" + d.project + ")")
  {
    var shown := DisplayName(d);
    if d.project == d.name {
      assert shown == d.name + " - " + d.projectUrl;
    } else {
      assert shown == d.name + " (" + d.project + ")" + " - " + d.projectUrl;
    }
  }

  /** The `forEach` over `defs.content`, pushing one entry per definition. */
  method LoadCatalog(defs: seq<Def>) returns (items: seq<Entry>)
    ensures |items| == |defs|
    ensures forall j :: 0 <= j < |defs| ==> items[j] == Entry(DisplayName(defs[j]), defs[j].name)
  {
    items := [];
    for i := 0 to |defs|
      invariant |items| == i
      invariant forall j :: 0 <= j < i ==> items[j] == Entry(DisplayName(defs[j]), defs[j].name)
    {
      var d := defs[i];
      if d.project == d.name {
        items := items + [Entry(d.project + " - " + d.projectUrl, d.name)];
      } else {
        items := items + [Entry(d.name + " (" + d.project + ") - " + d.projectUrl, d.name)];
      }
    }
  }
}
