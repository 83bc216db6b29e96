/** The lore page's accordion: clicking a heading toggles its own section
    and hides every other one. Sections are (id, hidden) records in document
    order. */
module Lore {

  datatype Section = Section(id: string, hidden: bool)

  /** The effect of `toggleSection(id)` on one section. */
  function Visit(s: Section, id: string): Section {
    if s.id == id then s.(hidden := !s.hidden) else s.(hidden := true)
  }

  /** `toggleSection(id)`: the `forEach` over the sections in order. */
  function ToggleSection(secs: seq<Section>, id: string): (r: seq<Section>)
    ensures |r| == |secs|
    ensures forall i :: 0 <= i < |secs| ==> r[i].id == secs[i].id
    ensures forall i :: 0 <= i < |secs| && secs[i].id != id ==> r[i].hidden
    ensures forall i :: 0 <= i < |secs| && secs[i].id == id ==> r[i].hidden == !secs[i].hidden
  {
    if secs == [] then [] else [Visit(secs[0], id)] + ToggleSection(secs[1..], id)
  }

  predicate UniqueIds(secs: seq<Section>) {
    forall i, j :: 0 <= i < j < |secs| ==> secs[i].id != secs[j].id
  }

  predicate AtMostOneVisible(secs: seq<Section>) {
    forall i, j :: 0 <= i < |secs| && 0 <= j < |secs| && !secs[i].hidden && !secs[j].hidden ==> i == j
  }

  /** With distinct ids the accordion shows at most one section afterwards:
      the target, and only if it was hidden before. */
  lemma ToggleLeavesOneOpen(secs: seq<Section>, id: string)
    requires UniqueIds(secs)
    ensures AtMostOneVisible(ToggleSection(secs, id))
    ensures forall i :: 0 <= i < |secs| ==>
      (!ToggleSection(secs, id)[i].hidden <==> secs[i].id == id && secs[i].hidden)
  {
  }

  /** A second click on the same heading restores the target's flag, while
      every other section stays hidden. */
  lemma ToggleTwice(secs: seq<Section>, id: string)
    ensures var r := ToggleSection(ToggleSection(secs, id), id);
      && |r| == |secs|
      && (forall i :: 0 <= i < |secs| ==> r[i].id == secs[i].id)
      && (forall i :: 0 <= i < |secs| ==> r[i].hidden == (secs[i].id != id || secs[i].hidden))
  {
  }

  /** Clicking an id no section has closes the whole accordion. */
  lemma ToggleUnknownHidesAll(secs: seq<Section>, id: string)
    requires forall i :: 0 <= i < |secs| ==> secs[i].id != id
    ensures forall i :: 0 <= i < |secs| ==> ToggleSection(secs, id)[i] == secs[i].(hidden := true)
  {
  }
}
