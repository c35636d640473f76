/**
  The scroll tracker `updateActiveNavLink`: pick the section the reader is in and mark
  the navigation links that point at it.
 */
module ActiveSection {
  import opened JsText

  /** A `section[id]` element: its id and its layout box (`offsetTop`, `offsetHeight`). */
  datatype Section = Section(id: JsString, offsetTop: int, offsetHeight: int)

  /** How far above its box a section already counts as the current one. */
  const Bias: int := 100

  /** `scrollY` lies in the section's box shifted up by the bias. */
  predicate InRange(scrollY: int, s: Section) {
    s.offsetTop - Bias <= scrollY < s.offsetTop - Bias + s.offsetHeight
  }

  /**
    Reference choice: the index of the LAST section, in document order, whose shifted
    box holds `scrollY`, or None when none does.
   */
  function LastInRange(scrollY: int, sections: seq<Section>): (r: Option<nat>)
    ensures r.None? <==> forall i :: 0 <= i < |sections| ==> !InRange(scrollY, sections[i])
    ensures r.Some? ==> r.value < |sections| && InRange(scrollY, sections[r.value])
    ensures r.Some? ==> forall j :: r.value < j < |sections| ==> !InRange(scrollY, sections[j])
  {
    if sections == [] then None
    else if InRange(scrollY, sections[|sections| - 1]) then Some(|sections| - 1)
    else LastInRange(scrollY, sections[..|sections| - 1])
  }

  /** The id the tracker settles on: the chosen section's id, or "" when none qualifies. */
  function CurrentSection(scrollY: int, sections: seq<Section>): JsString {
    match LastInRange(scrollY, sections)
    case None => []
    case Some(i) => sections[i].id
  }

  /** The href a link needs to be marked for section `id`. */
  function Anchor(id: JsString): JsString {
    [NumberSign] + id
  }

  /** The active marks after an update: link k is active iff its href is "#" + current. */
  function ActiveMarks(hrefs: seq<Option<JsString>>, current: JsString): (marks: seq<bool>)
    ensures |marks| == |hrefs|
  {
    seq(|hrefs|, k requires 0 <= k < |hrefs| => hrefs[k] == Some(Anchor(current)))
  }

  /** The first loop of `updateActiveNavLink`: every matching section overwrites the choice. */
  method SelectSection(scrollY: int, sections: seq<Section>) returns (current: JsString)
    ensures current == CurrentSection(scrollY, sections)
    ensures (forall i :: 0 <= i < |sections| ==> !InRange(scrollY, sections[i])) ==> current == []
  {
    current := [];
    var i := 0;
    while i < |sections|
      invariant 0 <= i <= |sections|
      invariant current == CurrentSection(scrollY, sections[..i])
    {
      assert sections[..i + 1][..i] == sections[..i];
      if InRange(scrollY, sections[i]) {
        current := sections[i].id;
      }
      i := i + 1;
    }
    assert sections[..i] == sections;
  }

  /**
    The second loop: each link loses its mark and gets it back only when its href is
    "#" + current, so the old marks have no influence on the new ones. A link without
    an href attribute (`None`) is never marked.
   */
  method MarkLinks(hrefs: seq<Option<JsString>>, current: JsString, active: array<bool>)
    requires active.Length == |hrefs|
    modifies active
    ensures active[..] == ActiveMarks(hrefs, current)
  {
    var k := 0;
    while k < active.Length
      invariant 0 <= k <= active.Length
      invariant forall j :: 0 <= j < k ==> active[j] == (hrefs[j] == Some(Anchor(current)))
    {
      active[k] := false;
      if hrefs[k] == Some(Anchor(current)) {
        active[k] := true;
      }
      k := k + 1;
    }
  }

  /** One run of `updateActiveNavLink` at offset `scrollY`. */
  method UpdateActiveNavLink(scrollY: int, sections: seq<Section>, hrefs: seq<Option<JsString>>, active: array<bool>)
    requires active.Length == |hrefs|
    modifies active
    ensures active[..] == ActiveMarks(hrefs, CurrentSection(scrollY, sections))
  {
    var current := SelectSection(scrollY, sections);
    MarkLinks(hrefs, current, active);
  }

  /** With distinct hrefs and a link for the current section, exactly one link is marked. */
  lemma ExactlyOneActive(hrefs: seq<Option<JsString>>, current: JsString, k: nat)
    requires forall i, j :: 0 <= i < j < |hrefs| ==> hrefs[i] != hrefs[j]
    requires k < |hrefs| && hrefs[k] == Some(Anchor(current))
    ensures ActiveMarks(hrefs, current)[k]
    ensures forall j :: 0 <= j < |hrefs| && j != k ==> !ActiveMarks(hrefs, current)[j]
  {
    forall j | 0 <= j < |hrefs| && j != k ensures !ActiveMarks(hrefs, current)[j] {
      if j < k { assert hrefs[j] != hrefs[k]; } else { assert hrefs[k] != hrefs[j]; }
    }
  }

  /**
    The choice is not sticky: when no section holds the offset the tracker falls back
    to "", and the only links left marked are those whose href is literally "#".
   */
  lemma NoSectionMarksBareHash(scrollY: int, sections: seq<Section>, hrefs: seq<Option<JsString>>)
    requires forall i :: 0 <= i < |sections| ==> !InRange(scrollY, sections[i])
    ensures forall k :: 0 <= k < |hrefs| ==>
      (ActiveMarks(hrefs, CurrentSection(scrollY, sections))[k] <==> hrefs[k] == Some([NumberSign]))
  {
    assert CurrentSection(scrollY, sections) == [];
    assert Anchor([]) == [NumberSign];
  }
}
