/** The scroll-spy of `initScrollSpy` (script.js): the list of (link, section, id) entries built
    once from the in-page navigation links, and `updateActiveLink`, which marks the link of the
    first section that spans the reading position. */
module ScrollSpy {
  import opened Wrappers
  import opened Dom

  /** The header height assumed when the page has no header. */
  const DefaultHeaderHeight := 80

  /** How far below the header the reading position lies. */
  const ReadingOffset := 100

  /** One entry of `sections`: the index of the link among the in-page navigation links, the
      section its href selects, and the href without its leading `#`. */
  datatype SpyEntry = SpyEntry(link: nat, section: Element, id: string)

  /** A section's layout: `offsetTop` and `offsetHeight`, in whole pixels. */
  datatype Box = Box(top: int, height: int)

  /** An href the scroll-spy follows: not empty, not `#`, not `#!`. */
  predicate Followed(href: string) {
    href != "" && href != "#" && href != "#!"
  }

  /** `e` is the entry for link `e.link`: a followed href that selects `e.section`. The map
      `query` holds the result of `document.querySelector` for each selector that finds an
      element. */
  predicate IsEntryFor(hrefs: seq<string>, query: map<string, Element>, e: SpyEntry) {
    e.link < |hrefs| && Followed(hrefs[e.link]) && hrefs[e.link] in query
    && e.section == query[hrefs[e.link]] && e.id == hrefs[e.link][1..]
  }

  /** Entries appear in strictly increasing link order, so no link has two entries. */
  predicate LinksIncrease(sections: seq<SpyEntry>) {
    forall k, m | 0 <= k < m < |sections| :: sections[k].link < sections[m].link
  }

  /** The loop that pushes an entry for each link whose href is followed and selects an
      element: entries for exactly those links, in link order. */
  method BuildSections(hrefs: seq<string>, query: map<string, Element>) returns (sections: seq<SpyEntry>)
    ensures forall k | 0 <= k < |sections| :: IsEntryFor(hrefs, query, sections[k])
    ensures LinksIncrease(sections)
    ensures forall l | 0 <= l < |hrefs| && Followed(hrefs[l]) && hrefs[l] in query ::
      exists k | 0 <= k < |sections| :: sections[k].link == l
  {
    sections := [];
    var i := 0;
    while i < |hrefs|
      invariant 0 <= i <= |hrefs|
      invariant forall k | 0 <= k < |sections| :: IsEntryFor(hrefs, query, sections[k]) && sections[k].link < i
      invariant forall k, m | 0 <= k < m < |sections| :: sections[k].link < sections[m].link
      invariant forall l | 0 <= l < i && Followed(hrefs[l]) && hrefs[l] in query ::
        exists k | 0 <= k < |sections| :: sections[k].link == l
    {
      var href := hrefs[i];
      if Followed(href) && href in query {
        var entry := SpyEntry(i, query[href], href[1..]);
        forall l | 0 <= l < i && Followed(hrefs[l]) && hrefs[l] in query
          ensures exists k | 0 <= k < |sections| + 1 :: (sections + [entry])[k].link == l
        {
          var k :| 0 <= k < |sections| && sections[k].link == l;
          assert (sections + [entry])[k] == sections[k];
        }
        assert (sections + [entry])[|sections|].link == i;
        sections := sections + [entry];
      }
      i := i + 1;
    }
  }

  /** The reading position `window.pageYOffset + headerHeight + 100` lies in the half-open
      span `[top, top + height)` of the box. */
  predicate Spans(b: Box, pos: int) {
    b.top <= pos < b.top + b.height
  }

  /** The first entry, in list order, whose section spans `pos`. */
  function FirstSpanning(sections: seq<SpyEntry>, layout: Element -> Box, pos: int): (r: Option<nat>)
    ensures r.Some? ==> r.value < |sections| && Spans(layout(sections[r.value].section), pos)
    ensures r.Some? ==> forall k | 0 <= k < r.value :: !Spans(layout(sections[k].section), pos)
    ensures r.None? <==> forall k | 0 <= k < |sections| :: !Spans(layout(sections[k].section), pos)
  {
    if sections == [] then None
    else if Spans(layout(sections[0].section), pos) then Some(0)
    else match FirstSpanning(sections[1..], layout, pos)
      case None => None
      case Some(k) => Some(k + 1)
  }

  /** `l` is the link of some entry. */
  predicate IsSpyLink(sections: seq<SpyEntry>, l: nat) {
    exists k | 0 <= k < |sections| :: sections[k].link == l
  }

  /** The link marks after `updateActiveLink`, from the marks before: the first spanning
      section's link is active with `aria-current="location"`, the other entries' links are
      cleared, and links without an entry keep their marks. */
  ghost predicate Highlighted(sections: seq<SpyEntry>, layout: Element -> Box, pos: int,
                              before: seq<LinkMark>, after: seq<LinkMark>)
  {
    var current := FirstSpanning(sections, layout, pos);
    |after| == |before|
    && forall l | 0 <= l < |after| ::
      after[l] == if current.Some? && sections[current.value].link == l then LinkMark(true, Location)
                  else if IsSpyLink(sections, l) then Unmarked
                  else before[l]
  }

  /** After an update at most one entry's link is active. When one is, it belongs to the first
      section in list order that spans the reading position; when no section spans it, none is. */
  lemma AtMostOneActive(sections: seq<SpyEntry>, layout: Element -> Box, pos: int,
                        before: seq<LinkMark>, after: seq<LinkMark>)
    requires Highlighted(sections, layout, pos, before, after)
    requires LinksIncrease(sections)
    requires forall k | 0 <= k < |sections| :: sections[k].link < |after|
    ensures forall l1, l2 | 0 <= l1 < |after| && 0 <= l2 < |after|
      && IsSpyLink(sections, l1) && IsSpyLink(sections, l2) && after[l1].active && after[l2].active :: l1 == l2
    ensures forall k | 0 <= k < |sections| && after[sections[k].link].active ::
      Spans(layout(sections[k].section), pos)
      && forall m | 0 <= m < k :: !Spans(layout(sections[m].section), pos)
    ensures (forall k | 0 <= k < |sections| :: !Spans(layout(sections[k].section), pos)) ==>
      forall k | 0 <= k < |sections| :: !after[sections[k].link].active
  {
  }

  /** `updateActiveLink` over the link marks: find the first spanning section (the loop that
      breaks), clear every entry's link, then mark the one found. */
  method UpdateActiveLink(sections: seq<SpyEntry>, layout: Element -> Box, headerHeight: int,
                          pageYOffset: int, marks: array<LinkMark>)
    requires forall k | 0 <= k < |sections| :: sections[k].link < marks.Length
    modifies marks
    ensures Highlighted(sections, layout, pageYOffset + headerHeight + ReadingOffset, old(marks[..]), marks[..])
  {
    var pos := pageYOffset + headerHeight + ReadingOffset;
    var current: Option<nat> := None;
    var i := 0;
    while i < |sections|
      invariant 0 <= i <= |sections|
      invariant current == None
      invariant forall k | 0 <= k < i :: !Spans(layout(sections[k].section), pos)
    {
      var box := layout(sections[i].section);
      if pos >= box.top && pos < box.top + box.height {
        current := Some(i);
        break;
      }
      i := i + 1;
    }
    assert current == FirstSpanning(sections, layout, pos);

    var j := 0;
    while j < |sections|
      invariant 0 <= j <= |sections|
      invariant forall l | 0 <= l < marks.Length ::
        marks[l] == if exists k | 0 <= k < j :: sections[k].link == l then Unmarked else old(marks[l])
    {
      marks[sections[j].link] := Unmarked;
      j := j + 1;
    }

    if current.Some? {
      marks[sections[current.value].link] := LinkMark(true, Location);
    }
  }

  /** The outcome of `initScrollSpy`: `None` when it stopped early (no in-page links, or no
      followed href selects an element); otherwise the entries and the header height it keeps
      for later updates. */
  datatype Spy = Spy(sections: seq<SpyEntry>, headerHeight: int)

  /** `initScrollSpy`, given the in-page navigation links' hrefs, the selector lookups, the
      header's `offsetHeight` (`None` when there is no header) and the page at load time. */
  method InitScrollSpy(hrefs: seq<string>, query: map<string, Element>, header: Option<int>,
                       layout: Element -> Box, pageYOffset: int, marks: array<LinkMark>)
      returns (spy: Option<Spy>)
    requires marks.Length == |hrefs|
    modifies marks
    ensures spy.None? <==> forall l | 0 <= l < |hrefs| :: !(Followed(hrefs[l]) && hrefs[l] in query)
    ensures spy.None? ==> marks[..] == old(marks[..])
    ensures spy.Some? ==>
      && LinksIncrease(spy.value.sections)
      && spy.value.headerHeight == (if header.Some? then header.value else DefaultHeaderHeight)
      && (forall k | 0 <= k < |spy.value.sections| :: IsEntryFor(hrefs, query, spy.value.sections[k]))
      && (forall l | 0 <= l < |hrefs| && Followed(hrefs[l]) && hrefs[l] in query :: IsSpyLink(spy.value.sections, l))
      && Highlighted(spy.value.sections, layout, pageYOffset + spy.value.headerHeight + ReadingOffset,
                     old(marks[..]), marks[..])
  {
    if |hrefs| == 0 {
      return None;
    }
    var sections := BuildSections(hrefs, query);
    if |sections| == 0 {
      return None;
    }
    assert Followed(hrefs[sections[0].link]) && hrefs[sections[0].link] in query;
    var headerHeight := if header.Some? then header.value else DefaultHeaderHeight;
    UpdateActiveLink(sections, layout, headerHeight, pageYOffset, marks);
    spy := Some(Spy(sections, headerHeight));
  }
}
