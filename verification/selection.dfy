/**
  What the map view shows about records: the hover title of each marker, the single
  selected record, and the detail popup shown for it.
 */
module Selection {
  import opened Wrappers
  import opened Decimal
  import opened Detonations

  /** The name shown in a marker's title: `name || 'Unnamed'`. */
  function DisplayName(d: Detonation): (r: string)
    ensures r != ""
    ensures TruthyText(d.name) ==> r == d.name.value
    ensures !TruthyText(d.name) ==> r == "Unnamed"
  {
    OrElse(d.name, "Unnamed")
  }

  /** The marker title, `getOverviewInfo`: name, responsible party and year joined by " - ". */
  function OverviewTitle(d: Detonation): string {
    DisplayName(d) + " - " + d.detonatedBy + " - " + IntToString(d.detonationYear)
  }

  /** The text after the last space (the whole text when there is none). */
  function AfterLastSpace(s: string): (r: string)
    ensures |r| <= |s| && r == s[|s| - |r|..]
    ensures forall i :: 0 <= i < |r| ==> r[i] != ' '
    ensures |r| < |s| ==> s[|s| - |r| - 1] == ' '
    decreases |s|
  {
    if s == [] || s[|s| - 1] == ' ' then []
    else AfterLastSpace(s[..|s| - 1]) + [s[|s| - 1]]
  }

  /** A title is the display name, a separator, the responsible party, a separator and
      the year's text, each at its place. */
  lemma OverviewTitleLayout(d: Detonation)
    ensures var t := OverviewTitle(d);
      var a := |DisplayName(d)| + 3;
      var b := a + |d.detonatedBy|;
      && |t| == b + 3 + |IntToString(d.detonationYear)|
      && t[..a] == DisplayName(d) + " - "
      && t[a..b] == d.detonatedBy
      && t[b..b + 3] == " - "
      && t[b + 3..] == IntToString(d.detonationYear)
  {
    JoinedTitleParts(DisplayName(d), d.detonatedBy, IntToString(d.detonationYear));
  }

  /** A title begins with the display name and a separator, and its last word reads
      back as the detonation year. */
  lemma OverviewTitleReadsBack(d: Detonation)
    ensures var t := OverviewTitle(d);
      && t[..|DisplayName(d)| + 3] == DisplayName(d) + " - "
      && ParseInt(AfterLastSpace(t)) == Some(d.detonationYear)
  {
    JoinedTitleParts(DisplayName(d), d.detonatedBy, IntToString(d.detonationYear));
    ParseIntOfIntToString(d.detonationYear);
  }

  /** Three parts joined by " - ", the last without spaces: each part and separator sits
      at its place, and the last part is the last word. */
  lemma JoinedTitleParts(name: string, party: string, y: string)
    requires forall i :: 0 <= i < |y| ==> y[i] != ' '
    ensures var t := name + " - " + party + " - " + y;
      var a := |name| + 3;
      var b := a + |party|;
      && |t| == b + 3 + |y|
      && t[..a] == name + " - "
      && t[a..b] == party
      && t[b..b + 3] == " - "
      && t[b + 3..] == y
      && AfterLastSpace(t) == y
  {
    var t := name + " - " + party + " - " + y;
    assert t == (name + " - ") + (party + " - " + y);
    assert t == (name + " - " + party) + (" - " + y);
    var head := name + " - " + party + " -";
    assert t == (head + " ") + y;
    AfterLastSpaceOfWord(head + " ", y);
  }

  /** Appending a space-free word after a space: the last word is that word. */
  lemma {:induction false} AfterLastSpaceOfWord(pre: string, w: string)
    requires |pre| > 0 && pre[|pre| - 1] == ' '
    requires forall i :: 0 <= i < |w| ==> w[i] != ' '
    ensures AfterLastSpace(pre + w) == w
    decreases |w|
  {
    if w == [] {
      assert pre + w == pre;
    } else {
      var w' := w[..|w| - 1];
      assert (pre + w)[..|pre + w| - 1] == pre + w';
      AfterLastSpaceOfWord(pre, w');
    }
  }

  /** The selected record, if any: at most one at a time by construction. */
  type Selected = Option<Detonation>

  /** Clicking a marker selects its record, replacing any earlier selection. */
  function ClickMarker(sel: Selected, d: Detonation): (r: Selected)
    ensures r.Some? && r.value == d
  {
    Some(d)
  }

  /** The popup's close control clears the selection. */
  function CloseClick(sel: Selected): (r: Selected)
    ensures r.None?
  {
    None
  }

  /** Whether the popup is shown beside this record's marker: the selected record's key
      string equals this record's. */
  predicate IsSelected(sel: Selected, d: Detonation) {
    sel.Some? && IdKey(sel.value) == IdKey(d)
  }

  /** The records, in display order, whose popup is shown. */
  function ShownPopups(sel: Selected, visible: seq<Detonation>): (r: seq<Detonation>)
    ensures forall x :: x in r <==> x in visible && IsSelected(sel, x)
    ensures |r| <= |visible|
    decreases |visible|
  {
    if visible == [] then []
    else
      var rest := ShownPopups(sel, visible[1..]);
      assert forall x :: x in visible <==> x == visible[0] || x in visible[1..];
      if IsSelected(sel, visible[0]) then [visible[0]] + rest else rest
  }

  predicate DistinctIds(visible: seq<Detonation>) {
    forall i, j :: 0 <= i < j < |visible| ==> visible[i].id != visible[j].id
  }

  /** A popup is shown exactly for the visible records with the selected record's id. */
  lemma ShownPopupsMatchId(sel: Selected, visible: seq<Detonation>, d: Detonation)
    ensures d in ShownPopups(sel, visible) <==> d in visible && sel.Some? && sel.value.id == d.id
  {
  }

  /** When the visible records have distinct ids, at most one popup is shown. */
  lemma {:induction false} AtMostOnePopup(sel: Selected, visible: seq<Detonation>)
    requires DistinctIds(visible)
    ensures |ShownPopups(sel, visible)| <= 1
    decreases |visible|
  {
    if visible != [] {
      var tail := visible[1..];
      assert DistinctIds(tail) by {
        forall i, j | 0 <= i < j < |tail|
          ensures tail[i].id != tail[j].id
        {
          assert tail[i] == visible[i + 1] && tail[j] == visible[j + 1];
        }
      }
      AtMostOnePopup(sel, tail);
      if IsSelected(sel, visible[0]) {
        NoPopupWithoutMatch(sel, tail);
      }
    }
  }

  /** No visible record carries the selected id, so no popup is shown. */
  lemma NoPopupWithoutMatch(sel: Selected, visible: seq<Detonation>)
    requires sel.Some? ==> forall i :: 0 <= i < |visible| ==> visible[i].id != sel.value.id
    ensures ShownPopups(sel, visible) == []
  {
  }

  /** Clicking a visible marker, among records with distinct ids, shows exactly its popup,
      whatever was selected before. */
  lemma ClickShowsOnlyThatPopup(sel: Selected, visible: seq<Detonation>, d: Detonation)
    requires DistinctIds(visible)
    requires d in visible
    ensures ShownPopups(ClickMarker(sel, d), visible) == [d]
  {
    var r := ShownPopups(ClickMarker(sel, d), visible);
    AtMostOnePopup(ClickMarker(sel, d), visible);
    assert d in r;
    assert r == [r[0]];
    assert r[0] == d;
  }

  /** After the close control no popup is shown. */
  lemma CloseShowsNoPopup(sel: Selected, visible: seq<Detonation>)
    ensures ShownPopups(CloseClick(sel), visible) == []
  {
  }

  /** What the popup shows after the year: `{upperYield && <p>Yield…</p>}`. A truthy yield
      gives the row; an absent yield gives nothing (React renders neither null nor
      undefined); a zero yield makes the expression the number 0, which React renders as
      the text "0". */
  datatype YieldChild = YieldRow(amount: real) | StrayText(text: string) | NoYield

  /** The contents of the detail popup. Coordinates are left out. */
  datatype Popup = Popup(heading: string, country: string, year: string, yieldChild: YieldChild)

  /** The popup for a record as the source renders it: the name or 'Unnamed Detonation',
      the responsible party, the year, and the value of `upperYield && row`. */
  function PopupFor(d: Detonation): (p: Popup)
    ensures p.heading != ""
    ensures TruthyText(d.name) ==> p.heading == d.name.value
    ensures !TruthyText(d.name) ==> p.heading == "Unnamed Detonation"
    ensures p.country == d.detonatedBy
    ensures ParseInt(p.year) == Some(d.detonationYear)
    ensures p.yieldChild.YieldRow? <==> TruthyNumber(d.upperYield)
    ensures p.yieldChild.YieldRow? ==> Some(p.yieldChild.amount) == d.upperYield && p.yieldChild.amount != 0.0
    ensures p.yieldChild.NoYield? <==> d.upperYield.None?
    ensures p.yieldChild.StrayText? <==> d.upperYield == Some(0.0)
  {
    ParseIntOfIntToString(d.detonationYear);
    Popup(OrElse(d.name, "Unnamed Detonation"), d.detonatedBy, IntToString(d.detonationYear), YieldChildAsWritten(d.upperYield))
  }

  function YieldChildAsWritten(y: Option<real>): YieldChild {
    match y
    case None => NoYield
    case Some(v) => if v != 0.0 then YieldRow(v) else StrayText(IntToString(0))
  }

  /** A record with a zero upper yield gets a bare "0" in its popup where the yield row
      would be. */
  lemma ZeroYieldShowsStrayZero(d: Detonation)
    requires d.upperYield == Some(0.0)
    ensures PopupFor(d).yieldChild == StrayText("0")
  {
  }

  /** The popup with the yield line as evidently intended: the row when the yield is truthy,
      nothing at all otherwise. */
  function IntendedPopupFor(d: Detonation): (p: Popup)
    ensures !p.yieldChild.StrayText?
    ensures p.yieldChild.YieldRow? <==> TruthyNumber(d.upperYield)
    ensures p.yieldChild.YieldRow? ==> Some(p.yieldChild.amount) == d.upperYield
    ensures p.heading == PopupFor(d).heading && p.country == PopupFor(d).country && p.year == PopupFor(d).year
  {
    var shown := PopupFor(d);
    Popup(shown.heading, shown.country, shown.year,
      if TruthyNumber(d.upperYield) then YieldRow(d.upperYield.value) else NoYield)
  }

  /** The two popups agree on every record except one whose upper yield is zero. */
  lemma IntendedDiffersOnlyAtZero(d: Detonation)
    ensures IntendedPopupFor(d) == PopupFor(d) <==> d.upperYield != Some(0.0)
  {
  }
}
