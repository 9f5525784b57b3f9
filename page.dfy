/** Page selection state of the landing page (app.js): the five location tabs with
    their text panes, the hemisphere label of a picked point, and the location box
    that offers the picked point to the contact form. */
module Page {

  const Inactive := "inactive"
  const Active := "active"
  const Enabled := "enabled"

  /** The page wires click handlers to `tabs[0]` .. `tabs[4]` and `texts[0]` .. `texts[4]`. */
  const TabCount := 5

  /** The class lists of `tabs` (or of `texts`) after a click on tab `i`: pair `i`
      loses "inactive", the other four of the first five gain it, and nothing else moves. */
  function Selected(lists: seq<set<string>>, i: nat): (r: seq<set<string>>)
    requires i < TabCount <= |lists|
    ensures |r| == |lists|
    ensures forall j :: 0 <= j < TabCount ==> (Inactive in r[j] <==> j != i)
    ensures forall j :: TabCount <= j < |r| ==> r[j] == lists[j]
    ensures forall j, c :: 0 <= j < |r| && c != Inactive ==> (c in r[j] <==> c in lists[j])
  {
    seq(|lists|, j requires 0 <= j < |lists| =>
      if j == i then lists[j] - {Inactive}
      else if j < TabCount then lists[j] + {Inactive}
      else lists[j])
  }

  /** After a click on tab `i`, exactly one of the five tabs is without "inactive". */
  lemma OneActiveTab(lists: seq<set<string>>, i: nat)
    requires i < TabCount <= |lists|
    ensures (set j | 0 <= j < TabCount && Inactive !in Selected(lists, i)[j]) == {i}
  {
  }

  /** The outcome of a click does not depend on which tab was selected before: the
      last click wins, and repeating a click changes nothing. */
  lemma {:induction false} LastClickWins(lists: seq<set<string>>, k: nat, i: nat)
    requires k < TabCount && i < TabCount <= |lists|
    ensures Selected(Selected(lists, k), i) == Selected(lists, i)
  {
    var once, twice := Selected(lists, i), Selected(Selected(lists, k), i);
    forall j | 0 <= j < |lists|
      ensures twice[j] == once[j]
    {
      if j < TabCount {
        assert Inactive in twice[j] <==> Inactive in once[j];
        assert forall c :: c in twice[j] <==> c in once[j];
      }
    }
  }

  /** Click handler of `tabs[i]`; `tabs` and `texts` are distinct element collections. */
  method SelectTab(tabs: array<set<string>>, texts: array<set<string>>, i: nat)
    requires i < TabCount <= tabs.Length && TabCount <= texts.Length
    requires tabs != texts
    modifies tabs, texts
    ensures tabs[..] == Selected(old(tabs[..]), i)
    ensures texts[..] == Selected(old(texts[..]), i)
  {
    tabs[i] := tabs[i] - {Inactive};
    texts[i] := texts[i] - {Inactive};
    for j := 0 to TabCount
      invariant forall k :: 0 <= k < tabs.Length ==>
        tabs[k] == (if k == i then old(tabs[k]) - {Inactive}
                   else if k < j then old(tabs[k]) + {Inactive}
                   else old(tabs[k]))
      invariant forall k :: 0 <= k < texts.Length ==>
        texts[k] == (if k == i then old(texts[k]) - {Inactive}
                   else if k < j then old(texts[k]) + {Inactive}
                   else old(texts[k]))
    {
      if j != i {
        tabs[j] := tabs[j] + {Inactive};
        texts[j] := texts[j] + {Inactive};
      }
    }
  }

  function Abs(x: real): (r: real)
    ensures r >= 0.0 && (r == x || r == -x)
  {
    if x < 0.0 then -x else x
  }

  /** The picked point's label "Lat: |lat|° NS, Long: |lon|° WE", kept as its parts
      (number-to-text formatting is not modelled). */
  datatype Label = Label(lat: real, ns: char, lon: real, we: char)

  /** `NS` starts at 'S' and becomes 'N' for a negative latitude; `WE` starts at 'E'
      and becomes 'W' for a negative longitude. */
  function LabelOf(lat: real, lon: real): (l: Label)
    ensures l.ns in {'N', 'S'} && (l.ns == 'N' <==> lat < 0.0)
    ensures l.we in {'W', 'E'} && (l.we == 'W' <==> lon < 0.0)
    ensures l.lat >= 0.0 && l.lon >= 0.0
  {
    var ns := if lat < 0.0 then 'N' else 'S';
    var we := if lon < 0.0 then 'W' else 'E';
    Label(Abs(lat), ns, Abs(lon), we)
  }

  /** Reads the signed coordinates back from a label. */
  function Coordinates(l: Label): (c: (real, real))
  {
    (if l.ns == 'N' then -l.lat else l.lat, if l.we == 'W' then -l.lon else l.lon)
  }

  /** The label loses nothing: the coordinates can be read back from it. */
  lemma LabelRoundTrip(lat: real, lon: real)
    ensures Coordinates(LabelOf(lat, lon)) == (lat, lon)
  {
  }

  /** The latitudes and longitudes the page stores for its five location nodes
      (Istanbul, Changshu, Thimphu, Wheaton College, France). */
  const NodeCoordinates: seq<(real, real)> := [
    (-41.0082, 28.9784), (-31.6538, 120.7522), (-27.4716, 89.6386),
    (-41.9672, -71.1840), (-48.8566, 2.3522)]

  /** The real-world positions of those five places (for the fifth node, France, the
      coordinates it stores rather than the Wheaton coordinates its comment repeats). */
  const NodePlaces: seq<Label> := [
    Label(41.0082, 'N', 28.9784, 'E'), Label(31.6538, 'N', 120.7522, 'E'),
    Label(27.4716, 'N', 89.6386, 'E'), Label(41.9672, 'N', 71.1840, 'W'),
    Label(48.8566, 'N', 2.3522, 'E')]

  /** The northern-hemisphere nodes store negated latitudes, which is exactly the
      convention of the labelling: each stored coordinate pair labels as its place. */
  lemma NodesLabelAsPlaces()
    ensures |NodeCoordinates| == |NodePlaces|
    ensures forall k :: 0 <= k < |NodeCoordinates| ==>
              LabelOf(NodeCoordinates[k].0, NodeCoordinates[k].1) == NodePlaces[k]
  {
  }

  datatype Option<T> = None | Some(value: T)

  datatype Point = Point(x: real, y: real, z: real)

  /** The value of the hidden `location` input. */
  datatype InputValue =
    | Markup                 // whatever the page's markup gives it
    | Text(s: string)        // a literal string
    | Location(l: Label)     // a location label

  /** How an event handler ends: normally, or by throwing. */
  datatype ScriptError = TypeError | ReferenceError
  datatype Completion = Normal | Threw(error: ScriptError)

  /** The module-level state the right-click and box handlers share with the page. */
  class LocationPicker {
    var locSet: bool
    /** The module-level `coords`: undefined until the first right-click. */
    var coords: Option<(real, real)>
    /** The position of the red marker `point`. */
    var marker: Point
    /** The text of the `loc` element, `None` while it is the markup's. */
    var locText: Option<Label>
    var locClasses: set<string>
    var boxClasses: set<string>
    var locationValue: InputValue
    var locationChecked: bool

    /** The form offers a location exactly while one is set, and it is the picked one. */
    predicate Consistent()
      reads this
    {
      && (locSet <==> locationChecked)
      && (locSet ==> coords.Some? && locationValue == Location(LabelOf(coords.value.0, coords.value.1)))
    }

    constructor (locClasses: set<string>, boxClasses: set<string>)
      ensures !locSet && coords == None && marker == Point(0.0, 0.0, 0.0) && locText == None
      ensures this.locClasses == locClasses && this.boxClasses == boxClasses
      ensures locationValue == Markup && !locationChecked
      ensures Consistent()
    {
      locSet := false;
      coords := None;
      marker := Point(0.0, 0.0, 0.0);
      locText := None;
      this.locClasses := locClasses;
      this.boxClasses := boxClasses;
      locationValue := Markup;
      locationChecked := false;
    }

    /** Body of the right-click handler, given the picked surface point and its
        latitude and longitude. */
    method RightClick(picked: Point, lat: real, lon: real)
      modifies this
      ensures marker == picked && coords == Some((lat, lon))
      ensures locText == Some(LabelOf(lat, lon)) && locClasses == old(locClasses) + {Enabled}
      ensures boxClasses == old(boxClasses) + {Active, Enabled} && locSet
      ensures locationValue == Location(LabelOf(lat, lon)) && locationChecked
      ensures Consistent()
    {
      marker := picked;
      coords := Some((lat, lon));
      var shown := LabelOf(lat, lon);
      locText := Some(shown);
      locClasses := locClasses + {Enabled};
      boxClasses := boxClasses + {Active};
      boxClasses := boxClasses + {Enabled};
      locSet := true;
      locationValue := Location(shown);
      locationChecked := true;
    }

    /** Click handler of the location box, as written. With `locSet` false it marks the
        box active and sets `locSet`, then throws while building the label: `coords` is
        undefined before any right-click, and `NS` is local to the right-click handler. */
    method BoxClick() returns (c: Completion)
      modifies this
      ensures coords == old(coords) && marker == old(marker) && locText == old(locText)
      ensures locClasses == old(locClasses)
      ensures old(locSet) ==> c == Normal && !locSet && boxClasses == old(boxClasses) - {Active}
                              && locationValue == Text("0") && !locationChecked
      ensures !old(locSet) ==> c == Threw(if coords == None then TypeError else ReferenceError)
                               && locSet && boxClasses == old(boxClasses) + {Active}
                               && locationValue == old(locationValue)
                               && locationChecked == old(locationChecked)
    {
      if locSet {
        boxClasses := boxClasses - {Active};
        locSet := false;
        locationValue := Text("0");
        locationChecked := false;
        c := Normal;
      } else {
        boxClasses := boxClasses + {Active};
        locSet := true;
        c := Threw(if coords == None then TypeError else ReferenceError);
      }
    }

    /** Click handler of the location box as evidently intended: turning the location
        back on offers the last picked location again (and does nothing before a pick). */
    method BoxClickIntended()
      requires Consistent()
      modifies this
      ensures Consistent()
      ensures coords == old(coords) && marker == old(marker) && locText == old(locText)
      ensures locClasses == old(locClasses)
      ensures old(locSet) ==> !locSet && boxClasses == old(boxClasses) - {Active}
                              && locationValue == Text("0") && !locationChecked
      ensures !old(locSet) && coords.Some? ==>
                locSet && boxClasses == old(boxClasses) + {Active} && locationChecked
      ensures !old(locSet) && coords == None ==>
                !locSet && boxClasses == old(boxClasses) && locationValue == old(locationValue)
    {
      if locSet {
        boxClasses := boxClasses - {Active};
        locSet := false;
        locationValue := Text("0");
        locationChecked := false;
      } else if coords.Some? {
        boxClasses := boxClasses + {Active};
        locSet := true;
        locationValue := Location(LabelOf(coords.value.0, coords.value.1));
        locationChecked := true;
      }
    }
  }

  /** Right-click, then two clicks on the box: the second click throws and leaves
      `locSet` true while the form's location input stays unchecked. */
  method BoxToggleScenario() returns (c: Completion, consistent: bool, locSet: bool, checked: bool)
    ensures c == Threw(ReferenceError) && !consistent
    ensures locSet && !checked
  {
    var picker := new LocationPicker({}, {});
    picker.RightClick(Point(0.0, 3.0, 0.0), -90.0, 360.0);
    var first := picker.BoxClick();
    c := picker.BoxClick();
    consistent := picker.Consistent();
    locSet, checked := picker.locSet, picker.locationChecked;
  }

  /** With the intended handler the same clicks keep the form consistent and offer the
      picked location again. */
  method BoxToggleScenarioIntended() returns (consistent: bool, offered: InputValue)
    ensures consistent && offered == Location(Label(90.0, 'N', 360.0, 'E'))
  {
    var picker := new LocationPicker({}, {});
    picker.RightClick(Point(0.0, 3.0, 0.0), -90.0, 360.0);
    picker.BoxClickIntended();
    picker.BoxClickIntended();
    consistent := picker.Consistent();
    offered := picker.locationValue;
  }
}
