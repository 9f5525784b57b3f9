/** Pointer picking for the interactive markers of the globe (DomMesh.js).
    `DomMesh` and `DomSprite` carry identical handler code, so one model serves both.
    The ray test of each pointer event is abstracted to a boolean `hit`: whether the
    picking ray's first intersection is the target object. */
module Picking {

  function Front(s: seq<bool>): (f: seq<bool>)
    requires |s| > 0
  {
    s[..|s| - 1]
  }

  function Last(s: seq<bool>): (b: bool)
    requires |s| > 0
  {
    s[|s| - 1]
  }

  /** Number of `true` entries, counted from the end. */
  function CountTrue(s: seq<bool>): (n: nat)
  {
    if s == [] then 0 else CountTrue(Front(s)) + (if Last(s) then 1 else 0)
  }

  /** What one pointer-move sample does to one registered listener: whether its
      callback ran, and the value of its captured flag afterwards. */
  datatype Step = Step(fired: bool, flag: bool)

  /** The listener that `MouseEnter` registers; `entered` is its captured flag. */
  function EnterTransition(entered: bool, hit: bool): (s: Step)
    ensures s.fired <==> hit && !entered
    ensures s.flag == hit
  {
    if hit && !entered then Step(true, true)
    else if !hit && entered then Step(false, false)
    else Step(false, entered)
  }

  /** The listener that `MouseLeave` registers; `left` is its captured flag. */
  function LeaveTransition(left: bool, hit: bool): (s: Step)
    ensures s.fired <==> !hit && left
    ensures s.flag == hit
  {
    if !hit && left then Step(true, false)
    else if hit && !left then Step(false, true)
    else Step(false, left)
  }

  datatype Handler = Enter | Leave

  function Transition(h: Handler, flag: bool, hit: bool): (s: Step)
  {
    match h
    case Enter => EnterTransition(flag, hit)
    case Leave => LeaveTransition(flag, hit)
  }

  /** The captured flag of listener `h` after the samples `hits`; both closures start at `false`. */
  function FlagAfter(h: Handler, hits: seq<bool>): (flag: bool)
  {
    if hits == [] then false else Transition(h, FlagAfter(h, Front(hits)), Last(hits)).flag
  }

  /** Whether listener `h` ran its callback on the last of the samples `hits`. */
  function FiredOnLast(h: Handler, hits: seq<bool>): (fired: bool)
    requires |hits| > 0
  {
    Transition(h, FlagAfter(h, Front(hits)), Last(hits)).fired
  }

  /** For every sample, whether listener `h` ran its callback on it. */
  function Firings(h: Handler, hits: seq<bool>): (fires: seq<bool>)
    ensures |fires| == |hits|
  {
    if hits == [] then [] else Firings(h, Front(hits)) + [FiredOnLast(h, hits)]
  }

  /** Both captured flags equal "the last sample was a hit". */
  lemma FlagIsLastHit(h: Handler, hits: seq<bool>)
    ensures FlagAfter(h, hits) == (|hits| > 0 && Last(hits))
  {
  }

  lemma {:induction false} FiringsFront(h: Handler, hits: seq<bool>, i: nat)
    requires i < |hits|
    ensures Firings(h, hits)[i] == FiredOnLast(h, hits[..i + 1])
  {
    if i < |hits| - 1 {
      FiringsFront(h, Front(hits), i);
      assert Front(hits)[..i + 1] == hits[..i + 1];
    } else {
      assert hits[..i + 1] == hits;
    }
  }

  /** `MouseEnter` runs its callback on sample i exactly when i is a hit that
      follows a miss or starts the sequence. */
  lemma {:induction false} EnterFiresAt(hits: seq<bool>, i: nat)
    requires i < |hits|
    ensures Firings(Enter, hits)[i] <==> hits[i] && (i == 0 || !hits[i - 1])
  {
    FiringsFront(Enter, hits, i);
    FlagIsLastHit(Enter, hits[..i]);
    assert Front(hits[..i + 1]) == hits[..i];
  }

  /** `MouseLeave` runs its callback on sample i exactly when i is a miss that
      follows a hit: the hit→miss edge, since `left` tracks hits exactly like `entered`. */
  lemma {:induction false} LeaveFiresAt(hits: seq<bool>, i: nat)
    requires i < |hits|
    ensures Firings(Leave, hits)[i] <==> !hits[i] && i > 0 && hits[i - 1]
  {
    FiringsFront(Leave, hits, i);
    FlagIsLastHit(Leave, hits[..i]);
    assert Front(hits[..i + 1]) == hits[..i];
  }

  lemma {:induction false} AtMostOneTrue(s: seq<bool>)
    requires forall k :: 0 < k < |s| ==> !s[k]
    ensures CountTrue(s) <= 1
    ensures CountTrue(s) == (if |s| > 0 && s[0] then 1 else 0)
  {
    if |s| > 1 {
      AtMostOneTrue(Front(s));
    }
  }

  /** Within a run of consecutive hits `hits[i..j]`, the enter callback runs at most
      once, and only on the run's first sample. */
  lemma EnterOncePerRun(hits: seq<bool>, i: nat, j: nat)
    requires i <= j <= |hits|
    requires forall k :: i <= k < j ==> hits[k]
    ensures forall k :: i < k < j ==> !Firings(Enter, hits)[k]
    ensures CountTrue(Firings(Enter, hits)[i..j]) <= 1
  {
    forall k | i < k < j
      ensures !Firings(Enter, hits)[k]
    {
      EnterFiresAt(hits, k);
    }
    AtMostOneTrue(Firings(Enter, hits)[i..j]);
  }

  /** `MouseLeave` never runs its callback before the first hit. */
  lemma LeaveNotBeforeFirstHit(hits: seq<bool>, i: nat)
    requires i <= |hits|
    requires forall k :: 0 <= k < i ==> !hits[k]
    ensures forall k :: 0 <= k < i ==> !Firings(Leave, hits)[k]
    ensures CountTrue(Firings(Leave, hits)[..i]) == 0
  {
    forall k | 0 <= k < i
      ensures !Firings(Leave, hits)[k]
    {
      LeaveFiresAt(hits, k);
    }
    AtMostOneTrue(Firings(Leave, hits)[..i]);
  }

  /** On any sample sequence, enter firings minus leave firings is 1 when the
      pointer is on the target and 0 otherwise. */
  lemma {:induction false} FiringBalance(hits: seq<bool>)
    ensures CountTrue(Firings(Enter, hits))
            == CountTrue(Firings(Leave, hits)) + (if FlagAfter(Enter, hits) then 1 else 0)
  {
    if hits != [] {
      FiringBalance(Front(hits));
      assert Front(Firings(Enter, hits)) == Firings(Enter, Front(hits));
      assert Front(Firings(Leave, hits)) == Firings(Leave, Front(hits));
    }
  }

  /** The sample script [miss, hit, hit, miss, hit]: enter runs on samples 1 and 4,
      leave on sample 3. */
  lemma PointerScript()
    ensures Firings(Enter, [false, true, true, false, true]) == [false, true, false, false, true]
    ensures Firings(Leave, [false, true, true, false, true]) == [false, false, false, true, false]
  {
    var hits := [false, true, true, false, true];
    forall i | 0 <= i < 5
      ensures Firings(Enter, hits)[i] == [false, true, false, false, true][i]
      ensures Firings(Leave, hits)[i] == [false, false, false, true, false][i]
    {
      EnterFiresAt(hits, i);
      LeaveFiresAt(hits, i);
    }
  }

  /** A `click` or a `touchstart`, with the result of its ray test. */
  datatype PressEvent = Click(hit: bool) | TouchStart(hit: bool)

  /** The `MouseDown` listeners keep no state: each press is judged by its own ray test. */
  function PressFirings(events: seq<PressEvent>): (fires: seq<bool>)
    ensures |fires| == |events|
    ensures forall i :: 0 <= i < |events| ==> (fires[i] <==> events[i].hit)
  {
    if events == [] then []
    else
      var fired := match events[|events| - 1]
        case Click(h) => h
        case TouchStart(h) => h;
      PressFirings(events[..|events| - 1]) + [fired]
  }

  /** The listener that `MouseEnter` registers on a target. */
  class EnterWatcher {
    var entered: bool
    ghost var Samples: seq<bool>

    ghost predicate Valid()
      reads this
    {
      entered == FlagAfter(Enter, Samples)
    }

    constructor ()
      ensures Valid() && Samples == [] && !entered
    {
      entered := false;
      Samples := [];
    }

    /** One `pointermove` event; `fired` says whether the callback ran. */
    method PointerMove(hit: bool) returns (fired: bool)
      requires Valid()
      modifies this
      ensures Valid() && Samples == old(Samples) + [hit]
      ensures fired == Firings(Enter, Samples)[|Samples| - 1]
      ensures fired <==> hit && !old(entered)
      ensures entered == hit
    {
      fired := false;
      if hit && !entered {
        fired := true;
        entered := true;
      } else if !hit && entered {
        entered := false;
      }
      Samples := Samples + [hit];
      assert Front(Samples) == old(Samples);
    }
  }

  /** The listener that `MouseLeave` registers on a target. */
  class LeaveWatcher {
    var left: bool
    ghost var Samples: seq<bool>

    ghost predicate Valid()
      reads this
    {
      left == FlagAfter(Leave, Samples)
    }

    constructor ()
      ensures Valid() && Samples == [] && !left
    {
      left := false;
      Samples := [];
    }

    /** One `pointermove` event; `fired` says whether the callback ran. */
    method PointerMove(hit: bool) returns (fired: bool)
      requires Valid()
      modifies this
      ensures Valid() && Samples == old(Samples) + [hit]
      ensures fired == Firings(Leave, Samples)[|Samples| - 1]
      ensures fired <==> !hit && old(left)
      ensures left == hit
    {
      fired := false;
      if !hit && left {
        fired := true;
        left := false;
      } else if hit && !left {
        left := true;
      }
      Samples := Samples + [hit];
      assert Front(Samples) == old(Samples);
    }
  }

  /** The inline `document.body.style.cursor`: empty on a page that never set it,
      "pointer" or "default" once a Link callback has run. */
  datatype Cursor = UnsetCursor | PointerCursor | DefaultCursor

  /** The value of a register that the enter callback sets to `onEnter` and the leave
      callback sets to `onLeave`, after the samples `hits`; on one event the enter
      listener runs first, as it is registered first. */
  function Written<T>(initial: T, onEnter: T, onLeave: T, hits: seq<bool>): (v: T)
  {
    if hits == [] then initial
    else
      var before := Written(initial, onEnter, onLeave, Front(hits));
      var afterEnter := if FiredOnLast(Enter, hits) then onEnter else before;
      if FiredOnLast(Leave, hits) then onLeave else afterEnter
  }

  /** Until the first hit neither callback has run, so the register keeps its initial value. */
  lemma {:induction false} WrittenBeforeFirstHit<T>(initial: T, onEnter: T, onLeave: T, hits: seq<bool>)
    requires forall k :: 0 <= k < |hits| ==> !hits[k]
    ensures Written(initial, onEnter, onLeave, hits) == initial
  {
    if hits != [] {
      WrittenBeforeFirstHit(initial, onEnter, onLeave, Front(hits));
      FlagIsLastHit(Enter, Front(hits));
      FlagIsLastHit(Leave, Front(hits));
    }
  }

  /** Once any sample has hit, the register holds `onEnter` exactly while the pointer
      is on the target, and `onLeave` otherwise. */
  lemma {:induction false} WrittenTracksHover<T>(initial: T, onEnter: T, onLeave: T, hits: seq<bool>)
    requires exists k :: 0 <= k < |hits| && hits[k]
    ensures Written(initial, onEnter, onLeave, hits) == if Last(hits) then onEnter else onLeave
  {
    var front := Front(hits);
    FlagIsLastHit(Enter, front);
    FlagIsLastHit(Leave, front);
    var k :| 0 <= k < |hits| && hits[k];
    if Last(hits) && |front| > 0 && Last(front) {
      assert front[|front| - 1];
      WrittenTracksHover(initial, onEnter, onLeave, front);
    } else if !Last(hits) && !(|front| > 0 && Last(front)) {
      assert front[k];
      WrittenTracksHover(initial, onEnter, onLeave, front);
    }
  }

  /** `Link(url, defaultColor, highlightColor)`: on enter the material takes
      `highlightColor` and the cursor becomes a pointer, on leave the material takes
      `defaultColor` and the cursor the default, and a press on the target opens `url`. */
  class Link {
    const url: string
    const defaultColor: int
    const highlightColor: int
    const enter: EnterWatcher
    const leave: LeaveWatcher
    ghost const initialColor: int
    ghost const initialCursor: Cursor

    var color: int
    var cursor: Cursor
    /** The URLs opened in a new context so far. */
    var openedUrls: seq<string>
    ghost var Samples: seq<bool>

    ghost predicate Valid()
      reads this, enter, leave
    {
      && enter.Valid() && leave.Valid()
      && enter.Samples == Samples && leave.Samples == Samples
      && color == Written(initialColor, highlightColor, defaultColor, Samples)
      && cursor == Written(initialCursor, PointerCursor, DefaultCursor, Samples)
    }

    /** Links a target whose material currently has colour `materialColor`. */
    constructor (url: string, defaultColor: int, highlightColor: int, materialColor: int, pageCursor: Cursor)
      ensures Valid() && fresh(enter) && fresh(leave)
      ensures this.url == url && this.defaultColor == defaultColor && this.highlightColor == highlightColor
      ensures Samples == [] && color == materialColor && cursor == pageCursor && openedUrls == []
    {
      this.url := url;
      this.defaultColor := defaultColor;
      this.highlightColor := highlightColor;
      initialColor := materialColor;
      initialCursor := pageCursor;
      color := materialColor;
      cursor := pageCursor;
      openedUrls := [];
      Samples := [];
      enter := new EnterWatcher();
      leave := new LeaveWatcher();
    }

    /** One `pointermove` event: the enter listener runs, then the leave listener. */
    method PointerMove(hit: bool)
      requires Valid()
      modifies this, enter, leave
      ensures Valid() && Samples == old(Samples) + [hit] && openedUrls == old(openedUrls)
      ensures (exists k :: 0 <= k < |Samples| && Samples[k]) ==>
                color == (if hit then highlightColor else defaultColor) &&
                cursor == (if hit then PointerCursor else DefaultCursor)
      ensures (forall k :: 0 <= k < |Samples| ==> !Samples[k]) ==>
                color == initialColor && cursor == initialCursor
    {
      var entered := enter.PointerMove(hit);
      if entered {
        color := highlightColor;
        cursor := PointerCursor;
      }
      var leftNow := leave.PointerMove(hit);
      if leftNow {
        color := defaultColor;
        cursor := DefaultCursor;
      }
      Samples := Samples + [hit];
      assert Front(Samples) == old(Samples);
      if exists k :: 0 <= k < |Samples| && Samples[k] {
        WrittenTracksHover(initialColor, highlightColor, defaultColor, Samples);
        WrittenTracksHover(initialCursor, PointerCursor, DefaultCursor, Samples);
      } else {
        WrittenBeforeFirstHit(initialColor, highlightColor, defaultColor, Samples);
        WrittenBeforeFirstHit(initialCursor, PointerCursor, DefaultCursor, Samples);
      }
    }

    /** One `click` or `touchstart` event: `url` is opened exactly when the ray hits. */
    method Press(e: PressEvent)
      requires Valid()
      modifies this
      ensures Valid() && Samples == old(Samples)
      ensures color == old(color) && cursor == old(cursor)
      ensures openedUrls == old(openedUrls) + (if e.hit then [url] else [])
    {
      match e {
        case Click(h) =>
          if h { openedUrls := openedUrls + [url]; }
        case TouchStart(h) =>
          if h { openedUrls := openedUrls + [url]; }
      }
    }
  }
}
