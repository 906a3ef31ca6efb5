/** Markdown-WorkFlowy.js: the page's raw Markdown is the text of every `.innerContentContainer`
    whose parent passes the style test, one line each; a button toggles `bmd-has-preview` on the
    `.pageContainer`, and while that class is set the preview box's viewer shows the raw text and
    is refreshed whenever a content node is added.

    The toastui viewer is reduced to the Markdown it was last given; how it renders that text is
    not modelled. */
module MarkdownPreview {
  import opened Dom

  const HasPreviewClass := "bmd-has-preview"
  const ContentClass := "innerContentContainer"
  const PageContainerClass := "pageContainer"
  const VisibilityWord := "visibility"

  /** An `.innerContentContainer` with the `style` attribute of its parent element (None when the
      attribute is absent, as `getAttribute` returns `null`). */
  datatype ContentNode = ContentNode(textContent: string, parentStyle: Option<string>)

  /** A `.bmd-preview-box` div, with the Markdown of the viewer stored on it (None before a viewer
      has been assigned, when `preview.viewer` is `undefined`). */
  datatype Box = Box(viewer: Option<string>)

  /** A node handed to a MutationObserver callback: an element with its classes, or a node
      without `tagName` (text, comment). */
  datatype Added = NonElement | Element(classList: seq<string>)

  /** `needle` occurs in `hay` starting at `k`. */
  predicate OccursAt(hay: string, needle: string, k: int) {
    0 <= k && k + |needle| <= |hay| && hay[k..k + |needle|] == needle
  }

  /** `hay.indexOf(needle, i)`: the first position from `i` on where `needle` occurs, or -1. */
  function IndexFrom(hay: string, needle: string, i: nat): (r: int)
    requires i <= |hay|
    ensures r == -1 || (i <= r && OccursAt(hay, needle, r))
    ensures r == -1 <==> forall k :: i <= k ==> !OccursAt(hay, needle, k)
    ensures r != -1 ==> forall k :: i <= k < r ==> !OccursAt(hay, needle, k)
    decreases |hay| - i
  {
    if i + |needle| > |hay| then -1
    else if hay[i..i + |needle|] == needle then i
    else IndexFrom(hay, needle, i + 1)
  }

  /** `hay.indexOf(needle)`. */
  function IndexOf(hay: string, needle: string): (r: int)
    ensures r == -1 <==> forall k :: !OccursAt(hay, needle, k)
    ensures r != -1 ==> OccursAt(hay, needle, r) && forall k :: 0 <= k < r ==> !OccursAt(hay, needle, k)
  {
    IndexFrom(hay, needle, 0)
  }

  /** The test in `get_raw_content`: the parent has no `style` attribute, or its style mentions
      `visibility` anywhere. */
  predicate Included(style: Option<string>) {
    style.None? || IndexOf(style.value, VisibilityWord) != -1
  }

  /** A node is collected exactly when its parent has no style or the style contains the word
      `visibility`. */
  lemma IncludedIff(style: Option<string>)
    ensures Included(style) <==> style.None? || exists k :: OccursAt(style.value, VisibilityWord, k)
  {
  }

  /** An empty `style=""` is a present attribute without the word, so its node is left out; a
      style that hides the parent by `visibility: hidden` still has its node collected; a style
      without the word is left out. */
  lemma IncludedExamples()
    ensures Included(None)
    ensures !Included(Some(""))
    ensures Included(Some("visibility: hidden"))
    ensures !Included(Some("color:red"))
  {
    assert OccursAt("visibility: hidden", VisibilityWord, 0);
  }

  /** The line one node contributes to the raw Markdown. */
  function Line(n: ContentNode): string {
    if Included(n.parentStyle) then n.textContent + "\n" else ""
  }

  /** What `get_raw_content` returns for the live collection `nodes`, built the way the loop
      builds it: from the first node to the last. */
  function RawContent(nodes: seq<ContentNode>): string {
    if nodes == [] then "" else RawContent(nodes[..|nodes| - 1]) + Line(nodes[|nodes| - 1])
  }

  /** The raw text of two runs of nodes is the raw text of the first followed by that of the
      second: nothing is reordered, dropped or shared between nodes. */
  lemma {:induction false} RawContentAppend(a: seq<ContentNode>, b: seq<ContentNode>)
    ensures RawContent(a + b) == RawContent(a) + RawContent(b)
    decreases |b|
  {
    if b == [] {
      assert a + b == a;
    } else {
      var c := b[..|b| - 1];
      var last := b[|b| - 1];
      assert (a + b)[..|a + b| - 1] == a + c;
      assert (a + b)[|a + b| - 1] == last;
      assert RawContent(a + b) == RawContent(a + c) + Line(last);
      assert RawContent(b) == RawContent(c) + Line(last);
      RawContentAppend(a, c);
    }
  }

  /** The raw text is empty exactly when no node passes the style test. */
  lemma {:induction false} RawContentEmptyIff(nodes: seq<ContentNode>)
    ensures RawContent(nodes) == "" <==> forall i :: 0 <= i < |nodes| ==> !Included(nodes[i].parentStyle)
  {
    if nodes != [] {
      var init := nodes[..|nodes| - 1];
      RawContentEmptyIff(init);
      assert forall i :: 0 <= i < |init| ==> init[i] == nodes[i];
    }
  }

  /** A non-empty raw text ends with a line break. */
  lemma {:induction false} RawContentEndsWithNewline(nodes: seq<ContentNode>)
    ensures RawContent(nodes) != "" ==> RawContent(nodes)[|RawContent(nodes)| - 1] == '\n'
  {
    if nodes != [] {
      RawContentEndsWithNewline(nodes[..|nodes| - 1]);
    }
  }

  /** The raw text of one node: its text and a line break when its parent passes the style
      test, nothing otherwise. */
  lemma RawContentSingle(n: ContentNode)
    ensures RawContent([n]) == if Included(n.parentStyle) then n.textContent + "\n" else ""
  {
    assert [n][..0] == [];
  }

  /** `update_preview`: without a `.pageContainer` (`pageLoaded` false) reading its
      `classList` throws; nothing happens while `bmd-has-preview` is off or there is no box;
      otherwise the first box's viewer gets the current raw text, and a box without a viewer
      throws at `viewer.setMarkdown`. */
  function UpdatePreviewSpec(pageLoaded: bool, pageClasses: seq<string>, boxes: seq<Box>, nodes: seq<ContentNode>): (r: (seq<Box>, Outcome))
    ensures !pageLoaded ==> r == (boxes, TypeError)
    ensures pageLoaded && (HasPreviewClass !in pageClasses || boxes == []) ==> r == (boxes, Done)
    ensures r.1 == TypeError <==>
      !pageLoaded || (HasPreviewClass in pageClasses && boxes != [] && boxes[0].viewer.None?)
    ensures r.1 == TypeError ==> r.0 == boxes
    ensures |r.0| == |boxes| && (boxes != [] ==> r.0[1..] == boxes[1..])
    ensures pageLoaded && HasPreviewClass in pageClasses && r.1 == Done && boxes != [] ==>
      r.0[0] == Box(Some(RawContent(nodes)))
  {
    if !pageLoaded then (boxes, TypeError)
    else if HasPreviewClass !in pageClasses then (boxes, Done)
    else if boxes == [] then (boxes, Done)
    else if boxes[0].viewer.None? then (boxes, TypeError)
    else (boxes[0 := Box(Some(RawContent(nodes)))], Done)
  }

  /** A second `update_preview` on the same page does what the first did and no more. */
  lemma UpdatePreviewIdempotent(pageLoaded: bool, pageClasses: seq<string>, boxes: seq<Box>, nodes: seq<ContentNode>)
    ensures var r := UpdatePreviewSpec(pageLoaded, pageClasses, boxes, nodes);
      UpdatePreviewSpec(pageLoaded, pageClasses, r.0, nodes) == r
  {
    var r := UpdatePreviewSpec(pageLoaded, pageClasses, boxes, nodes);
    if pageLoaded && HasPreviewClass in pageClasses && boxes != [] && r.1 == Done {
      assert r.0[0 := Box(Some(RawContent(nodes)))] == r.0;
    }
  }

  /** The click listener of the preview button: toggle `bmd-has-preview`, and when it ends up
      set, `show_preview_content` gives the first box a fresh viewer holding the raw text. */
  function ClickSpec(pageClasses: seq<string>, boxes: seq<Box>, nodes: seq<ContentNode>): (r: (seq<string>, seq<Box>))
    requires boxes != []
    ensures HasPreviewClass in r.0 <==> HasPreviewClass !in pageClasses
    ensures forall x :: x != HasPreviewClass ==> (x in r.0 <==> x in pageClasses)
    ensures HasPreviewClass in r.0 ==> r.1 == boxes[0 := Box(Some(RawContent(nodes)))]
    ensures HasPreviewClass !in r.0 ==> r.1 == boxes
  {
    var cl := Toggle(pageClasses, HasPreviewClass);
    if HasPreviewClass in cl then (cl, boxes[0 := Box(Some(RawContent(nodes)))]) else (cl, boxes)
  }

  /** While the preview is open the first box has a viewer, so `update_preview` cannot throw. */
  predicate ViewerReady(pageClasses: seq<string>, boxes: seq<Box>) {
    HasPreviewClass in pageClasses ==> boxes != [] && boxes[0].viewer.Some?
  }

  /** Every click leaves the page ready: opening creates the viewer, closing needs none. */
  lemma ClickMakesViewerReady(pageClasses: seq<string>, boxes: seq<Box>, nodes: seq<ContentNode>)
    requires boxes != []
    ensures var (cl, bs) := ClickSpec(pageClasses, boxes, nodes); ViewerReady(cl, bs)
  {
  }

  /** On a loaded, ready page `update_preview` never throws, keeps the page ready, and (while
      open) leaves the viewer holding exactly the current raw text. */
  lemma UpdatePreviewOnReadyPage(pageClasses: seq<string>, boxes: seq<Box>, nodes: seq<ContentNode>)
    requires ViewerReady(pageClasses, boxes)
    ensures var r := UpdatePreviewSpec(true, pageClasses, boxes, nodes);
      && r.1 == Done
      && ViewerReady(pageClasses, r.0)
      && (HasPreviewClass in pageClasses ==> r.0[0].viewer == Some(RawContent(nodes)))
  {
  }

  /** Two clicks give back the same class set, and the very same class list when the preview
      started closed; the viewer is then the one the first click created. */
  lemma ClickTwice(pageClasses: seq<string>, boxes: seq<Box>, nodes: seq<ContentNode>)
    requires boxes != []
    ensures var (cl1, bs1) := ClickSpec(pageClasses, boxes, nodes);
      var (cl2, bs2) := ClickSpec(cl1, bs1, nodes);
      && (forall x :: x in cl2 <==> x in pageClasses)
      && (HasPreviewClass !in pageClasses ==> cl2 == pageClasses && bs2 == bs1 && bs2[0].viewer == Some(RawContent(nodes)))
  {
    ToggleTwice(pageClasses, HasPreviewClass);
  }

  /** How many nodes of one observer batch are elements of class `c`. */
  function CountWithClass(batch: seq<Added>, c: string): (n: nat)
    ensures n <= |batch|
    ensures n == 0 <==> forall i :: 0 <= i < |batch| ==> !(batch[i].Element? && c in batch[i].classList)
  {
    if batch == [] then 0
    else
      var last := batch[|batch| - 1];
      var init := batch[..|batch| - 1];
      assert forall i :: 0 <= i < |init| ==> init[i] == batch[i];
      CountWithClass(init, c) + (if last.Element? && c in last.classList then 1 else 0)
  }

  /** `show_preview_button`: with no `.page.active` the call throws before inserting anything;
      otherwise a new box without viewer goes right after the active page (so before the boxes
      of earlier calls) together with its button. */
  function ShowPreviewButtonSpec(activePage: bool, boxes: seq<Box>, buttons: nat): (r: (seq<Box>, nat, Outcome))
    ensures r.2 == TypeError <==> !activePage
    ensures !activePage ==> r.0 == boxes && r.1 == buttons
    ensures activePage ==> |r.0| == |boxes| + 1 && r.0[0].viewer.None? && r.0[1..] == boxes && r.1 == buttons + 1
  {
    if !activePage then (boxes, buttons, TypeError) else ([Box(None)] + boxes, buttons + 1, Done)
  }

  /** `n` fresh boxes, as `n` calls of `show_preview_button` leave them. */
  function FreshBoxes(n: nat): (r: seq<Box>)
    ensures |r| == n && forall i :: 0 <= i < n ==> r[i] == Box(None)
  {
    if n == 0 then [] else [Box(None)] + FreshBoxes(n - 1)
  }

  /** The part of the page the script reads and writes. */
  class Page {
    /** `getElementsByClassName('innerContentContainer')`, in document order. */
    var nodes: seq<ContentNode>
    /** Whether `document.querySelector('.pageContainer')` finds an element. */
    var pageLoaded: bool
    /** The class list of the `.pageContainer`. */
    var pageClasses: seq<string>
    /** Whether `document.querySelector('.page.active')` finds an element. */
    var activePage: bool
    /** The `.bmd-preview-box` elements in document order; `querySelector` finds the first. */
    var boxes: seq<Box>
    /** The preview buttons inserted so far. */
    var buttons: nat

    /** `get_raw_content()`: the loop over the live collection. It reads the page and changes
        nothing. */
    method GetRawContent() returns (raw: string)
      ensures raw == RawContent(nodes)
    {
      raw := "";
      var i := 0;
      while i < |nodes|
        invariant 0 <= i <= |nodes|
        invariant raw == RawContent(nodes[..i])
      {
        var node := nodes[i];
        if node.parentStyle.None? || IndexOf(node.parentStyle.value, VisibilityWord) != -1 {
          raw := raw + node.textContent + "\n";
        }
        assert nodes[..i + 1][..i] == nodes[..i];
        i := i + 1;
      }
      assert nodes[..i] == nodes;
    }

    /** `update_preview()`. */
    method UpdatePreview() returns (outcome: Outcome)
      modifies this
      ensures (boxes, outcome) == UpdatePreviewSpec(old(pageLoaded), old(pageClasses), old(boxes), old(nodes))
      ensures nodes == old(nodes) && pageClasses == old(pageClasses) && pageLoaded == old(pageLoaded)
      ensures activePage == old(activePage) && buttons == old(buttons)
    {
      if !pageLoaded {
        return TypeError;
      }
      if HasPreviewClass !in pageClasses {
        return Done;
      }
      if boxes == [] {
        return Done;
      }
      var preview := boxes[0];
      var raw := GetRawContent();
      if preview.viewer.None? {
        return TypeError;
      }
      boxes := boxes[0 := preview.(viewer := Some(raw))];
      return Done;
    }

    /** `show_preview_content()`: a new viewer on the first box, created with the raw text. */
    method ShowPreviewContent()
      requires boxes != []
      modifies this
      ensures boxes == old(boxes)[0 := Box(Some(RawContent(old(nodes))))]
      ensures nodes == old(nodes) && pageClasses == old(pageClasses) && pageLoaded == old(pageLoaded)
      ensures activePage == old(activePage) && buttons == old(buttons)
    {
      var raw := GetRawContent();
      boxes := boxes[0 := Box(Some(raw))];
    }

    /** The click listener bound by `show_preview_button`; a button exists only with its box.
        Without a `.pageContainer` the toggle throws and nothing changes. */
    method Click() returns (outcome: Outcome)
      requires boxes != []
      modifies this
      ensures outcome == TypeError <==> !old(pageLoaded)
      ensures outcome == TypeError ==> pageClasses == old(pageClasses) && boxes == old(boxes)
      ensures outcome == Done ==> (pageClasses, boxes) == ClickSpec(old(pageClasses), old(boxes), old(nodes))
      ensures nodes == old(nodes) && pageLoaded == old(pageLoaded)
      ensures activePage == old(activePage) && buttons == old(buttons)
    {
      if !pageLoaded {
        return TypeError;
      }
      outcome := Done;
      pageClasses := Toggle(pageClasses, HasPreviewClass);
      if HasPreviewClass in pageClasses {
        ShowPreviewContent();
      }
    }

    /** `show_preview_button()`. */
    method ShowPreviewButton() returns (outcome: Outcome)
      modifies this
      ensures (boxes, buttons, outcome) == ShowPreviewButtonSpec(old(activePage), old(boxes), old(buttons))
      ensures nodes == old(nodes) && pageClasses == old(pageClasses) && pageLoaded == old(pageLoaded)
      ensures activePage == old(activePage)
    {
      if !activePage {
        return TypeError;
      }
      buttons := buttons + 1;
      boxes := [Box(None)] + boxes;
      return Done;
    }

    /** The callback of `watch_page` on one batch of added nodes: `update_preview` once per
        added element of class `innerContentContainer`, skipping nodes that are not elements;
        a throw ends the callback. `calls` counts the calls made, the throwing one included. */
    method OnContentAdded(batch: seq<Added>) returns (calls: nat, outcome: Outcome)
      modifies this
      ensures nodes == old(nodes) && pageClasses == old(pageClasses) && pageLoaded == old(pageLoaded)
      ensures activePage == old(activePage) && buttons == old(buttons)
      ensures CountWithClass(batch, ContentClass) == 0 ==> calls == 0 && outcome == Done && boxes == old(boxes)
      ensures CountWithClass(batch, ContentClass) > 0 ==>
        && (boxes, outcome) == UpdatePreviewSpec(old(pageLoaded), old(pageClasses), old(boxes), old(nodes))
        && calls == (if outcome == Done then CountWithClass(batch, ContentClass) else 1)
    {
      calls := 0;
      outcome := Done;
      var i := 0;
      while i < |batch|
        invariant 0 <= i <= |batch|
        invariant nodes == old(nodes) && pageClasses == old(pageClasses) && pageLoaded == old(pageLoaded)
        invariant activePage == old(activePage) && buttons == old(buttons)
        invariant outcome == Done
        invariant calls == CountWithClass(batch[..i], ContentClass)
        invariant calls == 0 ==> boxes == old(boxes)
        invariant calls > 0 ==>
          (boxes, Done) == UpdatePreviewSpec(old(pageLoaded), old(pageClasses), old(boxes), old(nodes))
      {
        var node := batch[i];
        assert batch[..i + 1][..i] == batch[..i];
        if node.Element? && ContentClass in node.classList {
          UpdatePreviewIdempotent(old(pageLoaded), old(pageClasses), old(boxes), old(nodes));
          calls := calls + 1;
          outcome := UpdatePreview();
          if outcome == TypeError {
            CountWithClassPrefix(batch, i + 1, ContentClass);
            return;
          }
        }
        i := i + 1;
      }
      assert batch[..i] == batch;
    }

    /** The callback of `wait_for_page_load` on one batch: `show_preview_button` once per added
        element of class `pageContainer`, skipping nodes that are not elements; a throw ends the
        callback, and without an active page the first call throws. */
    method OnPageAdded(batch: seq<Added>) returns (outcome: Outcome)
      modifies this
      ensures nodes == old(nodes) && pageClasses == old(pageClasses) && pageLoaded == old(pageLoaded)
      ensures activePage == old(activePage)
      ensures var n := CountWithClass(batch, PageContainerClass);
        && (outcome == TypeError <==> n > 0 && !activePage)
        && (outcome == TypeError ==> boxes == old(boxes) && buttons == old(buttons))
        && (outcome == Done ==> boxes == FreshBoxes(n) + old(boxes) && buttons == old(buttons) + n)
    {
      outcome := Done;
      var i := 0;
      while i < |batch|
        invariant 0 <= i <= |batch|
        invariant nodes == old(nodes) && pageClasses == old(pageClasses) && pageLoaded == old(pageLoaded)
        invariant activePage == old(activePage)
        invariant outcome == Done
        invariant var n := CountWithClass(batch[..i], PageContainerClass);
          boxes == FreshBoxes(n) + old(boxes) && buttons == old(buttons) + n
        invariant !activePage ==> CountWithClass(batch[..i], PageContainerClass) == 0
      {
        var node := batch[i];
        assert batch[..i + 1][..i] == batch[..i];
        if node.Element? && PageContainerClass in node.classList {
          ghost var n := CountWithClass(batch[..i], PageContainerClass);
          outcome := ShowPreviewButton();
          if outcome == TypeError {
            CountWithClassPrefix(batch, i + 1, PageContainerClass);
            return;
          }
          assert [Box(None)] + FreshBoxes(n) == FreshBoxes(n + 1);
        }
        i := i + 1;
      }
      assert batch[..i] == batch;
    }
  }

  /** A batch holds at least as many elements of a class as any of its prefixes. */
  lemma {:induction false} CountWithClassPrefix(batch: seq<Added>, i: nat, c: string)
    requires i <= |batch|
    ensures CountWithClass(batch[..i], c) <= CountWithClass(batch, c)
    decreases |batch| - i
  {
    if i < |batch| {
      CountWithClassPrefix(batch, i + 1, c);
      assert batch[..i + 1][..i] == batch[..i];
    } else {
      assert batch[..i] == batch;
    }
  }
}
