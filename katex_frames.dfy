/** KaTeXFlowy.js: every added `.innerContentContainer` whose text holds a `$` pair gets the class
    `has-latex` and an iframe right after it whose document is the node's text; a click inside
    that iframe marks the node before it `latax-focused`, after clearing that class everywhere.

    The document is one sequence of nodes in document order: `previousSibling` is the position
    before, `insertAdjacentElement('afterend', …)` inserts at the position after, and
    `getElementsByClassName` walks the same sequence. */
module KatexFrames {
  import opened Dom
  import opened Delimiters

  /** A node of the document: an element with its tag, class list, text and (for an iframe)
      `srcdoc`, or a node without `classList` (text, comment). */
  datatype Node = NonElement | Element(tagName: string, classList: seq<string>, textContent: string, srcdoc: Doc)

  /** The `srcdoc` of an element: none, or the document `insert_iframe` writes around a body
      text. `Html` spells it out as the string the attribute holds; `BodyTextOfSrcDoc` shows the
      body can be read back from that string, so keeping the body loses nothing. */
  datatype Doc = NoDoc | Wrapped(body: string)

  /** The marker class, spelled as the script spells it. */
  const FocusedClass := "latax-focused"
  const HasLatexClass := "has-latex"
  const ContentClass := "innerContentContainer"

  const FrameHead := "<!DOCTYPE html><html>" + "<head><link type=\"text/css\" rel=\"Stylesheet\" href=\"https://cdn.jsdelivr.net/npm/katex@0.15.2/dist/katex.min.css\" /></head>"
  const BodyOpen := "<body style=\"margin:0\">"
  const BodyClose := "</body></html>"

  /** `should_render(node)`: the node is a content node and its text holds `$…$`. */
  predicate ShouldRender(n: Node)
    requires n.Element?
  {
    ContentClass in n.classList && HasLatex(n.textContent)
  }

  /** A node is rendered exactly when it is a content node whose text holds two `$` with at
      least one character between them. */
  lemma ShouldRenderIff(n: Node)
    requires n.Element?
    ensures ShouldRender(n) <==>
      ContentClass in n.classList &&
      exists i, j :: 0 <= i && i + 2 <= j < |n.textContent| && n.textContent[i] == '$' && n.textContent[j] == '$'
  {
    HasLatexIff(n.textContent);
  }

  /** The document the iframe shows: a fixed head that loads the KaTeX stylesheet, then the node's
      text as the body. */
  function SrcDoc(text: string): string {
    FrameHead + BodyOpen + text + BodyClose
  }

  /** The string value of a `srcdoc` attribute. */
  function Html(d: Doc): string {
    match d
    case NoDoc => ""
    case Wrapped(body) => SrcDoc(body)
  }

  /** Reads the body text back out of an iframe document of the shape `SrcDoc` writes. */
  function BodyText(html: string): (r: Option<string>)
    ensures r.Some? ==> |html| == |FrameHead| + |BodyOpen| + |r.value| + |BodyClose|
  {
    var pre := |FrameHead| + |BodyOpen|;
    if |html| >= pre + |BodyClose| && html[..pre] == FrameHead + BodyOpen && html[|html| - |BodyClose|..] == BodyClose
    then Some(html[pre..|html| - |BodyClose|])
    else None
  }

  /** The iframe document carries the node's text verbatim, so the text can be read back. */
  lemma BodyTextOfSrcDoc(text: string)
    ensures BodyText(SrcDoc(text)) == Some(text)
  {
    var html := SrcDoc(text);
    var pre := |FrameHead| + |BodyOpen|;
    assert html[..pre] == FrameHead + BodyOpen;
    assert html[|html| - |BodyClose|..] == BodyClose;
    assert html[pre..|html| - |BodyClose|] == text;
  }

  /** Different texts give different iframe documents. */
  lemma SrcDocInjective(a: string, b: string)
    requires SrcDoc(a) == SrcDoc(b)
    ensures a == b
  {
    BodyTextOfSrcDoc(a);
    BodyTextOfSrcDoc(b);
  }

  /** The iframe `insert_iframe` creates: no classes, and the node's text wrapped as its document. */
  function Frame(text: string): (f: Node)
    ensures IsFrame(f) && f.classList == [] && f.srcdoc == Wrapped(text)
  {
    Element("iframe", [], "", Wrapped(text))
  }

  /** The iframe's document is exactly `SrcDoc(text)`, and its body reads back as `text`. */
  lemma FrameShowsText(text: string)
    ensures Html(Frame(text).srcdoc) == SrcDoc(text)
    ensures BodyText(Html(Frame(text).srcdoc)) == Some(text)
  {
    BodyTextOfSrcDoc(text);
  }

  predicate IsFrame(n: Node) {
    n.Element? && n.tagName == "iframe"
  }

  function FrameCount(s: seq<Node>): nat {
    if s == [] then 0 else (if IsFrame(s[0]) then 1 else 0) + FrameCount(s[1..])
  }

  lemma {:induction false} FrameCountConcat(a: seq<Node>, b: seq<Node>)
    ensures FrameCount(a + b) == FrameCount(a) + FrameCount(b)
  {
    if a == [] {
      assert a + b == b;
    } else {
      assert (a + b)[1..] == a[1..] + b;
      FrameCountConcat(a[1..], b);
    }
  }

  /** The node at `k` marked `has-latex`, with the iframe `f` right after it. */
  function Spliced(s: seq<Node>, k: nat, f: Node): (r: seq<Node>)
    requires k < |s| && s[k].Element?
    ensures |r| == |s| + 1 && r[..k] == s[..k] && r[k + 2..] == s[k + 1..]
    ensures r[k] == s[k].(classList := Add(s[k].classList, HasLatexClass)) && r[k + 1] == f
  {
    s[..k] + [s[k].(classList := Add(s[k].classList, HasLatexClass)), f] + s[k + 1..]
  }

  /** What `insert_iframe(node)` does to the document, for the node at position `k`. */
  function InsertIframeSpec(s: seq<Node>, k: nat): (r: seq<Node>)
    requires k < |s| && s[k].Element?
    ensures !ShouldRender(s[k]) ==> r == s
    ensures ShouldRender(s[k]) ==>
      && |r| == |s| + 1
      && r[..k] == s[..k]
      && r[k] == s[k].(classList := Add(s[k].classList, HasLatexClass))
      && r[k + 1] == Frame(s[k].textContent)
      && r[k + 2..] == s[k + 1..]
  {
    if ShouldRender(s[k]) then Spliced(s, k, Frame(s[k].textContent)) else s
  }

  /** Splicing in an iframe adds exactly one frame and removes none. */
  lemma SplicedAddsOneFrame(s: seq<Node>, k: nat, f: Node)
    requires k < |s| && s[k].Element? && IsFrame(f)
    ensures FrameCount(Spliced(s, k, f)) == FrameCount(s) + 1
  {
    FrameCountSplit(s, k);
    FrameCountSplice(s[..k], s[k].(classList := Add(s[k].classList, HasLatexClass)), f, s[k + 1..]);
  }

  /** `insert_iframe` adds one iframe when it renders and none otherwise. */
  lemma InsertIframeAddsOneFrame(s: seq<Node>, k: nat)
    requires k < |s| && s[k].Element?
    ensures FrameCount(InsertIframeSpec(s, k)) == FrameCount(s) + (if ShouldRender(s[k]) then 1 else 0)
  {
    if ShouldRender(s[k]) {
      var f := Frame(s[k].textContent);
      SplicedAddsOneFrame(s, k, f);
      assert InsertIframeSpec(s, k) == Spliced(s, k, f);
    }
  }

  lemma FrameCountSplice(pre: seq<Node>, a: Node, f: Node, post: seq<Node>)
    ensures FrameCount(pre + [a, f] + post) == FrameCount(pre) + (if IsFrame(a) then 1 else 0) + (if IsFrame(f) then 1 else 0) + FrameCount(post)
  {
    FrameCountConcat(pre + [a, f], post);
    FrameCountConcat(pre, [a, f]);
    assert [a, f][1..] == [f];
    assert [f][1..] == [];
    assert FrameCount([f]) == (if IsFrame(f) then 1 else 0) + FrameCount([]);
    assert pre + [a, f] + post == (pre + [a, f]) + post;
  }

  lemma FrameCountSplit(t: seq<Node>, k: nat)
    requires k < |t|
    ensures FrameCount(t) == FrameCount(t[..k]) + (if IsFrame(t[k]) then 1 else 0) + FrameCount(t[k + 1..])
  {
    FrameCountConcat(t[..k], [t[k]] + t[k + 1..]);
    FrameCountConcat([t[k]], t[k + 1..]);
    assert t == t[..k] + ([t[k]] + t[k + 1..]);
    assert ([t[k]] + t[k + 1..])[1..] == t[k + 1..];
  }

  /** Nothing removes an earlier iframe: running `insert_iframe` twice on the same node leaves two
      iframes directly after it, the newer one first. */
  lemma RepeatedInsertStacksFrames(s: seq<Node>, k: nat)
    requires k < |s| && s[k].Element? && ShouldRender(s[k])
    ensures var r := InsertIframeSpec(InsertIframeSpec(s, k), k);
      && |r| == |s| + 2
      && IsFrame(r[k + 1]) && IsFrame(r[k + 2])
      && FrameCount(r) == FrameCount(s) + 2
  {
    var r1 := InsertIframeSpec(s, k);
    InsertIframeAddsOneFrame(s, k);
    assert ShouldRender(r1[k]);
    InsertIframeAddsOneFrame(r1, k);
  }

  predicate IsFocused(n: Node) {
    n.Element? && FocusedClass in n.classList
  }

  /** The length of the live collection `getElementsByClassName('latax-focused')`. */
  function FocusCount(s: seq<Node>): nat {
    if s == [] then 0 else (if IsFocused(s[0]) then 1 else 0) + FocusCount(s[1..])
  }

  lemma {:induction false} FocusCountZero(s: seq<Node>)
    ensures FocusCount(s) == 0 <==> forall i :: 0 <= i < |s| ==> !IsFocused(s[i])
  {
    if s != [] {
      FocusCountZero(s[1..]);
      assert forall i :: 1 <= i < |s| ==> s[i] == s[1..][i - 1];
    }
  }

  /** `old_focus[0]`: the first element of the live collection, in document order. */
  function FirstFocused(s: seq<Node>): (i: nat)
    requires FocusCount(s) > 0
    ensures i < |s| && IsFocused(s[i])
    ensures forall j :: 0 <= j < i ==> !IsFocused(s[j])
  {
    if IsFocused(s[0]) then 0
    else
      var i := FirstFocused(s[1..]) + 1;
      assert forall j :: 1 <= j < i ==> s[j] == s[1..][j - 1];
      i
  }

  /** `classList.remove('latax-focused')` on one node. */
  function Unfocus(n: Node): (m: Node)
    ensures !IsFocused(m)
    ensures n.Element? <==> m.Element?
    ensures n.Element? ==> m.tagName == n.tagName && m.textContent == n.textContent && m.srcdoc == n.srcdoc
    ensures n.Element? ==> forall x :: x != FocusedClass ==> (x in m.classList <==> x in n.classList)
    ensures !IsFocused(n) ==> m == n
  {
    if n.Element? then n.(classList := Remove(n.classList, FocusedClass)) else n
  }

  /** The document with `latax-focused` taken off every element. */
  function Unfocused(s: seq<Node>): seq<Node> {
    seq(|s|, i requires 0 <= i < |s| => Unfocus(s[i]))
  }

  /** Clearing the focus leaves no focused element, and clearing it where it is already clear
      changes nothing. */
  lemma UnfocusedClearsAll(s: seq<Node>)
    ensures FocusCount(Unfocused(s)) == 0
    ensures FocusCount(s) == 0 ==> Unfocused(s) == s
  {
    FocusCountZero(Unfocused(s));
    FocusCountZero(s);
  }

  lemma {:induction false} FocusCountUpdate(s: seq<Node>, i: nat, n: Node)
    requires i < |s|
    ensures FocusCount(s[i := n]) + (if IsFocused(s[i]) then 1 else 0) == FocusCount(s) + (if IsFocused(n) then 1 else 0)
  {
    if i > 0 {
      assert s[i := n][1..] == s[1..][i - 1 := n];
      FocusCountUpdate(s[1..], i - 1, n);
    }
  }

  /** One pass of the loop in `remove_old_focus`: the collection shrinks by one, and the document
      it is heading for stays the same. */
  lemma UnfocusFirstStep(s: seq<Node>, i: nat)
    requires i < |s| && IsFocused(s[i])
    ensures FocusCount(s[i := Unfocus(s[i])]) == FocusCount(s) - 1
    ensures Unfocused(s[i := Unfocus(s[i])]) == Unfocused(s)
  {
    FocusCountUpdate(s, i, Unfocus(s[i]));
    var t := s[i := Unfocus(s[i])];
    assert Unfocus(Unfocus(s[i])) == Unfocus(s[i]);
    assert forall j :: 0 <= j < |s| ==> Unfocused(t)[j] == Unfocused(s)[j];
  }

  /** What a click inside the iframe at position `f` does: clear the focus everywhere, then
      focus `iframe.previousSibling`; the missing sibling (`f == 0`) and a sibling without
      `classList` throw. */
  function ClickFrameSpec(s: seq<Node>, f: nat): (r: (seq<Node>, Outcome))
    requires f < |s|
    ensures |r.0| == |s|
    ensures r.1 == TypeError <==> f == 0 || s[f - 1].NonElement?
  {
    var u := Unfocused(s);
    if f == 0 || u[f - 1].NonElement? then (u, TypeError)
    else (u[f - 1 := u[f - 1].(classList := Add(u[f - 1].classList, FocusedClass))], Done)
  }

  /** After a click in an iframe exactly one element is focused, the one right before the
      iframe; when that sibling is missing, none is. */
  lemma ClickFocusesExactlyOne(s: seq<Node>, f: nat)
    requires f < |s|
    ensures var (r, outcome) := ClickFrameSpec(s, f);
      && (outcome == Done ==> (forall j :: 0 <= j < |r| ==> (IsFocused(r[j]) <==> j == f - 1)) && FocusCount(r) == 1)
      && (outcome == TypeError ==> FocusCount(r) == 0)
  {
    var u := Unfocused(s);
    UnfocusedClearsAll(s);
    FocusCountZero(u);
    if f > 0 && u[f - 1].Element? {
      FocusCountUpdate(u, f - 1, u[f - 1].(classList := Add(u[f - 1].classList, FocusedClass)));
    }
  }

  /** The page as KaTeXFlowy.js sees it. */
  class Page {
    var children: seq<Node>

    /** `insert_iframe(node)` for the element at position `k`. */
    method InsertIframe(k: nat)
      requires k < |children| && children[k].Element?
      modifies this
      ensures children == InsertIframeSpec(old(children), k)
    {
      if !ShouldRender(children[k]) {
        return;
      }
      var node := children[k];
      children := children[k := node.(classList := Add(node.classList, HasLatexClass))];
      var html := "<!DOCTYPE html><html>";
      html := html + "<head><link type=\"text/css\" rel=\"Stylesheet\" href=\"https://cdn.jsdelivr.net/npm/katex@0.15.2/dist/katex.min.css\" /></head>";
      html := html + "<body style=\"margin:0\">" + node.textContent + "</body></html>";
      assert html == SrcDoc(node.textContent);
      var result := Element("iframe", [], "", Wrapped(node.textContent));
      assert Html(result.srcdoc) == html;
      children := children[..k + 1] + [result] + children[k + 1..];
    }

    /** `remove_old_focus()`: while the live collection is not empty, remove the class from its
        first element. */
    method RemoveOldFocus()
      modifies this
      ensures children == Unfocused(old(children))
      ensures FocusCount(children) == 0
    {
      while FocusCount(children) > 0
        invariant Unfocused(children) == Unfocused(old(children))
        decreases FocusCount(children)
      {
        var i := FirstFocused(children);
        UnfocusFirstStep(children, i);
        children := children[i := Unfocus(children[i])];
      }
      UnfocusedClearsAll(children);
    }

    /** The click listener on the body of the iframe at position `f`. */
    method ClickFrame(f: nat) returns (outcome: Outcome)
      requires f < |children| && IsFrame(children[f])
      modifies this
      ensures (children, outcome) == ClickFrameSpec(old(children), f)
    {
      RemoveOldFocus();
      if f == 0 || children[f - 1].NonElement? {
        return TypeError;
      }
      var prev := children[f - 1];
      children := children[f - 1 := prev.(classList := Add(prev.classList, FocusedClass))];
      return Done;
    }
  }
}
