/** `handle_node` of KaTeXFlowy-with-AsciiMath.js: for each `.innerContentContainer` node, drop
    the `rendered-latex` container that follows its parent, then, when the node's text holds
    LaTeX or AsciiMath, mark the parent `has-latex` and put a fresh container right after it.

    The DOM around one parent is its sibling list: `nextSibling` is the next position and
    `insertAdjacentElement('afterend', …)` inserts there. */
module KatexAscii {
  import opened Dom
  import opened Delimiters

  /** A node in the parent's sibling list: an element with its class list and markup, or a node
      that has no `classList` (text, comment). */
  datatype Sibling = NonElement | Element(classList: seq<string>, innerHTML: string)

  /** The `.innerContentContainer` element handed to `handle_node`; `parent` is the position of
      its parent element in the sibling list, or None for a node without a parent. */
  datatype ContentNode = ContentNode(textContent: string, innerHTML: string, parent: Option<nat>)

  /** The state `handle_node` leaves behind and how it ended. */
  datatype Step = Step(siblings: seq<Sibling>, outcome: Outcome)

  const RenderedLatex := "rendered-latex"
  const HasLatexClass := "has-latex"

  predicate IsContainer(n: Sibling) {
    n.Element? && RenderedLatex in n.classList
  }

  /** `parent.classList[1]` as `classList.add` receives it: a missing entry is `undefined`, which
      becomes the token "undefined". */
  function SecondClass(cl: seq<string>): string {
    if |cl| > 1 then cl[1] else "undefined"
  }

  /** Position `p` holds an element, as `parentElement` always is. */
  predicate WellPlaced(sibs: seq<Sibling>, p: nat) {
    p < |sibs| && sibs[p].Element?
  }

  /** A rendered container directly follows the parent at `p`. */
  predicate Rendered(sibs: seq<Sibling>, p: nat)
    requires p < |sibs|
  {
    p + 1 < |sibs| && IsContainer(sibs[p + 1])
  }

  /** The siblings after the parent's container (after the parent when there is none). */
  function Beyond(sibs: seq<Sibling>, p: nat): seq<Sibling>
    requires p < |sibs|
  {
    if Rendered(sibs, p) then sibs[p + 2..] else sibs[p + 1..]
  }

  /** The bookkeeping of one parent: its class list has no repeated token, it carries `has-latex`
      exactly when a container follows it, and no second container stands behind that one. */
  predicate Consistent(sibs: seq<Sibling>, p: nat)
    requires WellPlaced(sibs, p)
  {
    && Distinct(sibs[p].classList)
    && (HasLatexClass in sibs[p].classList <==> Rendered(sibs, p))
    && !(Rendered(sibs, p) && p + 2 < |sibs| && IsContainer(sibs[p + 2]))
  }

  /** Whether `handle_node` renders anything for this text. */
  predicate HasMath(text: string) {
    HasLatex(text) || HasAsciiMath(text)
  }

  /** The container: class `rendered-latex` plus the parent's second class, holding the node's
      markup with AsciiMath converted to LaTeX. */
  function NewContainer(parentClasses: seq<string>, html: string, parse: string -> string): (c: Sibling)
    ensures IsContainer(c) && c.innerHTML == ConvertToLatex(html, parse)
    ensures forall x :: x in c.classList <==> x == RenderedLatex || x == SecondClass(parentClasses)
  {
    Element(Add([RenderedLatex], SecondClass(parentClasses)), ConvertToLatex(html, parse))
  }

  /** The first half of `handle_node`: a container right after the parent is removed, and with
      it the parent's `has-latex`. */
  function Cleared(sibs: seq<Sibling>, p: nat): (r: seq<Sibling>)
    requires WellPlaced(sibs, p)
    ensures WellPlaced(r, p) && r[..p] == sibs[..p] && r[p + 1..] == Beyond(sibs, p)
    ensures r[p] == sibs[p].(classList := if Rendered(sibs, p) then Remove(sibs[p].classList, HasLatexClass) else sibs[p].classList)
  {
    if Rendered(sibs, p) then
      var t := sibs[..p + 1] + sibs[p + 2..];
      var r := t[p := t[p].(classList := Remove(t[p].classList, HasLatexClass))];
      assert r[p + 1..] == t[p + 1..] == sibs[p + 2..];
      assert r[..p] == t[..p] == sibs[..p];
      r
    else sibs
  }

  /** The second half: the parent gains `has-latex`, then the container goes right after it. */
  function Inserted(sibs: seq<Sibling>, p: nat, html: string, parse: string -> string): (r: seq<Sibling>)
    requires WellPlaced(sibs, p)
    ensures |r| == |sibs| + 1 && WellPlaced(r, p) && r[..p] == sibs[..p] && r[p + 2..] == sibs[p + 1..]
    ensures r[p] == sibs[p].(classList := Add(sibs[p].classList, HasLatexClass))
    ensures r[p + 1] == NewContainer(r[p].classList, html, parse)
  {
    var t := sibs[p := sibs[p].(classList := Add(sibs[p].classList, HasLatexClass))];
    var u := t[..p + 1] + [Element([RenderedLatex], ConvertToLatex(html, parse))] + t[p + 1..];
    var r := u[p + 1 := u[p + 1].(classList := Add(u[p + 1].classList, SecondClass(u[p].classList)))];
    assert r[p + 2..] == u[p + 2..] == t[p + 1..] == sibs[p + 1..];
    assert r[..p] == u[..p] == t[..p] == sibs[..p];
    r
  }

  /** What one call of `handle_node(node)` does to the parent's sibling list. */
  function HandleNodeSpec(sibs: seq<Sibling>, node: ContentNode, parse: string -> string): (r: Step)
    requires node.parent.Some? ==> WellPlaced(sibs, node.parent.value)
    ensures node.parent.None? ==> r == Step(sibs, Done)
    ensures r.outcome == TypeError ==> r.siblings == sibs
    ensures r.outcome == TypeError <==>
      node.parent.Some? && node.parent.value + 1 < |sibs| && sibs[node.parent.value + 1].NonElement?
    ensures node.parent.Some? ==>
      var p := node.parent.value;
      && WellPlaced(r.siblings, p)
      && r.siblings[..p] == sibs[..p]
      && r.siblings[p].innerHTML == sibs[p].innerHTML
      && (forall x :: x != HasLatexClass ==> (x in r.siblings[p].classList <==> x in sibs[p].classList))
      && (r.outcome == Done && HasMath(node.textContent) ==>
            && HasLatexClass in r.siblings[p].classList
            && Rendered(r.siblings, p)
            && r.siblings[p + 1] == NewContainer(r.siblings[p].classList, node.innerHTML, parse)
            && r.siblings[p + 2..] == Beyond(sibs, p))
      && (r.outcome == Done && !HasMath(node.textContent) ==> r.siblings[p + 1..] == Beyond(sibs, p))
  {
    if node.parent.None? then Step(sibs, Done)
    else
      var p := node.parent.value;
      if p + 1 < |sibs| && sibs[p + 1].NonElement? then Step(sibs, TypeError)
      else
        var cleared := Cleared(sibs, p);
        if !HasMath(node.textContent) then
          Step(cleared, Done)
        else
          Step(Inserted(cleared, p, node.innerHTML, parse), Done)
  }

  /** After `handle_node`, the parent is followed by a container exactly when its text holds
      LaTeX or AsciiMath, carries `has-latex` exactly when that container is there, and never has
      two containers in a row. */
  lemma HandleNodeKeepsConsistent(sibs: seq<Sibling>, node: ContentNode, parse: string -> string)
    requires node.parent.Some? && WellPlaced(sibs, node.parent.value) && Consistent(sibs, node.parent.value)
    ensures var r := HandleNodeSpec(sibs, node, parse);
      && Consistent(r.siblings, node.parent.value)
      && (r.outcome == Done ==> (Rendered(r.siblings, node.parent.value) <==> HasMath(node.textContent)))
  {
    var p := node.parent.value;
    var r := HandleNodeSpec(sibs, node, parse);
    if r.outcome == Done {
      var cl := sibs[p].classList;
      var cleared := if Rendered(sibs, p) then Remove(cl, HasLatexClass) else cl;
      assert HasLatexClass !in cleared;
      if HasMath(node.textContent) {
        assert r.siblings[p].classList == Add(cleared, HasLatexClass);
        assert r.siblings[p + 2..] == Beyond(sibs, p);
        assert p + 2 < |r.siblings| ==> r.siblings[p + 2] == Beyond(sibs, p)[0];
      } else {
        assert r.siblings[p].classList == cleared;
        assert r.siblings[p + 1..] == Beyond(sibs, p);
        assert p + 1 < |r.siblings| ==> r.siblings[p + 1] == Beyond(sibs, p)[0];
      }
    }
  }

  /** Calling `handle_node` again on the same node changes nothing more: it removes the container
      and `has-latex` it added and puts back the same ones, so containers never pile up. (The
      second call may still throw, when the first removed a container that stood before a text
      node.) */
  lemma HandleNodeIdempotent(sibs: seq<Sibling>, node: ContentNode, parse: string -> string)
    requires node.parent.Some? ==> WellPlaced(sibs, node.parent.value) && Consistent(sibs, node.parent.value)
    ensures var r := HandleNodeSpec(sibs, node, parse);
      HandleNodeSpec(r.siblings, node, parse).siblings == r.siblings
  {
    if node.parent.Some? {
      var p := node.parent.value;
      var r := HandleNodeSpec(sibs, node, parse);
      HandleNodeKeepsConsistent(sibs, node, parse);
      if r.outcome == Done && HasMath(node.textContent) {
        var c := Cleared(sibs, p);
        assert HasLatexClass !in c[p].classList;
        ClearingUndoesInsert(c, p, node.innerHTML, parse);
      }
    }
  }

  /** Clearing what was just inserted gives back the list it was inserted into. */
  lemma ClearingUndoesInsert(c: seq<Sibling>, p: nat, html: string, parse: string -> string)
    requires WellPlaced(c, p) && HasLatexClass !in c[p].classList
    ensures Cleared(Inserted(c, p, html, parse), p) == c
  {
    var ins := Inserted(c, p, html, parse);
    assert Rendered(ins, p);
    var c2 := Cleared(ins, p);
    RemoveAppended(c[p].classList, HasLatexClass);
    assert c2[p] == c[p];
    assert c2[..p] == c[..p];
    assert c2[p + 1..] == c[p + 1..];
    SameByParts(c2, c, p);
  }

  /** Two lists that agree before, at and after position `p` are equal. */
  lemma SameByParts<T>(a: seq<T>, b: seq<T>, p: nat)
    requires p < |a| && p < |b| && a[..p] == b[..p] && a[p] == b[p] && a[p + 1..] == b[p + 1..]
    ensures a == b
  {
    assert a == a[..p] + [a[p]] + a[p + 1..];
    assert b == b[..p] + [b[p]] + b[p + 1..];
  }

  /** The DOM region `handle_node` writes to: the sibling list of the node's parent. */
  class Page {
    var siblings: seq<Sibling>

    /** `handle_node(node)`, statement by statement; the writes go to a copy of the sibling list
        that replaces the old one when the call returns. */
    method HandleNode(node: ContentNode, parse: string -> string) returns (outcome: Outcome)
      requires node.parent.Some? ==> WellPlaced(siblings, node.parent.value)
      modifies this
      ensures Step(siblings, outcome) == HandleNodeSpec(old(siblings), node, parse)
    {
      if node.parent.None? {
        return Done;
      }
      var p := node.parent.value;
      var s := siblings;
      if p + 1 < |s| {
        var next := s[p + 1];
        if next.NonElement? {
          assert HandleNodeSpec(siblings, node, parse) == Step(siblings, TypeError);
          return TypeError;
        }
        if RenderedLatex in next.classList {
          s := s[..p + 1] + s[p + 2..];
          s := s[p := s[p].(classList := Remove(s[p].classList, HasLatexClass))];
        }
      }
      ghost var cleared := Cleared(siblings, p);
      assert s == cleared;
      if !HasLatex(node.textContent) && !HasAsciiMath(node.textContent) {
        assert HandleNodeSpec(siblings, node, parse) == Step(cleared, Done);
        siblings := s;
        return Done;
      }
      s := s[p := s[p].(classList := Add(s[p].classList, HasLatexClass))];
      var container := Element([RenderedLatex], ConvertToLatex(node.innerHTML, parse));
      s := s[..p + 1] + [container] + s[p + 1..];
      container := container.(classList := Add(container.classList, SecondClass(s[p].classList)));
      s := s[p + 1 := container];
      assert s == Inserted(cleared, p, node.innerHTML, parse);
      assert HandleNodeSpec(siblings, node, parse) == Step(s, Done);
      siblings := s;
      return Done;
    }
  }
}
