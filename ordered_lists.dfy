/** Ordered-Lists-for-WorkFlowy.js: when an `.innerContentContainer` is added, its nearest
    `.project` ancestor-or-self gets the class `list-ol` exactly when the node contains an
    element with `data-val="#ol"`; the stylesheet then numbers that project's children.

    The elements of the outline are numbered; the outline maps each number to that element's
    class list, and a content node names the chain of elements from itself up to the root. */
module OrderedLists {
  import opened Dom

  const ListOlClass := "list-ol"
  const ProjectClass := "project"
  const ContentClass := "innerContentContainer"
  const OlTag := "#ol"

  /** An `.innerContentContainer`: `lineage` is the node followed by its ancestors, nearest
      first (so `lineage[1]`, when present, is `parentElement`), and `dataVals` holds the
      `data-val` attributes of the elements inside it. */
  datatype ContentNode = ContentNode(lineage: seq<nat>, dataVals: seq<string>)

  /** A node handed to the observer callback: an element with its classes and, for a content
      node, its place in the outline; or a node without `tagName`. */
  datatype Added = NonElement | Element(classList: seq<string>, content: ContentNode)

  /** Every element the node names is in the outline. */
  predicate InOutline(classes: map<nat, seq<string>>, node: ContentNode) {
    forall i :: 0 <= i < |node.lineage| ==> node.lineage[i] in classes
  }

  /** `node.querySelectorAll('[data-val="#ol"]').length > 0`. */
  predicate HasOlTag(node: ContentNode) {
    OlTag in node.dataVals
  }

  /** `node.closest('.project')`: the first element of the lineage, the node itself included,
      whose classes hold `project`; None when there is none (`closest` returns `null`). */
  function Closest(classes: map<nat, seq<string>>, lineage: seq<nat>): (r: Option<nat>)
    requires forall i :: 0 <= i < |lineage| ==> lineage[i] in classes
    ensures r.None? <==> forall i :: 0 <= i < |lineage| ==> ProjectClass !in classes[lineage[i]]
    ensures r.Some? ==> exists i :: (0 <= i < |lineage| && lineage[i] == r.value && ProjectClass in classes[lineage[i]] &&
      forall j :: 0 <= j < i ==> ProjectClass !in classes[lineage[j]])
  {
    if lineage == [] then None
    else if ProjectClass in classes[lineage[0]] then
      assert lineage[0] == lineage[0] && ProjectClass in classes[lineage[0]];
      Some(lineage[0])
    else
      var r := Closest(classes, lineage[1..]);
      assert forall i :: 1 <= i < |lineage| ==> lineage[i] == lineage[1..][i - 1];
      if r.Some? then
        var i :| 0 <= i < |lineage[1..]| && lineage[1..][i] == r.value && ProjectClass in classes[lineage[1..][i]] &&
          forall j :: 0 <= j < i ==> ProjectClass !in classes[lineage[1..][j]];
        assert lineage[i + 1] == r.value && ProjectClass in classes[lineage[i + 1]];
        r
      else r
  }

  /** The class list `add_class` leaves on the ancestor: `list-ol` first removed, then added
      back when the tag is there. */
  function MarkList(cl: seq<string>, ordered: bool): (r: seq<string>)
    ensures ListOlClass in r <==> ordered
    ensures forall x :: x != ListOlClass ==> (x in r <==> x in cl)
    ensures Distinct(cl) ==> Distinct(r)
  {
    var removed := Remove(cl, ListOlClass);
    if ordered then Add(removed, ListOlClass) else removed
  }

  /** `MarkList` looks at the old list only through the tokens other than `list-ol`. */
  lemma MarkListIgnoresPrior(a: seq<string>, b: seq<string>, ordered: bool)
    requires Remove(a, ListOlClass) == Remove(b, ListOlClass)
    ensures MarkList(a, ordered) == MarkList(b, ordered)
  {
  }

  /** Marking a list that was just marked the same way changes nothing. */
  lemma {:induction false} MarkListIdempotent(cl: seq<string>, ordered: bool)
    ensures MarkList(MarkList(cl, ordered), ordered) == MarkList(cl, ordered)
  {
    var removed := Remove(cl, ListOlClass);
    if ordered {
      RemoveThenAdd(cl, ListOlClass);
    } else {
      assert ListOlClass !in removed;
    }
  }

  /** What `add_class(node)` does to the outline. */
  function AddClassSpec(classes: map<nat, seq<string>>, node: ContentNode): (r: (map<nat, seq<string>>, Outcome))
    requires InOutline(classes, node)
    ensures r.0.Keys == classes.Keys
    ensures |node.lineage| < 2 ==> r == (classes, Done)
    ensures r.1 == TypeError <==> |node.lineage| >= 2 && Closest(classes, node.lineage).None?
    ensures r.1 == TypeError ==> r.0 == classes
    ensures |node.lineage| >= 2 && r.1 == Done ==>
      var a := Closest(classes, node.lineage).value;
      && (ListOlClass in r.0[a] <==> HasOlTag(node))
      && (forall x :: x != ListOlClass ==> (x in r.0[a] <==> x in classes[a]))
      && (forall id :: id in classes && id != a ==> r.0[id] == classes[id])
  {
    if |node.lineage| < 2 then (classes, Done)
    else
      match Closest(classes, node.lineage)
      case None => (classes, TypeError)
      case Some(a) => (classes[a := MarkList(classes[a], HasOlTag(node))], Done)
  }

  /** Running `add_class` again on the same node changes nothing more. */
  lemma AddClassIdempotent(classes: map<nat, seq<string>>, node: ContentNode)
    requires InOutline(classes, node)
    ensures var r := AddClassSpec(classes, node);
      InOutline(r.0, node) && AddClassSpec(r.0, node) == r
  {
    var r := AddClassSpec(classes, node);
    if |node.lineage| >= 2 && r.1 == Done {
      var a := Closest(classes, node.lineage).value;
      var m := r.0;
      assert forall id :: id in classes ==> (ProjectClass in m[id] <==> ProjectClass in classes[id]);
      ClosestSameProjects(classes, m, node.lineage);
      MarkListIdempotent(classes[a], HasOlTag(node));
      assert m[a := MarkList(m[a], HasOlTag(node))] == m;
    }
  }

  /** `closest('.project')` only looks at which elements carry `project`. */
  lemma {:induction false} ClosestSameProjects(c1: map<nat, seq<string>>, c2: map<nat, seq<string>>, lineage: seq<nat>)
    requires forall i :: 0 <= i < |lineage| ==> lineage[i] in c1 && lineage[i] in c2
    requires forall i :: 0 <= i < |lineage| ==> (ProjectClass in c1[lineage[i]] <==> ProjectClass in c2[lineage[i]])
    ensures Closest(c1, lineage) == Closest(c2, lineage)
  {
    if lineage != [] {
      assert forall i :: 1 <= i < |lineage| ==> lineage[i] == lineage[1..][i - 1];
      ClosestSameProjects(c1, c2, lineage[1..]);
    }
  }

  /** Whether the ancestor carried `list-ol` before makes no difference: giving the ancestor
      any class list that differs from its own only in `list-ol` leads to the same outline. */
  lemma AddClassIgnoresPrior(classes: map<nat, seq<string>>, node: ContentNode, cl: seq<string>)
    requires InOutline(classes, node) && |node.lineage| >= 2 && Closest(classes, node.lineage).Some?
    requires Remove(cl, ListOlClass) == Remove(classes[Closest(classes, node.lineage).value], ListOlClass)
    ensures var c2 := classes[Closest(classes, node.lineage).value := cl];
      InOutline(c2, node) && AddClassSpec(c2, node) == AddClassSpec(classes, node)
  {
    var a := Closest(classes, node.lineage).value;
    var c2 := classes[a := cl];
    assert ProjectClass in Remove(cl, ListOlClass) <==> ProjectClass in cl;
    assert ProjectClass in Remove(classes[a], ListOlClass) <==> ProjectClass in classes[a];
    ClosestSameProjects(classes, c2, node.lineage);
    MarkListIgnoresPrior(cl, classes[a], HasOlTag(node));
    assert c2[a := MarkList(cl, HasOlTag(node))] == classes[a := MarkList(classes[a], HasOlTag(node))];
  }

  /** Whether the observer hands this node to `add_class`. */
  predicate Dispatched(n: Added) {
    n.Element? && ContentClass in n.classList
  }

  /** Every content node of the batch is in the outline. */
  predicate BatchInOutline(classes: map<nat, seq<string>>, batch: seq<Added>) {
    forall n :: n in batch && Dispatched(n) ==> InOutline(classes, n.content)
  }

  /** One node of the batch: `add_class` for a content element, nothing for anything else. */
  function Visit(classes: map<nat, seq<string>>, n: Added): (r: (map<nat, seq<string>>, Outcome))
    requires Dispatched(n) ==> InOutline(classes, n.content)
    ensures r.0.Keys == classes.Keys
    ensures !Dispatched(n) ==> r == (classes, Done)
  {
    if Dispatched(n) then AddClassSpec(classes, n.content) else (classes, Done)
  }

  /** The observer callback on one batch of added nodes, from first to last; a throw ends it. */
  function OnMutationsSpec(classes: map<nat, seq<string>>, batch: seq<Added>): (r: (map<nat, seq<string>>, Outcome))
    requires BatchInOutline(classes, batch)
    ensures r.0.Keys == classes.Keys
  {
    if batch == [] then (classes, Done)
    else
      var init := batch[..|batch| - 1];
      assert BatchInOutline(classes, init) by {
        assert forall i :: 0 <= i < |init| ==> init[i] == batch[i];
      }
      var prev := OnMutationsSpec(classes, init);
      if prev.1 == TypeError then prev
      else
        var last := batch[|batch| - 1];
        InOutlineSameKeys(classes, prev.0, last);
        Visit(prev.0, last)
  }

  lemma InOutlineSameKeys(c1: map<nat, seq<string>>, c2: map<nat, seq<string>>, n: Added)
    requires c1.Keys == c2.Keys && (Dispatched(n) ==> InOutline(c1, n.content))
    ensures Dispatched(n) ==> InOutline(c2, n.content)
  {
  }

  /** The content elements of a batch, in order. */
  function ContentOnly(batch: seq<Added>): (r: seq<Added>)
    ensures |r| <= |batch|
    ensures forall i :: 0 <= i < |r| ==> Dispatched(r[i]) && r[i] in batch
    ensures (forall i :: 0 <= i < |batch| ==> !Dispatched(batch[i])) ==> r == []
    ensures forall n :: n in batch && Dispatched(n) ==> n in r
  {
    if batch == [] then []
    else
      var init := batch[..|batch| - 1];
      var r := ContentOnly(init);
      assert batch == init + [batch[|batch| - 1]];
      assert forall x :: x in init ==> x in batch;
      assert forall i :: 0 <= i < |init| ==> init[i] == batch[i];
      if Dispatched(batch[|batch| - 1]) then r + [batch[|batch| - 1]] else r
  }

  /** Filtering a batch piece by piece gives the filtered batch: the content elements keep the
      order the observer delivered them in. */
  lemma {:induction false} ContentOnlyAppend(a: seq<Added>, b: seq<Added>)
    ensures ContentOnly(a + b) == ContentOnly(a) + ContentOnly(b)
    decreases |b|
  {
    if b == [] {
      assert a + b == a;
    } else {
      var b0, last := b[..|b| - 1], b[|b| - 1];
      var tail := if Dispatched(last) then [last] else [];
      assert b == b0 + [last];
      assert a + b == (a + b0) + [last];
      ContentOnlyAppend(a, b0);
      ContentOnlySnoc(a + b0, last);
      ContentOnlySnoc(b0, last);
      assert ContentOnly(a + b) == ContentOnly(a) + ContentOnly(b0) + tail;
    }
  }

  /** One more node at the end of a batch: it is kept exactly when it is a content element. */
  lemma ContentOnlySnoc(batch: seq<Added>, n: Added)
    ensures ContentOnly(batch + [n]) == ContentOnly(batch) + (if Dispatched(n) then [n] else [])
  {
    var b := batch + [n];
    assert b[..|b| - 1] == batch && b[|b| - 1] == n;
  }

  /** Text nodes and elements other than content nodes never reach `add_class`: the callback
      does on a batch exactly what it does on the batch's content elements alone. */
  lemma {:induction false} OnMutationsSkipsOthers(classes: map<nat, seq<string>>, batch: seq<Added>)
    requires BatchInOutline(classes, batch)
    ensures BatchInOutline(classes, ContentOnly(batch))
    ensures OnMutationsSpec(classes, batch) == OnMutationsSpec(classes, ContentOnly(batch))
  {
    if batch != [] {
      var init := batch[..|batch| - 1];
      var last := batch[|batch| - 1];
      assert batch == init + [last];
      assert BatchInOutline(classes, init);
      OnMutationsSkipsOthers(classes, init);
      var r := ContentOnly(init);
      var prev := OnMutationsSpec(classes, init);
      assert OnMutationsSpec(classes, r) == prev;
      if Dispatched(last) {
        var r2 := r + [last];
        assert ContentOnly(batch) == r2;
        assert r2[..|r2| - 1] == r && r2[|r2| - 1] == last;
        assert OnMutationsSpec(classes, r2) == (if prev.1 == TypeError then prev else Visit(prev.0, last));
      } else {
        assert ContentOnly(batch) == r;
        assert OnMutationsSpec(classes, batch) == prev;
      }
    }
  }

  /** A batch without content elements leaves the outline as it was. */
  lemma NoContentNoChange(classes: map<nat, seq<string>>, batch: seq<Added>)
    requires BatchInOutline(classes, batch)
    requires forall i :: 0 <= i < |batch| ==> !Dispatched(batch[i])
    ensures OnMutationsSpec(classes, batch) == (classes, Done)
  {
    OnMutationsSkipsOthers(classes, batch);
  }

  /** The outline's class lists, changed in place by the script. */
  class Outline {
    var classes: map<nat, seq<string>>

    /** `add_class(node)`. */
    method AddClass(node: ContentNode) returns (outcome: Outcome)
      requires InOutline(classes, node)
      modifies this
      ensures (classes, outcome) == AddClassSpec(old(classes), node)
    {
      if |node.lineage| < 2 {
        return Done;
      }
      var ancestor := Closest(classes, node.lineage);
      if ancestor.None? {
        return TypeError;
      }
      var a := ancestor.value;
      ghost var before := classes;
      classes := classes[a := Remove(classes[a], ListOlClass)];
      if OlTag in node.dataVals {
        classes := classes[a := Add(classes[a], ListOlClass)];
      }
      assert classes == before[a := MarkList(before[a], HasOlTag(node))];
      return Done;
    }

    /** The callback of `watch_page` on one batch of added nodes. */
    method OnMutations(batch: seq<Added>) returns (outcome: Outcome)
      requires BatchInOutline(classes, batch)
      modifies this
      ensures (classes, outcome) == OnMutationsSpec(old(classes), batch)
    {
      outcome := Done;
      var i := 0;
      while i < |batch|
        invariant 0 <= i <= |batch|
        invariant classes.Keys == old(classes).Keys
        invariant BatchInOutline(old(classes), batch[..i])
        invariant (classes, Done) == OnMutationsSpec(old(classes), batch[..i])
        invariant outcome == Done
      {
        var node := batch[i];
        assert batch[..i + 1][..i] == batch[..i];
        assert BatchInOutline(old(classes), batch[..i + 1]) by {
          assert forall j :: 0 <= j < i + 1 ==> batch[..i + 1][j] == batch[j];
        }
        if node.Element? && ContentClass in node.classList {
          outcome := AddClass(node.content);
          if outcome == TypeError {
            assert (classes, outcome) == OnMutationsSpec(old(classes), batch[..i + 1]);
            OnMutationsStops(old(classes), batch, i + 1);
            return;
          }
        }
        i := i + 1;
      }
      assert batch[..i] == batch;
    }
  }

  /** Once the callback has thrown on a prefix of the batch, the rest of the batch is not run. */
  lemma {:induction false} OnMutationsStops(classes: map<nat, seq<string>>, batch: seq<Added>, k: nat)
    requires k <= |batch| && BatchInOutline(classes, batch)
    requires BatchInOutline(classes, batch[..k])
    requires OnMutationsSpec(classes, batch[..k]).1 == TypeError
    ensures OnMutationsSpec(classes, batch) == OnMutationsSpec(classes, batch[..k])
    decreases |batch| - k
  {
    if k < |batch| {
      var p := batch[..k + 1];
      assert p[..|p| - 1] == batch[..k];
      assert BatchInOutline(classes, p) by {
        assert forall j :: 0 <= j < k + 1 ==> p[j] == batch[j];
      }
      OnMutationsStops(classes, batch, k + 1);
    } else {
      assert batch[..k] == batch;
    }
  }
}
