/** The parts of the DOM the userscripts touch, reduced to values: the ordered token list behind
    `element.classList`, and the small result types shared by every script model. */
module Dom {

  datatype Option<T> = None | Some(value: T)

  /** What a DOM callback ends with: it ran to its end, or it threw a TypeError by using
      `null` or `undefined` as an object (calling `contains` on the `classList` of a text node,
      which is `undefined`, or reading `classList` of a `null` query result), which aborts the
      callback at that point. */
  datatype Outcome = Done | TypeError

  /** A DOMTokenList is an ordered set: no token occurs twice. */
  predicate Distinct(cl: seq<string>) {
    forall i, j :: 0 <= i < j < |cl| ==> cl[i] != cl[j]
  }

  /** `classList.add(c)`: a token already present stays where it is, a new one goes last. */
  function Add(cl: seq<string>, c: string): (r: seq<string>)
    ensures c in r
    ensures forall x :: x in r <==> x in cl || x == c
    ensures c in cl ==> r == cl
    ensures c !in cl ==> |r| == |cl| + 1 && r[..|cl|] == cl && r[|cl|] == c
    ensures Distinct(cl) ==> Distinct(r)
  {
    if c in cl then cl else cl + [c]
  }

  /** `classList.remove(c)`: every other token keeps its relative order (`RemoveCutsOut`). */
  function Remove(cl: seq<string>, c: string): (r: seq<string>)
    ensures forall x :: x in r <==> x in cl && x != c
    ensures |r| <= |cl|
    ensures c !in cl ==> r == cl
    ensures Distinct(cl) ==> Distinct(r)
    decreases |cl|
  {
    if cl == [] then []
    else if cl[0] == c then Remove(cl[1..], c)
    else
      var rest := Remove(cl[1..], c);
      assert cl == [cl[0]] + cl[1..];
      DistinctTail(cl);
      DistinctCons(cl[0], rest);
      [cl[0]] + rest
  }

  /** In a list without repeats, `Remove` cuts out the one occurrence of `c`: the tokens before
      it and the tokens after it stay, in their order. */
  lemma {:induction false} RemoveCutsOut(cl: seq<string>, c: string)
    requires Distinct(cl) && c in cl
    ensures exists k :: 0 <= k < |cl| && cl[k] == c && Remove(cl, c) == cl[..k] + cl[k + 1..]
    decreases |cl|
  {
    DistinctTail(cl);
    if cl[0] == c {
      assert Remove(cl, c) == cl[..0] + cl[0 + 1..];
    } else {
      assert cl == [cl[0]] + cl[1..];
      assert c in cl[1..];
      RemoveCutsOut(cl[1..], c);
      var j :| 0 <= j < |cl[1..]| && cl[1..][j] == c && Remove(cl[1..], c) == cl[1..][..j] + cl[1..][j + 1..];
      CutCons(cl, j, Remove(cl[1..], c));
      assert cl[j + 1] == c;
    }
  }

  /** Cutting the token at `j` out of the tail and putting the head back cuts the token at
      `j + 1` out of the whole list. */
  lemma CutCons(cl: seq<string>, j: nat, rest: seq<string>)
    requires j + 1 < |cl| && rest == cl[1..][..j] + cl[1..][j + 1..]
    ensures [cl[0]] + rest == cl[..j + 1] + cl[j + 2..]
  {
    assert cl[..j + 1] == [cl[0]] + cl[1..][..j];
    assert cl[j + 2..] == cl[1..][j + 1..];
  }

  /** The tail of a list without repeats has none either, and lacks the head. */
  lemma DistinctTail(cl: seq<string>)
    requires cl != []
    ensures Distinct(cl) ==> cl[0] !in cl[1..] && Distinct(cl[1..])
  {
    if Distinct(cl) {
      forall k | 0 <= k < |cl[1..]| ensures cl[1..][k] != cl[0] {
        assert cl[1..][k] == cl[k + 1];
      }
    }
  }

  lemma DistinctCons(a: string, s: seq<string>)
    ensures a !in s && Distinct(s) ==> Distinct([a] + s)
  {
    if a !in s && Distinct(s) {
      forall i, j | 0 <= i < j < |[a] + s| ensures ([a] + s)[i] != ([a] + s)[j] {
        if i > 0 {
          assert ([a] + s)[i] == s[i - 1];
        }
      }
    }
  }

  /** `classList.toggle(c)`: removes a present token, appends an absent one. */
  function Toggle(cl: seq<string>, c: string): (r: seq<string>)
    ensures c in r <==> c !in cl
    ensures forall x :: x != c ==> (x in r <==> x in cl)
    ensures Distinct(cl) ==> Distinct(r)
  {
    if c in cl then Remove(cl, c) else Add(cl, c)
  }

  /** Removing a token that was just appended gives back the list it was appended to. */
  lemma {:induction false} RemoveAppended(cl: seq<string>, c: string)
    requires c !in cl
    ensures Remove(cl + [c], c) == cl
  {
    if cl == [] {
      assert Remove([c][1..], c) == [];
    } else {
      assert (cl + [c])[1..] == cl[1..] + [c];
      RemoveAppended(cl[1..], c);
      assert [cl[0]] + cl[1..] == cl;
    }
  }

  /** Two toggles give back the same set of tokens; when the token was absent, they give back the
      very same list. A present token that was not last ends up last after the second toggle. */
  lemma ToggleTwice(cl: seq<string>, c: string)
    ensures forall x :: x in Toggle(Toggle(cl, c), c) <==> x in cl
    ensures c !in cl ==> Toggle(Toggle(cl, c), c) == cl
  {
    if c !in cl {
      RemoveAppended(cl, c);
    }
  }

  /** Removing a token, then adding it, puts it last whatever its earlier position. */
  lemma {:induction false} RemoveThenAdd(cl: seq<string>, c: string)
    ensures Add(Remove(cl, c), c) == Remove(cl, c) + [c]
    ensures Remove(Add(Remove(cl, c), c), c) == Remove(cl, c)
  {
    RemoveAppended(Remove(cl, c), c);
  }

  /** Adding a token and then removing it is the same as removing it. */
  lemma {:induction false} AddThenRemove(cl: seq<string>, c: string)
    ensures Remove(Add(cl, c), c) == Remove(cl, c)
  {
    if c !in cl {
      RemoveAppended(cl, c);
    }
  }
}
