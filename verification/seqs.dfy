/**
 * Generic sequence helpers for the `filter`/`map`/`find` pipelines of the
 * handlers: selecting keys in order, finding the first match, and dropping
 * one element.
 */
module Seqs {
  /** The keys of the elements `keep` selects, in their order in `xs`. */
  function Select<T, K>(xs: seq<T>, keep: T -> bool, key: T -> K): (ks: seq<K>)
    ensures |ks| <= |xs|
  {
    if xs == [] then []
    else Select(xs[..|xs| - 1], keep, key) + (if keep(xs[|xs| - 1]) then [key(xs[|xs| - 1])] else [])
  }

  /** Selecting from one more element of a prefix appends at most that element's key. */
  lemma SelectStep<T, K>(xs: seq<T>, i: nat, keep: T -> bool, key: T -> K)
    requires i < |xs|
    ensures Select(xs[..i + 1], keep, key)
      == Select(xs[..i], keep, key) + (if keep(xs[i]) then [key(xs[i])] else [])
  {
    assert xs[..i + 1][..i] == xs[..i];
  }

  /** Selecting from a concatenation selects from the parts one after the other. */
  lemma {:induction false} SelectAppend<T, K>(a: seq<T>, b: seq<T>, keep: T -> bool, key: T -> K)
    ensures Select(a + b, keep, key) == Select(a, keep, key) + Select(b, keep, key)
    decreases |b|
  {
    if b == [] {
      assert a + b == a;
    } else {
      var init := b[..|b| - 1];
      assert (a + b)[..|a + b| - 1] == a + init;
      SelectAppend(a, init, keep, key);
    }
  }

  /** What is selected from a prefix is a prefix of what is selected from the whole. */
  lemma SelectPrefix<T, K>(xs: seq<T>, i: nat, keep: T -> bool, key: T -> K)
    requires i <= |xs|
    ensures |Select(xs[..i], keep, key)| <= |Select(xs, keep, key)|
    ensures Select(xs[..i], keep, key) == Select(xs, keep, key)[..|Select(xs[..i], keep, key)|]
  {
    assert xs == xs[..i] + xs[i..];
    SelectAppend(xs[..i], xs[i..], keep, key);
  }

  /** Every selected key is the key of a selected element, and every selected element's key is there. */
  lemma {:induction false} SelectMembers<T, K>(xs: seq<T>, keep: T -> bool, key: T -> K)
    ensures forall k :: 0 <= k < |Select(xs, keep, key)| ==>
      exists i :: 0 <= i < |xs| && keep(xs[i]) && Select(xs, keep, key)[k] == key(xs[i])
    ensures forall i :: 0 <= i < |xs| && keep(xs[i]) ==> key(xs[i]) in Select(xs, keep, key)
    decreases |xs|
  {
    if xs != [] {
      var init := xs[..|xs| - 1];
      SelectMembers(init, keep, key);
      var ks := Select(xs, keep, key);
      assert ks == Select(init, keep, key) + (if keep(xs[|xs| - 1]) then [key(xs[|xs| - 1])] else []);
      forall k | 0 <= k < |ks|
        ensures exists i :: 0 <= i < |xs| && keep(xs[i]) && ks[k] == key(xs[i])
      {
        if k < |Select(init, keep, key)| {
          var i :| 0 <= i < |init| && keep(init[i]) && Select(init, keep, key)[k] == key(init[i]);
          assert xs[i] == init[i] && ks[k] == key(xs[i]);
        } else {
          var i := |xs| - 1;
          assert keep(xs[i]) && ks[k] == key(xs[i]);
        }
      }
      forall i | 0 <= i < |xs| && keep(xs[i]) ensures key(xs[i]) in ks {
        if i < |init| {
          assert xs[i] == init[i];
        }
      }
    } else {
      assert Select(xs, keep, key) == [];
    }
  }

  /** Nothing is selected exactly when no element is kept. */
  lemma {:induction false} SelectEmpty<T, K>(xs: seq<T>, keep: T -> bool, key: T -> K)
    ensures Select(xs, keep, key) == [] <==> forall i :: 0 <= i < |xs| ==> !keep(xs[i])
    decreases |xs|
  {
    if xs != [] {
      var init := xs[..|xs| - 1];
      SelectEmpty(init, keep, key);
      if Select(xs, keep, key) == [] {
        forall i | 0 <= i < |xs| ensures !keep(xs[i]) {
          if i < |init| { assert xs[i] == init[i]; }
        }
      }
    }
  }

  /** Two keys are selected exactly when two different elements are kept. */
  lemma {:induction false} SelectTwo<T, K>(xs: seq<T>, keep: T -> bool, key: T -> K)
    ensures |Select(xs, keep, key)| >= 2 <==>
      exists i, j :: 0 <= i < j < |xs| && keep(xs[i]) && keep(xs[j])
    decreases |xs|
  {
    if xs != [] {
      var n := |xs|;
      var init := xs[..n - 1];
      SelectTwo(init, keep, key);
      SelectEmpty(init, keep, key);
      if |Select(xs, keep, key)| >= 2 {
        if |Select(init, keep, key)| >= 2 {
          var i, j :| 0 <= i < j < |init| && keep(init[i]) && keep(init[j]);
          assert xs[i] == init[i] && xs[j] == init[j];
        } else {
          var i :| 0 <= i < |init| && keep(init[i]);
          assert xs[i] == init[i] && keep(xs[n - 1]);
        }
      }
    }
  }

  /** Selecting around one element: what precedes it, its own key when it is kept, then what follows it. */
  lemma SelectAround<T, K>(xs: seq<T>, i: nat, keep: T -> bool, key: T -> K)
    requires i < |xs|
    ensures Select(xs, keep, key)
      == Select(xs[..i], keep, key) + (if keep(xs[i]) then [key(xs[i])] else []) + Select(xs[i + 1..], keep, key)
  {
    var pre, post := xs[..i + 1], xs[i + 1..];
    assert xs == pre + post;
    SelectAppend(pre, post, keep, key);
    SelectStep(xs, i, keep, key);
  }

  /** Replacing one element changes the selection only at that element's place. */
  lemma SelectReplace<T, K>(xs: seq<T>, i: nat, x: T, keep: T -> bool, key: T -> K)
    requires i < |xs|
    ensures Select(xs[i := x], keep, key)
      == Select(xs[..i], keep, key) + (if keep(x) then [key(x)] else []) + Select(xs[i + 1..], keep, key)
  {
    var ys := xs[i := x];
    SelectAround(ys, i, keep, key);
    assert ys[..i] == xs[..i] && ys[i + 1..] == xs[i + 1..];
  }

  /** An element that is not selected adds nothing between the selections before and after it. */
  lemma SelectAroundSkipped<T, K>(xs: seq<T>, i: nat, keep: T -> bool, key: T -> K)
    requires i < |xs| && !keep(xs[i])
    ensures Select(xs, keep, key) == Select(xs[..i], keep, key) + Select(xs[i + 1..], keep, key)
  {
    SelectAround(xs, i, keep, key);
  }

  /** An element that is selected puts its key between the selections before and after it. */
  lemma SelectAroundTaken<T, K>(xs: seq<T>, i: nat, keep: T -> bool, key: T -> K)
    requires i < |xs| && keep(xs[i])
    ensures Select(xs, keep, key) == Select(xs[..i], keep, key) + [key(xs[i])] + Select(xs[i + 1..], keep, key)
  {
    SelectAround(xs, i, keep, key);
  }

  /** When exactly one element is selected, the selection is its key alone. */
  lemma SelectSingle<T, K>(xs: seq<T>, i: nat, keep: T -> bool, key: T -> K)
    requires i < |xs| && keep(xs[i])
    requires forall j :: 0 <= j < |xs| && j != i ==> !keep(xs[j])
    ensures Select(xs, keep, key) == [key(xs[i])]
  {
    SelectAroundTaken(xs, i, keep, key);
    var before, after := xs[..i], xs[i + 1..];
    NoneKept(before, keep, key) by {
      forall j | 0 <= j < |before| ensures !keep(before[j]) { assert before[j] == xs[j]; }
    }
    NoneKept(after, keep, key) by {
      forall j | 0 <= j < |after| ensures !keep(after[j]) { assert after[j] == xs[i + 1 + j]; }
    }
  }

  /** A sequence none of whose elements is kept selects nothing. */
  lemma NoneKept<T, K>(xs: seq<T>, keep: T -> bool, key: T -> K)
    requires forall j :: 0 <= j < |xs| ==> !keep(xs[j])
    ensures Select(xs, keep, key) == []
  {
    SelectEmpty(xs, keep, key);
  }

  /** Replacing one element by one that is not selected removes that place from the selection. */
  lemma SelectReplaceSkipped<T, K>(xs: seq<T>, i: nat, x: T, keep: T -> bool, key: T -> K)
    requires i < |xs| && !keep(x)
    ensures Select(xs[i := x], keep, key) == Select(xs[..i], keep, key) + Select(xs[i + 1..], keep, key)
  {
    SelectReplace(xs, i, x, keep, key);
  }

  /** Replacing one element by one that is selected puts its key at that place of the selection. */
  lemma SelectReplaceTaken<T, K>(xs: seq<T>, i: nat, x: T, keep: T -> bool, key: T -> K)
    requires i < |xs| && keep(x)
    ensures Select(xs[i := x], keep, key) == Select(xs[..i], keep, key) + [key(x)] + Select(xs[i + 1..], keep, key)
  {
    SelectReplace(xs, i, x, keep, key);
  }

  /** Dropping one element drops at most its key from the selection. */
  lemma SelectWithout<T, K>(xs: seq<T>, i: nat, keep: T -> bool, key: T -> K)
    requires i < |xs|
    ensures Select(Without(xs, i), keep, key) == Select(xs[..i], keep, key) + Select(xs[i + 1..], keep, key)
  {
    SelectAppend(xs[..i], xs[i + 1..], keep, key);
  }

  /** When every element is kept, the selection is the keys of all of them, in order. */
  lemma {:induction false} SelectAll<T, K>(xs: seq<T>, keep: T -> bool, key: T -> K)
    requires forall i :: 0 <= i < |xs| ==> keep(xs[i])
    ensures |Select(xs, keep, key)| == |xs|
    ensures forall i :: 0 <= i < |xs| ==> Select(xs, keep, key)[i] == key(xs[i])
    decreases |xs|
  {
    if xs != [] {
      var init := xs[..|xs| - 1];
      SelectAll(init, keep, key);
      assert keep(xs[|xs| - 1]);
    }
  }

  /** `xs.findIndex(keep)`, with `|xs|` standing for "none". */
  function FirstWhere<T>(xs: seq<T>, keep: T -> bool): (p: nat)
    ensures p <= |xs|
    ensures p < |xs| ==> keep(xs[p])
    ensures forall i :: 0 <= i < p ==> !keep(xs[i])
  {
    if xs == [] then 0
    else if keep(xs[0]) then 0
    else 1 + FirstWhere(xs[1..], keep)
  }

  /** The first match is the only index that matches with no match before it. */
  lemma FirstWhereUnique<T>(xs: seq<T>, keep: T -> bool, p: nat)
    requires p < |xs| && keep(xs[p]) && forall i :: 0 <= i < p ==> !keep(xs[i])
    ensures FirstWhere(xs, keep) == p
  {
  }

  /** `xs` without the element at `p` (all of `xs` when `p` is out of range). */
  function Without<T>(xs: seq<T>, p: nat): (ys: seq<T>)
    ensures |ys| == if p < |xs| then |xs| - 1 else |xs|
  {
    if p < |xs| then xs[..p] + xs[p + 1..] else xs
  }

  /** Dropping one element keeps the others in order: those before it in place, those after it shifted down by one. */
  lemma WithoutOrder<T>(xs: seq<T>, p: nat)
    ensures p >= |xs| ==> Without(xs, p) == xs
    ensures forall i :: 0 <= i < p && i < |xs| ==> Without(xs, p)[i] == xs[i]
    ensures forall i :: p < i < |xs| ==> Without(xs, p)[i - 1] == xs[i]
  {
    if p < |xs| {
      var before, after := xs[..p], xs[p + 1..];
      forall i | 0 <= i < p ensures (before + after)[i] == xs[i] {
        assert before[i] == xs[i];
      }
      forall i | p < i < |xs| ensures (before + after)[i - 1] == xs[i] {
        assert after[i - 1 - p] == xs[i];
      }
    }
  }
}
