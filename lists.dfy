/**
 * The two list-building patterns `extract_slide_knowledge` uses, stated once
 * for any element type: growing a string piece by piece (`content += ...`)
 * and appending to a list only for some elements (`if ...: append(...)`).
 */
module Lists {

  datatype Option<T> = None | Some(value: T)

  /** The pieces `f(x)` for `x` in `xs`, concatenated in order. */
  function ConcatMap<A>(xs: seq<A>, f: A -> string): string {
    if |xs| == 0 then ""
    else ConcatMap(xs[..|xs| - 1], f) + f(xs[|xs| - 1])
  }

  function OptionList<B>(o: Option<B>): seq<B> {
    match o {
      case None => []
      case Some(v) => [v]
    }
  }

  /** The values `f(x)` that are present, for `x` in `xs`, in order. */
  function FilterMap<A, B>(xs: seq<A>, f: A -> Option<B>): seq<B> {
    if |xs| == 0 then []
    else FilterMap(xs[..|xs| - 1], f) + OptionList(f(xs[|xs| - 1]))
  }

  /** The positions `i` at which `f(xs[i])` is present, in increasing order:
      every such position once, and no other. */
  function PresentPositions<A, B>(xs: seq<A>, f: A -> Option<B>): (r: seq<nat>)
    ensures forall k :: 0 <= k < |r| ==> r[k] < |xs| && f(xs[r[k]]).Some?
    ensures forall k, l :: 0 <= k < l < |r| ==> r[k] < r[l]
    ensures forall i :: 0 <= i < |xs| && f(xs[i]).Some? ==> i in r
  {
    if |xs| == 0 then []
    else
      var front := xs[..|xs| - 1];
      var r' := PresentPositions(front, f);
      assert forall k :: 0 <= k < |r'| ==> xs[r'[k]] == front[r'[k]];
      if f(xs[|xs| - 1]).Some? then r' + [|xs| - 1] else r'
  }

  lemma {:induction false} ConcatMapAppend<A>(xs: seq<A>, ys: seq<A>, f: A -> string)
    ensures ConcatMap(xs + ys, f) == ConcatMap(xs, f) + ConcatMap(ys, f)
    decreases |ys|
  {
    if |ys| == 0 {
      assert xs + ys == xs;
    } else {
      var ys' := ys[..|ys| - 1];
      assert (xs + ys)[..|xs + ys| - 1] == xs + ys';
      ConcatMapAppend(xs, ys', f);
    }
  }

  lemma ConcatMapSingle<A>(x: A, f: A -> string)
    ensures ConcatMap([x], f) == f(x)
  {
  }

  /** A piece that is empty can be left out. */
  lemma {:induction false} ConcatMapSkip<A>(xs: seq<A>, i: nat, f: A -> string)
    requires i < |xs| && f(xs[i]) == ""
    ensures ConcatMap(xs, f) == ConcatMap(xs[..i] + xs[i + 1..], f)
  {
    var pre, post := xs[..i], xs[i + 1..];
    assert xs == (pre + [xs[i]]) + post;
    ConcatMapAppend(pre + [xs[i]], post, f);
    ConcatMapAppend(pre, [xs[i]], f);
    ConcatMapSingle(xs[i], f);
    ConcatMapAppend(pre, post, f);
  }

  /** The concatenation is empty exactly when every piece is. */
  lemma {:induction false} ConcatMapEmptyIff<A>(xs: seq<A>, f: A -> string)
    ensures ConcatMap(xs, f) == "" <==> forall i :: 0 <= i < |xs| ==> f(xs[i]) == ""
  {
    if |xs| > 0 {
      var front := xs[..|xs| - 1];
      ConcatMapEmptyIff(front, f);
      assert forall i :: 0 <= i < |front| ==> front[i] == xs[i];
    }
  }

  /** Every character of the concatenation satisfies `p` exactly when every
      character of every piece does. */
  lemma {:induction false} ConcatMapAll<A>(xs: seq<A>, f: A -> string, p: char -> bool)
    ensures (forall c :: c in ConcatMap(xs, f) ==> p(c)) <==>
      forall i :: 0 <= i < |xs| ==> forall c :: c in f(xs[i]) ==> p(c)
  {
    if |xs| > 0 {
      var front := xs[..|xs| - 1];
      ConcatMapAll(front, f, p);
      assert forall i :: 0 <= i < |front| ==> front[i] == xs[i];
      var last := f(xs[|xs| - 1]);
      assert forall c :: c in ConcatMap(xs, f) <==> c in ConcatMap(front, f) || c in last;
    }
  }

  lemma {:induction false} FilterMapAppend<A, B>(xs: seq<A>, ys: seq<A>, f: A -> Option<B>)
    ensures FilterMap(xs + ys, f) == FilterMap(xs, f) + FilterMap(ys, f)
    decreases |ys|
  {
    if |ys| == 0 {
      assert xs + ys == xs;
    } else {
      var ys' := ys[..|ys| - 1];
      assert (xs + ys)[..|xs + ys| - 1] == xs + ys';
      FilterMapAppend(xs, ys', f);
    }
  }

  /** The k-th value kept is the value at the k-th present position. */
  lemma {:induction false} FilterMapAt<A, B>(xs: seq<A>, f: A -> Option<B>)
    ensures |FilterMap(xs, f)| == |PresentPositions(xs, f)| <= |xs|
    ensures forall k :: 0 <= k < |FilterMap(xs, f)| ==>
      f(xs[PresentPositions(xs, f)[k]]) == Some(FilterMap(xs, f)[k])
  {
    if |xs| > 0 {
      var front := xs[..|xs| - 1];
      FilterMapAt(front, f);
      assert forall i :: 0 <= i < |front| ==> front[i] == xs[i];
    }
  }

  /** Nothing is kept exactly when `f` is absent everywhere. */
  lemma {:induction false} FilterMapEmptyIff<A, B>(xs: seq<A>, f: A -> Option<B>)
    ensures FilterMap(xs, f) == [] <==> forall i :: 0 <= i < |xs| ==> f(xs[i]).None?
  {
    if |xs| > 0 {
      var front := xs[..|xs| - 1];
      FilterMapEmptyIff(front, f);
      assert forall i :: 0 <= i < |front| ==> front[i] == xs[i];
    }
  }
}
