/** `Array.prototype.filter` and `map` as functions on sequences, with the
    facts the rest of the model needs about them. */
module Seqs {

  /** The elements of `s` that satisfy `p`, in their original order. */
  function Filter<T>(s: seq<T>, p: T -> bool): (r: seq<T>)
    ensures |r| <= |s|
    ensures forall k :: 0 <= k < |r| ==> p(r[k])
  {
    if |s| == 0 then []
    else if p(s[0]) then [s[0]] + Filter(s[1..], p)
    else Filter(s[1..], p)
  }

  /** `f` applied to every element of `s`. */
  function Map<A, B>(s: seq<A>, f: A -> B): (r: seq<B>)
    ensures |r| == |s|
    ensures forall k :: 0 <= k < |s| ==> r[k] == f(s[k])
  {
    if |s| == 0 then [] else [f(s[0])] + Map(s[1..], f)
  }

  /** `idx` lists strictly increasing positions of `s`. */
  ghost predicate IncreasingIndices<T>(idx: seq<nat>, s: seq<T>) {
    (forall j :: 0 <= j < |idx| ==> idx[j] < |s|) &&
    (forall j, k :: 0 <= j < k < |idx| ==> idx[j] < idx[k])
  }

  /** Filter keeps an order-preserving subsequence: the kept elements sit at
      increasing positions of `s`, and those positions are exactly the ones
      whose element satisfies `p`. */
  lemma {:induction false} FilterIndices<T>(s: seq<T>, p: T -> bool) returns (idx: seq<nat>)
    ensures |idx| == |Filter(s, p)| && IncreasingIndices(idx, s)
    ensures forall j :: 0 <= j < |idx| ==> Filter(s, p)[j] == s[idx[j]]
    ensures forall i :: 0 <= i < |s| ==> (p(s[i]) <==> i in idx)
  {
    if |s| == 0 {
      idx := [];
    } else {
      var rest := FilterIndices(s[1..], p);
      var shifted := Shift(rest);
      ShiftedIndices(s, p, rest);
      if p(s[0]) {
        idx := [0] + shifted;
        assert Filter(s, p) == [s[0]] + Filter(s[1..], p);
        PrependZero(s, p, shifted);
      } else {
        idx := shifted;
        assert Filter(s, p) == Filter(s[1..], p);
      }
    }
  }

  /** The positions of a filtered tail, moved right by one, are positions of
      the whole sequence with the same meaning. */
  lemma ShiftedIndices<T>(s: seq<T>, p: T -> bool, rest: seq<nat>)
    requires |s| > 0
    requires |rest| == |Filter(s[1..], p)| && IncreasingIndices(rest, s[1..])
    requires forall j :: 0 <= j < |rest| ==> Filter(s[1..], p)[j] == s[1..][rest[j]]
    requires forall i :: 0 <= i < |s[1..]| ==> (p(s[1..][i]) <==> i in rest)
    ensures IncreasingIndices(Shift(rest), s)
    ensures forall j :: 0 <= j < |rest| ==> Filter(s[1..], p)[j] == s[Shift(rest)[j]]
    ensures forall i :: 1 <= i < |s| ==> (p(s[i]) <==> i in Shift(rest))
    ensures 0 !in Shift(rest)
  {
    var shifted := Shift(rest);
    forall i | 1 <= i < |s| ensures p(s[i]) <==> i in shifted {
      assert s[i] == s[1..][i - 1];
      if i - 1 in rest {
        var j :| 0 <= j < |rest| && rest[j] == i - 1;
        assert shifted[j] == i;
      }
      if i in shifted {
        var j :| 0 <= j < |shifted| && shifted[j] == i;
        assert rest[j] == i - 1;
      }
    }
  }

  /** Position 0 put in front of positions that all come later. */
  lemma PrependZero<T>(s: seq<T>, p: T -> bool, shifted: seq<nat>)
    requires |s| > 0 && p(s[0])
    requires IncreasingIndices(shifted, s) && 0 !in shifted
    requires |shifted| == |Filter(s[1..], p)|
    requires forall j :: 0 <= j < |shifted| ==> Filter(s[1..], p)[j] == s[shifted[j]]
    requires forall i :: 1 <= i < |s| ==> (p(s[i]) <==> i in shifted)
    ensures IncreasingIndices([0] + shifted, s)
    ensures forall j :: 0 <= j < |shifted| + 1 ==> ([s[0]] + Filter(s[1..], p))[j] == s[([0] + shifted)[j]]
    ensures forall i :: 0 <= i < |s| ==> (p(s[i]) <==> i in [0] + shifted)
  {
    var idx := [0] + shifted;
    forall j, k | 0 <= j < k < |idx| ensures idx[j] < idx[k] {
      if j == 0 {
        assert idx[k] == shifted[k - 1] && idx[k] != 0;
      }
    }
  }

  /** Every position moved one place to the right. */
  function Shift(idx: seq<nat>): (r: seq<nat>)
    ensures |r| == |idx|
    ensures forall j :: 0 <= j < |idx| ==> r[j] == idx[j] + 1
  {
    seq(|idx|, j requires 0 <= j < |idx| => idx[j] + 1)
  }

  /** Filtering distributes over appending one element. */
  lemma {:induction false} FilterSnoc<T>(s: seq<T>, x: T, p: T -> bool)
    ensures Filter(s + [x], p) == Filter(s, p) + (if p(x) then [x] else [])
  {
    if |s| > 0 {
      assert (s + [x])[1..] == s[1..] + [x];
      FilterSnoc(s[1..], x, p);
    }
  }

  /** Mapping distributes over concatenation. */
  lemma MapAppend<A, B>(s: seq<A>, t: seq<A>, f: A -> B)
    ensures Map(s + t, f) == Map(s, f) + Map(t, f)
  {
  }

  /** A filter whose predicate holds of every element keeps everything. */
  lemma {:induction false} FilterKeepsAll<T>(s: seq<T>, p: T -> bool)
    requires forall k :: 0 <= k < |s| ==> p(s[k])
    ensures Filter(s, p) == s
  {
    if |s| > 0 {
      FilterKeepsAll(s[1..], p);
    }
  }

  /** The concatenation of a sequence of texts. */
  function Concat(parts: seq<string>): string {
    if |parts| == 0 then "" else parts[0] + Concat(parts[1..])
  }

  lemma {:induction false} ConcatAppend(a: seq<string>, b: seq<string>)
    ensures Concat(a + b) == Concat(a) + Concat(b)
  {
    if |a| > 0 {
      assert (a + b)[0] == a[0] && (a + b)[1..] == a[1..] + b;
      ConcatAppend(a[1..], b);
      assert Concat(a + b) == a[0] + Concat(a[1..] + b);
    } else {
      assert a + b == b;
    }
  }

  /** Filtering, mapping and concatenating one more element adds that
      element's image when it passes the filter. */
  lemma ConcatMapFilterSnoc<T>(s: seq<T>, x: T, p: T -> bool, f: T -> string)
    ensures Concat(Map(Filter(s + [x], p), f)) == Concat(Map(Filter(s, p), f)) + (if p(x) then f(x) else "")
  {
    FilterSnoc(s, x, p);
    var extra := if p(x) then [x] else [];
    MapAppend(Filter(s, p), extra, f);
    ConcatAppend(Map(Filter(s, p), f), Map(extra, f));
    if p(x) {
      assert Map(extra, f) == [f(x)];
      assert Concat([f(x)]) == f(x) + Concat([]);
    } else {
      assert Map(extra, f) == [];
    }
  }

  /** The tail of a sequence of two or more elements is the tail of all but
      its last element, followed by that last element. */
  lemma TailSnoc<T>(s: seq<T>)
    requires |s| >= 2
    ensures s[..|s| - 1][0] == s[0] && s[1..] == s[..|s| - 1][1..] + [s[|s| - 1]]
  {
  }

  /** Mapping after filtering: the images of the kept elements, in order. */
  lemma MapFilterIndices<A, B>(s: seq<A>, p: A -> bool, f: A -> B) returns (idx: seq<nat>)
    ensures |Map(Filter(s, p), f)| == |idx| && IncreasingIndices(idx, s)
    ensures forall j :: 0 <= j < |idx| ==> Map(Filter(s, p), f)[j] == f(s[idx[j]])
    ensures forall i :: 0 <= i < |s| ==> (p(s[i]) <==> i in idx)
  {
    idx := FilterIndices(s, p);
  }
}
