/** The combine step of the sort programs: `mergeTwo`, a two-pointer merge that takes
    from the left input on ties, and `mergeAll`, which folds it over the chunks from
    left to right. The merge is stated over any element type ordered by an integer
    key, so that the tie rule can be observed; the programs merge `int`s by their
    own value. */
module MergeCombiner {
  import opened Optional

  /** Non-decreasing by key. */
  predicate SortedBy<T>(s: seq<T>, key: T -> int) {
    forall i, j :: 0 <= i < j < |s| ==> key(s[i]) <= key(s[j])
  }

  /** The elements of `s` that satisfy `p`, in their original order. */
  function Filter<T>(s: seq<T>, p: T -> bool): seq<T>
    decreases |s|
  {
    if s == [] then []
    else if p(s[0]) then [s[0]] + Filter(s[1..], p)
    else Filter(s[1..], p)
  }

  /** Reference definition of the two-pointer merge. */
  function Merge<T>(a: seq<T>, b: seq<T>, key: T -> int): (r: seq<T>)
    decreases |a| + |b|
  {
    if a == [] then b
    else if b == [] then a
    else if key(a[0]) <= key(b[0]) then [a[0]] + Merge(a[1..], b, key)
    else [b[0]] + Merge(a, b[1..], key)
  }

  /** The merge loses and invents nothing: it has `|a| + |b|` elements and is a
      permutation of `a + b`. */
  lemma {:induction false} MergePermutation<T>(a: seq<T>, b: seq<T>, key: T -> int)
    ensures |Merge(a, b, key)| == |a| + |b|
    ensures multiset(Merge(a, b, key)) == multiset(a) + multiset(b)
    decreases |a| + |b|
  {
    if a != [] && b != [] {
      if key(a[0]) <= key(b[0]) {
        MergePermutation(a[1..], b, key);
        HeadTailMultiset(a);
      } else {
        MergePermutation(a, b[1..], key);
        HeadTailMultiset(b);
      }
    }
  }

  /** A non-empty sequence is its head followed by its tail, also as a multiset. */
  lemma HeadTailMultiset<T>(s: seq<T>)
    requires s != []
    ensures multiset(s) == multiset{s[0]} + multiset(s[1..])
  {
    assert s == [s[0]] + s[1..];
  }

  lemma SortedTail<T>(s: seq<T>, key: T -> int)
    requires SortedBy(s, key) && s != []
    ensures SortedBy(s[1..], key)
    ensures forall x :: x in s ==> key(s[0]) <= key(x)
  {
    forall x | x in s ensures key(s[0]) <= key(x) {
      var i :| 0 <= i < |s| && s[i] == x;
    }
  }

  /** Putting an element in front of a sorted sequence whose keys are all at least its
      own keeps it sorted. */
  lemma SortedCons<T>(h: T, s: seq<T>, key: T -> int)
    requires SortedBy(s, key)
    requires forall x :: x in s ==> key(h) <= key(x)
    ensures SortedBy([h] + s, key)
  {
    var r := [h] + s;
    forall i, j | 0 <= i < j < |r| ensures key(r[i]) <= key(r[j]) {
      assert r[j] == s[j - 1];
      assert r[j] in s;
      if i > 0 {
        assert r[i] == s[i - 1];
      }
    }
  }

  /** A lower bound on the keys of both inputs is a lower bound on the merge. */
  lemma MergeLowerBound<T>(h: T, a: seq<T>, b: seq<T>, key: T -> int)
    requires forall x :: x in a ==> key(h) <= key(x)
    requires forall x :: x in b ==> key(h) <= key(x)
    ensures forall x :: x in Merge(a, b, key) ==> key(h) <= key(x)
  {
    MergePermutation(a, b, key);
    forall x | x in Merge(a, b, key) ensures key(h) <= key(x) {
      assert x in multiset(Merge(a, b, key));
      assert x in multiset(a) || x in multiset(b);
    }
  }

  /** Merging two non-decreasing inputs gives a non-decreasing output. */
  lemma {:induction false} MergeSorted<T>(a: seq<T>, b: seq<T>, key: T -> int)
    requires SortedBy(a, key) && SortedBy(b, key)
    ensures SortedBy(Merge(a, b, key), key)
    decreases |a| + |b|
  {
    if a != [] && b != [] {
      SortedTail(a, key);
      SortedTail(b, key);
      if key(a[0]) <= key(b[0]) {
        MergeSorted(a[1..], b, key);
        assert forall x :: x in a[1..] ==> x in a;
        MergeLowerBound(a[0], a[1..], b, key);
        SortedCons(a[0], Merge(a[1..], b, key), key);
      } else {
        MergeSorted(a, b[1..], key);
        assert forall x :: x in b[1..] ==> x in b;
        MergeLowerBound(b[0], a, b[1..], key);
        SortedCons(b[0], Merge(a, b[1..], key), key);
      }
    }
  }

  /** The merge interleaves its inputs: the elements that came from `a` appear in the
      order they had in `a`, and likewise for `b`. */
  lemma {:induction false} MergeInterleaves<T>(a: seq<T>, b: seq<T>, key: T -> int, fromLeft: T -> bool)
    requires forall x :: x in a ==> fromLeft(x)
    requires forall x :: x in b ==> !fromLeft(x)
    ensures Filter(Merge(a, b, key), fromLeft) == a
    ensures Filter(Merge(a, b, key), x => !fromLeft(x)) == b
    decreases |a| + |b|
  {
    var notLeft := x => !fromLeft(x);
    if a == [] {
      FilterAll(b, notLeft);
      FilterNone(b, fromLeft);
    } else if b == [] {
      FilterAll(a, fromLeft);
      FilterNone(a, notLeft);
    } else if key(a[0]) <= key(b[0]) {
      MergeInterleaves(a[1..], b, key, fromLeft);
      assert a[0] in a;
      assert a == [a[0]] + a[1..];
    } else {
      MergeInterleaves(a, b[1..], key, fromLeft);
      assert b[0] in b;
      assert b == [b[0]] + b[1..];
    }
  }

  lemma {:induction false} FilterAll<T>(s: seq<T>, p: T -> bool)
    requires forall x :: x in s ==> p(x)
    ensures Filter(s, p) == s
    decreases |s|
  {
    if s != [] {
      assert s[0] in s;
      FilterAll(s[1..], p);
      assert s == [s[0]] + s[1..];
    }
  }

  lemma {:induction false} FilterNone<T>(s: seq<T>, p: T -> bool)
    requires forall x :: x in s ==> !p(x)
    ensures Filter(s, p) == []
    decreases |s|
  {
    if s != [] {
      assert s[0] in s;
      FilterNone(s[1..], p);
    }
  }

  /** No element that is not from the left precedes an equal-keyed one that is. */
  predicate LeftFirst<T>(r: seq<T>, key: T -> int, fromLeft: T -> bool) {
    forall i, j :: 0 <= i < j < |r| && key(r[i]) == key(r[j]) && fromLeft(r[j]) ==> fromLeft(r[i])
  }

  /** When the head of `b` is taken, every left element still to come has a strictly
      larger key. */
  lemma RightHeadHasNoLeftTie<T>(a: seq<T>, b: seq<T>, key: T -> int, fromLeft: T -> bool, x: T)
    requires SortedBy(a, key)
    requires a != [] && b != [] && key(a[0]) > key(b[0])
    requires forall y :: y in b ==> !fromLeft(y)
    requires x in Merge(a, b[1..], key) && fromLeft(x)
    ensures key(x) > key(b[0])
  {
    MergePermutation(a, b[1..], key);
    assert x in multiset(Merge(a, b[1..], key));
    assert forall y :: y in b[1..] ==> y in b;
    assert x in a;
    SortedTail(a, key);
  }

  /** A left element may go in front of an output that already keeps the tie rule. */
  lemma LeftFirstConsLeft<T>(h: T, rest: seq<T>, key: T -> int, fromLeft: T -> bool)
    requires fromLeft(h) && LeftFirst(rest, key, fromLeft)
    ensures LeftFirst([h] + rest, key, fromLeft)
  {
    var r := [h] + rest;
    forall i, j | 0 <= i < j < |r| && key(r[i]) == key(r[j]) && fromLeft(r[j])
      ensures fromLeft(r[i])
    {
      if i > 0 {
        assert r[i] == rest[i - 1] && r[j] == rest[j - 1];
      }
    }
  }

  /** A right element may go in front when every left element after it has a larger key. */
  lemma LeftFirstConsRight<T>(h: T, rest: seq<T>, key: T -> int, fromLeft: T -> bool)
    requires LeftFirst(rest, key, fromLeft)
    requires forall x :: x in rest && fromLeft(x) ==> key(x) > key(h)
    ensures LeftFirst([h] + rest, key, fromLeft)
  {
    var r := [h] + rest;
    forall i, j | 0 <= i < j < |r| && key(r[i]) == key(r[j]) && fromLeft(r[j])
      ensures fromLeft(r[i])
    {
      assert r[j] == rest[j - 1];
      if i > 0 {
        assert r[i] == rest[i - 1];
      }
    }
  }

  /** The tie rule: when an element from `a` and one from `b` have equal keys, the one
      from `a` comes first. So no element of `b` ever precedes an equal-keyed
      element of `a`. */
  lemma {:induction false} MergeLeftFirstOnTies<T>(a: seq<T>, b: seq<T>, key: T -> int, fromLeft: T -> bool)
    requires SortedBy(a, key) && SortedBy(b, key)
    requires forall x :: x in a ==> fromLeft(x)
    requires forall x :: x in b ==> !fromLeft(x)
    ensures LeftFirst(Merge(a, b, key), key, fromLeft)
    decreases |a| + |b|
  {
    if a == [] || b == [] {
      var r := Merge(a, b, key);
      assert r == a || r == b;
      assert forall i :: 0 <= i < |r| ==> r[i] in r;
    } else {
      SortedTail(a, key);
      SortedTail(b, key);
      if key(a[0]) <= key(b[0]) {
        assert forall x :: x in a[1..] ==> x in a;
        MergeLeftFirstOnTies(a[1..], b, key, fromLeft);
        assert a[0] in a;
        LeftFirstConsLeft(a[0], Merge(a[1..], b, key), key, fromLeft);
      } else {
        var rest := Merge(a, b[1..], key);
        assert forall x :: x in b[1..] ==> x in b;
        MergeLeftFirstOnTies(a, b[1..], key, fromLeft);
        forall x | x in rest && fromLeft(x) ensures key(x) > key(b[0]) {
          RightHeadHasNoLeftTie(a, b, key, fromLeft, x);
        }
        LeftFirstConsRight(b[0], rest, key, fromLeft);
      }
    }
  }

  lemma MergeTakesLeft<T>(a: seq<T>, b: seq<T>, key: T -> int)
    requires a != [] && (b == [] || key(a[0]) <= key(b[0]))
    ensures Merge(a, b, key) == [a[0]] + Merge(a[1..], b, key)
  {
    if b == [] {
      assert Merge(a[1..], b, key) == a[1..];
      assert a == [a[0]] + a[1..];
    }
  }

  lemma MergeTakesRight<T>(a: seq<T>, b: seq<T>, key: T -> int)
    requires b != [] && (a == [] || key(a[0]) > key(b[0]))
    ensures Merge(a, b, key) == [b[0]] + Merge(a, b[1..], key)
  {
    if a == [] {
      assert b == [b[0]] + b[1..];
    }
  }

  /** `mergeTwo`'s loop state: the output so far followed by the merge of what is
      left of both inputs is the whole merge. */
  ghost predicate MergedPrefix<T>(dest: seq<T>, A: seq<T>, B: seq<T>, i: nat, j: nat, key: T -> int) {
    i <= |A| && j <= |B| && dest + Merge(A[i..], B[j..], key) == Merge(A, B, key)
  }

  /** One step of `mergeTwo` taking `A[i]`: the output so far plus the merge of what
      is left is still the whole merge. */
  lemma StepLeft<T>(dest: seq<T>, A: seq<T>, B: seq<T>, i: nat, j: nat, key: T -> int)
    requires i < |A| && j <= |B|
    requires j == |B| || key(A[i]) <= key(B[j])
    requires MergedPrefix(dest, A, B, i, j, key)
    ensures MergedPrefix(dest + [A[i]], A, B, i + 1, j, key)
  {
    var a, b := A[i..], B[j..];
    assert a[0] == A[i] && a[1..] == A[i + 1..];
    assert b != [] ==> b[0] == B[j];
    MergeTakesLeft(a, b, key);
    var m := Merge(A[i + 1..], b, key);
    assert dest + ([A[i]] + m) == (dest + [A[i]]) + m;
  }

  /** One step of `mergeTwo` taking `B[j]`. */
  lemma StepRight<T>(dest: seq<T>, A: seq<T>, B: seq<T>, i: nat, j: nat, key: T -> int)
    requires i <= |A| && j < |B|
    requires i == |A| || key(A[i]) > key(B[j])
    requires MergedPrefix(dest, A, B, i, j, key)
    ensures MergedPrefix(dest + [B[j]], A, B, i, j + 1, key)
  {
    var a, b := A[i..], B[j..];
    assert b[0] == B[j] && b[1..] == B[j + 1..];
    assert a != [] ==> a[0] == A[i];
    MergeTakesRight(a, b, key);
    var m := Merge(a, B[j + 1..], key);
    assert dest + ([B[j]] + m) == (dest + [B[j]]) + m;
  }

  /** The three facts `mergeTwo` promises, gathered from the lemmas above. */
  lemma MergeFacts<T>(a: seq<T>, b: seq<T>, key: T -> int)
    ensures |Merge(a, b, key)| == |a| + |b|
    ensures multiset(Merge(a, b, key)) == multiset(a) + multiset(b)
    ensures SortedBy(a, key) && SortedBy(b, key) ==> SortedBy(Merge(a, b, key), key)
  {
    MergePermutation(a, b, key);
    if SortedBy(a, key) && SortedBy(b, key) {
      MergeSorted(a, b, key);
    }
  }

  /** `mergeTwo` as written: `i`, `j` walk `A` and `B`, `dest[k++]` receives the smaller
      head (`A`'s on ties), then the leftovers of `A`, then those of `B`. Each of its
      three loops is one helper below. */
  method MergeTwo<T>(A: seq<T>, B: seq<T>, key: T -> int) returns (dest: seq<T>)
    ensures dest == Merge(A, B, key)
    ensures |dest| == |A| + |B|
    ensures multiset(dest) == multiset(A) + multiset(B)
    ensures SortedBy(A, key) && SortedBy(B, key) ==> SortedBy(dest, key)
  {
    var i, j;
    dest, i, j := MergeHeads(A, B, key);
    dest, i := CopyRestOfLeft(dest, A, B, i, j, key);
    dest, j := CopyRestOfRight(dest, A, B, i, j, key);
    MergedPrefixDone(dest, A, B, key);
  }

  /** The first loop of `mergeTwo`: while both inputs have elements, take the smaller
      head, `A`'s on ties. It stops when one input is used up. */
  method MergeHeads<T>(A: seq<T>, B: seq<T>, key: T -> int) returns (dest: seq<T>, i: nat, j: nat)
    ensures MergedPrefix(dest, A, B, i, j, key)
    ensures i == |A| || j == |B|
  {
    i, j := 0, 0;
    dest := [];
    while i < |A| && j < |B|
      invariant MergedPrefix(dest, A, B, i, j, key)
      decreases |A| - i + |B| - j
    {
      if key(A[i]) <= key(B[j]) {
        StepLeft(dest, A, B, i, j, key);
        dest := dest + [A[i]];
        i := i + 1;
      } else {
        StepRight(dest, A, B, i, j, key);
        dest := dest + [B[j]];
        j := j + 1;
      }
    }
  }

  /** The second loop of `mergeTwo`: copy what is left of `A`. */
  method CopyRestOfLeft<T>(dest0: seq<T>, A: seq<T>, B: seq<T>, i0: nat, j: nat, key: T -> int)
      returns (dest: seq<T>, i: nat)
    requires MergedPrefix(dest0, A, B, i0, j, key)
    requires i0 == |A| || j == |B|
    ensures MergedPrefix(dest, A, B, i, j, key)
    ensures i == |A|
  {
    dest, i := dest0, i0;
    while i < |A|
      invariant i < |A| ==> j == |B|
      invariant MergedPrefix(dest, A, B, i, j, key)
    {
      StepLeft(dest, A, B, i, j, key);
      dest := dest + [A[i]];
      i := i + 1;
    }
  }

  /** The third loop of `mergeTwo`: copy what is left of `B`. */
  method CopyRestOfRight<T>(dest0: seq<T>, A: seq<T>, B: seq<T>, i: nat, j0: nat, key: T -> int)
      returns (dest: seq<T>, j: nat)
    requires MergedPrefix(dest0, A, B, i, j0, key)
    requires i == |A|
    ensures MergedPrefix(dest, A, B, i, j, key)
    ensures j == |B|
  {
    dest, j := dest0, j0;
    while j < |B|
      invariant MergedPrefix(dest, A, B, i, j, key)
    {
      StepRight(dest, A, B, i, j, key);
      dest := dest + [B[j]];
      j := j + 1;
    }
  }

  /** Once both inputs are used up, the output is the whole merge. */
  lemma MergedPrefixDone<T>(dest: seq<T>, A: seq<T>, B: seq<T>, key: T -> int)
    requires MergedPrefix(dest, A, B, |A|, |B|, key)
    ensures dest == Merge(A, B, key)
    ensures |dest| == |A| + |B|
    ensures multiset(dest) == multiset(A) + multiset(B)
    ensures SortedBy(A, key) && SortedBy(B, key) ==> SortedBy(dest, key)
  {
    assert A[|A|..] == [] && B[|B|..] == [];
    MergeFacts(A, B, key);
  }

  // ---------------------------------------------------------------------------
  // mergeAll

  /** All chunks laid end to end. */
  function Concat<T>(chunks: seq<seq<T>>): seq<T>
    decreases |chunks|
  {
    if chunks == [] then [] else chunks[0] + Concat(chunks[1..])
  }

  /** The loop of `mergeAll` from the current accumulator on: each remaining chunk is
      merged in on the right. */
  function MergeInto<T>(acc: seq<T>, chunks: seq<seq<T>>, key: T -> int): seq<T>
    decreases |chunks|
  {
    if chunks == [] then acc else MergeInto(Merge(acc, chunks[0], key), chunks[1..], key)
  }

  /** `mergeAll`: no chunks give nothing; otherwise chunk 0 is the initial accumulator. */
  function MergeAllSpec<T>(chunks: seq<seq<T>>, key: T -> int): seq<T> {
    if chunks == [] then [] else MergeInto(chunks[0], chunks[1..], key)
  }

  /** Every chunk is non-decreasing by key. */
  predicate AllSortedBy<T>(chunks: seq<seq<T>>, key: T -> int) {
    forall c :: 0 <= c < |chunks| ==> SortedBy(chunks[c], key)
  }

  lemma {:induction false} MergeIntoPermutation<T>(acc: seq<T>, chunks: seq<seq<T>>, key: T -> int)
    ensures multiset(MergeInto(acc, chunks, key)) == multiset(acc) + multiset(Concat(chunks))
    ensures |MergeInto(acc, chunks, key)| == |acc| + |Concat(chunks)|
    decreases |chunks|
  {
    if chunks != [] {
      MergePermutation(acc, chunks[0], key);
      MergeIntoPermutation(Merge(acc, chunks[0], key), chunks[1..], key);
    }
  }

  lemma {:induction false} MergeIntoSorted<T>(acc: seq<T>, chunks: seq<seq<T>>, key: T -> int)
    requires SortedBy(acc, key) && AllSortedBy(chunks, key)
    ensures SortedBy(MergeInto(acc, chunks, key), key)
    decreases |chunks|
  {
    if chunks != [] {
      MergeSorted(acc, chunks[0], key);
      assert AllSortedBy(chunks[1..], key) by {
        assert forall c :: 0 <= c < |chunks[1..]| ==> chunks[1..][c] == chunks[c + 1];
      }
      MergeIntoSorted(Merge(acc, chunks[0], key), chunks[1..], key);
    }
  }

  /** The result of `mergeAll` holds exactly the elements of all chunks (so its length
      is the sum of their lengths), a single chunk comes back unchanged, and when
      every chunk is sorted the result is sorted. */
  lemma MergeAllCorrect<T>(chunks: seq<seq<T>>, key: T -> int)
    ensures multiset(MergeAllSpec(chunks, key)) == multiset(Concat(chunks))
    ensures |MergeAllSpec(chunks, key)| == |Concat(chunks)|
    ensures |chunks| == 1 ==> MergeAllSpec(chunks, key) == chunks[0]
    ensures AllSortedBy(chunks, key) ==> SortedBy(MergeAllSpec(chunks, key), key)
  {
    if chunks != [] {
      MergeIntoPermutation(chunks[0], chunks[1..], key);
      if AllSortedBy(chunks, key) {
        assert AllSortedBy(chunks[1..], key) by {
          assert forall c :: 0 <= c < |chunks[1..]| ==> chunks[1..][c] == chunks[c + 1];
        }
        MergeIntoSorted(chunks[0], chunks[1..], key);
      }
      if |chunks| == 1 {
        assert Concat(chunks[1..]) == [];
        assert chunks[0] + [] == chunks[0];
      }
    }
  }

  /** `mergeAll` as written: `None` stands for the NULL pointer returned for zero
      chunks; otherwise chunk 0 is copied and every later chunk is merged into a
      fresh buffer of the combined length. */
  method MergeAll<T>(chunks: seq<seq<T>>, key: T -> int) returns (out: Option<seq<T>>, outLen: nat)
    ensures out == None <==> chunks == []
    ensures outLen == |Concat(chunks)|
    ensures out.Some? ==> |out.value| == outLen && multiset(out.value) == multiset(Concat(chunks))
    ensures out.Some? && AllSortedBy(chunks, key) ==> SortedBy(out.value, key)
    ensures |chunks| == 1 ==> out == Some(chunks[0])
    ensures out.Some? ==> out.value == MergeAllSpec(chunks, key)
  {
    if |chunks| == 0 {
      return None, 0;
    }
    var merged := chunks[0];
    var mergedLen := |chunks[0]|;
    var c := 1;
    while c < |chunks|
      invariant 1 <= c <= |chunks|
      invariant mergedLen == |merged|
      invariant MergeInto(merged, chunks[c..], key) == MergeAllSpec(chunks, key)
    {
      assert chunks[c..][0] == chunks[c] && chunks[c..][1..] == chunks[c + 1..];
      var newLen := mergedLen + |chunks[c]|;
      var tmp := MergeTwo(merged, chunks[c], key);
      merged := tmp;
      mergedLen := newLen;
      c := c + 1;
    }
    assert chunks[c..] == [];
    MergeAllCorrect(chunks, key);
    out, outLen := Some(merged), mergedLen;
  }
}
