/** Small shared vocabulary: an optional value, distinctness of a sequence, and
    the "text after the last separator" operation used for path parts and lists. */
module Common {

  datatype Option<T> = None | Some(value: T)

  predicate Distinct<T(==)>(s: seq<T>) {
    forall i, j :: 0 <= i < j < |s| ==> s[i] != s[j]
  }

  /** `idx` picks, in increasing positions of `s`, the elements of `sub`. */
  ghost predicate Embeds<T>(sub: seq<T>, s: seq<T>, idx: seq<int>) {
    && |idx| == |sub|
    && (forall k :: 0 <= k < |idx| ==> 0 <= idx[k] < |s| && s[idx[k]] == sub[k])
    && (forall k, l :: 0 <= k < l < |idx| ==> idx[k] < idx[l])
  }

  /** `sub` is `s` with some elements left out, the rest kept in their order. */
  ghost predicate Subsequence<T>(sub: seq<T>, s: seq<T>) {
    exists idx :: Embeds(sub, s, idx)
  }

  /** Appending an element to the sequence keeps a subsequence one, whether or
      not the subsequence takes that element too. */
  lemma SubsequenceSnocIf<T>(sub: seq<T>, s: seq<T>, x: T, take: bool)
    requires Subsequence(sub, s)
    ensures Subsequence(sub + (if take then [x] else []), s + [x])
  {
    var idx :| Embeds(sub, s, idx);
    if take {
      assert Embeds(sub + [x], s + [x], idx + [|s|]);
    } else {
      assert sub + [] == sub;
      assert Embeds(sub, s + [x], idx);
    }
  }

  /** The part of `s` after the last occurrence of `c`; all of `s` when `c` does not occur. */
  function AfterLast(s: string, c: char): (r: string)
    ensures |r| <= |s| && r == s[|s| - |r|..]
    ensures c !in r
    ensures |r| < |s| ==> s[|s| - |r| - 1] == c
    ensures c !in s ==> r == s
    decreases |s|
  {
    if s == [] then []
    else if s[|s| - 1] == c then []
    else AfterLast(s[..|s| - 1], c) + [s[|s| - 1]]
  }

  /** When `c` occurs, the part after its last occurrence is preceded by it. */
  lemma AfterLastOfSome(s: string, c: char)
    requires c in s
    ensures var r := AfterLast(s, c);
            |r| < |s| && s[|s| - |r| - 1..] == [c] + r
  {
    var r := AfterLast(s, c);
    assert s[|s| - |r| - 1..] == [s[|s| - |r| - 1]] + s[|s| - |r|..];
  }

  /** The part after the last `c` holds no character that `s` lacks. */
  lemma AfterLastLacks(s: string, c: char, x: char)
    requires x !in s
    ensures x !in AfterLast(s, c)
  {
  }

  /** Whatever stands before the last `c`, the text after it is found again. */
  lemma {:induction false} AfterLastOfJoin(head: string, c: char, tail: string)
    requires c !in tail
    ensures AfterLast(head + [c] + tail, c) == tail
    decreases |tail|
  {
    var s := head + [c] + tail;
    if tail == [] {
      assert s[|s| - 1] == c;
    } else {
      var n := |tail|;
      assert s[|s| - 1] == tail[n - 1];
      assert s[..|s| - 1] == head + [c] + tail[..n - 1];
      AfterLastOfJoin(head, c, tail[..n - 1]);
      assert tail[..n - 1] + [tail[n - 1]] == tail;
    }
  }
}
