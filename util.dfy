/** Small value types shared by every module of the model. */
module Util {

  /** JavaScript's `undefined`/`null` next to a present value. */
  datatype Option<+T> = None | Some(value: T)

  /**
   * The index of the first element of `s` satisfying `p`, or -1 when there
   * is none: the meaning of `Array.prototype.findIndex`, and of `find` when
   * the caller only needs to know which element it returned.
   */
  function FirstIndex<T>(s: seq<T>, p: T -> bool): (r: int)
    ensures -1 <= r < |s|
    ensures r >= 0 ==> p(s[r]) && forall j :: 0 <= j < r ==> !p(s[j])
    ensures r == -1 <==> forall j :: 0 <= j < |s| ==> !p(s[j])
  {
    if s == [] then -1
    else if p(s[0]) then 0
    else
      var k := FirstIndex(s[1..], p);
      if k == -1 then -1 else k + 1
  }

  /** `Array.prototype.every`: `p` holds of every element (so of none when empty). */
  function All<T>(s: seq<T>, p: T -> bool): (r: bool)
    ensures r <==> forall j :: 0 <= j < |s| ==> p(s[j])
  {
    if s == [] then true
    else
      var rest := All(s[1..], p);
      assert rest <==> forall j :: 1 <= j < |s| ==> p(s[j]) by {
        assert forall j :: 1 <= j < |s| ==> s[j] == s[1..][j - 1];
      }
      p(s[0]) && rest
  }

  /** Two searches that ask the same question position by position find the same index. */
  lemma FirstIndexAgrees<T>(a: seq<T>, p: T -> bool, b: seq<T>, q: T -> bool)
    requires |a| == |b| && forall k :: 0 <= k < |a| ==> p(a[k]) == q(b[k])
    ensures FirstIndex(a, p) == FirstIndex(b, q)
  {
  }

  /** `s` without the element at position `i` (`splice(i, 1)`). */
  function RemoveAt<T>(s: seq<T>, i: nat): (r: seq<T>)
    requires i < |s|
    ensures |r| == |s| - 1
    ensures forall k :: 0 <= k < i ==> r[k] == s[k]
    ensures forall k :: i <= k < |r| ==> r[k] == s[k + 1]
  {
    s[..i] + s[i + 1..]
  }
}
