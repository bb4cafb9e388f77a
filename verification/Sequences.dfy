/** Cutting a stretch out of a sequence and putting another in its place. */
module Sequences {

  /** `s` with the elements lo..hi replaced by `p`. */
  function Replace<T>(s: seq<T>, lo: nat, hi: nat, p: seq<T>): (r: seq<T>)
    requires lo <= hi <= |s|
    ensures |r| == |s| - (hi - lo) + |p|
    ensures forall i | 0 <= i < |r| ::
              r[i] == if i < lo then s[i] else if i < lo + |p| then p[i-lo] else s[i - lo - |p| + hi]
  {
    seq(|s| - (hi - lo) + |p|, i requires 0 <= i < |s| - (hi - lo) + |p| =>
      if i < lo then s[i] else if i < lo + |p| then p[i-lo] else s[i - lo - |p| + hi])
  }

  /** `s` without its element `k`. */
  function Without<T>(s: seq<T>, k: nat): (r: seq<T>)
    requires k < |s|
    ensures |r| == |s| - 1
    ensures forall i | 0 <= i < |r| :: r[i] == if i < k then s[i] else s[i+1]
  {
    seq(|s| - 1, i requires 0 <= i < |s| - 1 => if i < k then s[i] else s[i+1])
  }

  /** Putting the old element back undoes a replacement. */
  lemma ReplaceBack<T>(s: seq<T>, k: nat, p: seq<T>)
    requires k < |s|
    ensures Replace(Replace(s, k, k + 1, p), k, k + |p|, [s[k]]) == s
  {
    var r := Replace(s, k, k + 1, p);
    var back := Replace(r, k, k + |p|, [s[k]]);
    forall i | 0 <= i < |s| ensures back[i] == s[i] {
      if i < k {
        assert back[i] == r[i];
      } else if k < i {
        assert back[i] == r[i - 1 + |p|];
      }
    }
  }

  lemma MemberOfParts<T>(s: seq<T>, lo: nat, hi: nat, x: T)
    requires lo <= hi <= |s|
    ensures x in s <==> x in s[..lo] || x in s[lo..hi] || x in s[hi..]
  {
    assert s == s[..lo] + s[lo..hi] + s[hi..];
  }

  lemma MemberOfReplace<T>(s: seq<T>, lo: nat, hi: nat, p: seq<T>, x: T)
    requires lo <= hi <= |s|
    ensures x in Replace(s, lo, hi, p) <==> x in s[..lo] || x in p || x in s[hi..]
  {
    assert Replace(s, lo, hi, p) == s[..lo] + p + s[hi..];
  }
}
