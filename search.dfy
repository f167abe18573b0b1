/** `Array.prototype.findIndex` on sequences. */
module Search {

  /** The first index at which `p` holds, or -1 when it holds nowhere. */
  function FindIndex<T>(s: seq<T>, p: T -> bool): (r: int)
    ensures -1 <= r < |s|
    ensures r == -1 <==> forall k :: 0 <= k < |s| ==> !p(s[k])
    ensures 0 <= r ==> p(s[r]) && forall k :: 0 <= k < r ==> !p(s[k])
  {
    if s == [] then -1
    else if p(s[0]) then 0
    else
      var k := FindIndex(s[1..], p);
      if k == -1 then -1 else k + 1
  }
}
