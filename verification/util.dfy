/** The list helpers shared by the layout encoders: `padList`, plus the
    JavaScript `slice` and `charCodeAt` behaviour they rely on. */
module Util {
  import opened Wrappers

  /** `padList`'s default target length. */
  const DefaultPadLength: nat := 10000

  /** The list `padList(l, n)` returns: l followed by zeros up to length n.
      Writing past the end of a JavaScript array grows it, so a list longer
      than n comes back whole. */
  function Padded(l: seq<int>, n: nat): (r: seq<int>)
    ensures |r| == Max(n, |l|)
  {
    seq(Max(n, |l|), k => if 0 <= k < |l| then l[k] else 0)
  }

  /** `padList(list, length)`: a zero-filled array of `length` entries whose
      first |list| entries are overwritten by the list. */
  method PadList(list: seq<int>, length: nat) returns (out: seq<int>)
    ensures out == Padded(list, length)
  {
    out := seq(length, _ => 0);
    var i := 0;
    while i < |list|
      invariant 0 <= i <= |list|
      invariant |out| == Max(length, i)
      invariant forall k :: 0 <= k < i ==> out[k] == list[k]
      invariant forall k :: i <= k < |out| ==> out[k] == 0
    {
      if i < |out| {
        out := out[i := list[i]];
      } else {
        out := out + [list[i]];
      }
      i := i + 1;
    }
  }

  /** The padded list is at least n long, starts with the list and holds
      zeros after it. */
  lemma PaddedShape(l: seq<int>, n: nat)
    ensures |Padded(l, n)| >= n && |Padded(l, n)| >= |l|
    ensures Padded(l, n)[..|l|] == l
    ensures forall k :: |l| <= k < |Padded(l, n)| ==> Padded(l, n)[k] == 0
  {
  }

  /** A list already at least n long is returned unchanged. */
  lemma PaddedLong(l: seq<int>, n: nat)
    requires |l| >= n
    ensures Padded(l, n) == l
  {
  }

  /** Padding twice to the same length pads once. */
  lemma PaddedIdempotent(l: seq<int>, n: nat)
    ensures Padded(Padded(l, n), n) == Padded(l, n)
  {
    PaddedLong(Padded(l, n), n);
  }

  /** Padding to n then to m is padding to max(n, m). */
  lemma PaddedTwice(l: seq<int>, n: nat, m: nat)
    ensures Padded(Padded(l, n), m) == Padded(l, Max(n, m))
  {
  }

  lemma AppendAssoc(a: seq<int>, b: seq<int>, c: seq<int>)
    ensures (a + b) + c == a + (b + c)
  {
  }

  lemma PrefixAppend(a: seq<int>, b: seq<int>, c: seq<int>)
    requires a <= b
    ensures a <= b + c
  {
    assert (b + c)[..|a|] == b[..|a|];
  }

  /** JavaScript `list.slice(a, b)` for non-negative bounds: both are
      clipped to the list's length, and a range with b <= a is empty. */
  function Slice(list: seq<int>, a: nat, b: nat): (r: seq<int>)
    ensures |r| == (if b <= a || |list| <= a then 0 else if b <= |list| then b - a else |list| - a)
    ensures forall k :: 0 <= k < |r| ==> r[k] == list[a + k]
  {
    if b <= a || |list| <= a then [] else if b <= |list| then list[a..b] else list[a..]
  }

  /** `s.split("").map(c => c.charCodeAt(0))`: one code per character. */
  function CharCodes(s: string): (r: seq<int>)
    ensures |r| == |s|
    ensures forall k :: 0 <= k < |s| ==> r[k] == s[k] as int
  {
    seq(|s|, k requires 0 <= k < |s| => s[k] as int)
  }
}
