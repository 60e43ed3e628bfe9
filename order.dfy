/**
 * The comparison used by the binary search over the sorted static pool: `strncmp(str, entry, n)`
 * modelled as the lexicographic comparison of the first `n` bytes of each side.
 */
module Order {
  import opened IstrConfig

  /** Three-way lexicographic comparison; a proper prefix compares below the longer sequence. */
  function LexCmp(a: seq<byte>, b: seq<byte>): (r: int)
    ensures -1 <= r <= 1
    ensures r == 0 <==> a == b
  {
    if |a| == 0 then (if |b| == 0 then 0 else -1)
    else if |b| == 0 then 1
    else if a[0] < b[0] then -1
    else if a[0] > b[0] then 1
    else
      var r := LexCmp(a[1..], b[1..]);
      assert a == [a[0]] + a[1..] && b == [b[0]] + b[1..];
      r
  }

  /** The first `n` bytes of `x`, or all of `x` when it is shorter. */
  function Take(x: seq<byte>, n: nat): (t: seq<byte>)
    ensures |t| <= n && |t| <= |x| && t == x[..|t|]
    ensures |x| >= n ==> |t| == n
  {
    if n <= |x| then x[..n] else x
  }

  /** strncmp(a, b, n) for byte strings without embedded NULs. */
  function StrnCmp(a: seq<byte>, b: seq<byte>, n: nat): int {
    LexCmp(Take(a, n), Take(b, n))
  }

  /** Swapping the operands negates the comparison. */
  lemma {:induction false} LexCmpFlip(a: seq<byte>, b: seq<byte>)
    ensures LexCmp(b, a) == -LexCmp(a, b)
  {
    if |a| > 0 && |b| > 0 && a[0] == b[0] {
      LexCmpFlip(a[1..], b[1..]);
    }
  }

  /** An entry strictly below `s` stays strictly below it when cut to |s| bytes. */
  lemma {:induction false} CutBelow(e: seq<byte>, s: seq<byte>)
    requires LexCmp(e, s) < 0
    ensures LexCmp(s, Take(e, |s|)) > 0
  {
    var t := Take(e, |s|);
    if |t| == 0 {
      assert |s| > 0;
    } else if e[0] == s[0] {
      assert t[1..] == Take(e[1..], |s| - 1);
      CutBelow(e[1..], s[1..]);
    }
  }

  /** `s` at or below an entry stays at or below it when the entry is cut to |s| bytes. */
  lemma {:induction false} CutAbove(s: seq<byte>, e: seq<byte>)
    requires LexCmp(s, e) <= 0
    ensures LexCmp(s, Take(e, |s|)) <= 0
  {
    var t := Take(e, |s|);
    if |s| > 0 && |e| > 0 && s[0] == e[0] {
      assert t[1..] == Take(e[1..], |s| - 1);
      CutAbove(s[1..], e[1..]);
    }
  }
}
