/**
 * `count_zeroes(address)` of sync.py: after dropping the two-character
 * prefix ("0x"), the number of leading "00" pairs (the regex `^(00)*`,
 * halved) and the number of "00" occurrences `str.count` finds.
 */
module ZeroCount {

  /** The pair of counts, in the order `count_zeroes` returns them. */
  datatype ZeroCounts = ZeroCounts(total: nat, leading: nat)

  /** `k` copies of "00". */
  function Zeros(k: nat): (z: string)
    ensures |z| == 2 * k
    ensures forall i :: 0 <= i < |z| ==> z[i] == '0'
  {
    if k == 0 then "" else "00" + Zeros(k - 1)
  }

  /** `address[2:]`: empty when the address is shorter than two characters. */
  function Remainder(address: string): (rest: string)
    ensures |address| >= 2 ==> address == address[..2] + rest
    ensures |address| < 2 ==> rest == ""
  {
    if |address| >= 2 then address[2..] else ""
  }

  predicate StartsWithPair(s: string)
  {
    |s| >= 2 && s[0] == '0' && s[1] == '0'
  }

  /** The first `n` characters of `s` exist and are all '0'. */
  predicate ZeroPrefix(s: string, n: int)
  {
    0 <= n <= |s| && forall i :: 0 <= i < n ==> s[i] == '0'
  }

  /**
   * The length of the greedy match of `^(00)*`, halved: the largest `k`
   * such that `s` starts with `k` copies of "00".
   */
  function LeadingPairs(s: string): (k: nat)
    ensures ZeroPrefix(s, 2 * k) && !ZeroPrefix(s, 2 * k + 2)
    decreases |s|
  {
    if StartsWithPair(s) then
      var k := LeadingPairs(s[2..]);
      ZeroPrefixAfterPair(s, 2 * k);
      ZeroPrefixAfterPair(s, 2 * k + 2);
      k + 1
    else
      assert !ZeroPrefix(s, 2);
      0
  }

  /** Behind a leading "00", a zero prefix of the rest is a zero prefix two longer. */
  lemma {:induction false} ZeroPrefixAfterPair(s: string, n: nat)
    requires StartsWithPair(s)
    ensures ZeroPrefix(s, n + 2) <==> ZeroPrefix(s[2..], n)
  {
    if ZeroPrefix(s[2..], n) {
      forall i | 0 <= i < n + 2
        ensures s[i] == '0'
      {
        if i >= 2 { assert s[i] == s[2..][i - 2]; }
      }
    }
    if ZeroPrefix(s, n + 2) {
      forall i | 0 <= i < n
        ensures s[2..][i] == '0'
      {
        assert s[2..][i] == s[i + 2];
      }
    }
  }

  /**
   * `s.count("00")`: occurrences of "00" found scanning left to right, each
   * match resuming the scan right after itself.
   */
  function CountPairs(s: string): (n: nat)
    ensures 2 * n <= |s|
    decreases |s|
  {
    if |s| < 2 then 0
    else if StartsWithPair(s) then 1 + CountPairs(s[2..])
    else CountPairs(s[1..])
  }

  /** `count_zeroes(address)`, returning (total, leading). */
  function CountZeroes(address: string): (r: ZeroCounts)
    ensures r.leading <= r.total
    ensures 2 * r.total <= |Remainder(address)|
    ensures |address| <= 2 ==> r == ZeroCounts(0, 0)
  {
    var rest := Remainder(address);
    LeadingAtMostTotal(rest);
    ZeroCounts(CountPairs(rest), LeadingPairs(rest))
  }

  /** Every leading pair is also counted by `str.count`. */
  lemma {:induction false} LeadingAtMostTotal(s: string)
    ensures LeadingPairs(s) <= CountPairs(s)
    decreases |s|
  {
    if StartsWithPair(s) {
      LeadingAtMostTotal(s[2..]);
    }
  }

  /** `s` starts with "00" repeated `k` times exactly when `k` is at most the leading count. */
  lemma {:induction false} LeadingPairsIsLargest(s: string, k: nat)
    ensures (2 * k <= |s| && s[..2 * k] == Zeros(k)) <==> k <= LeadingPairs(s)
  {
    var n := LeadingPairs(s);
    if k <= n {
      assert ZeroPrefix(s, 2 * k);
      assert s[..2 * k] == Zeros(k);
    } else if 2 * k <= |s| && s[..2 * k] == Zeros(k) {
      assert s[..2 * k][2 * n] == s[2 * n] && s[..2 * k][2 * n + 1] == s[2 * n + 1];
      assert ZeroPrefix(s, 2 * n + 2);
      assert false;
    }
  }

  // ---------------------------------------------------------------------
  // total_zeroes is the largest number of non-overlapping "00" occurrences

  /** Positions of "00" in `s`, ascending and at least two apart (non-overlapping). */
  ghost predicate PairOccurrences(s: string, ps: seq<nat>)
  {
    (forall i :: 0 <= i < |ps| ==> ps[i] + 2 <= |s| && s[ps[i]] == '0' && s[ps[i] + 1] == '0')
    && (forall i, j :: 0 <= i < j < |ps| ==> ps[i] + 2 <= ps[j])
  }

  /** Every position moved `d` places to the left. */
  function Shift(ps: seq<nat>, d: nat): (qs: seq<nat>)
    requires forall i :: 0 <= i < |ps| ==> d <= ps[i]
    ensures |qs| == |ps| && forall i :: 0 <= i < |ps| ==> qs[i] == ps[i] - d
  {
    seq(|ps|, i requires 0 <= i < |ps| => ps[i] - d)
  }

  /** Every position moved `d` places to the right. */
  function Unshift(qs: seq<nat>, d: nat): (ps: seq<nat>)
    ensures |ps| == |qs| && forall i :: 0 <= i < |qs| ==> ps[i] == qs[i] + d
  {
    seq(|qs|, i requires 0 <= i < |qs| => qs[i] + d)
  }

  /** Occurrences in `s[d..]` are occurrences in `s`, `d` places further right. */
  lemma {:induction false} UnshiftOccurrences(s: string, d: nat, qs: seq<nat>)
    requires d <= |s| && PairOccurrences(s[d..], qs)
    ensures PairOccurrences(s, Unshift(qs, d))
  {
    var ps := Unshift(qs, d);
    forall i | 0 <= i < |ps|
      ensures ps[i] + 2 <= |s| && s[ps[i]] == '0' && s[ps[i] + 1] == '0'
    {
      assert s[ps[i]] == s[d..][qs[i]] && s[ps[i] + 1] == s[d..][qs[i] + 1];
    }
  }

  /** Occurrences in `s` at or after `d` are occurrences in `s[d..]`. */
  lemma {:induction false} ShiftOccurrences(s: string, d: nat, ps: seq<nat>)
    requires d <= |s| && PairOccurrences(s, ps)
    requires forall i :: 0 <= i < |ps| ==> d <= ps[i]
    ensures PairOccurrences(s[d..], Shift(ps, d))
  {
    var qs := Shift(ps, d);
    forall i | 0 <= i < |qs|
      ensures qs[i] + 2 <= |s[d..]| && s[d..][qs[i]] == '0' && s[d..][qs[i] + 1] == '0'
    {
      assert s[d..][qs[i]] == s[ps[i]] && s[d..][qs[i] + 1] == s[ps[i] + 1];
    }
  }

  /** The occurrences `str.count` matches, in the order it finds them. */
  function GreedyOccurrences(s: string): (ps: seq<nat>)
    ensures PairOccurrences(s, ps) && |ps| == CountPairs(s)
    decreases |s|
  {
    if |s| < 2 then []
    else if StartsWithPair(s) then
      var tail := GreedyOccurrences(s[2..]);
      UnshiftOccurrences(s, 2, tail);
      PairFirst(s, Unshift(tail, 2));
      [0] + Unshift(tail, 2)
    else
      var tail := GreedyOccurrences(s[1..]);
      UnshiftOccurrences(s, 1, tail);
      Unshift(tail, 1)
  }

  /** A leading "00" goes in front of occurrences that start two or more places in. */
  lemma {:induction false} PairFirst(s: string, ps: seq<nat>)
    requires StartsWithPair(s) && PairOccurrences(s, ps)
    requires forall i :: 0 <= i < |ps| ==> 2 <= ps[i]
    ensures PairOccurrences(s, [0] + ps)
  {
    var qs := [0] + ps;
    forall i | 0 <= i < |qs|
      ensures qs[i] + 2 <= |s| && s[qs[i]] == '0' && s[qs[i] + 1] == '0'
    {
      if i > 0 { assert qs[i] == ps[i - 1]; }
    }
    forall i, j | 0 <= i < j < |qs|
      ensures qs[i] + 2 <= qs[j]
    {
      assert qs[j] == ps[j - 1];
      if i > 0 { assert qs[i] == ps[i - 1]; }
    }
  }

  /** No family of non-overlapping "00" occurrences is larger than `str.count`'s. */
  lemma {:induction false} CountPairsIsMaximal(s: string, ps: seq<nat>)
    requires PairOccurrences(s, ps)
    ensures |ps| <= CountPairs(s)
    decreases |s|
  {
    if |s| < 2 {
    } else if |ps| == 0 {
    } else if StartsWithPair(s) {
      if ps[0] < 2 {
        var tail := ps[1..];
        assert forall i :: 0 <= i < |tail| ==> tail[i] == ps[i + 1] && ps[0] + 2 <= ps[i + 1];
        assert PairOccurrences(s, tail);
        ShiftOccurrences(s, 2, tail);
        CountPairsIsMaximal(s[2..], Shift(tail, 2));
      } else {
        assert forall i :: 0 <= i < |ps| ==> 2 <= ps[i] by {
          forall i | 0 < i < |ps| ensures 2 <= ps[i] { assert ps[0] + 2 <= ps[i]; }
        }
        ShiftOccurrences(s, 2, ps);
        CountPairsIsMaximal(s[2..], Shift(ps, 2));
      }
    } else {
      assert forall i :: 0 <= i < |ps| ==> 1 <= ps[i];
      ShiftOccurrences(s, 1, ps);
      CountPairsIsMaximal(s[1..], Shift(ps, 1));
    }
  }

  // ---------------------------------------------------------------------
  // consequences for whole addresses

  /** `count_zeroes` looks only at what follows the first two characters. */
  lemma {:induction false} IgnoresPrefix(prefix: string, rest: string)
    requires |prefix| == 2
    ensures CountZeroes(prefix + rest) == ZeroCounts(CountPairs(rest), LeadingPairs(rest))
  {
    assert (prefix + rest)[2..] == rest;
  }

  /** A run of `k` "00" pairs has `k` leading and `k` counted pairs. */
  lemma {:induction false} AllZeroPairs(k: nat)
    ensures LeadingPairs(Zeros(k)) == k && CountPairs(Zeros(k)) == k
  {
    if k > 0 {
      AllZeroPairs(k - 1);
      assert Zeros(k)[2..] == Zeros(k - 1);
    }
  }

  /** An address whose body is only "00" pairs: both counts are half the body length. */
  lemma {:induction false} AllZeroAddress(address: string, k: nat)
    requires |address| >= 2 && address[2..] == Zeros(k)
    ensures CountZeroes(address) == ZeroCounts(k, k)
    ensures k == (|address| - 2) / 2
  {
    AllZeroPairs(k);
  }

  /** str.count does not overlap matches: "000" has one, "0000" two. */
  lemma {:induction false} CountExamples()
    ensures CountPairs("000") == 1
    ensures CountPairs("0000") == 2
  {
    assert "000"[2..] == "0";
    assert "0000"[2..] == "00" && "00"[2..] == "";
  }

  /** "0x00000000ab00cd": four leading zero bytes and one more inside. */
  lemma {:induction false} AddressExample()
    ensures CountZeroes("0x00000000ab00cd") == ZeroCounts(5, 4)
  {
    assert "0x00000000ab00cd"[2..] == Zeros(4) + "ab00cd";
    PairsThenTail(4, "ab00cd");
    ExampleTail();
  }

  /** The part of "0x00000000ab00cd" after its leading zeros. */
  lemma {:induction false} ExampleTail()
    ensures CountPairs("ab00cd") == 1 && LeadingPairs("ab00cd") == 0
  {
    assert "ab00cd"[1..] == "b00cd" && "b00cd"[1..] == "00cd";
    assert "00cd"[2..] == "cd" && "cd"[1..] == "d";
  }

  /** "00" repeated `k` times, then a tail: the pairs add to the tail's counts. */
  lemma {:induction false} PairsThenTail(k: nat, tail: string)
    ensures CountPairs(Zeros(k) + tail) == k + CountPairs(tail)
    ensures LeadingPairs(Zeros(k) + tail) == k + LeadingPairs(tail)
  {
    if k > 0 {
      var s := Zeros(k) + tail;
      assert s[0] == '0' && s[1] == '0';
      assert s[2..] == Zeros(k - 1) + tail;
      PairsThenTail(k - 1, tail);
    } else {
      assert Zeros(0) + tail == tail;
    }
  }
}
