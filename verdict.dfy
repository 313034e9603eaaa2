/** The verdict engine `get_exit_code`: from the number of addresses
    attempted, the serials collected and the allowed drift to the exit code. */
module Verdict {
  import opened Types

  /** `list.count(x)`: the number of occurrences of `x` in `s`. */
  function Count(s: seq<Serial>, x: Serial): (n: nat)
    ensures n <= |s|
  {
    if s == [] then 0 else (if s[0] == x then 1 else 0) + Count(s[1..], x)
  }

  /** `max(list)`. */
  function MaxOf(s: seq<Serial>): (m: Serial)
    requires s != []
    ensures m in s
    ensures forall i :: 0 <= i < |s| ==> s[i] <= m
  {
    if |s| == 1 then s[0]
    else
      var m := MaxOf(s[1..]);
      if s[0] >= m then s[0] else m
  }

  /** `min(list)`. */
  function MinOf(s: seq<Serial>): (m: Serial)
    requires s != []
    ensures m in s
    ensures forall i :: 0 <= i < |s| ==> m <= s[i]
  {
    if |s| == 1 then s[0]
    else
      var m := MinOf(s[1..]);
      if s[0] <= m then s[0] else m
  }

  /** Every collected serial is the same. */
  predicate AllEqual(s: seq<Serial>) {
    forall i, j :: 0 <= i < |s| && 0 <= j < |s| ==> s[i] == s[j]
  }

  /** `x` occurs |s| times in `s` exactly when every element is `x`. */
  lemma {:induction false} CountIsLengthIff(s: seq<Serial>, x: Serial)
    ensures Count(s, x) == |s| <==> forall i :: 0 <= i < |s| ==> s[i] == x
  {
    if s != [] {
      CountIsLengthIff(s[1..], x);
      assert forall i :: 1 <= i < |s| ==> s[i] == s[1..][i - 1];
    }
  }

  /** The source's test `count(SERIAL_LIST[0]) == len(SERIAL_LIST)` decides
      exactly whether all serials are equal. */
  lemma CountOfFirstIff(s: seq<Serial>)
    requires s != []
    ensures Count(s, s[0]) == |s| <==> AllEqual(s)
  {
    CountIsLengthIff(s, s[0]);
  }

  /** The exit code. The list is indexed at 0 once the counts agree, so an
      empty survey with nothing attempted raises IndexError. */
  function GetExitCode(countNsip: int, serials: seq<Serial>, allowedDrift: int): (r: Result<int, Stop>)
    ensures r.Err? <==> countNsip == 0 && serials == []
    ensures r.Err? ==> r.error == IndexError
    ensures r.Ok? ==> r.value in {0, 1, 2}
  {
    if countNsip != |serials| then Ok(2)
    else if serials == [] then Err(IndexError)
    else if Count(serials, serials[0]) == |serials| then Ok(0)
    else if MaxOf(serials) - MinOf(serials) > allowedDrift then Ok(1)
    else Ok(0)
  }

  /** The decision policy: a shortfall of serials gives 2 whatever the
      serials are; otherwise equal serials give 0, and unequal ones give 1
      exactly when their spread exceeds the allowed drift. */
  lemma ExitCodePolicy(countNsip: int, serials: seq<Serial>, allowedDrift: int)
    ensures countNsip != |serials| ==> GetExitCode(countNsip, serials, allowedDrift) == Ok(2)
    ensures countNsip == |serials| && serials != [] && AllEqual(serials) ==>
              GetExitCode(countNsip, serials, allowedDrift) == Ok(0)
    ensures countNsip == |serials| && serials != [] && !AllEqual(serials) ==>
              (GetExitCode(countNsip, serials, allowedDrift) == Ok(1) <==>
                 MaxOf(serials) - MinOf(serials) > allowedDrift) &&
              GetExitCode(countNsip, serials, allowedDrift) != Ok(2)
  {
    if countNsip == |serials| && serials != [] {
      CountOfFirstIff(serials);
    }
  }

  /** Equal serials have no spread, and a spread of 0 means equal serials. */
  lemma SpreadZeroIff(s: seq<Serial>)
    requires s != []
    ensures MaxOf(s) - MinOf(s) == 0 <==> AllEqual(s)
  {
    if MaxOf(s) == MinOf(s) {
      forall i, j | 0 <= i < |s| && 0 <= j < |s| ensures s[i] == s[j] {
        assert MinOf(s) <= s[i] <= MaxOf(s) && MinOf(s) <= s[j] <= MaxOf(s);
      }
    }
    if AllEqual(s) {
      var a :| 0 <= a < |s| && s[a] == MaxOf(s);
      var b :| 0 <= b < |s| && s[b] == MinOf(s);
      assert s[a] == s[b];
    }
  }

  /** With a drift that is not negative, the all-equal test makes no
      difference: 1 exactly when the spread exceeds the drift, otherwise 0. */
  lemma ExitCodeWithNonNegativeDrift(countNsip: int, serials: seq<Serial>, allowedDrift: int)
    requires allowedDrift >= 0
    requires countNsip == |serials| && serials != []
    ensures GetExitCode(countNsip, serials, allowedDrift) ==
              if MaxOf(serials) - MinOf(serials) > allowedDrift then Ok(1) else Ok(0)
  {
    ExitCodePolicy(countNsip, serials, allowedDrift);
    SpreadZeroIff(serials);
  }

  /** With a negative drift the all-equal test is what keeps agreement at 0:
      equal serials give 0 although their spread 0 exceeds the drift. */
  lemma NegativeDriftStillAcceptsEqualSerials(serials: seq<Serial>, allowedDrift: int)
    requires allowedDrift < 0 && serials != [] && AllEqual(serials)
    ensures MaxOf(serials) - MinOf(serials) > allowedDrift
    ensures GetExitCode(|serials|, serials, allowedDrift) == Ok(0)
  {
    ExitCodePolicy(|serials|, serials, allowedDrift);
  }
}
