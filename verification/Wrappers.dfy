/** Results that may be missing or refused. */
module Wrappers {
  datatype Option<T> = None | Some(value: T)
  datatype Result<T, E> = Ok(value: T) | Err(error: E)

  /** The answer of the first check that fails, or the answer when none does. */
  function FirstFailing<C>(checks: seq<(bool, C)>, passed: C): C {
    if checks == [] then passed
    else if !checks[0].0 then checks[0].1
    else FirstFailing(checks[1..], passed)
  }

  function FirstFalse<C>(checks: seq<(bool, C)>): (k: nat)
    ensures k <= |checks| && (forall i :: 0 <= i < k ==> checks[i].0) && (k < |checks| ==> !checks[k].0)
  {
    if checks == [] || !checks[0].0 then 0
    else
      assert forall i :: 0 < i < |checks| ==> checks[1..][i - 1] == checks[i];
      1 + FirstFalse(checks[1..])
  }

  lemma {:induction false} FirstIs<C>(checks: seq<(bool, C)>, k: nat, passed: C)
    requires k <= |checks| && (forall i :: 0 <= i < k ==> checks[i].0) && (k < |checks| ==> !checks[k].0)
    ensures FirstFailing(checks, passed) == if k < |checks| then checks[k].1 else passed
    decreases k
  {
    if k > 0 { FirstIs(checks[1..], k - 1, passed); }
  }

  /** It is the answer at the first false check. */
  lemma FirstFailingIs<C>(checks: seq<(bool, C)>, passed: C)
    ensures var k := FirstFalse(checks); FirstFailing(checks, passed) == if k < |checks| then checks[k].1 else passed
  {
    FirstIs(checks, FirstFalse(checks), passed);
  }

  /** The same for a short list, check by check. */
  lemma FirstOfTen<C>(checks: seq<(bool, C)>, passed: C)
    requires |checks| <= 10
    ensures FirstFailing(checks, passed) ==
      if |checks| > 0 && !checks[0].0 then checks[0].1
      else if |checks| > 1 && !checks[1].0 then checks[1].1
      else if |checks| > 2 && !checks[2].0 then checks[2].1
      else if |checks| > 3 && !checks[3].0 then checks[3].1
      else if |checks| > 4 && !checks[4].0 then checks[4].1
      else if |checks| > 5 && !checks[5].0 then checks[5].1
      else if |checks| > 6 && !checks[6].0 then checks[6].1
      else if |checks| > 7 && !checks[7].0 then checks[7].1
      else if |checks| > 8 && !checks[8].0 then checks[8].1
      else if |checks| > 9 && !checks[9].0 then checks[9].1
      else passed
  {
    FirstFailingIs(checks, passed);
  }
}
