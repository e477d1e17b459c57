/** Failure-carrying result types shared by the layout and colour-map models.
    The source reports every error by raising an exception; the model returns
    one of these instead. */
module Wrappers {

  datatype Option<T> = None | Some(value: T)

  datatype Result<T, E> = Success(value: T) | Failure(error: E) {
    predicate IsFailure() { Failure? }

    function PropagateFailure<U>(): Result<U, E>
      requires Failure?
    {
      Failure(error)
    }

    function Extract(): T
      requires Success?
    {
      value
    }
  }

  datatype Outcome<E> = Pass | Fail(error: E) {
    predicate IsFailure() { Fail? }

    function PropagateFailure(): Outcome<E>
      requires Fail?
    {
      this
    }
  }

  /** Sum of a sequence of naturals, used for size measures of trees. */
  function SumNat(s: seq<nat>): nat
  {
    if s == [] then 0 else s[0] + SumNat(s[1..])
  }

  lemma {:induction false} SumNatBounds(s: seq<nat>, i: nat)
    requires i < |s|
    ensures s[i] <= SumNat(s)
  {
    if i > 0 {
      SumNatBounds(s[1..], i - 1);
    }
  }

  /** Index of the first failure in a sequence of outcomes, or its length when
      all pass: where a loop that stops at the first raised error stops. */
  function FirstFailIndex<E>(s: seq<Outcome<E>>): (n: nat)
    ensures n <= |s|
    ensures forall i :: 0 <= i < n ==> s[i].Pass?
    ensures n < |s| ==> s[n].Fail?
  {
    if s == [] then 0 else if s[0].Fail? then 0 else 1 + FirstFailIndex(s[1..])
  }

  /** The first failure of a sequence of outcomes, or Pass when all pass. */
  function FirstFail<E>(s: seq<Outcome<E>>): (r: Outcome<E>)
    ensures r.Pass? <==> forall i :: 0 <= i < |s| ==> s[i].Pass?
    ensures r.Fail? ==> exists i :: 0 <= i < |s| && s[i] == r
  {
    var n := FirstFailIndex(s);
    if n < |s| then s[n] else Pass
  }

  /** A loop that finds every outcome before i passing, and outcome i
      failing, has found the first failure. */
  lemma FirstFailAt<E>(s: seq<Outcome<E>>, i: nat)
    requires i < |s| && s[i].Fail? && forall j :: 0 <= j < i ==> s[j].Pass?
    ensures FirstFailIndex(s) == i && FirstFail(s) == s[i]
  {
  }

  /** One more outcome found passing. */
  lemma PassesExtend<E>(s: seq<Outcome<E>>, i: nat)
    requires i < |s| && s[i].Pass? && forall j :: 0 <= j < i ==> s[j].Pass?
    ensures forall j :: 0 <= j < i + 1 ==> s[j].Pass?
  {
  }

  /** With every outcome passing, nothing fails. */
  lemma AllPass<E>(s: seq<Outcome<E>>)
    requires forall j :: 0 <= j < |s| ==> s[j].Pass?
    ensures FirstFailIndex(s) == |s| && FirstFail(s) == Pass
  {
  }

  /** A prefix one element longer. */
  lemma PrefixSnoc<T>(s: seq<T>, i: nat)
    requires i < |s|
    ensures s[..i + 1] == s[..i] + [s[i]]
  {
  }
}
