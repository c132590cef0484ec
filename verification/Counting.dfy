/** Totals over the goroutines of a protocol: what each one weighs, added up, and what a step of one of
    them does to the total. */
module Counting {
  function Total<T>(weight: T -> nat, s: seq<T>): nat {
    if s == [] then 0 else weight(s[0]) + Total(weight, s[1..])
  }

  /** One element is replaced. */
  lemma {:induction false} Move<T>(weight: T -> nat, s: seq<T>, i: nat, x: T)
    requires i < |s|
    ensures Total(weight, s[i := x]) == Total(weight, s) - weight(s[i]) + weight(x)
    ensures Total(weight, s) >= weight(s[i])
  {
    if i == 0 {
      assert s[i := x][1..] == s[1..];
    } else {
      assert s[i := x][1..] == s[1..][i - 1 := x];
      Move(weight, s[1..], i - 1, x);
    }
  }

  /** One element more. */
  lemma {:induction false} Start<T>(weight: T -> nat, s: seq<T>, x: T)
    ensures Total(weight, s + [x]) == Total(weight, s) + weight(x)
  {
    if s == [] {
      assert (s + [x])[1..] == [];
    } else {
      assert (s + [x])[1..] == s[1..] + [x];
      Start(weight, s[1..], x);
    }
  }

  /** No element weighs more than in the other total. */
  lemma {:induction false} Below<S, T>(weight: S -> nat, s: seq<S>, weight': T -> nat, s': seq<T>)
    requires |s| == |s'| && forall i :: 0 <= i < |s| ==> weight(s[i]) <= weight'(s'[i])
    ensures Total(weight, s) <= Total(weight', s')
  {
    if s == [] {
    } else {
      Below(weight, s[1..], weight', s'[1..]);
    }
  }

  /** Elements that weigh 1 each are counted. */
  lemma {:induction false} Ones<T>(weight: T -> nat, s: seq<T>)
    requires forall i :: 0 <= i < |s| ==> weight(s[i]) == 1
    ensures Total(weight, s) == |s|
  {
    if s == [] {
    } else {
      Ones(weight, s[1..]);
    }
  }

  /** A total of zero means that nothing weighs anything. */
  lemma {:induction false} Zero<T>(weight: T -> nat, s: seq<T>)
    ensures Total(weight, s) == 0 <==> forall i :: 0 <= i < |s| ==> weight(s[i]) == 0
  {
    if s == [] {
    } else {
      Zero(weight, s[1..]);
      assert forall i :: 0 < i < |s| ==> s[i] == s[1..][i - 1];
    }
  }

  lemma Some<T>(weight: T -> nat, s: seq<T>) returns (i: nat)
    requires Total(weight, s) > 0
    ensures i < |s| && weight(s[i]) > 0
  {
    Zero(weight, s);
    i :| i < |s| && weight(s[i]) > 0;
  }
}
