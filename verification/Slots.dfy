// Totals and counts over the slots of a machine: one slot a thread, a call or an
// evaluation, in any number.
module Slots {

  function Total<T>(f: T -> int, slots: seq<T>): int {
    if slots == [] then 0 else Total(f, slots[..|slots| - 1]) + f(slots[|slots| - 1])
  }

  lemma {:induction false} TotalUpdate<T>(f: T -> int, slots: seq<T>, i: nat, x: T)
    requires i < |slots|
    ensures Total(f, slots[i := x]) == Total(f, slots) - f(slots[i]) + f(x)
  {
    var last := |slots| - 1;
    var front, front' := slots[..last], slots[i := x][..last];
    if i < last {
      TotalUpdate(f, front, i, x);
      assert front' == front[i := x];
    } else {
      assert front' == front;
    }
  }

  lemma TotalAppend<T>(f: T -> int, slots: seq<T>, x: T)
    ensures Total(f, slots + [x]) == Total(f, slots) + f(x)
  {
    assert (slots + [x])[..|slots|] == slots;
  }

  lemma {:induction false} TotalNonNegative<T>(f: T -> int, slots: seq<T>)
    requires forall i :: 0 <= i < |slots| ==> f(slots[i]) >= 0
    ensures Total(f, slots) >= 0
    ensures Total(f, slots) == 0 <==> forall i :: 0 <= i < |slots| ==> f(slots[i]) == 0
  {
    if slots != [] {
      TotalNonNegative(f, slots[..|slots| - 1]);
    }
  }
}
