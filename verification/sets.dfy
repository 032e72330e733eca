/** A few facts about finite sets. */
module Sets {

  lemma {:induction false} NoMember<T>(s: set<T>)
    requires forall x :: x !in s
    ensures s == {}
  {
  }

  lemma {:induction false} Member<T>(s: set<T>) returns (x: T)
    requires s != {}
    ensures x in s
  {
    if forall x :: x !in s {
      NoMember(s);
    }
    x :| x in s;
  }

  lemma {:induction false} Least(s: set<int>) returns (x: int)
    requires s != {}
    ensures x in s && forall y <- s :: x <= y
  {
    x := Member(s);
    assert forall y <- s :: y == x || y in s - {x};
    if s - {x} != {} {
      var z := Least(s - {x});
      x := if z < x then z else x;
    }
  }
}
