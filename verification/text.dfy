/** Text as the program sees it: a sequence of code points, lone surrogates included.
    Also the few library operations on sequences the other modules share. */
module Texts {

  type Code = c: int | 0 <= c < 0x11_0000

  type Text = seq<Code>

  datatype Option<+T> = None | Some(value: T)

  const NL: Code := 10
  const CR: Code := 13

  /** The code points of an ASCII literal. */
  function Ascii(s: string): (t: Text)
    requires forall c <- s :: c < 128 as char
    ensures |t| == |s| && forall i :: 0 <= i < |s| ==> t[i] == s[i] as int
  {
    seq(|s|, i requires 0 <= i < |s| => s[i] as int)
  }

  /** `str.isspace` for one code point. */
  predicate IsSpace(c: Code) {
    || 9 <= c <= 13
    || 28 <= c <= 32
    || c == 0x85 || c == 0xa0 || c == 0x1680
    || c == 0x2028 || c == 0x2029 || c == 0x202f || c == 0x205f || c == 0x3000
    || 0x2000 <= c <= 0x200a
  }

  predicate IsBlank(t: Text) {
    forall c <- t :: IsSpace(c)
  }

  function StripLeft(t: Text): (r: Text)
    ensures |r| <= |t| && r == t[|t| - |r|..] && IsBlank(t[..|t| - |r|])
    ensures r != [] ==> !IsSpace(r[0])
  {
    if t != [] && IsSpace(t[0]) then StripLeft(t[1..]) else t
  }

  function StripRight(t: Text): (r: Text)
    ensures |r| <= |t| && r == t[..|r|] && IsBlank(t[|r|..])
    ensures r != [] ==> !IsSpace(r[|r| - 1])
  {
    if t != [] && IsSpace(t[|t| - 1]) then StripRight(t[..|t| - 1]) else t
  }

  function Strip(t: Text): Text {
    StripRight(StripLeft(t))
  }

  predicate IsPrefix<T(==)>(pat: seq<T>, t: seq<T>) {
    |pat| <= |t| && t[..|pat|] == pat
  }

  /** `t.removeprefix(pat)` */
  function RemovePrefix<T(==)>(t: seq<T>, pat: seq<T>): seq<T> {
    if IsPrefix(pat, t) then t[|pat|..] else t
  }

  // ---- searching -----------------------------------------------------------------------

  predicate OccursAt<T(==)>(pat: seq<T>, t: seq<T>, i: int) {
    0 <= i <= |t| - |pat| && t[i..i + |pat|] == pat
  }

  predicate Contains<T(==)>(t: seq<T>, pat: seq<T>) {
    exists i :: 0 <= i <= |t| && OccursAt(pat, t, i)
  }

  /** The first occurrence of `pat` at or after `from`. */
  function Find<T(==)>(t: seq<T>, pat: seq<T>, from: nat): (r: Option<nat>)
    ensures r.None? ==> forall i :: from <= i ==> !OccursAt(pat, t, i)
    ensures r.Some? ==> from <= r.value && OccursAt(pat, t, r.value)
    ensures r.Some? ==> forall i :: from <= i < r.value ==> !OccursAt(pat, t, i)
    decreases |t| - from
  {
    if from > |t| then None
    else if OccursAt(pat, t, from) then Some(from)
    else Find(t, pat, from + 1)
  }

  /** The last occurrence of `pat` at or before `upto`. */
  function FindLast<T(==)>(t: seq<T>, pat: seq<T>, upto: int): (r: Option<nat>)
    requires upto <= |t|
    ensures r.None? ==> forall i :: i <= upto ==> !OccursAt(pat, t, i)
    ensures r.Some? ==> r.value <= upto && OccursAt(pat, t, r.value)
    ensures r.Some? ==> forall i :: r.value < i <= upto ==> !OccursAt(pat, t, i)
    decreases upto + 1
  {
    if upto < 0 then None
    else if OccursAt(pat, t, upto) then Some(upto)
    else FindLast(t, pat, upto - 1)
  }

  ghost predicate Free<T>(t: seq<T>, c: T, from: nat, to: nat)
    requires to <= |t|
  {
    forall i :: from <= i < to ==> t[i] != c
  }

  /** `r` is the first position of `c` at or after `from`, `None` when there is none. */
  ghost predicate FirstIndex<T>(t: seq<T>, c: T, from: nat, r: Option<nat>)
    requires from <= |t|
  {
    if r.None? then Free(t, c, from, |t|)
    else from <= r.value < |t| && t[r.value] == c && Free(t, c, from, r.value)
  }

  /** `t.find(c, from)`, counting the elements it compares. */
  method IndexFrom<T(==)>(t: seq<T>, c: T, from: nat) returns (r: Option<nat>, ghost compared: nat)
    requires from <= |t|
    ensures FirstIndex(t, c, from, r)
    ensures compared == (if r.None? then |t| else r.value + 1) - from
  {
    r, compared := None, 0;
    for i := from to |t|
      invariant Free(t, c, from, i) && r.None? && compared == i - from
    {
      compared := compared + 1;
      if t[i] == c {
        r := Some(i);
        return;
      }
    }
  }

  /** `"".join(parts)` */
  function Concat<T>(parts: seq<seq<T>>): seq<T> {
    if parts == [] then [] else Concat(parts[..|parts| - 1]) + parts[|parts| - 1]
  }

  lemma {:induction false} ConcatAppend<T>(a: seq<seq<T>>, b: seq<seq<T>>)
    ensures Concat(a + b) == Concat(a) + Concat(b)
  {
    if b == [] {
      assert a + b == a;
    } else {
      FrontLast(a, b);
      ConcatAppend(a, b[..|b| - 1]);
      Associative(Concat(a), Concat(b[..|b| - 1]), b[|b| - 1]);
    }
  }

  lemma {:induction false} FrontLast<T>(a: seq<T>, b: seq<T>)
    requires b != []
    ensures (a + b)[..|a + b| - 1] == a + b[..|b| - 1] && (a + b)[|a + b| - 1] == b[|b| - 1]
  {
  }

  lemma {:induction false} Associative<T>(a: seq<T>, b: seq<T>, c: seq<T>)
    ensures a + b + c == a + (b + c)
  {
  }

  lemma {:induction false} TakeSnoc<T>(s: seq<T>, i: nat)
    requires i < |s|
    ensures s[..i + 1] == s[..i] + [s[i]]
  {
  }

  lemma {:induction false} TakeDrop<T>(s: seq<T>, i: nat)
    requires i <= |s|
    ensures s == s[..i] + s[i..] && (i == |s| ==> s[..i] == s)
  {
  }

  lemma {:induction false} ConcatSnoc<T>(a: seq<seq<T>>, x: seq<T>)
    ensures Concat(a + [x]) == Concat(a) + x
  {
    assert (a + [x])[..|a|] == a;
  }

  // ---- splitting at a separator --------------------------------------------------------

  /** `t.split(sep)` for a one-element separator. */
  function Split<T(==)>(t: seq<T>, sep: T): (parts: seq<seq<T>>)
    ensures |parts| >= 1
  {
    if t == [] then [[]]
    else
      var rest := Split(t[1..], sep);
      if t[0] == sep then [[]] + rest else [[t[0]] + rest[0]] + rest[1..]
  }

  /** `sep.join(parts)` for a one-element separator. */
  function Join<T>(parts: seq<seq<T>>, sep: T): seq<T> {
    if parts == [] then []
    else if |parts| == 1 then parts[0]
    else parts[0] + [sep] + Join(parts[1..], sep)
  }

  /** The separator-terminated pieces, and what follows the last separator. */
  function Lines<T(==)>(t: seq<T>, sep: T): seq<seq<T>> {
    var parts := Split(t, sep);
    parts[..|parts| - 1]
  }

  function Tail<T(==)>(t: seq<T>, sep: T): seq<T> {
    var parts := Split(t, sep);
    parts[|parts| - 1]
  }

  /** One more leading element, put in front of pieces already split. */
  function Onto<T(==)>(x: T, parts: seq<seq<T>>, sep: T): seq<seq<T>>
    requires |parts| >= 1
  {
    if x == sep then [[]] + parts else [[x] + parts[0]] + parts[1..]
  }

  lemma {:induction false} SplitCons<T>(x: T, t: seq<T>, sep: T)
    ensures Split([x] + t, sep) == Onto(x, Split(t, sep), sep)
  {
    assert ([x] + t)[1..] == t;
  }

  /** Splitting resumes at the unterminated tail: earlier pieces never change. */
  lemma {:induction false} SplitAppend<T>(a: seq<T>, b: seq<T>, sep: T)
    ensures Split(a + b, sep) == Lines(a, sep) + Split(Tail(a, sep) + b, sep)
  {
    if a == [] {
      assert a + b == b && Tail(a, sep) + b == b;
    } else {
      var x, a' := a[0], a[1..];
      assert a == [x] + a' && a + b == [x] + (a' + b);
      SplitAppend(a', b, sep);
      SplitCons(x, a', sep);
      SplitCons(x, a' + b, sep);
      var r := Split(a', sep);
      var t := r[|r| - 1];
      assert x != sep && |r| == 1 ==> Tail(a, sep) + b == [x] + (t + b);
      assert x == sep || |r| > 1 ==> Tail(a, sep) == t;
      SplitCons(x, t + b, sep);
      OntoAppend(x, r, Split(t + b, sep), sep);
    }
  }

  lemma {:induction false} OntoAppend<T>(x: T, r: seq<seq<T>>, u: seq<seq<T>>, sep: T)
    requires |r| >= 1 && |u| >= 1
    ensures var p := Onto(x, r, sep);
            Onto(x, r[..|r| - 1] + u, sep)
            == p[..|p| - 1] + if x != sep && |r| == 1 then Onto(x, u, sep) else u
  {
  }

  lemma {:induction false} LinesAppend<T>(a: seq<T>, b: seq<T>, sep: T)
    ensures Lines(a + b, sep) == Lines(a, sep) + Lines(Tail(a, sep) + b, sep)
    ensures Tail(a + b, sep) == Tail(Tail(a, sep) + b, sep)
  {
    SplitAppend(a, b, sep);
    FrontLast(Lines(a, sep), Split(Tail(a, sep) + b, sep));
  }

  lemma {:induction false} SplitFree<T>(t: seq<T>, sep: T)
    requires sep !in t
    ensures Split(t, sep) == [t]
  {
    if t != [] {
      SplitFree(t[1..], sep);
      assert [t[0]] + t[1..] == t;
    }
  }

  /** No piece holds the separator, and joining the pieces gives the text back. */
  lemma {:induction false} SplitJoin<T>(t: seq<T>, sep: T)
    ensures Join(Split(t, sep), sep) == t
    ensures forall p <- Split(t, sep) :: sep !in p
  {
    if t != [] {
      SplitJoin(t[1..], sep);
      var rest := Split(t[1..], sep);
      if t[0] != sep {
        var parts := [[t[0]] + rest[0]] + rest[1..];
        assert parts[1..] == rest[1..];
      } else {
        assert ([[]] + rest)[1..] == rest;
      }
    }
  }

  /** The first piece ends at the first separator. */
  lemma {:induction false} SplitAt<T>(a: seq<T>, b: seq<T>, sep: T)
    requires sep !in a
    ensures Split(a + [sep] + b, sep) == [a] + Split(b, sep)
    ensures Lines(a + [sep] + b, sep) == [a] + Lines(b, sep)
    ensures Tail(a + [sep] + b, sep) == Tail(b, sep)
  {
    SplitFree(a, sep);
    SplitAppend(a, [sep] + b, sep);
    SplitHead(a, b, sep);
    assert a + [sep] + b == a + ([sep] + b);
  }

  lemma {:induction false} TailFree<T>(t: seq<T>, sep: T)
    ensures sep !in Tail(t, sep)
  {
    SplitJoin(t, sep);
  }

  lemma {:induction false} SplitHead<T>(a: seq<T>, b: seq<T>, sep: T)
    requires sep !in a
    ensures Split(a + ([sep] + b), sep) == [a] + Split(b, sep)
  {
    if a == [] {
      assert a + ([sep] + b) == [sep] + b;
      SplitCons(sep, b, sep);
    } else {
      assert a + ([sep] + b) == [a[0]] + (a[1..] + ([sep] + b));
      SplitHead(a[1..], b, sep);
      SplitCons(a[0], a[1..] + ([sep] + b), sep);
      assert [a[0]] + a[1..] == a;
    }
  }
}
