/**
 Edit distance: what it means in terms of edit scripts, the recurrence, and the two-row dynamic
 program with its cut-off.
 */
module EditDistance {

  // ---------------------------------------------------------------- edit scripts

  datatype Edit = Insert(pos: nat, c: char) | Remove(pos: nat) | Replace(pos: nat, c: char)

  predicate Applicable(e: Edit, s: string, replacements: bool) {
    match e
    case Insert(pos, _) => pos <= |s|
    case Remove(pos) => pos < |s|
    case Replace(pos, _) => replacements && pos < |s|
  }

  function Apply(e: Edit, s: string, replacements: bool): string
    requires Applicable(e, s, replacements)
  {
    match e
    case Insert(pos, c) => s[..pos] + [c] + s[pos..]
    case Remove(pos) => s[..pos] + s[pos + 1..]
    case Replace(pos, c) => s[pos := c]
  }

  /** The script turns `a` into `b`. */
  predicate Transforms(script: seq<Edit>, a: string, b: string, replacements: bool) {
    if script == [] then a == b
    else Applicable(script[0], a, replacements) &&
         Transforms(script[1..], Apply(script[0], a, replacements), b, replacements)
  }

  // ---------------------------------------------------------------- the recurrence

  function Min(a: nat, b: nat): nat {
    if a <= b then a else b
  }

  /** Changing one character into another costs one edit, or two without replacements. */
  function Change(x: char, y: char, replacements: bool): nat {
    if x == y then 0 else if replacements then 1 else 2
  }

  function Dist(a: string, b: string, r: bool): nat
    decreases |a| + |b|
  {
    if a == [] then |b|
    else if b == [] then |a|
    else
      var a0, b0 := a[..|a| - 1], b[..|b| - 1];
      Min(Dist(a0, b0, r) + Change(a[|a| - 1], b[|b| - 1], r), Min(Dist(a, b0, r), Dist(a0, b, r)) + 1)
  }

  function RemoveAt(s: string, i: nat): string
    requires i < |s|
  {
    s[..i] + s[i + 1..]
  }

  lemma RemoveBeforeLast(s: string, i: nat)
    requires i + 1 < |s|
    ensures RemoveAt(s, i) != [] && RemoveAt(s, i)[..|s| - 2] == RemoveAt(s[..|s| - 1], i)
    ensures RemoveAt(s, i)[|s| - 2] == s[|s| - 1]
  {
  }

  predicate Close(a: string, c: string, b: string, r: bool) {
    Dist(a, b, r) <= Dist(c, b, r) + 1 && Dist(c, b, r) <= Dist(a, b, r) + 1
  }

  /** Strings that end alike are as close as their beginnings. */
  lemma CloseSnoc(a: string, c: string, b: string, r: bool)
    requires a != [] && c != [] && a[|a| - 1] == c[|c| - 1] && Close(a[..|a| - 1], c[..|c| - 1], b, r)
    requires b != [] ==> Close(a[..|a| - 1], c[..|c| - 1], b[..|b| - 1], r) && Close(a, c, b[..|b| - 1], r)
    requires b == [] ==> |a| <= |c| + 1 && |c| <= |a| + 1
    ensures Close(a, c, b, r)
  {
  }

  lemma {:induction false} LastLipschitz(a: string, b: string, r: bool)
    requires a != []
    ensures Close(a, a[..|a| - 1], b, r)
    decreases |b|
  {
    if b != [] {
      LastLipschitz(a, b[..|b| - 1], r);
      LastAdded(a[..|a| - 1], b, r);
    }
  }

  /** One character more or less changes the distance by at most one. */
  lemma {:induction false} RemoveLipschitz(a: string, i: nat, b: string, r: bool)
    requires i < |a|
    ensures Close(a, RemoveAt(a, i), b, r)
    decreases |a| + |b|
  {
    if i == |a| - 1 {
      assert RemoveAt(a, i) == a[..|a| - 1];
      LastLipschitz(a, b, r);
    } else {
      RemoveBeforeLast(a, i);
      RemoveLipschitz(a[..|a| - 1], i, b, r);
      if b != [] {
        RemoveLipschitz(a, i, b[..|b| - 1], r);
        RemoveLipschitz(a[..|a| - 1], i, b[..|b| - 1], r);
      }
      CloseSnoc(a, RemoveAt(a, i), b, r);
    }
  }

  lemma LastAdded(a: string, b: string, r: bool)
    requires b != []
    ensures Dist(a, b, r) <= Dist(a, b[..|b| - 1], r) + 1
  {
  }

  lemma {:induction false} ReplaceLipschitz(a: string, i: nat, c: char, b: string)
    requires i < |a|
    ensures Dist(a, b, true) <= Dist(a[i := c], b, true) + 1
    decreases |a| + |b|
  {
    if b != [] {
      var a0, b0 := a[..|a| - 1], b[..|b| - 1];
      ReplaceLipschitz(a, i, c, b0);
      if i == |a| - 1 {
        assert a[i := c][..|a| - 1] == a0;
      } else {
        assert a[i := c][..|a| - 1] == a0[i := c];
        ReplaceLipschitz(a0, i, c, b);
        ReplaceLipschitz(a0, i, c, b0);
      }
    }
  }

  lemma EditLipschitz(e: Edit, a: string, b: string, r: bool)
    requires Applicable(e, a, r)
    ensures Dist(a, b, r) <= Dist(Apply(e, a, r), b, r) + 1
  {
    match e
    case Insert(pos, c) =>
      var a' := Apply(e, a, r);
      assert RemoveAt(a', pos) == a;
      RemoveLipschitz(a', pos, b, r);
    case Remove(pos) => RemoveLipschitz(a, pos, b, r);
    case Replace(pos, c) => ReplaceLipschitz(a, pos, c, b);
  }

  lemma {:induction false} Identical(a: string, r: bool)
    ensures Dist(a, a, r) == 0
  {
    if a != [] {
      Identical(a[..|a| - 1], r);
    }
  }

  /** No script is shorter than the distance. */
  lemma {:induction false} NoShorterScript(script: seq<Edit>, a: string, b: string, r: bool)
    requires Transforms(script, a, b, r)
    ensures Dist(a, b, r) <= |script|
  {
    if script == [] {
      Identical(a, r);
    } else {
      EditLipschitz(script[0], a, b, r);
      NoShorterScript(script[1..], Apply(script[0], a, r), b, r);
    }
  }

  lemma {:induction false} Then(s: seq<Edit>, t: seq<Edit>, a: string, b: string, c: string, r: bool)
    requires Transforms(s, a, b, r) && Transforms(t, b, c, r)
    ensures Transforms(s + t, a, c, r)
  {
    if s == [] {
      assert s + t == t;
    } else {
      Then(s[1..], t, Apply(s[0], a, r), b, c, r);
      assert (s + t)[1..] == s[1..] + t;
    }
  }

  lemma ApplyFramed(e: Edit, a: string, x: char, r: bool)
    requires Applicable(e, a, r)
    ensures Applicable(e, a + [x], r) && Apply(e, a + [x], r) == Apply(e, a, r) + [x]
  {
  }

  /** A script may be applied in front of a character it does not touch. */
  lemma {:induction false} Framed(s: seq<Edit>, a: string, b: string, x: char, r: bool)
    requires Transforms(s, a, b, r)
    ensures Transforms(s, a + [x], b + [x], r)
  {
    if s != [] {
      ApplyFramed(s[0], a, x, r);
      Framed(s[1..], Apply(s[0], a, r), b, x, r);
    }
  }

  /** Some script is as short as the distance. */
  lemma {:induction false} ShortestScript(a: string, b: string, r: bool) returns (script: seq<Edit>)
    ensures Transforms(script, a, b, r) && |script| == Dist(a, b, r)
    decreases |a| + |b|
  {
    if a == [] && b == [] {
      script := [];
    } else if a == [] || (b != [] && Dist(a, b, r) == Dist(a, b[..|b| - 1], r) + 1) {
      var s := ShortestScript(a, b[..|b| - 1], r);
      script := InsertAfter(s, a, b, r);
    } else if b == [] || Dist(a, b, r) == Dist(a[..|a| - 1], b, r) + 1 {
      var s := ShortestScript(a[..|a| - 1], b, r);
      script := RemoveBefore(s, a, b, r);
    } else {
      LastKept(a, b, r);
      var s := ShortestScript(a[..|a| - 1], b[..|b| - 1], r);
      script := KeepOrReplace(s, a, b, r);
    }
  }

  lemma InsertAfter(s: seq<Edit>, a: string, b: string, r: bool) returns (script: seq<Edit>)
    requires b != [] && Transforms(s, a, b[..|b| - 1], r)
    ensures Transforms(script, a, b, r) && |script| == |s| + 1
  {
    InsertLast(b, r);
    script := s + [Insert(|b| - 1, b[|b| - 1])];
    Then(s, [Insert(|b| - 1, b[|b| - 1])], a, b[..|b| - 1], b, r);
  }

  lemma RemoveBefore(s: seq<Edit>, a: string, b: string, r: bool) returns (script: seq<Edit>)
    requires a != [] && Transforms(s, a[..|a| - 1], b, r)
    ensures Transforms(script, a, b, r) && |script| == |s| + 1
  {
    RemoveLast(a, r);
    script := [Remove(|a| - 1)] + s;
    Then([Remove(|a| - 1)], s, a, a[..|a| - 1], b, r);
  }

  lemma KeepOrReplace(s: seq<Edit>, a: string, b: string, r: bool) returns (script: seq<Edit>)
    requires a != [] && b != [] && Transforms(s, a[..|a| - 1], b[..|b| - 1], r) && (a[|a| - 1] == b[|b| - 1] || r)
    ensures Transforms(script, a, b, r) && |script| == |s| + Change(a[|a| - 1], b[|b| - 1], r)
  {
    assert a == a[..|a| - 1] + [a[|a| - 1]] && b == b[..|b| - 1] + [b[|b| - 1]];
    script := ChangeLast(s, a[..|a| - 1], b[..|b| - 1], a[|a| - 1], b[|b| - 1], r);
  }

  lemma InsertLast(b: string, r: bool)
    requires b != []
    ensures Transforms([Insert(|b| - 1, b[|b| - 1])], b[..|b| - 1], b, r)
  {
    var b0, e := b[..|b| - 1], Insert(|b| - 1, b[|b| - 1]);
    assert Apply(e, b0, r) == b;
    assert [e][1..] == [];
  }

  lemma RemoveLast(a: string, r: bool)
    requires a != []
    ensures Transforms([Remove(|a| - 1)], a, a[..|a| - 1], r)
  {
    assert Apply(Remove(|a| - 1), a, r) == a[..|a| - 1];
    assert [Remove(|a| - 1)][1..] == [];
  }

  lemma ReplaceLast(s: seq<Edit>, a: string, b: string, x: char, y: char)
    requires Transforms(s, a, b, true)
    ensures Transforms(s + [Replace(|b|, y)], a + [x], b + [y], true)
  {
    var e := Replace(|b|, y);
    Framed(s, a, b, x, true);
    assert Apply(e, b + [x], true) == b + [y];
    assert [e][1..] == [];
    Then(s, [e], a + [x], b + [x], b + [y], true);
  }

  /** When removing or inserting the last character is not best, it is kept or replaced. */
  lemma LastKept(a: string, b: string, r: bool)
    requires a != [] && b != []
    requires Dist(a, b, r) != Dist(a, b[..|b| - 1], r) + 1 && Dist(a, b, r) != Dist(a[..|a| - 1], b, r) + 1
    ensures Dist(a, b, r) == Dist(a[..|a| - 1], b[..|b| - 1], r) + Change(a[|a| - 1], b[|b| - 1], r)
    ensures a[|a| - 1] == b[|b| - 1] || r
  {
    LastAdded(a[..|a| - 1], b, r);
  }

  lemma ChangeLast(s: seq<Edit>, a: string, b: string, x: char, y: char, r: bool) returns (script: seq<Edit>)
    requires Transforms(s, a, b, r) && (x == y || r)
    ensures Transforms(script, a + [x], b + [y], r) && |script| == |s| + Change(x, y, r)
  {
    if x == y {
      Framed(s, a, b, x, r);
      script := s;
    } else {
      ReplaceLast(s, a, b, x, y);
      script := s + [Replace(|b|, y)];
    }
  }

  // ---------------------------------------------------------------- the dynamic program

  lemma {:induction false} Symmetric(a: string, b: string, r: bool)
    ensures Dist(a, b, r) == Dist(b, a, r)
    decreases |a| + |b|
  {
    if a != [] && b != [] {
      Symmetric(a[..|a| - 1], b[..|b| - 1], r);
      Symmetric(a, b[..|b| - 1], r);
      Symmetric(a[..|a| - 1], b, r);
    }
  }

  /** The distance of the first `y` characters of `a` to the first `x` of `b`. */
  function Cell(a: string, b: string, r: bool, y: nat, x: nat): nat
    requires y <= |a| && x <= |b|
  {
    Dist(a[..y], b[..x], r)
  }

  /** How a cell follows from its neighbours, in both modes. */
  lemma CellStep(a: string, b: string, r: bool, y: nat, x: nat)
    requires 0 < y <= |a| && 0 < x <= |b|
    ensures var diagonal, left, up := Cell(a, b, r, y - 1, x - 1), Cell(a, b, r, y, x - 1), Cell(a, b, r, y - 1, x);
            Cell(a, b, r, y, x) ==
            if r then Min(diagonal + (if a[y - 1] == b[x - 1] then 0 else 1), Min(left, up) + 1)
            else if a[y - 1] == b[x - 1] then diagonal
            else Min(left, up) + 1
  {
    var u, v := a[..y], b[..x];
    assert u[..y - 1] == a[..y - 1] && v[..x - 1] == b[..x - 1];
    Neighbours(u, v, r);
  }

  lemma Neighbours(a: string, b: string, r: bool)
    requires a != [] && b != []
    ensures var a0, b0 := a[..|a| - 1], b[..|b| - 1];
            && Dist(a0, b0, r) <= Dist(a0, b, r) + 1 && Dist(a0, b0, r) <= Dist(a, b0, r) + 1
            && Dist(a0, b, r) <= Dist(a0, b0, r) + 1
  {
    var a0, b0 := a[..|a| - 1], b[..|b| - 1];
    RemoveLipschitz(a, |a| - 1, b0, r);
    assert RemoveAt(a, |a| - 1) == a0;
    RemoveLipschitz(b, |b| - 1, a0, r);
    assert RemoveAt(b, |b| - 1) == b0;
    Symmetric(a0, b, r);
    Symmetric(a0, b0, r);
  }

  /** Every entry of row `y` up to column `upto` exceeds `max`. */
  predicate Exceeds(a: string, b: string, r: bool, y: nat, upto: nat, max: nat)
    requires y <= |a| && upto <= |b|
  {
    forall x :: 0 <= x <= upto ==> Cell(a, b, r, y, x) > max
  }

  lemma {:induction false} RowAfter(a: string, b: string, r: bool, y: nat, x: nat, max: nat)
    requires y < |a| && x <= |b| && Exceeds(a, b, r, y, |b|, max)
    ensures Cell(a, b, r, y + 1, x) > max
  {
    var c := Cell(a, b, r, y, x);
    if x > 0 {
      RowAfter(a, b, r, y, x - 1, max);
      CellStep(a, b, r, y + 1, x);
    } else {
      assert a[..y + 1][..y] == a[..y];
    }
  }

  /** One of the first `n` rows after the top one exceeds the maximum. */
  predicate SomeRowExceeds(a: string, b: string, r: bool, n: nat, max: nat)
    requires n <= |a|
  {
    exists y :: 1 <= y <= n && Exceeds(a, b, r, y, |b|, max)
  }

  /** Every prefix of `b` is farther than `max` from `a`. */
  predicate PrefixesFar(a: string, b: string, r: bool, max: nat) {
    forall x :: 0 <= x <= |b| ==> Dist(a, b[..x], r) > max
  }

  lemma {:induction false} RowToLast(a: string, b: string, r: bool, y: nat, max: nat)
    requires y <= |a| && Exceeds(a, b, r, y, |b|, max)
    ensures PrefixesFar(a, b, r, max)
    decreases |a| - y
  {
    if y == |a| {
      assert a[..y] == a;
      forall x | 0 <= x <= |b| ensures Dist(a, b[..x], r) > max {
        assert Cell(a, b, r, y, x) > max;
      }
    } else {
      var next := y + 1;
      forall x | 0 <= x <= |b| ensures Cell(a, b, r, next, x) > max {
        RowAfter(a, b, r, y, x, max);
      }
      RowToLast(a, b, r, next, max);
    }
  }

  /** Once a row exceeds the maximum all later rows do, so the last row decides. */
  lemma LastRowDecides(a: string, b: string, r: bool, max: nat)
    ensures SomeRowExceeds(a, b, r, |a|, max) <==> PrefixesFar(a, b, r, max)
  {
    if SomeRowExceeds(a, b, r, |a|, max) {
      var y :| 1 <= y <= |a| && Exceeds(a, b, r, y, |b|, max);
      RowToLast(a, b, r, y, max);
    }
    if PrefixesFar(a, b, r, max) {
      assert b[..0] == [] && a[..|a|] == a;
      assert Exceeds(a, b, r, |a|, |b|, max);
    }
  }

  /** Fills row `y` from the row above it. */
  method FillRow(a: string, b: string, r: bool, y: nat, previous: array<nat>, current: array<nat>) returns (best: nat)
    requires 0 < y <= |a| && previous.Length == current.Length == |b| + 1 && previous != current
    requires forall x :: 0 <= x <= |b| ==> previous[x] == Cell(a, b, r, y - 1, x)
    modifies current
    ensures forall x :: 0 <= x <= |b| ==> current[x] == Cell(a, b, r, y, x)
    ensures (forall x :: 0 <= x <= |b| ==> best <= current[x]) && exists x :: 0 <= x <= |b| && current[x] == best
  {
    current[0] := y;
    best := current[0];
    assert Cell(a, b, r, y, 0) == y;
    var x := 1;
    while x <= |b|
      invariant 1 <= x <= |b| + 1
      invariant forall j :: 0 <= j < x ==> current[j] == Cell(a, b, r, y, j)
      invariant forall j :: 0 <= j <= |b| ==> previous[j] == Cell(a, b, r, y - 1, j)
      invariant (forall j :: 0 <= j < x ==> best <= current[j]) && exists j :: 0 <= j < x && current[j] == best
    {
      CellStep(a, b, r, y, x);
      if r {
        current[x] := Min(previous[x - 1] + (if a[y - 1] == b[x - 1] then 0 else 1), Min(current[x - 1], previous[x]) + 1);
      } else if a[y - 1] == b[x - 1] {
        current[x] := previous[x - 1];
      } else {
        current[x] := Min(current[x - 1], previous[x]) + 1;
      }
      best := Min(best, current[x]);
      x := x + 1;
    }
  }

  /** The distance, unless a maximum other than zero is given and every prefix of `b` is farther away
      than the maximum. */
  method EditDistance(a: string, b: string, allowReplacements: bool, maxEditDistance: nat) returns (result: nat)
    ensures result == if maxEditDistance != 0 && PrefixesFar(a, b, allowReplacements, maxEditDistance)
                      then maxEditDistance + 1 else Dist(a, b, allowReplacements)
  {
    LastRowDecides(a, b, allowReplacements, maxEditDistance);
    var n, r := |b|, allowReplacements;
    var previous, current := new nat[n + 1], new nat[n + 1];
    var i := 0;
    while i <= n
      invariant 0 <= i <= n + 1
      invariant forall x :: 0 <= x < i ==> previous[x] == Cell(a, b, r, 0, x)
    {
      previous[i] := i;
      i := i + 1;
    }
    var y := 1;
    while y <= |a|
      invariant 1 <= y <= |a| + 1 && previous != current
      invariant previous.Length == current.Length == n + 1 && fresh(previous) && fresh(current)
      invariant forall x :: 0 <= x <= n ==> previous[x] == Cell(a, b, r, y - 1, x)
      invariant maxEditDistance != 0 ==> !SomeRowExceeds(a, b, r, y - 1, maxEditDistance)
    {
      var best := FillRow(a, b, r, y, previous, current);
      assert best > maxEditDistance <==> Exceeds(a, b, r, y, n, maxEditDistance);
      if maxEditDistance != 0 && best > maxEditDistance {
        return maxEditDistance + 1;
      }
      previous, current := current, previous;
      y := y + 1;
    }
    assert a[..|a|] == a && b[..n] == b;
    return previous[n];
  }

  /** The cut-off is taken only if the distance exceeds the maximum. */
  lemma CutOffSound(a: string, b: string, r: bool, max: nat)
    requires PrefixesFar(a, b, r, max)
    ensures Dist(a, b, r) > max
  {
    assert b[..|b|] == b;
  }

  /** The documented answer for a distance above the maximum, `max + 1`, is not always given: for an
      empty string no row is computed, and the distance itself is returned. */
  lemma {:induction false} CutOffMissed(b: string, r: bool, max: nat)
    requires |b| > max + 1
    ensures !PrefixesFar("", b, r, max) && Dist("", b, r) > max + 1
  {
    assert b[..0] == [];
  }
}
