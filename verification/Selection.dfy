/** Moving the selection of a command menu with the arrow keys, wrapping at both ends. */
module Selection {
  import opened Options
  import SortedIds

  /** Rust's remainder takes the sign of the dividend. */
  function Rem(a: int, n: int): int
    requires n > 0
  {
    if a >= 0 then a % n else -((-a) % n)
  }

  /** The first position of an id, or the length when it is not there. */
  function Position(ids: seq<string>, current: string): (i: nat)
    ensures i <= |ids|
    ensures i < |ids| ==> ids[i] == current
    ensures forall k :: 0 <= k < i ==> ids[k] != current
  {
    if ids == [] || ids[0] == current then 0 else 1 + Position(ids[1..], current)
  }

  function StartIndex(ids: seq<string>, current: string, delta: int): int {
    var i := Position(ids, current);
    if i < |ids| then i else if delta >= 0 then -1 else |ids|
  }

  function StepSelection(ids: seq<string>, current: string, delta: int): Option<string> {
    if ids == [] then None
    else
      var n := |ids|;
      var i := Rem(Rem(StartIndex(ids, current, delta) + delta, n) + n, n);
      if 0 <= i < n then Some(ids[i]) else None
  }

  predicate FitsI32(n: int) {
    -0x8000_0000 <= n < 0x8000_0000
  }

  /** Every value the computation goes through, the length and the index included. */
  predicate StaysInRange(ids: seq<string>, current: string, delta: int)
    requires ids != []
  {
    var n, i := |ids|, StartIndex(ids, current, delta);
    FitsI32(n) && FitsI32(i) && FitsI32(i + delta) && FitsI32(Rem(i + delta, n)) && FitsI32(Rem(i + delta, n) + n)
  }

  /** With up to 2^30 ids, only adding the step to the index can leave the 32-bit range. */
  lemma NoOverflowIff(ids: seq<string>, current: string, delta: int)
    requires 0 < |ids| <= 0x4000_0000
    ensures StaysInRange(ids, current, delta) <==> FitsI32(StartIndex(ids, current, delta) + delta)
    ensures -0x4000_0000 < delta < 0x4000_0000 ==> StaysInRange(ids, current, delta)
  {
    RemBounds(StartIndex(ids, current, delta) + delta, |ids|);
  }

  lemma RemBounds(a: int, n: int)
    requires n > 0
    ensures -n < Rem(a, n) < n
  {}

  lemma ModUnique(a: int, q: int, r: int, n: int)
    requires n > 0 && 0 <= r < n && a == q * n + r
    ensures a % n == r
  {
    var d := a / n - q;
    assert d * n == r - a % n;
  }

  /** Rust's two truncating remainders make the remainder that is never negative. */
  lemma RemTwiceIsMod(a: int, n: int)
    requires n > 0
    ensures Rem(Rem(a, n) + n, n) == a % n
  {
    var r := Rem(a, n);
    RemBounds(a, n);
    if a >= 0 {
      ModUnique(r + n, 1, a % n, n);
    } else {
      var q, m := (-a) / n, (-a) % n;
      assert a == -(q * n) - m;
      if m == 0 {
        ModUnique(n, 1, 0, n);
        MultipleHasNoRest(-q, a, n);
      } else {
        ModUnique(n - m, 0, n - m, n);
        assert a == (-q - 1) * n + (n - m);
        ModUnique(a, -q - 1, n - m, n);
      }
    }
  }

  lemma MultipleHasNoRest(q: int, a: int, n: int)
    requires n > 0 && a == q * n
    ensures a % n == 0
  {
    ModUnique(a, q, 0, n);
  }

  lemma ModAdd(a: int, d: int, n: int)
    requires n > 0
    ensures (a % n + d) % n == (a + d) % n
  {
    var x := a % n + d;
    assert a + d == (a / n + x / n) * n + x % n;
    ModUnique(a + d, a / n + x / n, x % n, n);
  }

  lemma SmallMod(x: int, n: int)
    requires n > 0 && -n <= x < 2 * n
    ensures x % n == if x < 0 then x + n else if x < n then x else x - n
  {
    ModUnique(x, if x < 0 then -1 else if x < n then 0 else 1, if x < 0 then x + n else if x < n then x else x - n, n);
  }

  /** Whatever the step, the selection lands on the id at the new index modulo the length. */
  lemma StepWraps(ids: seq<string>, current: string, delta: int)
    requires ids != []
    ensures StepSelection(ids, current, delta) == Some(ids[(StartIndex(ids, current, delta) + delta) % |ids|])
  {
    RemTwiceIsMod(StartIndex(ids, current, delta) + delta, |ids|);
  }

  lemma PositionOf(ids: seq<string>, i: nat)
    requires SortedIds.Distinct(ids) && i < |ids|
    ensures Position(ids, ids[i]) == i
  {}

  /** An unknown selection enters at the first id going down and at the last going up. */
  lemma UnknownEnters(ids: seq<string>, current: string)
    requires ids != [] && current !in ids
    ensures StepSelection(ids, current, 1) == Some(ids[0])
    ensures StepSelection(ids, current, -1) == Some(ids[|ids| - 1])
  {
    StepWraps(ids, current, 1);
    StepWraps(ids, current, -1);
    SmallMod(0, |ids|);
    SmallMod(|ids| - 1, |ids|);
  }

  /** The selection after `k` steps of the same size. */
  function StepMany(ids: seq<string>, current: string, delta: int, k: nat): string
    requires ids != []
  {
    if k == 0 then current
    else
      var next := StepSelection(ids, StepMany(ids, current, delta, k - 1), delta);
      if next.Some? then next.value else current
  }

  lemma StepFrom(ids: seq<string>, m: nat, delta: int)
    requires SortedIds.Distinct(ids) && m < |ids|
    ensures StepSelection(ids, ids[m], delta) == Some(ids[(m + delta) % |ids|])
  {
    PositionOf(ids, m);
    StepWraps(ids, ids[m], delta);
  }

  /** Without duplicates, `k` steps of `delta` from index `i` land on `i + k * delta` modulo the length. */
  lemma {:induction false} StepManyIs(ids: seq<string>, i: nat, delta: int, k: nat)
    requires SortedIds.Distinct(ids) && i < |ids|
    ensures StepMany(ids, ids[i], delta, k) == ids[(i + k * delta) % |ids|]
  {
    if k == 0 {
      SmallMod(i, |ids|);
    } else {
      var at := i + (k - 1) * delta;
      StepManyIs(ids, i, delta, k - 1);
      StepFrom(ids, at % |ids|, delta);
      ModAdd(at, delta, |ids|);
      assert at + delta == i + k * delta;
    }
  }

  /** A step and its opposite undo each other, whatever its size. */
  lemma StepsAreInverse(ids: seq<string>, i: nat, delta: int)
    requires SortedIds.Distinct(ids) && i < |ids|
    ensures var there := StepSelection(ids, ids[i], delta);
      there.Some? && StepSelection(ids, there.value, -delta) == Some(ids[i])
  {
    StepFrom(ids, i, delta);
    StepFrom(ids, (i + delta) % |ids|, -delta);
    ModAdd(i + delta, -delta, |ids|);
    SmallMod(i, |ids|);
  }

  /** A full round of steps returns to its start and passes every id exactly once on the way. */
  lemma RoundVisitsEachOnce(ids: seq<string>, i: nat, j: nat) returns (k: nat)
    requires SortedIds.Distinct(ids) && i < |ids| && j < |ids|
    ensures StepMany(ids, ids[i], 1, |ids|) == ids[i]
    ensures k < |ids| && StepMany(ids, ids[i], 1, k) == ids[j]
    ensures forall k': nat :: k' < |ids| && StepMany(ids, ids[i], 1, k') == ids[j] ==> k' == k
  {
    WithinOneRound(ids, i, |ids|);
    k := if j >= i then j - i else j + |ids| - i;
    WithinOneRound(ids, i, k);
    forall k': nat | k' < |ids| && StepMany(ids, ids[i], 1, k') == ids[j]
      ensures k' == k
    {
      WithinOneRound(ids, i, k');
    }
  }

  lemma WithinOneRound(ids: seq<string>, i: nat, k: nat)
    requires SortedIds.Distinct(ids) && i < |ids| && k <= |ids|
    ensures StepMany(ids, ids[i], 1, k) == ids[if i + k < |ids| then i + k else i + k - |ids|]
  {
    StepManyIs(ids, i, 1, k);
    SmallMod(i + k, |ids|);
  }

  /** No ids, no selection; an unknown one counts as just before the first, or just after the last when going up. */
  lemma UnknownLands(ids: seq<string>, current: string, delta: int)
    requires current !in ids
    ensures ids == [] ==> StepSelection(ids, current, delta) == None
    ensures ids != [] ==>
      StepSelection(ids, current, delta) == Some(ids[(if delta >= 0 then delta - 1 else |ids| + delta) % |ids|])
  {
    if ids != [] {
      StepWraps(ids, current, delta);
    }
  }
}
