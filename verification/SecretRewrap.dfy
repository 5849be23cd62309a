/**
  * The startup scan: read every secret in pages without writing, then walk the pages again
  * and move each secret under the current key. Other replicas commit writes of their own
  * before every statement of the scan.
  */
module SecretRewrap {
  import opened Options
  import opened SecretBox

  const BATCH := 500
  const MAX_ATTEMPTS := 4

  /** Rows are identified by UUIDs, numbers of 128 bits. */
  const ID_SPACE := 0x1_0000_0000_0000_0000_0000_0000_0000_0000

  type Id = n: int | 0 <= n < ID_SPACE

  type Rows = map<Id, Stored>

  type Entry = (Id, Stored)

  // ---------------------------------------------------------------- pages

  /** The pages of a scan: a prefix, in id order, of the rows beyond `cursor`. */
  ghost predicate IsPage(rows: Rows, cursor: int, page: seq<Entry>) {
    && Holds(rows, page)
    && (forall e <- page :: cursor < e.0)
    && (forall id :: id in rows && cursor < id && (page == [] || id <= page[|page| - 1].0) ==> id in Ids(page))
  }

  /** The entries are rows of the table, in strictly increasing id order. */
  predicate Holds(rows: Rows, page: seq<Entry>) {
    && (forall k :: 0 <= k < |page| ==> page[k].0 in rows && rows[page[k].0] == page[k].1)
    && (forall j, k :: 0 <= j < k < |page| ==> page[j].0 < page[k].0)
  }

  function Ids(page: seq<Entry>): set<Id> {
    set e <- page :: e.0
  }

  function UpTo(ids: set<Id>, cursor: int): set<Id> {
    set id | id in ids && id <= cursor
  }

  /** Rows beyond the cursor are in the page or later than all of it. */
  lemma PageIsComplete(rows: Rows, cursor: int, page: seq<Entry>, left: set<Id>)
    requires Holds(rows, page) && (page == [] ==> left == {})
    requires Ids(page) + left == set id | id in rows && cursor < id
    requires forall id, later :: id in Ids(page) && later in left ==> id < later
    ensures IsPage(rows, cursor, page)
  {
    forall e | e in page
      ensures cursor < e.0
    {
      assert e.0 in Ids(page);
    }
    forall id: Id | id in rows && cursor < id && (page == [] || id <= page[|page| - 1].0)
      ensures id in Ids(page)
    {
      assert id in Ids(page) + left;
      if page != [] {
        assert page[|page| - 1] in page && page[|page| - 1].0 in Ids(page);
      }
    }
  }

  lemma IdsOfAppend(page: seq<Entry>, e: Entry)
    ensures Ids(page + [e]) == Ids(page) + {e.0}
  {
    forall id | id in Ids(page) + {e.0}
      ensures id in Ids(page + [e])
    {
      if id in Ids(page) {
        var x :| x in page && x.0 == id;
        assert x in page + [e];
      } else {
        assert e in page + [e];
      }
    }
  }

  lemma {:induction false} IdsCount(rows: Rows, page: seq<Entry>)
    requires Holds(rows, page)
    ensures |Ids(page)| == |page|
  {
    if page != [] {
      var front, last := page[..|page| - 1], page[|page| - 1];
      IdsCount(rows, front);
      IdsOfAppend(front, last);
      assert front + [last] == page;
      assert last.0 !in Ids(front);
    }
  }

  lemma PageHoldsRow(rows: Rows, page: seq<Entry>, id: Id)
    requires Holds(rows, page) && id in Ids(page)
    ensures id in rows && id <= page[|page| - 1].0
    ensures exists k :: 0 <= k < |page| && page[k].0 == id && rows[id] == page[k].1
  {
    var e :| e in page && e.0 == id;
    var k :| 0 <= k < |page| && page[k] == e;
  }

  /** A nonempty page covers exactly the rows between the old cursor and the new one. */
  lemma PageAdvances(rows: Rows, cursor: int, page: seq<Entry>)
    requires IsPage(rows, cursor, page) && page != []
    ensures cursor < page[|page| - 1].0
    ensures Ids(page) == UpTo(rows.Keys, page[|page| - 1].0) - UpTo(rows.Keys, cursor)
  {
    var last := page[|page| - 1];
    assert last in page && last.0 in Ids(page);
    forall id | id in Ids(page)
      ensures id in rows && cursor < id <= last.0
    {
      PageHoldsRow(rows, page, id);
    }
  }

  lemma LaterIdIsNew(rows: Rows, page: seq<Entry>, i: nat)
    requires Holds(rows, page) && i < |page|
    ensures page[i].0 !in Ids(page[..i]) && Ids(page[..i + 1]) == Ids(page[..i]) + {page[i].0}
  {
    assert page[..i + 1] == page[..i] + [page[i]];
    IdsOfAppend(page[..i], page[i]);
    forall e | e in page[..i]
      ensures e.0 != page[i].0
    {
      var k :| 0 <= k < i && page[k] == e;
    }
  }

  method Least(s: set<Id>) returns (m: Id)
    requires s != {}
    ensures m in s && forall x :: x in s ==> m <= x
  {
    m :| m in s;
    var rest, seen := s - {m}, {m};
    while rest != {}
      invariant m in seen && seen + rest == s
      invariant forall x :: x in seen ==> m <= x
      decreases rest
    {
      var x :| x in rest;
      rest, seen := rest - {x}, seen + {x};
      m := if x < m then x else m;
    }
  }

  // ---------------------------------------------------------------- what the others do

  datatype Write = Put(id: Id, stored: Stored) | Remove(id: Id)

  /** What other replicas commit in each of their turns. */
  type Others = nat -> seq<Write>

  function Written(rows: Rows, writes: seq<Write>): Rows {
    if writes == [] then rows
    else
      var before := Written(rows, writes[..|writes| - 1]);
      match writes[|writes| - 1]
      case Put(id, stored) => before[id := stored]
      case Remove(id) => before - {id}
  }

  /** The rows as they would be after `n` turns of the others, had this startup not been there. */
  function Turns(rows: Rows, others: Others, n: nat): Rows {
    if n == 0 then rows else Written(Turns(rows, others, n - 1), others(n - 1))
  }

  function Row(rows: Rows, id: Id): Option<Stored> {
    if id in rows then Some(rows[id]) else None
  }

  predicate WritesTo(writes: seq<Write>, id: Id) {
    exists w <- writes :: w.id == id
  }

  /** The others wrote or removed row `id` in some turn from `start` on, before `end`. */
  ghost predicate Touched(others: Others, id: Id, start: nat, end: nat) {
    exists t :: start <= t < end && WritesTo(others(t), id)
  }

  ghost predicate Quiet(others: Others) {
    forall n :: others(n) == []
  }

  lemma {:induction false} WrittenElsewhere(rows: Rows, writes: seq<Write>, id: Id)
    requires !WritesTo(writes, id)
    ensures Row(Written(rows, writes), id) == Row(rows, id)
  {
    if writes != [] {
      var front, last := writes[..|writes| - 1], writes[|writes| - 1];
      assert last in writes;
      assert forall w <- front :: w in writes;
      WrittenElsewhere(rows, front, id);
    }
  }

  lemma {:induction false} UntouchedStays(rows: Rows, others: Others, id: Id, start: nat, end: nat)
    requires start <= end && !Touched(others, id, start, end)
    ensures Row(Turns(rows, others, end), id) == Row(Turns(rows, others, start), id)
  {
    if start < end {
      assert !WritesTo(others(end - 1), id);
      assert forall t :: start <= t < end - 1 && WritesTo(others(t), id) ==> Touched(others, id, start, end);
      UntouchedStays(rows, others, id, start, end - 1);
      WrittenElsewhere(Turns(rows, others, end - 1), others(end - 1), id);
    }
  }

  lemma TouchedMore(others: Others, id: Id, start: nat, mid: nat, end: nat)
    requires start <= mid <= end
    ensures Touched(others, id, start, end) <==> Touched(others, id, start, mid) || Touched(others, id, mid, end)
  {}

  /** Rows outside `except` that the others did not touch between `start` and `end` are the same. */
  ghost predicate Kept(others: Others, before: Rows, after: Rows, except: set<Id>, start: nat, end: nat) {
    forall id: Id :: id !in except && !Touched(others, id, start, end) ==> Row(after, id) == Row(before, id)
  }

  lemma KeptMore(others: Others, a: Rows, b: Rows, c: Rows, except: set<Id>, more: set<Id>, start: nat, mid: nat, end: nat)
    requires start <= mid <= end
    requires Kept(others, a, b, except, start, mid) && Kept(others, b, c, more, mid, end)
    ensures Kept(others, a, c, except + more, start, end)
  {
    forall id: Id | id !in except + more && !Touched(others, id, start, end)
      ensures Row(c, id) == Row(a, id)
    {
      TouchedMore(others, id, start, mid, end);
    }
  }

  lemma KeptLonger(others: Others, a: Rows, b: Rows, c: Rows, except: set<Id>, start: nat, mid: nat, end: nat)
    requires start <= mid <= end
    requires Kept(others, a, b, except, start, mid) && Kept(others, b, c, except, mid, end)
    ensures Kept(others, a, c, except, start, end)
  {
    KeptMore(others, a, b, c, except, except, start, mid, end);
    assert except + except == except;
  }

  lemma TurnKeeps(others: Others, before: Rows, turn: nat)
    ensures Kept(others, before, Written(before, others(turn)), {}, turn, turn + 1)
  {
    forall id: Id | !Touched(others, id, turn, turn + 1)
      ensures Row(Written(before, others(turn)), id) == Row(before, id)
    {
      assert !WritesTo(others(turn), id);
      WrittenElsewhere(before, others(turn), id);
    }
  }

  // ---------------------------------------------------------------- what the startup may do

  /** The same secret, newly under the current key. */
  predicate MovedTo(keys: Keys, before: Stored, after: Stored) {
    !UnderCurrent(keys, before) && UnderCurrent(keys, after) && Open(keys, after) == Open(keys, before)
  }

  /**
    * Rewrapping is invisible: the rows are those that the others' writes alone would have
    * produced, except that rows in `own` may have had their secret moved under the current key.
    */
  ghost predicate Refines(keys: Keys, theirs: Rows, rows: Rows, own: set<Id>) {
    && rows.Keys == theirs.Keys
    && forall id :: id in rows ==> rows[id] == theirs[id] || (id in own && MovedTo(keys, theirs[id], rows[id]))
  }

  lemma {:induction false} WrittenRefines(keys: Keys, theirs: Rows, rows: Rows, own: set<Id>, writes: seq<Write>)
    requires Refines(keys, theirs, rows, own)
    ensures Refines(keys, Written(theirs, writes), Written(rows, writes), own)
  {
    if writes != [] {
      WrittenRefines(keys, theirs, rows, own, writes[..|writes| - 1]);
    }
  }

  /** Attempt `n` found the row changed since it was read, and still there to read again. */
  ghost predicate LostSwap(initial: Rows, others: Others, id: Id, read: Stored, start: nat, n: nat) {
    var was := if n == 0 then Some(read) else Row(Turns(initial, others, start + 2 * n), id);
    && Row(Turns(initial, others, start + 2 * n + 1), id) != was
    && Row(Turns(initial, others, start + 2 * n + 2), id).Some?
  }

  ghost predicate LostSwaps(initial: Rows, others: Others, id: Id, read: Stored, start: nat, count: nat) {
    forall n: nat :: n < count ==> LostSwap(initial, others, id, read, start, n)
  }

  lemma LostOneMore(initial: Rows, others: Others, id: Id, read: Stored, start: nat, count: nat, stored: Stored)
    requires LostSwaps(initial, others, id, read, start, count)
    requires Some(stored) == if count == 0 then Some(read) else Row(Turns(initial, others, start + 2 * count), id)
    requires Row(Turns(initial, others, start + 2 * count + 1), id) != Some(stored)
    requires Row(Turns(initial, others, start + 2 * count + 2), id).Some?
    ensures LostSwaps(initial, others, id, read, start, count + 1)
  {}

  /** All four attempts at the row were lost to other writers. */
  ghost predicate Contended(initial: Rows, others: Others, id: Id, start: nat, end: nat) {
    exists turn: nat, read :: start <= turn && turn + 2 * MAX_ATTEMPTS <= end
      && LostSwaps(initial, others, id, read, turn, MAX_ATTEMPTS)
  }

  /** At some moment the row held what cannot be opened. */
  ghost predicate LockedDuring(keys: Keys, initial: Rows, others: Others, id: Id, start: nat, end: nat) {
    exists turn: nat :: start <= turn <= end && Locked(keys, Turns(initial, others, turn), id)
  }

  /** The only two reasons for which the second pass fails. */
  ghost predicate Stopped(keys: Keys, initial: Rows, others: Others, id: Id, start: nat, end: nat) {
    Contended(initial, others, id, start, end) || LockedDuring(keys, initial, others, id, start, end)
  }

  /** Everything the others write can be opened. */
  ghost predicate WritesReadable(keys: Keys, others: Others) {
    forall n: nat :: PutsReadable(keys, others(n))
  }

  predicate PutsReadable(keys: Keys, writes: seq<Write>) {
    forall w <- writes :: w.Put? ==> Open(keys, w.stored).Some?
  }

  lemma {:induction false} WrittenIsReadable(keys: Keys, rows: Rows, writes: seq<Write>)
    requires Readable(keys, rows) && PutsReadable(keys, writes)
    ensures Readable(keys, Written(rows, writes))
  {
    if writes != [] {
      var front, last := writes[..|writes| - 1], writes[|writes| - 1];
      assert last in writes && forall w <- front :: w in writes;
      WrittenIsReadable(keys, rows, front);
    }
  }

  lemma {:induction false} LastWriteIsReadable(keys: Keys, rows: Rows, writes: seq<Write>, id: Id)
    requires PutsReadable(keys, writes) && WritesTo(writes, id)
    ensures !Locked(keys, Written(rows, writes), id)
  {
    var front, last := writes[..|writes| - 1], writes[|writes| - 1];
    assert last in writes && forall w <- front :: w in writes;
    if last.id != id {
      assert writes == front + [last];
      LastWriteIsReadable(keys, rows, front, id);
    }
  }

  lemma {:induction false} TouchedIsReadable(keys: Keys, rows: Rows, others: Others, id: Id, end: nat)
    requires WritesReadable(keys, others) && Touched(others, id, 0, end)
    ensures !Locked(keys, Turns(rows, others, end), id)
  {
    assert PutsReadable(keys, others(end - 1));
    if WritesTo(others(end - 1), id) {
      LastWriteIsReadable(keys, Turns(rows, others, end - 1), others(end - 1), id);
    } else {
      TouchedMore(others, id, 0, end - 1, end);
      TouchedIsReadable(keys, rows, others, id, end - 1);
      WrittenElsewhere(Turns(rows, others, end - 1), others(end - 1), id);
    }
  }

  /** Once every row can be opened, it stays so as long as the others' writes can be. */
  lemma {:induction false} TurnsStayReadable(keys: Keys, rows: Rows, others: Others, start: nat, end: nat)
    requires WritesReadable(keys, others) && start <= end && Readable(keys, Turns(rows, others, start))
    ensures Readable(keys, Turns(rows, others, end))
  {
    if start < end {
      TurnsStayReadable(keys, rows, others, start, end - 1);
      assert PutsReadable(keys, others(end - 1));
      WrittenIsReadable(keys, Turns(rows, others, end - 1), others(end - 1));
    }
  }

  /** Rows that are not yet under the current key. */
  function Stale(keys: Keys, rows: Rows): set<Id> {
    set id | id in rows && !UnderCurrent(keys, rows[id])
  }

  /**
    * The scan has dealt with row `id`: unless the others touched it, it was written exactly if it
    * was stale before, and it is under the current key now.
    */
  ghost predicate Settled(keys: Keys, others: Others, before: Rows, rows: Rows, own: set<Id>, id: Id, start: nat, end: nat) {
    !Touched(others, id, start, end) ==>
      && (id in own <==> id in Stale(keys, before))
      && (id in rows ==> UnderCurrent(keys, rows[id]))
  }

  lemma SettledStays(keys: Keys, others: Others, before: Rows, mid: Rows, rows: Rows, ours: set<Id>, own: set<Id>,
                     except: set<Id>, id: Id, start: nat, mid': nat, end: nat)
    requires start <= mid' <= end && id !in except && ours <= own <= ours + except
    requires Settled(keys, others, before, mid, ours, id, start, mid') && Kept(others, mid, rows, except, mid', end)
    ensures Settled(keys, others, before, rows, own, id, start, end)
  {
    TouchedMore(others, id, start, mid', end);
    assert !Touched(others, id, mid', end) ==> Row(rows, id) == Row(mid, id);
  }

  /** The scan has dealt with the rows of `done` and, since `start`, written `count` of them and nothing else. */
  ghost predicate Progress(keys: Keys, others: Others, first: Rows, mine: set<Id>, rows: Rows, own: set<Id>,
                           done: set<Id>, start: nat, end: nat, count: nat) {
    && mine <= own <= mine + done && |own| == |mine| + count
    && Kept(others, first, rows, done, start, end)
    && forall id :: id in done ==> Settled(keys, others, first, rows, own, id, start, end)
  }

  lemma ProgressMore(keys: Keys, others: Others, first: Rows, mine: set<Id>, mid: Rows, ours: set<Id>, rows: Rows, own: set<Id>,
                     done: set<Id>, id: Id, start: nat, before: nat, end: nat, count: nat, moved: nat)
    requires start <= before <= end && id !in done && id !in ours && moved <= 1
    requires Progress(keys, others, first, mine, mid, ours, done, start, before, count)
    requires own == ours + (if moved == 1 then {id} else {}) && Kept(others, mid, rows, {id}, before, end)
    requires Settled(keys, others, first, rows, own, id, start, end)
    ensures Progress(keys, others, first, mine, rows, own, done + {id}, start, end, count + moved)
  {
    KeptMore(others, first, mid, rows, done, {id}, start, before, end);
    forall x | x in done
      ensures Settled(keys, others, first, rows, own, x, start, end)
    {
      SettledStays(keys, others, first, mid, rows, ours, own, {id}, x, start, before, end);
    }
  }

  function Through(cursor: int): set<Id> {
    set id: Id | 0 <= id <= cursor && AtMost(id, cursor)
  }

  predicate AtMost(id: Id, cursor: int) {
    id <= cursor
  }

  /** A row the scan passes, whether before the page, in it, or missing from both. */
  lemma RowPassed(keys: Keys, others: Others, first: Rows, atCursor: Rows, ours: set<Id>, start: nat, t0: nat,
                  atPage: Rows, t1: nat, ids: set<Id>, rows: Rows, own: set<Id>, end: nat, id: Id, passed: bool)
    requires start <= t0 <= t1 <= end && ours <= own <= ours + ids
    requires Kept(others, atCursor, atPage, {}, t0, t1) && Kept(others, atPage, rows, ids, t1, end)
    requires if passed then Settled(keys, others, first, atCursor, ours, id, start, t0) && id !in ids
             else id !in ours && (!Touched(others, id, start, t0) ==> Row(atCursor, id) == Row(first, id))
    requires !passed && id in ids ==> Settled(keys, others, atPage, rows, own, id, t1, end)
    requires !passed && id in atPage ==> id in ids
    ensures Settled(keys, others, first, rows, own, id, start, end)
  {
    TouchedMore(others, id, start, t0, t1);
    TouchedMore(others, id, start, t1, end);
    if !Touched(others, id, start, end) {
      assert Row(atPage, id) == Row(atCursor, id);
      assert id !in ids ==> Row(rows, id) == Row(atPage, id);
    }
  }

  /** A page read and dealt with takes the scan from its old cursor to wherever the page reaches. */
  lemma PageDone(keys: Keys, others: Others, first: Rows, atCursor: Rows, ours: set<Id>, cursor: int, start: nat, t0: nat, count: nat,
                 atPage: Rows, t1: nat, ids: set<Id>, rows: Rows, own: set<Id>, end: nat, moved: nat, reach: int)
    requires start <= t0 <= t1 <= end && cursor <= reach
    requires Progress(keys, others, first, {}, atCursor, ours, Through(cursor), start, t0, count)
    requires Kept(others, atCursor, atPage, {}, t0, t1)
    requires Between(ids, atPage, cursor, reach)
    requires Progress(keys, others, atPage, ours, rows, own, ids, t1, end, moved)
    ensures Progress(keys, others, first, {}, rows, own, Through(reach), start, end, count + moved)
  {
    KeptMore(others, first, atCursor, atPage, Through(cursor), {}, start, t0, t1);
    KeptMore(others, first, atPage, rows, Through(cursor), ids, start, t1, end);
    forall id: Id | id <= reach
      ensures Settled(keys, others, first, rows, own, id, start, end)
    {
      RowPassed(keys, others, first, atCursor, ours, start, t0, atPage, t1, ids, rows, own, end, id, id <= cursor);
    }
    assert Through(cursor) + ids <= Through(reach);
  }

  /** The ids lie beyond the cursor, no further than `reach`, and include all rows there. */
  ghost predicate Between(ids: set<Id>, rows: Rows, cursor: int, reach: int) {
    && (forall id :: id in ids ==> cursor < id <= reach)
    && (forall id :: id in rows && cursor < id <= reach ==> id in ids)
  }

  /** The row is there and its secret cannot be opened. */
  predicate Locked(keys: Keys, rows: Rows, id: Id) {
    id in rows && Open(keys, rows[id]).None?
  }

  ghost predicate Readable(keys: Keys, rows: Rows) {
    forall id :: id in rows ==> Open(keys, rows[id]).Some?
  }

  datatype Attempted = Skipped | Refused | Moved | Lost(latest: Option<Stored>)

  datatype Swap = Done | Gone | Changed(latest: Stored)

  class SecretTable {
    const keys: Keys
    const initial: Rows  // the rows at turn 0
    const others: Others
    var rows: Rows
    var turn: nat
    ghost var own: set<Id>  // rows this startup has written

    constructor (keys: Keys, rows: Rows, others: Others)
      ensures Valid() && this.keys == keys && this.others == others
      ensures this.rows == rows && AtStart()
    {
      this.keys, this.initial, this.others := keys, rows, others;
      this.rows, this.turn, this.own := rows, 0, {};
    }

    ghost function Theirs(): Rows
      reads this
    {
      Turns(initial, others, turn)
    }

    ghost predicate Valid()
      reads this
    {
      Refines(keys, Theirs(), rows, own)
    }

    ghost predicate AtStart()
      reads this
    {
      rows == initial && turn == 0 && own == {}
    }

    /** A row this startup has not written and the others have not touched since turn `start`. */
    lemma Undisturbed(id: Id, start: nat)
      requires Valid() && start <= turn && id !in own && !Touched(others, id, start, turn)
      ensures Row(rows, id) == Row(Turns(initial, others, start), id)
    {
      UntouchedStays(initial, others, id, start, turn);
    }

    /** Other replicas commit what they do in their next turn. */
    method Interfere()
      requires Valid()
      modifies this`rows, this`turn
      ensures Valid() && turn == old(turn) + 1
      ensures rows == Written(old(rows), others(old(turn)))
      ensures Kept(others, old(rows), rows, {}, old(turn), turn)
    {
      var writes := others(turn);
      TurnKeeps(others, rows, turn);
      ghost var theirs := Theirs();
      for i := 0 to |writes|
        invariant rows == Written(old(rows), writes[..i]) && turn == old(turn)
      {
        assert writes[..i + 1][..i] == writes[..i];
        match writes[i] {
          case Put(id, stored) => rows := rows[id := stored];
          case Remove(id) => rows := rows - {id};
        }
      }
      assert writes[..|writes|] == writes;
      WrittenRefines(keys, theirs, old(rows), own, writes);
      turn := turn + 1;
      assert Theirs() == Written(theirs, writes);
    }

    method ReadPage(cursor: int) returns (page: seq<Entry>)
      ensures IsPage(rows, cursor, page) && |page| <= 500
      ensures |page| < 500 ==> forall id :: id in rows && cursor < id ==> id in Ids(page)
    {
      page := [];
      var left := set id | id in rows && cursor < id;
      while left != {} && |page| < BATCH
        invariant |page| <= BATCH && Holds(rows, page)
        invariant Ids(page) + left == set id | id in rows && cursor < id
        invariant forall id, later :: id in Ids(page) && later in left ==> id < later
        decreases left
      {
        var least := Least(left);
        IdsOfAppend(page, (least, rows[least]));
        assert forall k :: 0 <= k < |page| ==> page[k] in page && page[k].0 in Ids(page);
        page, left := page + [(least, rows[least])], left - {least};
      }
      PageIsComplete(rows, cursor, page, left);
    }

    method NextPage(cursor: int) returns (page: seq<Entry>)
      requires Valid()
      modifies this`rows, this`turn
      ensures Valid() && turn == old(turn) + 1
      ensures rows == Written(old(rows), others(old(turn)))
      ensures Kept(others, old(rows), rows, {}, old(turn), turn)
      ensures IsPage(rows, cursor, page) && |page| <= 500
      ensures |page| < 500 ==> forall id :: id in rows && cursor < id ==> id in Ids(page)
    {
      Interfere();
      page := ReadPage(cursor);
    }

    /** UPDATE ... WHERE id = $1 AND secret = $3: true when one row was affected. */
    method CompareAndSwap(id: Id, expected: Stored, wanted: Stored) returns (swapped: bool)
      requires Valid() && MovedTo(keys, expected, wanted)
      modifies this
      ensures Valid() && turn == old(turn) + 1
      ensures var before := Written(old(rows), others(old(turn)));
        && swapped == (Row(before, id) == Some(expected))
        && rows == if swapped then before[id := wanted] else before
      ensures own == old(own) + if swapped then {id} else {}
      ensures Kept(others, old(rows), rows, {id}, old(turn), turn)
      ensures swapped && id !in old(own) ==> Row(Theirs(), id) == Some(expected)
    {
      Interfere();
      swapped := id in rows && rows[id] == expected;
      if swapped {
        rows := rows[id := wanted];
        own := own + {id};
      }
    }

    /** The value of one row, if it is still there. */
    method Reread(id: Id) returns (latest: Option<Stored>)
      requires Valid()
      modifies this`rows, this`turn
      ensures Valid() && turn == old(turn) + 1
      ensures rows == Written(old(rows), others(old(turn)))
      ensures Kept(others, old(rows), rows, {}, old(turn), turn)
      ensures latest == Row(rows, id)
    {
      Interfere();
      latest := if id in rows then Some(rows[id]) else None;
    }

    /** The first entry of a page that cannot be opened, or its length. */
    method FirstLocked(page: seq<Entry>) returns (i: nat)
      ensures i <= |page| && (i < |page| ==> Open(keys, page[i].1).None?)
      ensures forall k :: 0 <= k < i ==> Open(keys, page[k].1).Some?
    {
      i := 0;
      while i < |page| && Open(keys, page[i].1).Some?
        invariant i <= |page| && forall k :: 0 <= k < i ==> Open(keys, page[k].1).Some?
      {
        i := i + 1;
      }
    }

    /**
      * Writes nothing. Succeeds only if every row the others leave alone can be read, having
      * counted each of these once; fails only on a row that cannot be read at that moment.
      */
    method Preflight() returns (r: Result<nat, Id>, ghost seen: set<Id>)
      requires Valid() && own == {}
      modifies this`rows, this`turn
      ensures Valid() && old(turn) <= turn
      ensures r.Err? ==> Locked(keys, rows, r.error)
      ensures r.Ok? ==> r.value == |seen|
      ensures r.Ok? ==> forall id: Id :: !Touched(others, id, old(turn), turn) ==>
        (id in seen <==> id in old(rows)) && (id in seen ==> Open(keys, old(rows)[id]).Some?)
    {
      var cursor: int, scanned: nat := -1, 0;
      ghost var start := turn;
      seen := {};
      while true
        invariant Valid() && start <= turn && cursor < ID_SPACE
        invariant scanned == |seen| && forall id :: id in seen ==> id <= cursor
        invariant Read(start, cursor, seen)
        decreases ID_SPACE - cursor
      {
        ghost var before := turn;
        var page := NextPage(cursor);
        ReadLater(start, cursor, seen, before);
        if page == [] {
          ReadAll(start, cursor, seen);
          return Ok(scanned), seen;
        }
        var locked := FirstLocked(page);
        if locked < |page| {
          return Err(page[locked].0), seen;
        }
        ReadThrough(start, cursor, seen, page);
        scanned, cursor := scanned + |page|, page[|page| - 1].0;
        seen := seen + Ids(page);
      }
    }

    /** Of the rows the others left alone since `start`, those up to the cursor have been read. */
    ghost predicate Read(start: nat, cursor: int, seen: set<Id>)
      reads this
    {
      forall id: Id :: id <= cursor && !Touched(others, id, start, turn) ==>
        var row := Row(Turns(initial, others, start), id);
        (id in seen <==> row.Some?) && (row.Some? ==> Open(keys, row.value).Some?)
    }

    lemma ReadLater(start: nat, cursor: int, seen: set<Id>, before: nat)
      requires start <= before <= turn
      requires forall id: Id :: id <= cursor && !Touched(others, id, start, before) ==>
        var row := Row(Turns(initial, others, start), id);
        (id in seen <==> row.Some?) && (row.Some? ==> Open(keys, row.value).Some?)
      ensures Read(start, cursor, seen)
    {
      forall id: Id | id <= cursor && !Touched(others, id, start, turn)
        ensures !Touched(others, id, start, before)
      {
        TouchedMore(others, id, start, before, turn);
      }
    }

    lemma ReadThrough(start: nat, cursor: int, seen: set<Id>, page: seq<Entry>)
      requires Valid() && own == {} && start <= turn && Read(start, cursor, seen)
      requires forall id :: id in seen ==> id <= cursor
      requires IsPage(rows, cursor, page) && page != []
      requires forall k :: 0 <= k < |page| ==> Open(keys, page[k].1).Some?
      ensures Read(start, page[|page| - 1].0, seen + Ids(page)) && cursor < page[|page| - 1].0
      ensures |seen + Ids(page)| == |seen| + |page|
      ensures forall id :: id in seen + Ids(page) ==> id <= page[|page| - 1].0
    {
      PageAdvances(rows, cursor, page);
      IdsCount(rows, page);
      assert seen !! Ids(page);
      forall id: Id | id <= page[|page| - 1].0 && !Touched(others, id, start, turn)
        ensures var row := Row(Turns(initial, others, start), id);
          (id in seen + Ids(page) <==> row.Some?) && (row.Some? ==> Open(keys, row.value).Some?)
      {
        Undisturbed(id, start);
        if cursor < id && id in rows {
          PageHoldsRow(rows, page, id);
        }
      }
    }

    lemma ReadAll(start: nat, cursor: int, seen: set<Id>)
      requires Valid() && own == {} && start <= turn && Read(start, cursor, seen)
      requires IsPage(rows, cursor, [])
      requires forall id :: id in seen ==> id <= cursor
      ensures Read(start, ID_SPACE, seen)
    {
      forall id: Id | cursor < id && !Touched(others, id, start, turn)
        ensures id !in seen && Row(Turns(initial, others, start), id) == None
      {
        Undisturbed(id, start);
        assert id !in Ids([]);
      }
    }

    /** One swap; when it fails, the row is read again, which is a statement of its own. */
    method TrySwap(id: Id, read: Stored, wanted: Stored) returns (outcome: Swap)
      requires Valid() && id !in own && MovedTo(keys, read, wanted)
      modifies this
      ensures Valid() && turn == old(turn) + if outcome.Done? then 1 else 2
      ensures own == old(own) + if outcome.Done? then {id} else {}
      ensures outcome.Done? <==> Row(Turns(initial, others, old(turn) + 1), id) == Some(read)
      ensures Kept(others, old(rows), rows, {id}, old(turn), turn)
      ensures outcome.Done? ==> Row(rows, id) == Some(wanted)
      ensures !outcome.Done? ==>
        Row(rows, id) == Row(Theirs(), id) == if outcome.Changed? then Some(outcome.latest) else None
    {
      ghost var before, start := rows, turn;
      var swapped := CompareAndSwap(id, read, wanted);
      if swapped {
        return Done;
      }
      assert Row(Theirs(), id) == Row(rows, id);
      ghost var mid := rows;
      var latest := Reread(id);
      KeptLonger(others, before, mid, rows, {id}, start, start + 1, turn);
      outcome := if latest.Some? then Changed(latest.value) else Gone;
    }

    /**
      * Attempts at row `id`, which held `read` in turn `asOf`, have been made `count` times since
      * the rows were `first` in turn `start`: all lost, nothing written, and now it holds `stored`.
      */
    ghost predicate Tried(id: Id, read: Stored, asOf: nat, first: Rows, start: nat, count: nat, stored: Stored)
      reads this
    {
      && turn == start + 2 * count && asOf <= start
      && Row(Turns(initial, others, asOf), id) == Some(read)
      && (if count == 0 then stored == read else Row(rows, id) == Row(Theirs(), id) == Some(stored))
      && (count > 0 ==> Touched(others, id, asOf, turn))
      && LostSwaps(initial, others, id, read, start, count)
      && Kept(others, first, rows, {id}, start, turn)
    }

    /** A lost attempt, with the row as it was read again. */
    lemma TriedOnceMore(id: Id, read: Stored, asOf: nat, first: Rows, start: nat, count: nat, stored: Stored,
                        mid: Rows, before: nat, latest: Stored)
      requires before == start + 2 * count && turn == before + 2 && asOf <= start
      requires Row(Turns(initial, others, asOf), id) == Some(read)
      requires if count == 0 then stored == read else Row(Turns(initial, others, before), id) == Some(stored)
      requires count > 0 ==> Touched(others, id, asOf, before)
      requires LostSwaps(initial, others, id, read, start, count)
      requires Kept(others, first, mid, {id}, start, before) && Kept(others, mid, rows, {id}, before, turn)
      requires Row(Turns(initial, others, before + 1), id) != Some(stored)
      requires Row(rows, id) == Row(Theirs(), id) == Some(latest)
      ensures Tried(id, read, asOf, first, start, count + 1, latest)
    {
      LostOneMore(initial, others, id, read, start, count, stored);
      KeptLonger(others, first, mid, rows, {id}, start, before, turn);
      AttemptTouched(id, stored, read, asOf, before, Lost(Some(latest)));
    }

    /** The next attempt. */
    method Attempt(id: Id, stored: Stored, nonce: nat, ghost read: Stored, ghost asOf: nat, ghost first: Rows,
                   ghost start: nat, ghost count: nat) returns (a: Attempted)
      requires Valid() && id !in own && Tried(id, read, asOf, first, start, count, stored)
      modifies this
      ensures Valid() && own == old(own) + if a.Moved? then {id} else {}
      ensures turn == old(turn) + match a case Skipped => 0 case Refused => 0 case Moved => 1 case Lost(_) => 2
      ensures a.Skipped? <==> UnderCurrent(keys, stored)
      ensures a.Refused? <==> Open(keys, stored).None?
      ensures a.Skipped? || a.Refused? ==> rows == old(rows)
      ensures a.Moved? ==> id in rows && UnderCurrent(keys, rows[id])
      ensures a.Lost? ==> a.latest == Row(rows, id) == Row(Theirs(), id)
      ensures a.Lost? && a.latest.Some? ==> Tried(id, read, asOf, first, start, count + 1, a.latest.value)
      ensures a.Lost? || stored != read ==> Touched(others, id, asOf, turn)
      ensures Kept(others, first, rows, {id}, start, turn)
    {
      ghost var mid, before := rows, turn;
      match Rewrap(keys, nonce, stored) {
        case UpToDate =>
          a := Skipped;
        case Unreadable =>
          a := Refused;
        case Rewrapped(after) =>
          var outcome := TrySwap(id, stored, after);
          match outcome {
            case Done => a := Moved;
            case Gone => a := Lost(None);
            case Changed(latest) =>
              a := Lost(Some(latest));
              TriedOnceMore(id, read, asOf, first, start, count, stored, mid, before, latest);
          }
          KeptLonger(others, first, mid, rows, {id}, start, before, turn);
      }
      AttemptTouched(id, stored, read, asOf, before, a);
    }

    /**
      * Up to four attempts at a row that held `read` in turn `asOf`: rewrap the value last read,
      * swap it in, read again if the row changed meanwhile.
      */
    method RewrapRow(id: Id, read: Stored, nonce: nat, ghost asOf: nat) returns (r: Result<nat, Id>)
      requires Valid() && id !in own && asOf <= turn
      requires Row(Turns(initial, others, asOf), id) == Some(read)
      modifies this
      ensures Valid() && old(turn) <= turn <= old(turn) + 8
      ensures own == old(own) + if r == Ok(1) then {id} else {}
      ensures Kept(others, old(rows), rows, {id}, old(turn), turn)
      ensures r == Ok(1) || r == Ok(0) || r == Err(id)
      ensures r == Ok(1) ==> id in rows && UnderCurrent(keys, rows[id])
      ensures r == Ok(0) ==> id !in rows || UnderCurrent(keys, if turn == old(turn) then read else rows[id])
      ensures r.Err? ==>
        || (turn == old(turn) + 8 && LostSwaps(initial, others, id, read, old(turn), 4))
        || if turn == old(turn) then Open(keys, read).None? else id in rows && Open(keys, rows[id]).None?
      ensures !Touched(others, id, asOf, turn) ==>
        r == if Open(keys, read).None? then Err(id) else Ok(if UnderCurrent(keys, read) then 0 else 1)
    {
      var stored := read;
      ghost var start, first := turn, rows;
      for attempt := 0 to MAX_ATTEMPTS
        invariant Valid() && own == old(own)
        invariant Tried(id, read, asOf, first, start, attempt, stored)
      {
        var a := Attempt(id, stored, nonce, read, asOf, first, start, attempt);
        match a {
          case Skipped =>
            return Ok(0);
          case Refused =>
            return Err(id);
          case Moved =>
            return Ok(1);
          case Lost(latest) =>
            if latest.None? {
              return Ok(0);
            }
            stored := latest.value;
        }
      }
      r := Err(id);
    }

    /** A page just read holds what the others have there. */
    lemma PageIsTheirs(page: seq<Entry>)
      requires Valid() && Holds(rows, page) && own !! Ids(page)
      ensures forall k :: 0 <= k < |page| ==>
        page[k].0 in Ids(page) && Row(rows, page[k].0) == Row(Theirs(), page[k].0) == Some(page[k].1)
    {
      assert forall k :: 0 <= k < |page| ==> page[k] in page && page[k].0 in Ids(page);
    }

    lemma WhyRowFailed(id: Id, read: Stored, asOf: nat, before: nat)
      requires Valid() && asOf <= before <= turn && id !in own && Row(Turns(initial, others, asOf), id) == Some(read)
      requires
        || (turn == before + 2 * MAX_ATTEMPTS && LostSwaps(initial, others, id, read, before, MAX_ATTEMPTS))
        || if turn == before then Open(keys, read).None? else id in rows && Open(keys, rows[id]).None?
      ensures Stopped(keys, initial, others, id, asOf, turn)
    {
      if !(turn == before + 2 * MAX_ATTEMPTS && LostSwaps(initial, others, id, read, before, MAX_ATTEMPTS)) {
        var at := if turn == before then asOf else turn;
        assert Locked(keys, Turns(initial, others, at), id);
      }
    }

    /** What a successful attempt at a row means when the others left it alone. */
    lemma RowSettled(before: Rows, id: Id, read: Stored, start: nat, moved: nat)
      requires Valid() && start <= turn && Row(before, id) == Some(read) == Row(Turns(initial, others, start), id)
      requires id in own <==> moved == 1
      requires !Touched(others, id, start, turn) ==> Open(keys, read).Some? && (moved == 1 <==> !UnderCurrent(keys, read))
      requires moved == 1 ==> id in rows && UnderCurrent(keys, rows[id])
      ensures Settled(keys, others, before, rows, own, id, start, turn)
    {
      if id !in own && !Touched(others, id, start, turn) {
        Undisturbed(id, start);
      }
    }

    /** A swap that fails finds the row changed since it was first read; a touched row stays touched. */
    lemma AttemptTouched(id: Id, stored: Stored, read: Stored, asOf: nat, before: nat, a: Attempted)
      requires asOf <= before <= turn && (a.Lost? ==> before < turn)
      requires Row(Turns(initial, others, asOf), id) == Some(read)
      requires stored == read || Touched(others, id, asOf, before)
      requires a.Lost? ==> Row(Turns(initial, others, before + 1), id) != Some(stored)
      ensures a.Lost? || stored != read ==> Touched(others, id, asOf, turn)
    {
      TouchedMore(others, id, asOf, before, turn);
      if a.Lost? && stored == read {
        TouchedMore(others, id, asOf, before + 1, turn);
        if !Touched(others, id, asOf, before + 1) {
          UntouchedStays(initial, others, id, asOf, before + 1);
        }
      }
    }

    /** Every row of a page just read: the first row that fails ends the scan. */
    method RewrapPage(page: seq<Entry>, nonces: Id -> nat) returns (r: Result<nat, Id>)
      requires Valid() && Holds(rows, page) && own !! Ids(page)
      modifies this
      ensures Valid() && old(turn) <= turn
      ensures old(own) <= own <= old(own) + Ids(page)
      ensures r.Ok? ==> Progress(keys, others, old(rows), old(own), rows, own, Ids(page), old(turn), turn, r.value)
      ensures r.Err? ==> r.error in Ids(page) && Stopped(keys, initial, others, r.error, old(turn), turn)
      ensures r.Err? && !Touched(others, r.error, old(turn), turn) ==> Locked(keys, old(rows), r.error)
    {
      var count := 0;
      ghost var start, first, mine := turn, rows, own;
      PageIsTheirs(page);
      for i := 0 to |page|
        invariant Valid() && start <= turn
        invariant Progress(keys, others, first, mine, rows, own, Ids(page[..i]), start, turn, count)
      {
        LaterIdIsNew(first, page, i);
        var id, read := page[i].0, page[i].1;
        ghost var before, mid, ours := turn, rows, own;
        assert id !in own;
        var one := RewrapRow(id, read, nonces(id), start);
        TouchedMore(others, id, start, before, turn);
        if one.Err? {
          WhyRowFailed(id, read, start, before);
          return Err(id);
        }
        RowSettled(first, id, read, start, one.value);
        ProgressMore(keys, others, first, mine, mid, ours, rows, own, Ids(page[..i]), id, start, before, turn, count, one.value);
        count := count + one.value;
      }
      assert page[..|page|] == page;
      r := Ok(count);
    }

    /**
      * The whole table, page by page. Of the rows the others leave alone, exactly those that
      * were stale are written, and all end under the current key.
      */
    method RewrapAll(nonces: Id -> nat) returns (r: Result<nat, Id>)
      requires Valid() && own == {}
      modifies this
      ensures Valid() && old(turn) <= turn
      ensures r.Ok? ==> r.value == |own| && forall id: Id :: Settled(keys, others, old(rows), rows, own, id, old(turn), turn)
      ensures r.Err? && !Touched(others, r.error, old(turn), turn) ==> Locked(keys, old(rows), r.error)
      ensures r.Err? ==> Stopped(keys, initial, others, r.error, old(turn), turn)
    {
      var cursor: int, count: nat := -1, 0;
      ghost var start, first := turn, rows;
      while cursor < ID_SPACE
        invariant Valid() && start <= turn
        invariant Progress(keys, others, first, {}, rows, own, Through(cursor), start, turn, count)
        decreases ID_SPACE - cursor
      {
        var moved, last := RewrapNext(cursor, nonces, first, start, count);
        if moved.Err? {
          return moved;
        }
        cursor, count := last, count + moved.value;
      }
      assert forall id: Id :: AtMost(id, cursor) && id in Through(cursor);
      r := Ok(count);
    }

    /** The page after the cursor, and where the scan stands then: past all ids when there is none. */
    method RewrapNext(cursor: int, nonces: Id -> nat, ghost first: Rows, ghost start: nat, ghost count: nat)
        returns (moved: Result<nat, Id>, last: int)
      requires Valid() && start <= turn && cursor < ID_SPACE
      requires Progress(keys, others, first, {}, rows, own, Through(cursor), start, turn, count)
      modifies this
      ensures Valid() && start <= turn && cursor < last
      ensures moved.Ok? ==> Progress(keys, others, first, {}, rows, own, Through(last), start, turn, count + moved.value)
      ensures moved.Err? && !Touched(others, moved.error, start, turn) ==> Locked(keys, first, moved.error)
      ensures moved.Err? ==> Stopped(keys, initial, others, moved.error, start, turn)
    {
      ghost var t0, atCursor, ours := turn, rows, own;
      var page := NextPage(cursor);
      ghost var t1, atPage := turn, rows;
      if page == [] {
        moved, last := Ok(0), ID_SPACE;
        NothingBeyond(cursor);
        PageDone(keys, others, first, atCursor, ours, cursor, start, t0, count, atPage, t1, {}, rows, own, turn, 0, last);
      } else {
        PageAdvances(rows, cursor, page);
        PageIsBetween(page, cursor);
        last := page[|page| - 1].0;
        moved := RewrapPage(page, nonces);
        if moved.Ok? {
          PageDone(keys, others, first, atCursor, ours, cursor, start, t0, count, atPage, t1, Ids(page), rows, own, turn,
                   moved.value, last);
        } else {
          LockedFromStart(first, atCursor, atPage, cursor, start, t0, t1, moved.error);
        }
      }
    }

    lemma NothingBeyond(cursor: int)
      requires IsPage(rows, cursor, [])
      ensures Between({}, rows, cursor, ID_SPACE)
    {
      assert forall id :: id in rows && cursor < id ==> id in Ids([]);
    }

    /** A row left alone that is locked when its page is read was locked from the start. */
    lemma LockedFromStart(first: Rows, atCursor: Rows, atPage: Rows, cursor: int, start: nat, t0: nat, t1: nat, id: Id)
      requires start <= t0 <= t1 <= turn && cursor < id
      requires Kept(others, first, atCursor, Through(cursor), start, t0) && Kept(others, atCursor, atPage, {}, t0, t1)
      requires !Touched(others, id, t1, turn) ==> Locked(keys, atPage, id)
      ensures !Touched(others, id, start, turn) ==> Locked(keys, first, id)
    {
      KeptMore(others, first, atCursor, atPage, Through(cursor), {}, start, t0, t1);
      TouchedMore(others, id, start, t1, turn);
      assert !Touched(others, id, start, t1) ==> Row(atPage, id) == Row(first, id);
    }

    /** Rows of a page not yet reached are not yet written. */
    lemma PageIsBetween(page: seq<Entry>, cursor: int)
      requires Valid() && IsPage(rows, cursor, page) && page != []
      requires own <= Through(cursor)
      ensures Between(Ids(page), rows, cursor, page[|page| - 1].0) && own !! Ids(page)
    {
      PageAdvances(rows, cursor, page);
      assert forall id :: id in own ==> id <= cursor;
      assert forall id :: id in Ids(page) ==> id in UpTo(rows.Keys, page[|page| - 1].0);
    }
  }

  datatype Report = Report(ssoScanned: nat, sso: nat, mfaScanned: nat, mfa: nat)

  /** The pass in which a startup failed, and the row it failed on. */
  datatype Failure = InPreflight(id: Id) | InRewrap(id: Id)

  /** Every row is under the current key and holds the secret it held in `before`. */
  ghost predicate Converged(keys: Keys, before: Rows, rows: Rows) {
    && rows.Keys == before.Keys
    && forall id :: id in rows ==>
         && UnderCurrent(keys, rows[id])
         && Open(keys, rows[id]) == Open(keys, before[id])
         && (UnderCurrent(keys, before[id]) ==> rows[id] == before[id])
  }

  /** What a table that was scanned to the end looks like, whatever the others did meanwhile. */
  ghost predicate ScannedOut(t: SecretTable)
    reads t
  {
    forall id: Id :: Settled(t.keys, t.others, t.initial, t.rows, t.own, id, 0, t.turn)
  }

  /** The others wrote or removed the row at some time since the startup began. */
  ghost predicate Disturbed(t: SecretTable, id: Id)
    reads t
  {
    Touched(t.others, id, 0, t.turn)
  }

  /** Every row the others left alone up to turn `mid` can be opened. */
  ghost predicate Authenticated(t: SecretTable, mid: nat) {
    forall id :: id in t.initial && !Touched(t.others, id, 0, mid) ==> Open(t.keys, t.initial[id]).Some?
  }

  lemma NothingWritten(t: SecretTable)
    requires t.Valid() && t.own == {}
    ensures Kept(t.others, t.initial, t.rows, {}, 0, t.turn)
  {
    forall id: Id | !Touched(t.others, id, 0, t.turn)
      ensures Row(t.rows, id) == Row(t.initial, id)
    {
      t.Undisturbed(id, 0);
    }
  }

  /** A scan over rows as they were in turn `mid`, seen from the beginning. */
  lemma ScannedFromStart(t: SecretTable, atMid: Rows, mid: nat)
    requires mid <= t.turn && Kept(t.others, t.initial, atMid, {}, 0, mid)
    requires forall id: Id :: Settled(t.keys, t.others, atMid, t.rows, t.own, id, mid, t.turn)
    ensures ScannedOut(t)
  {
    forall id: Id
      ensures Settled(t.keys, t.others, t.initial, t.rows, t.own, id, 0, t.turn)
    {
      TouchedMore(t.others, id, 0, mid, t.turn);
      assert Settled(t.keys, t.others, atMid, t.rows, t.own, id, mid, t.turn);
      assert !Touched(t.others, id, 0, mid) ==> Row(atMid, id) == Row(t.initial, id);
    }
  }

  /** After the preflight, only a row that was touched can stop the second pass. */
  lemma OnlyTouchedFails(t: SecretTable, atMid: Rows, mid: nat, id: Id)
    requires mid <= t.turn && Kept(t.others, t.initial, atMid, {}, 0, mid) && Authenticated(t, mid)
    requires !Touched(t.others, id, mid, t.turn) ==> Locked(t.keys, atMid, id)
    ensures Disturbed(t, id)
  {
    TouchedMore(t.others, id, 0, mid, t.turn);
    assert !Touched(t.others, id, 0, mid) ==> Row(atMid, id) == Row(t.initial, id);
  }

  /** After the preflight, readable writes leave no row locked at any time. */
  lemma NeverLockedSince(t: SecretTable, mid: nat, id: Id)
    requires mid <= t.turn && Authenticated(t, mid) && WritesReadable(t.keys, t.others)
    ensures !LockedDuring(t.keys, t.initial, t.others, id, mid, t.turn)
  {
    var atMid := Turns(t.initial, t.others, mid);
    forall x | x in atMid
      ensures Open(t.keys, atMid[x]).Some?
    {
      if Touched(t.others, x, 0, mid) {
        TouchedIsReadable(t.keys, t.initial, t.others, x, mid);
      } else {
        UntouchedStays(t.initial, t.others, x, 0, mid);
      }
    }
    forall turn: nat | mid <= turn <= t.turn
      ensures !Locked(t.keys, Turns(t.initial, t.others, turn), id)
    {
      TurnsStayReadable(t.keys, t.initial, t.others, mid, turn);
    }
  }

  /** What was authenticated stays so: of the rows opened, those touched later no longer count. */
  lemma AuthenticatedLater(t: SecretTable, mid: nat)
    requires mid <= t.turn && Authenticated(t, mid)
    ensures Authenticated(t, t.turn)
  {
    forall id | id in t.initial && !Touched(t.others, id, 0, t.turn)
      ensures Open(t.keys, t.initial[id]).Some?
    {
      TouchedMore(t.others, id, 0, mid, t.turn);
    }
  }

  lemma QuietIsUntouched(others: Others, id: Id, start: nat, end: nat)
    requires Quiet(others)
    ensures !Touched(others, id, start, end)
  {}

  lemma {:induction false} QuietTurns(rows: Rows, others: Others, n: nat)
    requires Quiet(others)
    ensures Turns(rows, others, n) == rows
  {
    if n > 0 {
      QuietTurns(rows, others, n - 1);
    }
  }

  /** With nobody else about, a finished scan has written exactly the stale rows. */
  lemma QuietScan(t: SecretTable)
    requires t.Valid() && Quiet(t.others) && ScannedOut(t)
    ensures Converged(t.keys, t.initial, t.rows) && t.own == Stale(t.keys, t.initial)
  {
    QuietTurns(t.initial, t.others, t.turn);
    forall id: Id
      ensures id in t.own <==> id in Stale(t.keys, t.initial)
      ensures id in t.rows ==> UnderCurrent(t.keys, t.rows[id])
    {
      QuietIsUntouched(t.others, id, 0, t.turn);
      assert Settled(t.keys, t.others, t.initial, t.rows, t.own, id, 0, t.turn);
    }
  }

  /**
    * Startup: both tables are authenticated before either is written, with other replicas
    * writing to both throughout. A row that cannot be opened and that the others leave alone
    * makes it fail with nothing written. It fails after its first pass only on a row that the
    * others have touched since it began, and when it can read whatever the others write, only by
    * losing four swaps on one row. Throughout, it changes no secret (that is `Valid`), and when
    * it succeeds every row the others left alone is under the current key. With nobody else
    * writing, it converges both tables and reports exact counts, or changes nothing.
    */
  method RewrapStoredSecrets(sso: SecretTable, mfa: SecretTable, nonces: Id -> nat) returns (r: Result<Report, Failure>)
    requires sso != mfa && sso.AtStart() && mfa.AtStart()
    modifies sso, mfa
    ensures sso.Valid() && mfa.Valid()
    ensures (exists id :: Locked(sso.keys, sso.initial, id) && !Disturbed(sso, id)) ==> r.Err? && r.error.InPreflight?
    ensures (exists id :: Locked(mfa.keys, mfa.initial, id) && !Disturbed(mfa, id)) ==> r.Err? && r.error.InPreflight?
    ensures r.Err? && r.error.InPreflight? ==> sso.own == {} && mfa.own == {}
    ensures r.Err? && r.error.InPreflight? ==> Locked(sso.keys, sso.rows, r.error.id) || Locked(mfa.keys, mfa.rows, r.error.id)
    ensures r.Err? && r.error.InRewrap? ==> Disturbed(sso, r.error.id) || Disturbed(mfa, r.error.id)
    ensures r.Err? && r.error.InRewrap? && WritesReadable(sso.keys, sso.others) && WritesReadable(mfa.keys, mfa.others) ==>
      || Contended(sso.initial, sso.others, r.error.id, 0, sso.turn)
      || Contended(mfa.initial, mfa.others, r.error.id, 0, mfa.turn)
    ensures r.Ok? ==> ScannedOut(sso) && ScannedOut(mfa)
    ensures r.Ok? ==> r.value.sso == |sso.own| && r.value.mfa == |mfa.own|
    ensures Quiet(sso.others) && Quiet(mfa.others) ==>
      && (r.Ok? <==> Readable(sso.keys, sso.initial) && Readable(mfa.keys, mfa.initial))
      && (r.Err? ==> sso.rows == sso.initial && mfa.rows == mfa.initial)
      && (r.Ok? ==> Converged(sso.keys, sso.initial, sso.rows) && Converged(mfa.keys, mfa.initial, mfa.rows))
      && (r.Ok? ==> r.value == Report(|sso.initial|, |Stale(sso.keys, sso.initial)|,
                                      |mfa.initial|, |Stale(mfa.keys, mfa.initial)|))
  {
    var ssoScanned := Authenticate(sso);
    if ssoScanned.Err? {
      return Err(InPreflight(ssoScanned.error));
    }
    var mfaScanned := Authenticate(mfa);
    if mfaScanned.Err? {
      return Err(InPreflight(mfaScanned.error));
    }
    var ssoMoved := RewrapAuthenticated(sso, nonces);
    if ssoMoved.Err? {
      return Err(InRewrap(ssoMoved.error));
    }
    var mfaMoved := RewrapAuthenticated(mfa, nonces);
    if mfaMoved.Err? {
      return Err(InRewrap(mfaMoved.error));
    }
    r := Ok(Report(ssoScanned.value, ssoMoved.value, mfaScanned.value, mfaMoved.value));
  }

  /** The first pass over a table. */
  method Authenticate(t: SecretTable) returns (r: Result<nat, Id>)
    requires t.AtStart()
    modifies t
    ensures t.Valid() && t.own == {}
    ensures r.Ok? ==> Authenticated(t, t.turn)
    ensures r.Err? ==> Locked(t.keys, t.rows, r.error)
    ensures Quiet(t.others) ==> t.rows == t.initial && (r.Ok? <==> Readable(t.keys, t.initial))
    ensures Quiet(t.others) && r.Ok? ==> r.value == |t.initial|
  {
    ghost var seen;
    r, seen := t.Preflight();
    if Quiet(t.others) {
      QuietTurns(t.initial, t.others, t.turn);
    }
    if r.Ok? && Quiet(t.others) {
      forall id: Id
        ensures id in seen <==> id in t.initial
      {
        QuietIsUntouched(t.others, id, 0, t.turn);
      }
      assert seen == t.initial.Keys;
    }
  }

  /** The second pass over a table that passed the first. */
  method RewrapAuthenticated(t: SecretTable, nonces: Id -> nat) returns (r: Result<nat, Id>)
    requires t.Valid() && t.own == {} && Authenticated(t, t.turn)
    modifies t
    ensures t.Valid() && Authenticated(t, t.turn)
    ensures r.Ok? ==> ScannedOut(t) && r.value == |t.own|
    ensures r.Err? ==> Disturbed(t, r.error) && Stopped(t.keys, t.initial, t.others, r.error, old(t.turn), t.turn)
    ensures r.Err? && WritesReadable(t.keys, t.others) ==> Contended(t.initial, t.others, r.error, old(t.turn), t.turn)
    ensures Quiet(t.others) ==> r == Ok(|Stale(t.keys, t.initial)|) && Converged(t.keys, t.initial, t.rows)
  {
    ghost var mid, atMid := t.turn, t.rows;
    NothingWritten(t);
    r := t.RewrapAll(nonces);
    AuthenticatedLater(t, mid);
    if r.Ok? {
      ScannedFromStart(t, atMid, mid);
      if Quiet(t.others) {
        QuietScan(t);
      }
    } else {
      OnlyTouchedFails(t, atMid, mid, r.error);
      if WritesReadable(t.keys, t.others) {
        NeverLockedSince(t, mid, r.error);
      }
    }
  }
}
