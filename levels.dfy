/**
 * The level catalog and the persisted progress record of
 * src/app/components/levels.tsx.
 *
 * The module-level `levels` array is the `levels` array of a `Store`; the
 * browser's `localStorage` entry "savedata" is the `saved` field of the same
 * object (`None` when nothing was ever saved). JSON encoding and decoding are
 * taken as the identity.
 */
module Levels {
  import opened Wrappers

  /** One entry of the catalog: number, score to beat (percent), board side, completion flag. */
  datatype Level = Level(number: int, reqScore: int, size: int, completed: bool)

  /** The persisted record `{active, completed}`. */
  datatype SaveData = SaveData(active: int, completed: seq<bool>)

  /** Why a store operation threw before writing anything. */
  datatype Fault =
    | NoSaveData   // `JSON.parse(null)` gives null, and reading a field of it throws
    | NoSuchLevel  // `levels[level - 1]` is undefined, and assigning a field of it throws

  datatype Outcome = Written | Failed(fault: Fault)

  /** Two entries define the same level (their completion flags may differ). */
  predicate SameDefinition(a: Level, b: Level) {
    a.number == b.number && a.reqScore == b.reqScore && a.size == b.size
  }

  /** Entry i of the table carries number i + 1. */
  predicate Numbered(ls: seq<Level>) {
    forall i :: 0 <= i < |ls| ==> ls[i].number == i + 1
  }

  /** The level table as the program starts with it. */
  function Catalog(): (ls: seq<Level>)
    ensures |ls| == 5
    ensures Numbered(ls)
    ensures forall i :: 0 <= i < |ls| ==> !ls[i].completed
    ensures forall i :: 0 <= i < |ls| ==> 3 <= ls[i].size <= 10 && 0 <= ls[i].reqScore <= 100
    ensures forall i, j :: 0 <= i < j < |ls| ==> ls[i].reqScore < ls[j].reqScore
  {
    [ Level(1, 5, 3, false),
      Level(2, 8, 4, false),
      Level(3, 10, 4, false),
      Level(4, 12, 5, false),
      Level(5, 15, 5, false) ]
  }

  /** `getLevel(num)`: entry `num - 1` of the table, or undefined (`None`) outside it. */
  function GetLevel(ls: seq<Level>, num: int): (r: Option<Level>)
    ensures r.Some? <==> 1 <= num <= |ls|
    ensures r.Some? ==> r.value in ls
    ensures Numbered(ls) ==> forall k :: 0 <= k < |ls| && ls[k].number == num ==> r == Some(ls[k])
  {
    if 1 <= num <= |ls| then Some(ls[num - 1]) else None
  }

  /** The completion flags of a table, index by index (what `createSaveData` stores). */
  function FlagsOf(ls: seq<Level>): (c: seq<bool>)
    ensures |c| == |ls|
    ensures forall i :: 0 <= i < |ls| ==> c[i] == ls[i].completed
  {
    seq(|ls|, i requires 0 <= i < |ls| => ls[i].completed)
  }

  /**
   * The table after `loadData` copied stored flags onto it. A position past
   * the end of `c` reads as `undefined`, which every reader treats as false.
   */
  function WithFlags(ls: seq<Level>, c: seq<bool>): (r: seq<Level>)
    ensures |r| == |ls|
    ensures forall i :: 0 <= i < |ls| ==> SameDefinition(r[i], ls[i])
    ensures forall i :: 0 <= i < |ls| ==> r[i].completed == (i < |c| && c[i])
  {
    seq(|ls|, i requires 0 <= i < |ls| => ls[i].(completed := i < |c| && c[i]))
  }

  /** Loading flags of the same length and saving them again gives back those flags. */
  lemma SaveAfterLoad(ls: seq<Level>, c: seq<bool>)
    requires |c| == |ls|
    ensures FlagsOf(WithFlags(ls, c)) == c
  {
    var r := FlagsOf(WithFlags(ls, c));
    assert forall i :: 0 <= i < |c| ==> r[i] == c[i];
  }

  /** Loading the flags a table was saved with leaves the table as it was. */
  lemma LoadAfterSave(ls: seq<Level>)
    ensures WithFlags(ls, FlagsOf(ls)) == ls
  {
    var r := WithFlags(ls, FlagsOf(ls));
    forall i | 0 <= i < |ls| ensures r[i] == ls[i] {
      assert SameDefinition(r[i], ls[i]) && r[i].completed == ls[i].completed;
    }
  }

  /** `n` flags, all false. */
  function Falses(n: nat): (c: seq<bool>)
    ensures |c| == n && forall i :: 0 <= i < n ==> !c[i]
  {
    seq(n, _ => false)
  }

  /**
   * `completed[i] = true` on the stored array. Past the end a JavaScript array
   * grows, leaving holes that are written back as null; they are modelled as
   * false, the value every reader takes them for.
   */
  function SetFlag(c: seq<bool>, i: nat): (r: seq<bool>)
    ensures |r| == if i < |c| then |c| else i + 1
    ensures r[i]
    ensures forall j :: 0 <= j < |c| && j != i ==> r[j] == c[j]
    ensures forall j :: |c| <= j < |r| && j != i ==> !r[j]
    ensures forall j :: 0 <= j < |c| && c[j] ==> r[j]
  {
    if i < |c| then c[i := true] else c + Falses(i - |c|) + [true]
  }

  /** Marking the same level twice has the effect of marking it once. */
  lemma SetFlagIdempotent(c: seq<bool>, i: nat)
    ensures SetFlag(SetFlag(c, i), i) == SetFlag(c, i)
    ensures i < |c| && c[i] ==> SetFlag(c, i) == c
  {
    assert i < |c| && c[i] ==> c[i := true] == c;
    var once := SetFlag(c, i);
    assert once[i := true] == once;
  }

  /**
   * The progress store: the shared level table (whose completion flags are
   * written in place) and the persisted save record.
   */
  class Store {
    const levels: array<Level>
    var saved: Option<SaveData>

    /** The table still defines the catalog's levels; only flags have changed. */
    ghost predicate Valid()
      reads levels
    {
      levels.Length == |Catalog()| &&
      forall i :: 0 <= i < levels.Length ==> SameDefinition(levels[i], Catalog()[i])
    }

    /** The record holds one flag per level, as every record this module writes does. */
    ghost predicate WellFormed()
      reads this
    {
      saved.Some? ==> |saved.value.completed| == levels.Length
    }

    /** The table as declared, and whatever the browser had stored before. */
    constructor (stored: Option<SaveData>)
      ensures Valid() && fresh(levels)
      ensures levels[..] == Catalog() && saved == stored
    {
      var table := Catalog();
      levels := new Level[|table|](i requires 0 <= i < |table| => table[i]);
      saved := stored;
    }

    /** `saveGame(active)`: create the record when there is none, else overwrite its active level. */
    method SaveGame(active: int)
      modifies this
      ensures saved == Some(SaveData(active,
        if old(saved).None? then FlagsOf(levels[..]) else old(saved).value.completed))
      ensures old(WellFormed()) ==> WellFormed()
    {
      if saved.None? {
        CreateSaveData(active);
      } else {
        var outcome := UpdateActiveLvl(active);
      }
    }

    /** `createSaveData(active)`: a new record whose flags are copied from the table. */
    method CreateSaveData(active: int)
      modifies this
      ensures saved == Some(SaveData(active, FlagsOf(levels[..])))
      ensures WellFormed()
    {
      var completed := new bool[levels.Length];
      for i := 0 to levels.Length
        invariant forall k :: 0 <= k < i ==> completed[k] == levels[k].completed
      {
        completed[i] := levels[i].completed;
      }
      assert completed[..] == FlagsOf(levels[..]);
      saved := Some(SaveData(active, completed[..]));
    }

    /** `updateActiveLvl(active)`: rewrite the whole record with a new active level. */
    method UpdateActiveLvl(active: int) returns (r: Outcome)
      modifies this
      ensures old(saved).None? ==> r == Failed(NoSaveData) && saved == old(saved)
      ensures old(saved).Some? ==>
        r == Written && saved == Some(SaveData(active, old(saved).value.completed))
      ensures old(WellFormed()) ==> WellFormed()
    {
      if saved.None? {
        return Failed(NoSaveData);
      }
      saved := Some(SaveData(active, saved.value.completed));
      r := Written;
    }

    /**
     * `updateLvlStatus(level)`: mark a level completed, both in the stored
     * record and in the table.
     */
    method UpdateLvlStatus(level: int) returns (r: Outcome)
      modifies this, levels
      ensures old(saved).None? ==>
        r == Failed(NoSaveData) && saved == old(saved) && levels[..] == old(levels[..])
      ensures old(saved).Some? && !(1 <= level <= levels.Length) ==>
        r == Failed(NoSuchLevel) && saved == old(saved) && levels[..] == old(levels[..])
      ensures old(saved).Some? && 1 <= level <= levels.Length ==>
        && r == Written
        && saved == Some(SaveData(old(saved).value.active, SetFlag(old(saved).value.completed, level - 1)))
        && levels[..] == old(levels[..])[level - 1 := old(levels[level - 1]).(completed := true)]
      // a level already marked in both the record and the table stays as it is: a second call is a no-op
      ensures (&& old(saved).Some? && 1 <= level <= levels.Length
               && level - 1 < |old(saved).value.completed| && old(saved).value.completed[level - 1]
               && old(levels[level - 1]).completed) ==>
        saved == old(saved) && levels[..] == old(levels[..])
      ensures old(Valid()) ==> Valid()
      ensures old(WellFormed()) ==> WellFormed()
    {
      if saved.None? {
        return Failed(NoSaveData);
      }
      // the flag set on the parsed copy is lost when the table access throws
      if !(1 <= level <= levels.Length) {
        return Failed(NoSuchLevel);
      }
      var completed := SetFlag(saved.value.completed, level - 1);
      SetFlagIdempotent(saved.value.completed, level - 1);
      ghost var table := levels[..];
      levels[level - 1] := levels[level - 1].(completed := true);
      saved := Some(SaveData(saved.value.active, completed));
      MarkTwiceIsMarkOnce(table, level - 1);
      r := Written;
    }

    /** `loadData()`: copy the stored flags onto the table, when a record exists. */
    method LoadData()
      modifies levels
      ensures old(saved).None? ==> levels[..] == old(levels[..])
      ensures old(saved).Some? ==> levels[..] == WithFlags(old(levels[..]), saved.value.completed)
      ensures old(Valid()) ==> Valid()
    {
      if saved.Some? {
        var completed := saved.value.completed;
        for i := 0 to levels.Length
          invariant forall k :: 0 <= k < i ==> levels[k] == old(levels[k]).(completed := k < |completed| && completed[k])
          invariant forall k :: i <= k < levels.Length ==> levels[k] == old(levels[k])
        {
          levels[i] := levels[i].(completed := i < |completed| && completed[i]);
        }
        assert levels[..] == WithFlags(old(levels[..]), completed);
      }
    }
  }

  /**
   * The table half of a second `updateLvlStatus` on one level changes nothing
   * (the record half is `SetFlagIdempotent`).
   */
  lemma MarkTwiceIsMarkOnce(ls: seq<Level>, i: nat)
    requires i < |ls|
    ensures var once := ls[i := ls[i].(completed := true)];
      once[i := once[i].(completed := true)] == once
    ensures ls[i].completed ==> ls[i := ls[i].(completed := true)] == ls
  {
  }
}
