/** The two-way cache of global values in interp.c, in front of the trie `globals`. */
module GlobalCache {

  const GLOBAL_CACHE_LINES: nat := 128

  /** The number that a flushed entry has, all ones. */
  const NO_ID: nat := 0xFFFF_FFFF

  datatype Lru = FirstLeastRecentlyUsed | SecondLeastRecentlyUsed
  datatype Entry = Entry(id: nat, value: nat)
  datatype Line = Line(lru: Lru, first: Entry, second: Entry)

  /** The line for a number: its lowest seven bits.  `ILOG2` of 128 is 8, the number of bits of 128. */
  function LineOf(id: nat): nat {
    id % GLOBAL_CACHE_LINES
  }

  /** `triev2_find`: a missing value reads as 0. */
  function Find(globals: map<nat, nat>, id: nat): nat {
    if id in globals then globals[id] else 0
  }

  predicate EntryOk(e: Entry, i: nat, globals: map<nat, nat>) {
    e.id == NO_ID || (LineOf(e.id) == i && e.value == Find(globals, e.id))
  }

  /** The entries of a line are for two different numbers, and agree with the trie. */
  predicate LineOk(l: Line, i: nat, globals: map<nat, nat>) {
    && EntryOk(l.first, i, globals) && EntryOk(l.second, i, globals)
    && (l.first.id == l.second.id ==> l.first.id == NO_ID)
  }

  /** The entry of a line that was used last; `lru` says which, whatever its values are called. */
  function UsedLast(l: Line): Entry {
    if l.lru == FirstLeastRecentlyUsed then l.first else l.second
  }

  class Cache {
    const line: array<Line>
    var globals: map<nat, nat>

    ghost predicate Valid()
      reads this, line
    {
      line.Length == GLOBAL_CACHE_LINES && forall i | 0 <= i < line.Length :: LineOk(line[i], i, globals)
    }

    constructor (values: map<nat, nat>)
      ensures Valid() && fresh(line) && globals == values
    {
      var none := Entry(NO_ID, 0);
      line := new Line[GLOBAL_CACHE_LINES](_ => Line(FirstLeastRecentlyUsed, none, none));
      globals := values;
    }

    /** `flush_global_cache`, after the collector may have moved what the entries point to: whatever the
        values are now, the cache agrees with them. */
    method Flush(moved: map<nat, nat>)
      requires line.Length == GLOBAL_CACHE_LINES
      modifies this`globals, line
      ensures Valid() && globals == moved
    {
      globals := moved;
      var i := 0;
      while i < GLOBAL_CACHE_LINES
        invariant i <= GLOBAL_CACHE_LINES && globals == moved
        invariant forall j | 0 <= j < i :: LineOk(line[j], j, globals)
      {
        var l := line[i];
        line[i] := Line(l.lru, l.first.(id := NO_ID), l.second.(id := NO_ID));
        i := i + 1;
      }
    }

    /** `global_get`: what the trie has, except that the number of a flushed entry finds the value that was
        flushed.  The entry read is now the one used last, and the one used last before is still in its line. */
    method Get(id: nat) returns (value: nat)
      requires Valid() && id <= NO_ID
      modifies line
      ensures Valid()
      ensures var l := old(line[id % GLOBAL_CACHE_LINES]);
              value == if id == NO_ID == l.first.id then l.first.value
                       else if id == NO_ID == l.second.id then l.second.value
                       else if id in globals then globals[id] else 0
      ensures UsedLast(line[id % GLOBAL_CACHE_LINES]) == Entry(id, value)
      ensures UsedLast(old(line[id % GLOBAL_CACHE_LINES])) in [line[id % GLOBAL_CACHE_LINES].first, line[id % GLOBAL_CACHE_LINES].second]
      ensures forall j | 0 <= j < line.Length && j != id % GLOBAL_CACHE_LINES :: line[j] == old(line[j])
    {
      var i := LineOf(id);
      var l := line[i];
      if l.first.id == id {
        line[i] := l.(lru := FirstLeastRecentlyUsed);
        return l.first.value;
      }
      if l.second.id == id {
        line[i] := l.(lru := SecondLeastRecentlyUsed);
        return l.second.value;
      }
      value := Find(globals, id);
      if l.lru == FirstLeastRecentlyUsed {
        line[i] := Line(SecondLeastRecentlyUsed, l.first, Entry(id, value));
      } else {
        line[i] := Line(FirstLeastRecentlyUsed, Entry(id, value), l.second);
      }
    }

    /** `global_set`: the trie changes at the number, and so does an entry that is for it. */
    method Set(value: nat, id: nat)
      requires Valid() && id <= NO_ID
      modifies this`globals, line
      ensures Valid() && globals == old(globals)[id := value]
      ensures forall j | 0 <= j < line.Length && j != id % GLOBAL_CACHE_LINES :: line[j] == old(line[j])
    {
      var i := LineOf(id);
      var l := line[i];
      if l.first.id == id {
        line[i] := l.(first := Entry(id, value));
      } else if l.second.id == id {
        line[i] := l.(second := Entry(id, value));
      }
      globals := globals[id := value];
    }
  }
}
