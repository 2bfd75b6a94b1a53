/**
 The directory browser: a reference entry with up to twelve neighbours on each side, collected
 by bounded insertion from an unsorted enumeration, and a display window and selection that
 move over these slots and make the browser scan again when they would leave them.
 */
module Filesel {
  import opened DirOrder
  import opened DirList
  import opened Sequences

  const MAX_DIR_ENTRIES: nat := 12

  datatype Option = ScanNext | ScanPrev | ScanNextPage | ScanPrevPage

  const NO_ENTRY: Entry := Entry(false, [])

  /** The insertion loop that the scans contain three times, for entries growing upwards or downwards. */
  method Put(a: array<Entry>, count: nat, e: Entry, up: bool) returns (newCount: nat)
    requires a.Length == MAX_DIR_ENTRIES && count <= MAX_DIR_ENTRIES
    modifies a
    ensures newCount <= MAX_DIR_ENTRIES
    ensures a[..newCount] == First(Insert(up, old(a[..count]), e), MAX_DIR_ENTRIES)
  {
    hide Before;
    newCount := count;
    if count == 0 {
      a[0] := e;
      newCount := 1;
      return;
    }
    ghost var was := a[..count];
    var i := 0;
    while i < count
      invariant 0 <= i <= count && a[..count] == was
      invariant forall k | 0 <= k < i :: Before(up, was[k], e)
      invariant i == count ==> count == MAX_DIR_ENTRIES
    {
      var c := Compare(e, a[i]);
      c := if up then c else -c;
      Behind(up, was, e, i, c);
      if c == 0 {
        return;
      }
      if c < 0 {
        newCount := ShiftIn(a, count, e, i);
        return;
      }
      if count < MAX_DIR_ENTRIES && i == count - 1 {
        a[i + 1] := e;
        newCount := count + 1;
        assert a[..newCount] == was + [e];
        InsertBehind(up, was, e, count);
        return;
      }
      i := i + 1;
    }
    InsertBehind(up, was, e, count);
  }

  /** What a comparison with the entry at position i means for the insertion. */
  lemma Behind(up: bool, s: seq<Entry>, e: Entry, i: nat, c: int)
    requires i < |s| && forall k | 0 <= k < i :: Before(up, s[k], e)
    requires SameSign(c, if up then Order(e, s[i]) else -Order(e, s[i]))
    ensures c == 0 ==> Insert(up, s, e) == s
    ensures c < 0 ==> Insert(up, s, e) == s[..i] + [e] + s[i..]
    ensures c > 0 ==> Before(up, s[i], e)
  {
    hide Order;
    InsertBehind(up, s, e, i);
    OrderIsTotal(e, s[i]);
    assert s == s[..i] + s[i..];
  }

  /** Make room at position i; the last of twelve entries falls off. */
  method ShiftIn(a: array<Entry>, count: nat, e: Entry, i: nat) returns (newCount: nat)
    requires a.Length == MAX_DIR_ENTRIES && i < count <= MAX_DIR_ENTRIES
    modifies a
    ensures newCount <= MAX_DIR_ENTRIES
    ensures a[..newCount] == First(old(a[..i] + [e] + a[i..count]), MAX_DIR_ENTRIES)
  {
    var j := count;
    while j > i
      invariant i <= j <= count
      invariant forall k | 0 <= k < j && k < MAX_DIR_ENTRIES :: a[k] == old(a[k])
      invariant forall k | j < k <= count && k < MAX_DIR_ENTRIES :: a[k] == old(a[k - 1])
    {
      if j < MAX_DIR_ENTRIES {
        a[j] := a[j - 1];
      }
      j := j - 1;
    }
    a[i] := e;
    newCount := if count < MAX_DIR_ENTRIES then count + 1 else count;
    ghost var was := old(a[..count]);
    assert old(a[..i] + [e] + a[i..count]) == was[..i] + [e] + was[i..];
    InsertedFirst(was, e, i, a[..newCount]);
  }

  /** What is at a place of a list with an entry put in. */
  function Placed(was: seq<Entry>, e: Entry, i: nat, k: nat): Entry
    requires i <= |was| && k <= |was|
  {
    if k < i then was[k] else if k == i then e else was[k - 1]
  }

  /** The first twelve of a list with an entry put in, given place by place. */
  lemma InsertedFirst(was: seq<Entry>, e: Entry, i: nat, s: seq<Entry>)
    requires i < |was| <= MAX_DIR_ENTRIES && |s| == if |was| < MAX_DIR_ENTRIES then |was| + 1 else |was|
    requires forall k {:trigger s[k]} | 0 <= k < |s| :: s[k] == Placed(was, e, i, k)
    ensures s == First(was[..i] + [e] + was[i..], MAX_DIR_ENTRIES)
  {
    hide Placed;
    var all := was[..i] + [e] + was[i..];
    forall k | 0 <= k < |s|
      ensures s[k] == all[k]
    {
      PutAt(was, e, i, k);
    }
  }

  lemma PutAt(was: seq<Entry>, e: Entry, i: nat, k: nat)
    requires i <= |was| && k <= |was|
    ensures (was[..i] + [e] + was[i..])[k] == Placed(was, e, i, k)
  {
  }

  class Browser {
    const dir: seq<Entry>
    const filter: Entry -> bool
    const dPrev: array<Entry>
    const dNext: array<Entry>
    var dRef: Entry
    var prevc: nat
    var nextc: nat
    var refc: nat
    var offset: nat
    var sel: nat
    var totalEntries: nat
    ghost var base: int

    /** The whole directory as it should appear: filtered and sorted. */
    ghost function All(): seq<Entry> {
      SortedList(true, Select(dir, filter))
    }

    ghost predicate Arrays()
    {
      dPrev.Length == MAX_DIR_ENTRIES && dNext.Length == MAX_DIR_ENTRIES && dPrev != dNext
    }

    /** The entries after position base, as many as there is room for. */
    ghost predicate NextOk()
      requires Arrays()
      reads `nextc, `base, dNext
    {
      nextc <= MAX_DIR_ENTRIES && IsAfter(All(), base, dNext[..nextc])
    }

    /** The entries before position base, the nearest one first. */
    ghost predicate PrevOk()
      requires Arrays()
      reads `prevc, `base, dPrev
    {
      prevc <= MAX_DIR_ENTRIES && IsBefore(All(), base, dPrev[..prevc])
    }

    /** Slot 128 stands for position base; the slots around it hold its neighbours. */
    ghost predicate Window()
      reads `dRef, `prevc, `nextc, `refc, `base, dPrev, dNext
    {
      && Arrays()
      && prevc <= MAX_DIR_ENTRIES && nextc <= MAX_DIR_ENTRIES
      && -1 <= base < |All()|
      && refc == (if base == -1 then 0 else 1)
      && (base >= 0 ==> dRef == All()[base])
      && NextOk() && PrevOk()
    }

    /** The selection lies on an entry, in lines 1 to 11 of the display. */
    ghost predicate Placed()
      reads `offset, `sel, `base
    {
      && 116 <= offset <= 128
      && 1 <= sel - offset <= 11
      && (All() == [] ==> sel == 129 && base == -1)
      && (All() != [] ==> 0 <= Selected() < |All()|)
    }

    ghost predicate Valid()
      reads this, dPrev, dNext
    {
      Window() && Placed()
    }

    /** The position of the selected entry in the sorted directory. */
    ghost function Selected(): int
      reads `base, `sel
    {
      base + sel - 128
    }

    /** The position shown in the first line of the display. */
    ghost function Top(): int
      reads `base, `offset
    {
      base + offset - 128
    }

    constructor (dir: seq<Entry>, filter: Entry -> bool)
      ensures Arrays() && this.dir == dir && this.filter == filter
      ensures fresh(dPrev) && fresh(dNext)
    {
      this.dir, this.filter := dir, filter;
      dPrev, dNext := new Entry[12](_ => NO_ENTRY), new Entry[12](_ => NO_ENTRY);
      dRef := NO_ENTRY;
      prevc, nextc, refc, offset, sel, totalEntries := 0, 0, 0, 128, 128, 0;
    }

    // ---- scanning ------------------------------------------------------------------------

    /** Collect the twelve largest entries below the reference and the twelve smallest above it. */
    method CollectAround()
      requires Arrays()
      modifies dPrev, dNext, `prevc, `nextc, `refc
      ensures refc == 1 && prevc <= MAX_DIR_ENTRIES && nextc <= MAX_DIR_ENTRIES
      ensures dNext[..nextc] == First(SortedList(true, Select(dir, Above(filter, dRef))), MAX_DIR_ENTRIES)
      ensures dPrev[..prevc] == First(SortedList(false, Select(dir, Below(filter, dRef))), MAX_DIR_ENTRIES)
    {
      hide Insert, Before;
      prevc, refc, nextc := 0, 1, 0;
      for i := 0 to |dir|
        invariant refc == 1 && prevc <= MAX_DIR_ENTRIES && nextc <= MAX_DIR_ENTRIES
        invariant dNext[..nextc] == First(SortedList(true, Select(dir[..i], Above(filter, dRef))), MAX_DIR_ENTRIES)
        invariant dPrev[..prevc] == First(SortedList(false, Select(dir[..i], Below(filter, dRef))), MAX_DIR_ENTRIES)
      {
        var e := dir[i];
        OneMore(true, dir, i, Above(filter, dRef));
        OneMore(false, dir, i, Below(filter, dRef));
        if filter(e) {
          var c := Compare(e, dRef);
          Sides(filter, dRef, e, c);
          if c > 0 {
            nextc := Put(dNext, nextc, e, true);
          } else if c < 0 {
            prevc := Put(dPrev, prevc, e, false);
          }
        }
      }
      assert dir[..|dir|] == dir;
    }

    /** Filesel_ScanUpdate around an entry at a known position of the sorted directory. */
    method ScanUpdate(ghost p: nat)
      requires Arrays() && p < |All()| && dRef == All()[p]
      modifies dPrev, dNext, `prevc, `nextc, `refc, `base
      ensures Window() && base == p
    {
      hide SortedList, Select;
      CollectAround();
      base := p;
      LargerOnes(dir, filter, p);
      SmallerOnes(dir, filter, p);
      SliceAfter(All(), base, dNext[..nextc]);
      SliceBefore(All(), base, dPrev[..prevc]);
    }

    /** Filesel_ScanFirst: the twelve smallest entries, with the selection on the very first. */
    method ScanFirst()
      requires Arrays()
      modifies this, dPrev, dNext
      ensures Valid() && Selected() == 0 && Top() == -1
      ensures totalEntries == |Select(dir, filter)|
    {
      hide Insert, Before;
      prevc, refc, nextc := 0, 0, 0;
      offset, sel := 128, 129;
      var total := 0;
      for i := 0 to |dir|
        invariant prevc == 0 && refc == 0 && nextc <= MAX_DIR_ENTRIES && offset == 128 && sel == 129
        invariant dNext[..nextc] == First(SortedList(true, Select(dir[..i], filter)), MAX_DIR_ENTRIES)
        invariant total == |Select(dir[..i], filter)|
      {
        OneMore(true, dir, i, filter);
        if filter(dir[i]) {
          nextc := Put(dNext, nextc, dir[i], true);
          total := total + 1;
        }
      }
      totalEntries := total;
      base := -1;
      assert dir[..|dir|] == dir && All()[0..] == All();
      SliceAfter(All(), base, dNext[..nextc]);
    }

    // ---- slots ---------------------------------------------------------------------------

    /** Filesel_CheckIndex. */
    predicate CheckIndex(slot: nat)
      reads `prevc, `nextc, `refc
    {
      if slot == 128 then refc != 0
      else if slot < 128 then 127 - slot < prevc
      else slot - 129 < nextc
    }

    /** Filesel_GetEntry: the entry of a slot, or an empty one. */
    function GetEntry(slot: nat): Entry
      requires Arrays() && prevc <= MAX_DIR_ENTRIES && nextc <= MAX_DIR_ENTRIES
      reads `prevc, `nextc, `refc, `dRef, dPrev, dNext
    {
      if slot == 128 then (if refc != 0 then dRef else NO_ENTRY)
      else if slot < 128 then (if 127 - slot < prevc then dPrev[127 - slot] else NO_ENTRY)
      else (if slot - 129 < nextc then dNext[slot - 129] else NO_ENTRY)
    }

    /** The slots that the display can reach are a contiguous piece of the sorted directory. */
    lemma SlotIs(slot: nat)
      requires Window() && 116 <= slot <= 140
      ensures CheckIndex(slot) <==> 0 <= base + slot - 128 < |All()|
      ensures CheckIndex(slot) ==> GetEntry(slot) == All()[base + slot - 128]
      ensures !CheckIndex(slot) ==> GetEntry(slot) == Entry(false, [])
    {
      hide All;
      if slot > 128 && slot - 129 < nextc {
        assert dNext[slot - 129] == dNext[..nextc][slot - 129];
      }
      if slot < 128 && 127 - slot < prevc {
        assert dPrev[127 - slot] == dPrev[..prevc][127 - slot];
      }
    }

    /** Filesel_GetLine: each of the display lines shows its position of the sorted directory. */
    lemma LineIs(line: nat)
      requires Valid() && line <= MAX_DIR_ENTRIES
      ensures GetEntry(offset + line)
              == if 0 <= Top() + line < |All()| then All()[Top() + line] else Entry(false, [])
    {
      hide All, NextOk, PrevOk;
      SlotIs(offset + line);
    }

    // ---- moving ----------------------------------------------------------------------------

    /** Step to the next entry; the window is rebuilt around the current one at the last line. */
    method Next()
      requires Valid()
      modifies this, dPrev, dNext
      ensures Valid()
      ensures Selected() == if old(Selected()) + 1 < |All()| then old(Selected()) + 1 else old(Selected())
    {
      hide All, NextOk, PrevOk;
      var current := sel - offset;
      SlotIs(sel);
      SlotIs(sel + 1);
      if CheckIndex(sel + 1) {
        if current >= MAX_DIR_ENTRIES - 1 {
          ghost var p := Selected();
          dRef := GetEntry(sel);
          ScanUpdate(p);
          offset, sel := 128, 129;
          return;
        }
        sel := sel + 1;
      }
    }

    /** Step to the previous entry; the window is rebuilt around the current one at the first line. */
    method Prev()
      requires Valid()
      modifies this, dPrev, dNext
      ensures Valid()
      ensures Selected() == if old(Selected()) > 0 then old(Selected()) - 1 else old(Selected())
    {
      hide All, NextOk, PrevOk;
      var current := sel - offset;
      SlotIs(sel);
      SlotIs(sel - 1);
      if CheckIndex(sel - 1) {
        if current <= 1 {
          ghost var p := Selected();
          dRef := GetEntry(sel);
          ScanUpdate(p);
          offset, sel := 128 - MAX_DIR_ENTRIES, 127;
          return;
        }
        sel := sel - 1;
      }
    }

    /** Select the last visible entry, as the second line when it was on the extra line. */
    method NextPage()
      requires Valid()
      modifies this, dPrev, dNext
      ensures Valid()
      ensures All() != [] ==> Selected() == Min(|All()| - 1, old(Top()) + MAX_DIR_ENTRIES)
      ensures All() != [] && old(Top()) + MAX_DIR_ENTRIES < |All()| ==> Top() == old(Top()) + 11
      ensures All() == [] ==> Selected() == old(Selected())
    {
      hide All, NextOk, PrevOk;
      var slot := offset + MAX_DIR_ENTRIES;
      SlotIs(sel);
      while slot >= offset
        invariant offset - 1 <= slot <= offset + MAX_DIR_ENTRIES
        invariant Valid() && unchanged(this) && unchanged(dPrev) && unchanged(dNext)
        invariant All() != [] ==> slot >= sel && (slot < offset + MAX_DIR_ENTRIES ==> base + slot + 1 - 128 >= |All()|)
        decreases slot
      {
        SlotIs(slot);
        if CheckIndex(slot) {
          ghost var p := base + slot - 128;
          dRef := GetEntry(slot);
          ScanUpdate(p);
          var current := slot - offset;
          if current == MAX_DIR_ENTRIES {
            current := 1;
          }
          offset, sel := 128 - current, 128;
          return;
        }
        slot := slot - 1;
      }
    }

    /** Select the first visible entry, on the last line but one when it was on the first. */
    method PrevPage()
      requires Valid()
      modifies this, dPrev, dNext
      ensures Valid()
      ensures All() != [] ==> Selected() == Max(0, old(Top()))
      ensures All() != [] && old(Top()) >= 0 ==> Top() == old(Top()) - 11
      ensures All() == [] ==> Selected() == old(Selected())
    {
      hide All, NextOk, PrevOk;
      var slot := offset;
      SlotIs(sel);
      while slot < offset + MAX_DIR_ENTRIES + 1
        invariant offset <= slot <= offset + MAX_DIR_ENTRIES + 1
        invariant Valid() && unchanged(this) && unchanged(dPrev) && unchanged(dNext)
        invariant All() != [] ==> slot <= sel && (slot > offset ==> base + slot - 1 - 128 < 0)
      {
        SlotIs(slot);
        if CheckIndex(slot) {
          ghost var p := base + slot - 128;
          dRef := GetEntry(slot);
          ScanUpdate(p);
          var current := slot - offset;
          if current == 0 {
            current := MAX_DIR_ENTRIES - 1;
          }
          offset, sel := 128 - current, 128;
          return;
        }
        slot := slot + 1;
      }
    }

    /** The position a move leads to in a directory of n entries, for a display from line top on. */
    static function Target(opt: Option, selected: int, top: int, n: nat): int {
      match opt
      case ScanNext => if selected + 1 < n then selected + 1 else selected
      case ScanPrev => if selected > 0 then selected - 1 else selected
      case ScanNextPage => if n > 0 then Min(n - 1, top + MAX_DIR_ENTRIES) else selected
      case ScanPrevPage => if n > 0 then Max(0, top) else selected
    }

    /** Filesel_Update. */
    method Update(opt: Option)
      requires Valid()
      modifies this, dPrev, dNext
      ensures Valid()
      ensures Selected() == Target(opt, old(Selected()), old(Top()), |All()|)
    {
      hide All, NextOk, PrevOk;
      match opt {
        case ScanNext => Next();
        case ScanPrev => Prev();
        case ScanNextPage => NextPage();
        case ScanPrevPage => PrevPage();
      }
    }

    /** Steps forward walk the sorted directory one by one and stay on its last entry. */
    method WalkForward(k: nat)
      requires Arrays()
      modifies this, dPrev, dNext
      ensures Valid()
      ensures All() != [] ==> Selected() == Min(k, |All()| - 1) && GetEntry(sel) == All()[Selected()]
      ensures All() == [] ==> GetEntry(sel) == NO_ENTRY
    {
      hide All, NextOk, PrevOk;
      ScanFirst();
      for i := 0 to k
        invariant Valid()
        invariant All() != [] ==> Selected() == Min(i, |All()| - 1)
      {
        Update(ScanNext);
      }
      SlotIs(sel);
    }

    // ---- jumping to a letter -----------------------------------------------------------------

    /** Filesel_ScanFind: the first directory or file that starts with a letter, in turns. */
    method ScanFind(search: nat)
      requires Valid()
      modifies this, dPrev, dNext
      ensures Valid()
      ensures var wantDir := !old(GetEntry(sel)).dir;
              var here := Starting(dir, filter, search, wantDir);
              var there := Starting(dir, filter, search, !wantDir);
              var hits := SortedList(true, if here != [] then here else there);
              if here == [] && there == [] then Selected() == old(Selected())
              else 0 <= Selected() < |All()| && hits != [] && All()[Selected()] == hits[0]
    {
      hide All, NextOk, PrevOk, SortedList, Starting, Before;
      var foundFile, foundDir := false, false;
      var file, folder := NO_ENTRY, NO_ENTRY;
      StartingNone(dir, filter, search);
      for i := 0 to |dir|
        invariant Valid() && unchanged(this) && unchanged(dPrev) && unchanged(dNext)
        invariant Least(foundDir, folder, Starting(dir[..i], filter, search, true))
        invariant Least(foundFile, file, Starting(dir[..i], filter, search, false))
      {
        var e := dir[i];
        StartingMore(dir, i, filter, search);
        if filter(e) && ToUpper(At(e.name, 0)) == search {
          if e.dir {
            foundDir, folder := Improve(foundDir, folder, e, Starting(dir[..i], filter, search, true));
          } else {
            foundFile, file := Improve(foundFile, file, e, Starting(dir[..i], filter, search, false));
          }
        }
      }
      assert dir[..|dir|] == dir;
      var jump := foundFile || foundDir;
      var target: Entry;
      if GetEntry(sel).dir {
        target := if foundFile then file else folder;
      } else {
        target := if foundDir then folder else file;
      }
      if jump {
        ghost var wantDir := !GetEntry(sel).dir;
        ghost var kind := if Starting(dir, filter, search, wantDir) != [] then wantDir else !wantDir;
        ghost var p := Locate(kind, search, target);
        dRef := target;
        ScanUpdate(p);
        offset, sel := 127, 128;
      }
    }

    /** Where the least entry with a letter is in the sorted directory. */
    lemma Locate(kind: bool, search: nat, target: Entry) returns (p: nat)
      requires Least(true, target, Starting(dir, filter, search, kind))
      ensures p < |All()| && All()[p] == target
      ensures var hits := SortedList(true, Starting(dir, filter, search, kind)); hits != [] && hits[0] == target
    {
      hide SortedList, Before, Select;
      var found := Starting(dir, filter, search, kind);
      SelectHas(dir, Letter(filter, search, kind), target);
      SelectHas(dir, filter, target);
      SortedListHas(true, Select(dir, filter), target);
      p :| p < |All()| && All()[p] == target;
      LeastIsFirst(target, found);
    }
  }

  function ToUpper(c: int): int {
    if 97 <= c <= 122 then c - 32 else c
  }

  /** The entries to be shown of one kind that start with a letter. */
  function Letter(keep: Entry -> bool, search: nat, kind: bool): Entry -> bool {
    e => keep(e) && ToUpper(At(e.name, 0)) == search && e.dir == kind
  }

  function Starting(dir: seq<Entry>, keep: Entry -> bool, search: nat, kind: bool): seq<Entry> {
    Select(dir, Letter(keep, search, kind))
  }

  /** These are the ones whose first character is that letter, in capitals or not. */
  lemma StartingHas(dir: seq<Entry>, keep: Entry -> bool, search: nat, kind: bool, e: Entry)
    requires 65 <= search <= 90
    ensures e in Starting(dir, keep, search, kind) <==>
            && e in dir && keep(e) && e.dir == kind
            && e.name != [] && (e.name[0] == search || e.name[0] == search + 32)
  {
    SelectHas(dir, Letter(keep, search, kind), e);
  }

  /** The least entry of a list, if there is one. */
  ghost predicate Least(found: bool, e: Entry, s: seq<Entry>) {
    (found <==> s != []) && (found ==> e in s && forall x | x in s :: x == e || Before(true, e, x))
  }

  lemma StartingNone(dir: seq<Entry>, keep: Entry -> bool, search: nat)
    ensures Starting(dir[..0], keep, search, true) == [] == Starting(dir[..0], keep, search, false)
  {
  }

  lemma StartingMore(dir: seq<Entry>, i: nat, keep: Entry -> bool, search: nat)
    requires i < |dir|
    ensures forall kind :: Starting(dir[..i + 1], keep, search, kind)
                           == if Letter(keep, search, kind)(dir[i]) then Starting(dir[..i], keep, search, kind) + [dir[i]]
                              else Starting(dir[..i], keep, search, kind)
  {
    assert dir[..i + 1][..i] == dir[..i];
  }

  /** One step of the search for a least entry. */
  method Improve(found: bool, best: Entry, e: Entry, ghost s: seq<Entry>) returns (found': bool, best': Entry)
    requires Least(found, best, s)
    ensures Least(found', best', s + [e])
  {
    hide Before;
    found', best' := true, best;
    if !found {
      best' := e;
    } else {
      var c := Compare(e, best);
      CompareMeans(e, best, c);
      if c < 0 {
        best' := e;
        forall x | x in s
          ensures Before(true, e, x)
        {
          if x != best {
            BeforeTransitive(true, e, best, x);
          }
        }
      }
    }
  }

  lemma CompareMeans(e: Entry, best: Entry, c: int)
    requires SameSign(c, Order(e, best))
    ensures c < 0 <==> Before(true, e, best)
    ensures c >= 0 ==> e == best || Before(true, best, e)
  {
    hide Order;
    OrderIsTotal(e, best);
  }

  lemma LeastIsFirst(e: Entry, s: seq<Entry>)
    requires Least(true, e, s)
    ensures SortedList(true, s) != [] && SortedList(true, s)[0] == e
  {
    hide SortedList, Before;
    var all := SortedList(true, s);
    SortedListHas(true, s, e);
    SortedListSorted(true, s);
    var i :| 0 <= i < |all| && all[i] == e;
    SortedListHas(true, s, all[0]);
    BeforeTotal(true, all[0], e);
  }

  /** The first twelve entries after a position. */
  ghost predicate IsAfter(all: seq<Entry>, base: int, s: seq<Entry>) {
    && -1 <= base < |all|
    && |s| == Min(MAX_DIR_ENTRIES, |all| - 1 - base)
    && forall i | 0 <= i < |s| :: s[i] == all[base + 1 + i]
  }

  /** The last twelve entries before a position, backwards. */
  ghost predicate IsBefore(all: seq<Entry>, base: int, s: seq<Entry>) {
    && -1 <= base < |all|
    && |s| == Min(MAX_DIR_ENTRIES, Max(base, 0))
    && forall i | 0 <= i < |s| :: s[i] == all[base - 1 - i]
  }

  lemma SliceAfter(all: seq<Entry>, base: int, s: seq<Entry>)
    requires -1 <= base < |all| && s == First(all[base + 1..], MAX_DIR_ENTRIES)
    ensures IsAfter(all, base, s)
  {
  }

  lemma SliceBefore(all: seq<Entry>, base: int, s: seq<Entry>)
    requires 0 <= base < |all| && s == First(Reversed(all[..base]), MAX_DIR_ENTRIES)
    ensures IsBefore(all, base, s)
  {
    var r := Reversed(all[..base]);
    forall i | 0 <= i < |s|
      ensures s[i] == all[base - 1 - i]
    {
      assert s[i] == r[i];
    }
  }

  /** What the next entry of the enumeration adds to a selected, sorted and cut list. */
  lemma OneMore(up: bool, dir: seq<Entry>, i: nat, keep: Entry -> bool)
    requires i < |dir|
    ensures Select(dir[..i + 1], keep) == if keep(dir[i]) then Select(dir[..i], keep) + [dir[i]] else Select(dir[..i], keep)
    ensures keep(dir[i]) ==>
              var was := SortedList(up, Select(dir[..i], keep));
              First(SortedList(up, Select(dir[..i + 1], keep)), MAX_DIR_ENTRIES)
              == First(Insert(up, First(was, MAX_DIR_ENTRIES), dir[i]), MAX_DIR_ENTRIES)
  {
    hide Insert, First;
    assert dir[..i + 1][..i] == dir[..i];
    var chosen := Select(dir[..i], keep);
    if keep(dir[i]) {
      assert (chosen + [dir[i]])[..|chosen|] == chosen;
      FirstOfInsert(up, SortedList(up, chosen), dir[i], MAX_DIR_ENTRIES);
    }
  }

  lemma Sides(keep: Entry -> bool, ref: Entry, e: Entry, c: int)
    requires keep(e) && SameSign(c, Order(e, ref))
    ensures Above(keep, ref)(e) <==> c > 0
    ensures Below(keep, ref)(e) <==> c < 0
  {
    hide Order;
    OrderIsTotal(e, ref);
  }
}
