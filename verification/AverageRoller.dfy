// The rolling average of util/AverageRoller.c over whole histories of updates.

module AverageRoller {
  import opened Arithmetic

  datatype SumAndEntryCount = SumAndEntryCount(sum: nat, entryCount: nat)

  datatype Update = Update(time: nat, entry: nat)

  datatype Second = Never | At(time: nat)

  const NOTHING := SumAndEntryCount(0, 0)

  // What was entered in one second.
  function EnteredAt(history: seq<Update>, time: nat): SumAndEntryCount {
    if history == [] then NOTHING
    else
      var before, last := EnteredAt(history[..|history| - 1], time), history[|history| - 1];
      if last.time == time then SumAndEntryCount(before.sum + last.entry, before.entryCount + 1) else before
  }

  // The latest second of a residue class, counted from the start, that had an update.
  function Latest(history: seq<Update>, start: nat, window: nat, residue: nat): Second
    requires window > 0
  {
    if history == [] then Never
    else
      var last := history[|history| - 1];
      if last.time >= start && (last.time - start) % window == residue then At(last.time)
      else Latest(history[..|history| - 1], start, window, residue)
  }

  // What counts for a residue class: what was entered in that second.  The other
  // seconds of the class, and only those, have dropped out.
  function Counted(history: seq<Update>, start: nat, window: nat, residue: nat): SumAndEntryCount
    requires window > 0
  {
    match Latest(history, start, window, residue)
    case Never => NOTHING
    case At(time) => EnteredAt(history, time)
  }

  function SumOf(seconds: seq<SumAndEntryCount>): nat {
    if seconds == [] then 0 else seconds[0].sum + SumOf(seconds[1..])
  }

  function CountOf(seconds: seq<SumAndEntryCount>): nat {
    if seconds == [] then 0 else seconds[0].entryCount + CountOf(seconds[1..])
  }

  lemma {:induction false} TotalsChanged(seconds: seq<SumAndEntryCount>, i: nat, x: SumAndEntryCount)
    requires i < |seconds|
    ensures SumOf(seconds[i := x]) == SumOf(seconds) - seconds[i].sum + x.sum
    ensures CountOf(seconds[i := x]) == CountOf(seconds) - seconds[i].entryCount + x.entryCount
  {
    if i == 0 {
      assert seconds[i := x][1..] == seconds[1..];
    } else {
      assert seconds[i := x][1..] == seconds[1..][i - 1 := x];
      TotalsChanged(seconds[1..], i - 1, x);
    }
  }

  lemma {:induction false} NoneSet(seconds: seq<SumAndEntryCount>)
    requires forall i | 0 <= i < |seconds| :: seconds[i] == NOTHING
    ensures SumOf(seconds) == 0 && CountOf(seconds) == 0
  {
    if seconds != [] {
      NoneSet(seconds[1..]);
    }
  }

  // A clock that has not gone back from the start to now.
  ghost predicate IsClocked(history: seq<Update>, start: nat, now: nat) {
    && start <= now
    && (forall u <- history :: start <= u.time <= now)
    && (forall i, j | 0 <= i < j < |history| :: history[i].time <= history[j].time)
    && (history != [] ==> history[|history| - 1].time == now)
  }

  lemma {:induction false} NothingLater(history: seq<Update>, time: nat)
    requires forall u <- history :: u.time < time
    ensures EnteredAt(history, time) == NOTHING
  {
    if history != [] {
      NothingLater(history[..|history| - 1], time);
    }
  }

  // One more update changes what counts for its own class: it is added to what was
  // entered in the same second, and takes the place of an earlier one.
  lemma CountedAfter(history: seq<Update>, start: nat, window: nat, u: Update, last: nat, residue: nat)
    requires window > 0 && IsClocked(history, start, last) && u.time >= last
    ensures Counted(history + [u], start, window, residue) ==
      if (u.time - start) % window != residue then Counted(history, start, window, residue)
      else Entered(Counted(history, start, window, residue), u.entry, u.time > last)
  {
    var more := history + [u];
    assert more[..|more| - 1] == history;
    var latest := Latest(history, start, window, residue);
    if latest.At? {
      LatestIsOfClass(history, start, window, residue);
    }
    if (u.time - start) % window != residue {
      assert Latest(more, start, window, residue) == latest;
      assert latest.At? ==> EnteredAt(more, latest.time) == EnteredAt(history, latest.time);
    } else {
      assert Latest(more, start, window, residue) == At(u.time);
      assert EnteredAt(more, u.time) == Entered(EnteredAt(history, u.time), u.entry, false);
      if u.time > last {
        NothingLater(history, u.time);
      } else if history != [] {
        assert latest == At(u.time);
      }
    }
  }

  lemma {:induction false} LatestIsOfClass(history: seq<Update>, start: nat, window: nat, residue: nat)
    requires window > 0 && Latest(history, start, window, residue).At?
    ensures var time := Latest(history, start, window, residue).time;
            time >= start && (time - start) % window == residue
  {
    var last := history[|history| - 1];
    if !(last.time >= start && (last.time - start) % window == residue) {
      LatestIsOfClass(history[..|history| - 1], start, window, residue);
    }
  }

  // ------------------------------------------------------- the last seconds, and older ones

  function Added(x: SumAndEntryCount, u: Update): SumAndEntryCount {
    SumAndEntryCount(x.sum + u.entry, x.entryCount + 1)
  }

  // What was entered after some second.
  function Recent(history: seq<Update>, after: int): SumAndEntryCount {
    if history == [] then NOTHING
    else
      var before, last := Recent(history[..|history| - 1], after), history[|history| - 1];
      if last.time > after then Added(before, last) else before
  }

  predicate IsOfClass(u: Update, start: nat, window: nat, residue: nat)
    requires window > 0
  {
    u.time >= start && (u.time - start) % window == residue
  }

  // What was entered after some second in a residue class.
  function RecentOf(history: seq<Update>, after: int, start: nat, window: nat, residue: nat): SumAndEntryCount
    requires window > 0
  {
    if history == [] then NOTHING
    else
      var before := RecentOf(history[..|history| - 1], after, start, window, residue);
      var last := history[|history| - 1];
      if last.time > after && IsOfClass(last, start, window, residue) then Added(before, last) else before
  }

  // The latest second of the class that had an update, if there is one, is after some second.
  predicate IsFresh(history: seq<Update>, after: int, start: nat, window: nat, residue: nat)
    requires window > 0
  {
    match Latest(history, start, window, residue)
    case Never => true
    case At(time) => time > after
  }

  ghost predicate NothingStale(history: seq<Update>, after: int, start: nat, window: nat)
    requires window > 0
  {
    forall i | 0 <= i < window :: IsFresh(history, after, start, window, i)
  }

  lemma {:induction false} LatestIsPast(history: seq<Update>, start: nat, window: nat, residue: nat, now: nat)
    requires window > 0 && forall u <- history :: u.time <= now
    ensures Latest(history, start, window, residue).At? ==> Latest(history, start, window, residue).time <= now
  {
    if history != [] {
      LatestIsPast(history[..|history| - 1], start, window, residue, now);
    }
  }

  // Two seconds of a class that are less than a window apart are the same.
  lemma SameSecond(x: nat, y: nat, window: nat)
    requires window > 0 && x % window == y % window && y <= x < y + window
    ensures x == y
  {
    WindowsApart(window, x / window, y / window);
    WindowsApart(window, y / window, x / window);
  }

  lemma WindowsApart(window: nat, a: nat, b: nat)
    ensures a > b ==> window * a >= window * b + window
  {
    if a > b {
      MulMono(window, b + 1, a);
    }
  }

  lemma OneMoreOfClass(before: seq<Update>, u: Update, after: int, start: nat, window: nat, residue: nat)
    requires window > 0
    ensures var more := before + [u];
            && Latest(more, start, window, residue)
               == (if IsOfClass(u, start, window, residue) then At(u.time) else Latest(before, start, window, residue))
            && RecentOf(more, after, start, window, residue)
               == if u.time > after && IsOfClass(u, start, window, residue)
                  then Added(RecentOf(before, after, start, window, residue), u)
                  else RecentOf(before, after, start, window, residue)
  {
    assert (before + [u])[..|before + [u]| - 1] == before;
  }

  lemma SameSecondOfClass(u: Update, history: seq<Update>, start: nat, window: nat, residue: nat)
    requires window > 0 && Latest(history, start, window, residue).At? && IsOfClass(u, start, window, residue)
    ensures var time := Latest(history, start, window, residue).time; time <= u.time < time + window ==> time == u.time
  {
    var time := Latest(history, start, window, residue).time;
    LatestIsOfClass(history, start, window, residue);
    if time <= u.time < time + window {
      SameSecond(u.time - start, time - start, window);
    }
  }

  lemma ClockedBefore(history: seq<Update>, start: nat, now: nat)
    requires IsClocked(history, start, now) && history != []
    ensures var before, u := history[..|history| - 1], history[|history| - 1];
            var last := if before == [] then start else before[|before| - 1].time;
            IsClocked(before, start, last) && last <= u.time == now && before + [u] == history
  {}

  // What is recent in a class is what counts for it, if that is recent.
  lemma {:induction false} RecentIsFresh(history: seq<Update>, after: int, start: nat, window: nat,
      residue: nat, now: nat)
    requires window > 0 && IsClocked(history, start, now) && now <= after + window
    ensures RecentOf(history, after, start, window, residue) ==
      if IsFresh(history, after, start, window, residue) then Counted(history, start, window, residue) else NOTHING
  {
    if history != [] {
      var before, u := history[..|history| - 1], history[|history| - 1];
      var last := if before == [] then start else before[|before| - 1].time;
      ClockedBefore(history, start, now);
      hide *;
      RecentIsFresh(before, after, start, window, residue, last);
      RecentStep(before, u, last, after, start, window, residue);
    }
  }

  lemma RecentStep(before: seq<Update>, u: Update, last: nat, after: int, start: nat, window: nat, residue: nat)
    requires window > 0 && IsClocked(before, start, last) && last <= u.time <= after + window
    requires RecentOf(before, after, start, window, residue) ==
      if IsFresh(before, after, start, window, residue) then Counted(before, start, window, residue) else NOTHING
    ensures RecentOf(before + [u], after, start, window, residue) ==
      if IsFresh(before + [u], after, start, window, residue) then Counted(before + [u], start, window, residue)
      else NOTHING
  {
    OneMoreOfClass(before, u, after, start, window, residue);
    CountedAfter(before, start, window, u, last, residue);
    LatestIsPast(before, start, window, residue, last);
    ClassOf(u, start, window, residue);
    if Latest(before, start, window, residue).At? && IsOfClass(u, start, window, residue) {
      SameSecondOfClass(u, before, start, window, residue);
    }
    NothingCounted(before, start, window, residue);
    hide Latest, RecentOf, Counted, IsOfClass, EnteredAt, IsClocked;
  }

  lemma ClassOf(u: Update, start: nat, window: nat, residue: nat)
    requires window > 0
    ensures u.time >= start ==> (IsOfClass(u, start, window, residue) <==> (u.time - start) % window == residue)
  {}

  lemma NothingCounted(history: seq<Update>, start: nat, window: nat, residue: nat)
    requires window > 0
    ensures Latest(history, start, window, residue).Never? ==> Counted(history, start, window, residue) == NOTHING
  {}

  lemma {:induction false} NoneRecent(after: int, start: nat, window: nat, n: nat)
    requires window > 0
    ensures SumOf(RecentTable([], after, start, window, n)) == 0
    ensures CountOf(RecentTable([], after, start, window, n)) == 0
    decreases n
  {
    NoneSet(RecentTable([], after, start, window, n));
  }

  // What was entered after some second in each residue class.
  ghost function RecentTable(history: seq<Update>, after: int, start: nat, window: nat, n: nat)
      : (table: seq<SumAndEntryCount>)
    requires window > 0
    ensures |table| == n
  {
    seq(n, i requires 0 <= i < n => RecentOf(history, after, start, window, i))
  }

  // What was entered after some second is the total over the classes.
  lemma {:induction false} ClassesAddUp(history: seq<Update>, after: int, start: nat, window: nat)
    requires window > 0 && forall u <- history :: u.time >= start
    ensures SumOf(RecentTable(history, after, start, window, window)) == Recent(history, after).sum
    ensures CountOf(RecentTable(history, after, start, window, window)) == Recent(history, after).entryCount
  {
    hide SumOf, CountOf;
    if history == [] {
      NoneRecent(after, start, window, window);
    } else {
      var before, u := history[..|history| - 1], history[|history| - 1];
      ClassesAddUp(before, after, start, window);
      var table := RecentTable(before, after, start, window, window);
      var index := (u.time - start) % window;
      var next := if u.time > after then table[index := Added(table[index], u)] else table;
      assert RecentTable(history, after, start, window, window) == next;
      if u.time > after {
        TotalsChanged(table, index, Added(table[index], u));
      }
    }
  }

  // Totals of which no part is smaller are equal exactly where all parts are.
  lemma {:induction false} CountsCompared(some: seq<SumAndEntryCount>, more: seq<SumAndEntryCount>)
    requires |some| == |more| && forall i | 0 <= i < |some| :: some[i].entryCount <= more[i].entryCount
    ensures CountOf(some) <= CountOf(more)
    ensures CountOf(some) == CountOf(more) <==> forall i | 0 <= i < |some| :: some[i].entryCount == more[i].entryCount
  {
    if some != [] {
      CountsCompared(some[1..], more[1..]);
      if forall i | 0 <= i < |some| :: some[i].entryCount == more[i].entryCount {
        assert forall i | 0 <= i < |some[1..]| :: some[1..][i].entryCount == more[1..][i].entryCount;
      } else if some[0].entryCount == more[0].entryCount {
        var i :| 0 <= i < |some| && some[i].entryCount != more[i].entryCount;
        assert some[1..][i - 1].entryCount != more[1..][i - 1].entryCount;
      }
    }
  }

  lemma {:induction false} CountedIsSomething(history: seq<Update>, start: nat, window: nat, residue: nat)
    requires window > 0 && Latest(history, start, window, residue).At?
    ensures EnteredAt(history, Latest(history, start, window, residue).time).entryCount > 0
  {
    if !IsOfClass(history[|history| - 1], start, window, residue) {
      CountedIsSomething(history[..|history| - 1], start, window, residue);
    }
  }

  // The totals are those of the last seconds of the window, as they are meant to be,
  // exactly where no class counts an older second; a class does where it had an update
  // before those seconds and none in them.
  lemma TotalsAreRecent(history: seq<Update>, start: nat, window: nat, now: nat, table: seq<SumAndEntryCount>)
    requires window == |table| > 0 && IsClocked(history, start, now)
    requires forall i | 0 <= i < window :: table[i] == Counted(history, start, window, i)
    ensures CountOf(table) == Recent(history, now - window).entryCount
            <==> NothingStale(history, now - window, start, window)
    ensures NothingStale(history, now - window, start, window) ==> SumOf(table) == Recent(history, now - window).sum
    ensures CountOf(table) >= Recent(history, now - window).entryCount
  {
    hide Recent, RecentOf, Counted, SumOf, CountOf;
    var after := now - window;
    var recent := RecentTable(history, after, start, window, window);
    ClassesAddUp(history, after, start, window);
    forall i | 0 <= i < window
      ensures recent[i] == if IsFresh(history, after, start, window, i) then table[i] else NOTHING
      ensures recent[i].entryCount == table[i].entryCount <==> IsFresh(history, after, start, window, i)
    {
      RecentIsFresh(history, after, start, window, i, now);
      StaleCounts(history, after, start, window, i);
    }
    CountsCompared(recent, table);
    if NothingStale(history, after, start, window) {
      assert recent == table;
    }
  }

  lemma StaleCounts(history: seq<Update>, after: int, start: nat, window: nat, residue: nat)
    requires window > 0
    ensures !IsFresh(history, after, start, window, residue) ==> Counted(history, start, window, residue).entryCount > 0
  {
    if Latest(history, start, window, residue).At? {
      CountedIsSomething(history, start, window, residue);
    }
  }

  // Where they are not: three seconds long, a window still counts the 6 of second 1 in
  // second 5, because the class of second 1 had no update in between.
  lemma StaleTotals()
    ensures var history := [Update(1, 6), Update(5, 0)];
            var table := [NOTHING, SumAndEntryCount(6, 1), SumAndEntryCount(0, 1)];
            && IsClocked(history, 0, 5)
            && (forall i | 0 <= i < 3 :: table[i] == Counted(history, 0, 3, i))
            && CountOf(table) == 2 && SumOf(table) == 6
            && Recent(history, 5 - 3) == SumAndEntryCount(0, 1)
  {
    hide Counted, CountOf, SumOf, Recent;
    TwoSeconds(0);
    TwoSeconds(1);
    TwoSeconds(2);
    StaleTable();
    StaleHistory();
  }

  lemma StaleTable()
    ensures var table := [NOTHING, SumAndEntryCount(6, 1), SumAndEntryCount(0, 1)];
            CountOf(table) == 2 && SumOf(table) == 6
  {
    var table := [NOTHING, SumAndEntryCount(6, 1), SumAndEntryCount(0, 1)];
    var last := [SumAndEntryCount(0, 1)];
    assert last[1..] == [] && CountOf(last) == 1 && SumOf(last) == 0;
    assert table[1..] == [SumAndEntryCount(6, 1)] + last && table[1..][1..] == last;
    assert CountOf(table[1..]) == 2 && SumOf(table[1..]) == 6;
  }

  lemma StaleHistory()
    ensures Recent([Update(1, 6), Update(5, 0)], 2) == SumAndEntryCount(0, 1)
  {
    var history := [Update(1, 6), Update(5, 0)];
    assert history[..1] == [Update(1, 6)] && history[..1][..0] == [];
    assert Recent(history[..1], 2) == NOTHING;
  }

  lemma TwoSeconds(residue: nat)
    requires residue < 3
    ensures Counted([Update(1, 6), Update(5, 0)], 0, 3, residue)
         == [NOTHING, SumAndEntryCount(6, 1), SumAndEntryCount(0, 1)][residue]
  {
    hide Counted;
    assert [Update(1, 6), Update(5, 0)] == [Update(1, 6)] + [Update(5, 0)];
    OneSecond(residue);
    CountedAfter([Update(1, 6)], 0, 3, Update(5, 0), 1, residue);
  }

  lemma OneSecond(residue: nat)
    requires residue < 3
    ensures Counted([Update(1, 6)], 0, 3, residue) == if residue == 1 then SumAndEntryCount(6, 1) else NOTHING
  {
    assert [Update(1, 6)] == [] + [Update(1, 6)];
    CountedAfter([], 0, 3, Update(1, 6), 0, residue);
  }

  class AverageRoller {
    const windowSeconds: nat
    var lastUpdateTime: nat
    var lastUpdateIndex: nat
    var sum: nat
    var entryCount: nat
    var average: nat
    const seconds: array<SumAndEntryCount>
    ghost const start: nat
    ghost var history: seq<Update>

    ghost predicate Valid()
      reads this, seconds
    {
      && windowSeconds > 0 && seconds.Length == windowSeconds
      && IsClocked(history, start, lastUpdateTime)
      && lastUpdateIndex == (lastUpdateTime - start) % windowSeconds
      && (forall i | 0 <= i < windowSeconds :: seconds[i] == Counted(history, start, windowSeconds, i))
      && sum == SumOf(seconds[..]) && entryCount == CountOf(seconds[..])
    }

    constructor (windowSeconds: nat, now: nat)
      requires windowSeconds > 0
      ensures Valid() && fresh(seconds) && history == [] && start == now
      ensures this.windowSeconds == windowSeconds
    {
      this.windowSeconds := windowSeconds;
      lastUpdateTime, lastUpdateIndex := now, 0;
      sum, entryCount, average := 0, 0, 0;
      seconds := new SumAndEntryCount[windowSeconds](_ => NOTHING);
      start, history := now, [];
      new;
      NoneSet(seconds[..]);
      DivModIs(0, windowSeconds, 0, 0);
    }

    // Enter a number in a slot and in the totals.
    method Enter(index: nat, newEntry: nat, anew: bool)
      requires index < seconds.Length && sum == SumOf(seconds[..]) && entryCount == CountOf(seconds[..])
      modifies this`sum, this`entryCount, seconds
      ensures seconds[..] == old(seconds[..])[index := Entered(old(seconds[index]), newEntry, anew)]
      ensures sum == SumOf(seconds[..]) && entryCount == CountOf(seconds[..]) && entryCount > 0
    {
      ghost var before := seconds[..];
      SlotIsPart(before, index);
      TotalsChanged(before, index, Entered(before[index], newEntry, anew));
      SlotIsPart(before[index := Entered(before[index], newEntry, anew)], index);
      if anew {
        sum := sum - seconds[index].sum;
        entryCount := entryCount - seconds[index].entryCount;
        seconds[index] := SumAndEntryCount(newEntry, 1);
      } else {
        seconds[index] := SumAndEntryCount(seconds[index].sum + newEntry, seconds[index].entryCount + 1);
      }
      assert seconds[..] == before[index := seconds[index]];
      sum := sum + newEntry;
      entryCount := entryCount + 1;
    }

    // The slot for the residue class of a second.
    method IndexAt(now: nat) returns (index: nat)
      requires windowSeconds > 0 && start <= lastUpdateTime <= now
      requires lastUpdateIndex == (lastUpdateTime - start) % windowSeconds
      ensures index == (now - start) % windowSeconds && index < windowSeconds
    {
      ModOfSum(now - lastUpdateTime, lastUpdateTime - start, windowSeconds);
      index := (now - lastUpdateTime + lastUpdateIndex) % windowSeconds;
    }

    // The sums are the totals over the residue classes of what counts for each, and the
    // average is their quotient.
    method UpdateWith(now: nat, newEntry: nat) returns (r: nat)
      requires Valid() && now >= lastUpdateTime
      modifies this, seconds
      ensures Valid() && history == old(history) + [Update(now, newEntry)] && lastUpdateTime == now
      ensures entryCount > 0 && r == average == sum / entryCount
      ensures entryCount == Recent(history, now - windowSeconds).entryCount
        <==> NothingStale(history, now - windowSeconds, start, windowSeconds)
      ensures NothingStale(history, now - windowSeconds, start, windowSeconds) ==>
        sum == Recent(history, now - windowSeconds).sum
    {
      hide Counted, SumOf, CountOf, IsClocked, Entered, Recent, NothingStale;
      ghost var u, before := Update(now, newEntry), seconds[..];
      ClockGoesOn(history, start, lastUpdateTime, u);
      var index := IndexAt(now);
      Enter(index, newEntry, now > lastUpdateTime);
      TableAfter(history, start, windowSeconds, u, lastUpdateTime, before, seconds[..]);
      average := sum / entryCount;
      lastUpdateTime := now;
      lastUpdateIndex := index;
      history := history + [u];
      TotalsAreRecent(history, start, windowSeconds, now, seconds[..]);
      r := average;
    }
  }

  // What the whole window counts after one more update.
  lemma TableAfter(history: seq<Update>, start: nat, window: nat, u: Update, last: nat,
                   before: seq<SumAndEntryCount>, after: seq<SumAndEntryCount>)
    requires window == |before| > 0 && IsClocked(history, start, last) && start <= last <= u.time
    requires forall i | 0 <= i < window :: before[i] == Counted(history, start, window, i)
    requires var index := (u.time - start) % window;
             after == before[index := Entered(before[index], u.entry, u.time > last)]
    ensures forall i | 0 <= i < window :: after[i] == Counted(history + [u], start, window, i)
  {
    hide Counted, IsClocked, Entered;
    forall i | 0 <= i < window
      ensures after[i] == Counted(history + [u], start, window, i)
    {
      CountedAfter(history, start, window, u, last, i);
    }
  }

  // An entry starts a slot anew or is added to it.
  function Entered(slot: SumAndEntryCount, entry: nat, anew: bool): SumAndEntryCount {
    if anew then SumAndEntryCount(entry, 1) else SumAndEntryCount(slot.sum + entry, slot.entryCount + 1)
  }

  lemma ClockGoesOn(history: seq<Update>, start: nat, last: nat, u: Update)
    requires IsClocked(history, start, last) && u.time >= last
    ensures start <= last && IsClocked(history + [u], start, u.time)
  {}

  lemma {:induction false} SlotIsPart(seconds: seq<SumAndEntryCount>, i: nat)
    requires i < |seconds|
    ensures seconds[i].sum <= SumOf(seconds) && seconds[i].entryCount <= CountOf(seconds)
  {
    if i > 0 {
      SlotIsPart(seconds[1..], i - 1);
    }
  }
}
