/** The shared store of key performance measurements: IMI writes entries under numbered keys and
    flushes them, the xApp reads the two with the highest numbers. */
module KpmWindow {

  import opened Wrappers

  // ----- keys -----

  function DigitChar(d: nat): char
    requires d < 10
  {
    ['0', '1', '2', '3', '4', '5', '6', '7', '8', '9'][d]
  }

  function DigitValue(c: char): Option<nat> {
    if '0' <= c <= '9' then Some(c as nat - '0' as nat) else None
  }

  /** The decimal text of a number, as an f-string prints it. */
  function Decimal(n: nat): (s: string)
    ensures s != ""
  {
    if n < 10 then [DigitChar(n)] else Decimal(n / 10) + [DigitChar(n % 10)]
  }

  /** int() on a string of digits. */
  function ParseInt(s: string): Option<nat> {
    if s == "" then None
    else
      var d := DigitValue(s[|s| - 1]);
      if |s| == 1 || d.None? then d
      else match ParseInt(s[..|s| - 1])
        case None => None
        case Some(front) => Some(10 * front + d.value)
  }

  lemma DigitRoundTrip(d: nat)
    requires d < 10
    ensures DigitValue(DigitChar(d)) == Some(d) && DigitChar(d) != '_'
  {
  }

  lemma {:induction false} DecimalRoundTrip(n: nat)
    ensures ParseInt(Decimal(n)) == Some(n)
    ensures '_' !in Decimal(n)
  {
    DigitRoundTrip(n % 10);
    if n < 10 {
    } else {
      DecimalRoundTrip(n / 10);
      var s := Decimal(n);
      assert s[..|s| - 1] == Decimal(n / 10) && s[|s| - 1] == DigitChar(n % 10);
    }
  }

  /** str.split on one character. */
  function Split(s: string, c: char): (fields: seq<string>)
    ensures fields != []
  {
    if s == "" then [""]
    else
      var rest := Split(s[1..], c);
      if s[0] == c then [""] + rest else [[s[0]] + rest[0]] + rest[1..]
  }

  lemma {:induction false} SplitWithout(s: string, c: char)
    requires c !in s
    ensures Split(s, c) == [s]
  {
    if s == "" {
    } else {
      SplitWithout(s[1..], c);
      assert [s[0]] + s[1..] == s;
    }
  }

  lemma SplitStep(x: char, rest: string, c: char)
    ensures x == c ==> Split([x] + rest, c) == [""] + Split(rest, c)
    ensures x != c ==> Split([x] + rest, c) == [[x] + Split(rest, c)[0]] + Split(rest, c)[1..]
  {
    assert ([x] + rest)[1..] == rest;
  }

  /** The key of the entry with this index. */
  function Key(index: nat): string {
    "kpm_" + Decimal(index)
  }

  /** int(x.split('_')[1]); None where the source would raise an exception. */
  function KeyIndex(key: string): Option<nat> {
    var fields := Split(key, '_');
    if |fields| < 2 then None else ParseInt(fields[1])
  }

  /** Reading a key undoes writing it, so keys of different entries are different; and every key matches
      the reader's pattern. */
  lemma KeyRoundTrip(index: nat)
    ensures KeyIndex(Key(index)) == Some(index)
    ensures "kpm_" <= Key(index)
  {
    DecimalRoundTrip(index);
    var d := Decimal(index);
    SplitWithout(d, '_');
    SplitStep('_', d, '_');
    SplitStep('m', ['_'] + d, '_');
    SplitStep('p', ['m'] + (['_'] + d), '_');
    SplitStep('k', ['p'] + (['m'] + (['_'] + d)), '_');
    assert Key(index) == ['k'] + (['p'] + (['m'] + (['_'] + d)));
  }

  /** Keys are written in decimal, the most significant digit first. */
  lemma KeyText()
    ensures Key(7) == "kpm_7" && Key(98) == "kpm_98"
  {
    assert Decimal(98) == Decimal(9) + [DigitChar(8)];
  }

  lemma KeyRoundTripAll()
    ensures forall i: nat :: KeyIndex(Key(i)) == Some(i) && "kpm_" <= Key(i)
  {
    forall i: nat
      ensures KeyIndex(Key(i)) == Some(i) && "kpm_" <= Key(i)
    {
      KeyRoundTrip(i);
    }
  }

  // ----- the writer -----

  /** The namespace of the store, and IMI's counter. */
  datatype Window = Window(store: map<string, string>, k: nat)

  const EMPTY := Window(map[], 0)

  /** What one turn of KPM collection meets: an entry unless there are no metrics, and whether the
      store takes the write and the flush (failures are logged and ignored). */
  datatype Report = Report(entry: Option<string>, writes: bool, flushes: bool)

  function Turn(w: Window, r: Report): Window {
    if r.entry.None? then w
    else
      var store := if r.writes then w.store[Key(w.k) := r.entry.value] else w.store;
      if w.k + 1 >= 100 then Window(if r.flushes then map[] else store, 0) else Window(store, w.k + 1)
  }

  function Turns(w: Window, reports: seq<Report>): Window {
    if reports == [] then w else Turn(Turns(w, reports[..|reports| - 1]), reports[|reports| - 1])
  }

  /** The entries of all reports that had one; None where the write failed. */
  function Reported(reports: seq<Report>): Log {
    if reports == [] then []
    else
      var front, r := Reported(reports[..|reports| - 1]), reports[|reports| - 1];
      if r.entry.None? then front else front + [if r.writes then r.entry else None]
  }

  class Collector {
    var store: map<string, string>
    var k: nat

    function View(): Window
      reads this
    {
      Window(store, k)
    }

    constructor ()
      ensures View() == EMPTY
    {
      store, k := map[], 0;
    }

    /** kpms_handler. */
    method KpmsHandler(entry: string, index: nat, writes: bool)
      modifies `store
      ensures store == if writes then old(store)[Key(index) := entry] else old(store)
    {
      var key := "kpm_" + Decimal(index);
      if writes {
        store := store[key := entry];
      }
    }

    /** flush_database. */
    method FlushDatabase(flushes: bool)
      modifies `store
      ensures store == if flushes then map[] else old(store)
    {
      if flushes {
        store := map[];
      }
    }

    /** The KPM branch of handle_clients. */
    method Collect(r: Report)
      modifies this
      ensures View() == Turn(old(View()), r)
    {
      if r.entry.Some? {
        KpmsHandler(r.entry.value, k, r.writes);
        k := k + 1;
        if k >= 100 {
          FlushDatabase(r.flushes);
          k := 0;
        }
      }
    }
  }

  // ----- the list behind the store -----

  /** The entries reported since the last flush, oldest first; None where the write failed. */
  type Log = seq<Option<string>>

  function Logged(log: Log, r: Report): Log {
    if r.entry.None? then log
    else if |log| + 1 >= 100 then []
    else Extended(log, r)
  }

  function LoggedAll(log: Log, reports: seq<Report>): Log {
    if reports == [] then log else Logged(LoggedAll(log, reports[..|reports| - 1]), reports[|reports| - 1])
  }

  /** The counter and the log in one step: the counter is the number of entries ever reported modulo
      100, and the log is that many of the newest ones. */
  lemma {:induction false} LogIsSuffix(w: Window, log: Log, reports: seq<Report>)
    requires |log| == w.k < 100
    ensures var all := log + Reported(reports);
            && Turns(w, reports).k == |all| % 100
            && LoggedAll(log, reports) == all[|all| - |all| % 100..]
  {
    if reports == [] {
      assert log + [] == log;
    } else {
      var front, r := reports[..|reports| - 1], reports[|reports| - 1];
      LogIsSuffix(w, log, front);
      var all := log + Reported(front);
      SuffixGrows(Turns(w, front), all, r);
      if r.entry.Some? {
        assert log + Reported(reports) == all + [if r.writes then r.entry else None];
      }
      hide Turn, Logged;
    }
  }

  lemma SuffixGrows(w: Window, all: Log, r: Report)
    requires w.k == |all| % 100
    ensures var more := if r.entry.None? then all else all + [if r.writes then r.entry else None];
            && Turn(w, r).k == |more| % 100
            && Logged(all[|all| - |all| % 100..], r) == more[|more| - |more| % 100..]
  {
  }

  /** Report j writes an entry under index i. */
  ghost predicate Puts(w: Window, reports: seq<Report>, j: nat, i: nat)
    requires j < |reports|
  {
    reports[j].entry.Some? && reports[j].writes && (w.k + |Reported(reports[..j])|) % 100 == i
  }

  /** Report j is the 100th since the counter was 0, and empties the namespace. */
  ghost predicate Wipes(w: Window, reports: seq<Report>, j: nat)
    requires j < |reports|
  {
    reports[j].entry.Some? && reports[j].flushes && (w.k + |Reported(reports[..j])|) % 100 == 99
  }

  ghost predicate Touches(w: Window, reports: seq<Report>, j: nat, i: nat)
    requires j < |reports|
  {
    Puts(w, reports, j, i) || Wipes(w, reports, j)
  }

  /** Report j put this entry there, and neither it nor a later one has replaced or removed it. */
  ghost predicate Stays(w: Window, reports: seq<Report>, i: nat, entry: string, j: nat)
    requires j < |reports|
  {
    && Puts(w, reports, j, i) && reports[j].entry == Some(entry) && !Wipes(w, reports, j)
    && forall l | j < l < |reports| :: !Touches(w, reports, l, i)
  }

  ghost predicate Untouched(w: Window, reports: seq<Report>, i: nat) {
    forall l | 0 <= l < |reports| :: !Touches(w, reports, l, i)
  }

  ghost predicate Holds(store: map<string, string>, i: nat, entry: string) {
    Key(i) in store && store[Key(i)] == entry
  }

  /** What is in the store, told from the reports alone: under Key(i) is the entry of the last report
      that wrote there and was not followed by a flush, or else what was there before. */
  lemma {:induction false} StoreHoldsLastWrite(w: Window, reports: seq<Report>, i: nat, entry: string)
    requires w.k < 100
    ensures Holds(Turns(w, reports).store, i, entry) <==>
            || (exists j | 0 <= j < |reports| :: Stays(w, reports, i, entry, j))
            || (Untouched(w, reports, i) && Holds(w.store, i, entry))
  {
    if reports == [] {
    } else {
      var front, r := reports[..|reports| - 1], reports[|reports| - 1];
      StoreHoldsLastWrite(w, front, i, entry);
      OneMoreReport(w, front, r, i, entry);
      CounterAfter(w, front);
      StoreStep(Turns(w, front), r, i, entry);
      TurnsMore(w, front, r);
      LastReport(w, front, r, i);
      assert reports == front + [r];
      hide *;
    }
  }

  lemma TurnsMore(w: Window, front: seq<Report>, r: Report)
    ensures Turns(w, front + [r]) == Turn(Turns(w, front), r)
  {
    assert (front + [r])[..|front|] == front;
  }

  lemma CounterAfter(w: Window, reports: seq<Report>)
    requires w.k < 100
    ensures Turns(w, reports).k == (w.k + |Reported(reports)|) % 100 < 100
  {
    LogIsSuffix(w, seq(w.k, _ => None), reports);
  }

  lemma StoreStep(w: Window, r: Report, i: nat, entry: string)
    requires w.k < 100
    ensures Holds(Turn(w, r).store, i, entry) <==>
            if r.entry.Some? && r.flushes && w.k == 99 then false
            else if r.entry.Some? && r.writes && w.k == i then r.entry == Some(entry)
            else Holds(w.store, i, entry)
  {
    KeyRoundTripAll();
    hide Key, KeyIndex;
    assert KeyIndex(Key(i)) == Some(i) && KeyIndex(Key(w.k)) == Some(w.k);
  }

  lemma LastReport(w: Window, front: seq<Report>, r: Report, i: nat)
    requires w.k < 100
    ensures var k, n := Turns(w, front).k, |front|;
            && (Puts(w, front + [r], n, i) <==> r.entry.Some? && r.writes && k == i)
            && (Wipes(w, front + [r], n) <==> r.entry.Some? && r.flushes && k == 99)
  {
    CounterAfter(w, front);
    assert (front + [r])[..|front|] == front;
  }

  lemma SameBefore(w: Window, front: seq<Report>, r: Report, i: nat)
    ensures forall l | 0 <= l < |front| :: Puts(w, front + [r], l, i) <==> Puts(w, front, l, i)
    ensures forall l | 0 <= l < |front| :: Wipes(w, front + [r], l) <==> Wipes(w, front, l)
    ensures forall l | 0 <= l < |front| :: Touches(w, front + [r], l, i) <==> Touches(w, front, l, i)
  {
    assert forall l | 0 <= l < |front| :: (front + [r])[..l] == front[..l];
  }

  lemma OneMoreReport(w: Window, front: seq<Report>, r: Report, i: nat, entry: string)
    ensures var reports, n := front + [r], |front|;
            && (forall j | 0 <= j < n ::
                  Stays(w, reports, i, entry, j) <==> Stays(w, front, i, entry, j) && !Touches(w, reports, n, i))
            && (Stays(w, reports, i, entry, n) <==>
                  Puts(w, reports, n, i) && r.entry == Some(entry) && !Wipes(w, reports, n))
            && (Untouched(w, reports, i) <==> Untouched(w, front, i) && !Touches(w, reports, n, i))
            && (Touches(w, reports, n, i) <==> Puts(w, reports, n, i) || Wipes(w, reports, n))
  {
    SameBefore(w, front, r, i);
    var reports, n := front + [r], |front|;
    assert forall l | 0 <= l < n :: reports[l] == front[l];
    hide Puts, Wipes;
    assert Touches(w, reports, n, i) <==> Puts(w, reports, n, i) || Wipes(w, reports, n);
    hide Touches;
  }

  /** The store holds exactly the logged entries, each under the key of its position. */
  ghost predicate Represents(w: Window, log: Log) {
    RepresentsHistory(w, History({}, log))
  }

  /** From an empty namespace, as long as flushes succeed, the store is at every loop head the log of
      the entries since the last flush, and the counter is its length, below 100. */
  lemma {:induction false} StoreRefinesLog(reports: seq<Report>)
    requires forall r | r in reports :: r.flushes
    ensures Represents(Turns(EMPTY, reports), LoggedAll([], reports))
  {
    StoreRefinesHistory(EMPTY, NOTHING, reports);
    FlushesLeaveNothing(reports);
  }

  // ----- flushes that fail -----

  /** The log since the counter was last 0, and the positions of entries left behind from before: by
      failed flushes, or by an IMI that ran earlier. */
  datatype History = History(left: set<nat>, log: Log)

  const NOTHING := History({}, [])

  /** The log after a write and before the counter is looked at. */
  function Extended(log: Log, r: Report): Log {
    log + [if r.writes then r.entry else None]
  }

  function Written(log: Log): set<nat> {
    set i: nat | i < |log| && Logs(log, i)
  }

  function Recorded(h: History, r: Report): History {
    var left :=
      if r.entry.None? || |h.log| + 1 < 100 then h.left
      else if r.flushes then {}
      else h.left + Written(Extended(h.log, r));
    History(left, Logged(h.log, r))
  }

  function RecordedAll(h: History, reports: seq<Report>): (h': History)
    ensures h'.log == LoggedAll(h.log, reports)
  {
    if reports == [] then h else Recorded(RecordedAll(h, reports[..|reports| - 1]), reports[|reports| - 1])
  }

  /** The entry under Key(i) is the logged one, or failing that one left behind. */
  predicate InStore(h: History, i: nat) {
    i in h.left || Logs(h.log, i)
  }

  predicate Logs(log: Log, i: nat) {
    i < |log| && log[i].Some?
  }

  ghost predicate RepresentsHistory(w: Window, h: History) {
    && |h.log| == w.k < 100
    && (forall i | i in h.left :: i < 100)
    && (forall i: nat | InStore(h, i) :: Key(i) in w.store)
    && (forall i: nat | Logs(h.log, i) :: w.store[Key(i)] == h.log[i].value)
    && (forall key | key in w.store :: exists i: nat :: InStore(h, i) && key == Key(i))
  }

  /** One turn, before the counter is looked at: the entry is written under the next key. */
  lemma WriteRefinesHistory(w: Window, h: History, r: Report) returns (h': History)
    requires RepresentsHistory(w, h) && r.entry.Some?
    ensures h' == h.(log := Extended(h.log, r))
    ensures var store := if r.writes then w.store[Key(w.k) := r.entry.value] else w.store;
            && (forall i: nat | InStore(h', i) :: Key(i) in store)
            && (forall i: nat | Logs(h'.log, i) :: store[Key(i)] == h'.log[i].value)
            && (forall key | key in store :: exists i: nat :: InStore(h', i) && key == Key(i))
  {
    KeyRoundTripAll();
    hide Key, KeyIndex;
    h' := h.(log := Extended(h.log, r));
    var store := if r.writes then w.store[Key(w.k) := r.entry.value] else w.store;
    forall i: nat
      ensures InStore(h', i) <==> InStore(h, i) || (i == w.k && r.writes)
      ensures Logs(h'.log, i) && i != w.k ==> Logs(h.log, i) && h'.log[i] == h.log[i]
      ensures i != w.k ==> Key(i) != Key(w.k)
    {
      assert KeyIndex(Key(i)) == Some(i);
    }
    forall key | key in store
      ensures exists i: nat :: InStore(h', i) && key == Key(i)
    {
      if key in w.store {
        var i: nat :| InStore(h, i) && key == Key(i);
        assert InStore(h', i);
      } else {
        assert InStore(h', w.k);
      }
    }
  }

  lemma LeftBehind(left: set<nat>, log: Log)
    ensures forall i: nat :: InStore(History(left + Written(log), []), i) <==> InStore(History(left, log), i)
    ensures forall i | i in Written(log) :: i < |log|
    ensures forall i: nat :: !Logs([], i)
  {
  }

  /** Every turn keeps the store equal to the history, whether its write and its flush succeed or
      not. */
  lemma TurnRefinesHistory(w: Window, h: History, r: Report)
    requires RepresentsHistory(w, h)
    ensures RepresentsHistory(Turn(w, r), Recorded(h, r))
  {
    if r.entry.Some? {
      var h' := WriteRefinesHistory(w, h, r);
      hide Key;
      if w.k + 1 >= 100 {
        LeftBehind(h'.left, h'.log);
      }
    }
  }

  /** From any namespace IMI can meet and over any reports, whatever fails, the store holds exactly
      what the log and the entries left behind make of it. */
  lemma {:induction false} StoreRefinesHistory(w: Window, h: History, reports: seq<Report>)
    requires RepresentsHistory(w, h)
    ensures RepresentsHistory(Turns(w, reports), RecordedAll(h, reports))
  {
    if reports == [] {
    } else {
      var front := reports[..|reports| - 1];
      StoreRefinesHistory(w, h, front);
      TurnRefinesHistory(Turns(w, front), RecordedAll(h, front), reports[|reports| - 1]);
    }
  }

  /** An IMI that starts anew counts from 0 but finds the namespace as the one before left it; this and
      the empty namespace are the starts to which the theorems apply. */
  lemma RestartKeepsHistory(w: Window, h: History)
    requires RepresentsHistory(w, h)
    ensures RepresentsHistory(Window(w.store, 0), History(h.left + Written(h.log), []))
    ensures RepresentsHistory(EMPTY, NOTHING)
  {
    hide Key;
    LeftBehind(h.left, h.log);
  }

  lemma {:induction false} FlushesLeaveNothing(reports: seq<Report>)
    requires forall r | r in reports :: r.flushes
    ensures RecordedAll(NOTHING, reports).left == {}
  {
    if reports == [] {
    } else {
      var front := reports[..|reports| - 1];
      assert forall r | r in front :: r in reports;
      assert reports[|reports| - 1] in reports;
      FlushesLeaveNothing(front);
    }
  }

  // ----- the reader -----

  /** find_keys returns every key of the namespace that matches the pattern kpm_* once, in any order. */
  ghost predicate Lists(keys: seq<string>, w: Window) {
    && (forall i, j | 0 <= i < j < |keys| :: keys[i] != keys[j])
    && (forall key :: key in keys <==> key in w.store && "kpm_" <= key)
  }

  /** sorted(keys, key=KeyIndex): the same keys, by non-decreasing index. */
  ghost predicate SortedKeys(keys: seq<string>, sorted: seq<string>) {
    && multiset(keys) == multiset(sorted)
    && (forall i | 0 <= i < |sorted| :: KeyIndex(sorted[i]).Some?)
    && (forall i, j | 0 <= i < j < |sorted| :: KeyIndex(sorted[i]).value <= KeyIndex(sorted[j]).value)
  }

  /** sorted[-n:]. */
  function LastN<T>(s: seq<T>, n: nat): seq<T> {
    if |s| <= n then s else s[|s| - n..]
  }

  /** Positions of the successful writes, ascending. */
  function Stored(log: Log): (positions: seq<nat>)
    ensures forall i | i in positions :: i < |log| && log[i].Some?
    ensures forall i: nat | i < |log| && log[i].Some? :: i in positions
    ensures Increasing(positions)
  {
    if log == [] then []
    else
      var n := |log| - 1;
      var front := Stored(log[..n]);
      assert forall i | i in front :: i < n && log[i] == log[..n][i];
      assert forall i | 0 <= i < |front| :: front[i] in front;
      assert forall i: nat | i < n && log[i].Some? :: log[..n][i].Some?;
      if log[n].Some? then front + [n] else front
  }

  lemma FirstIsIn(a: seq<nat>)
    requires a != []
    ensures a[0] in a
  {
  }

  ghost predicate Increasing(a: seq<nat>) {
    forall i, j | 0 <= i < j < |a| :: a[i] < a[j]
  }

  lemma WithoutLast(a: seq<nat>) returns (front: seq<nat>, last: nat)
    requires Increasing(a) && a != []
    ensures a == front + [last] && last in a && Increasing(front)
    ensures forall x | x in a :: x <= last
    ensures forall x :: x in front <==> x in a && x != last
  {
    front, last := a[..|a| - 1], a[|a| - 1];
    assert a == front + [last];
  }

  lemma {:induction false} IncreasingIsUnique(a: seq<nat>, b: seq<nat>)
    requires Increasing(a) && Increasing(b)
    requires forall x :: x in a <==> x in b
    ensures a == b
    decreases |a|
  {
    if a == [] {
      if b != [] {
        FirstIsIn(b);
      }
    } else {
      FirstIsIn(a);
      var front, last := WithoutLast(a);
      assert last in b;
      var front', last' := WithoutLast(b);
      assert last' in a;
      IncreasingIsUnique(front, front');
    }
  }

  function Indices(keys: seq<string>): (r: seq<nat>)
    requires forall i | 0 <= i < |keys| :: KeyIndex(keys[i]).Some?
    ensures |r| == |keys| && forall i | 0 <= i < |keys| :: r[i] == KeyIndex(keys[i]).value
  {
    seq(|keys|, i requires 0 <= i < |keys| => KeyIndex(keys[i]).value)
  }

  lemma SortedHasSameKeys(keys: seq<string>, sorted: seq<string>)
    requires multiset(keys) == multiset(sorted)
    requires forall i, j | 0 <= i < j < |keys| :: keys[i] != keys[j]
    ensures forall key :: key in keys <==> key in sorted
    ensures forall i, j | 0 <= i < j < |sorted| :: sorted[i] != sorted[j]
  {
    forall key
      ensures key in keys <==> key in sorted
    {
      assert key in keys <==> key in multiset(keys);
    }
    forall i, j | 0 <= i < j < |sorted|
      ensures sorted[i] != sorted[j]
    {
      OnceEach(keys, sorted[i]);
      if sorted[i] == sorted[j] {
        TwiceAtLeast(sorted, i, j);
      }
    }
  }

  lemma {:induction false} OnceEach(keys: seq<string>, key: string)
    requires forall i, j | 0 <= i < j < |keys| :: keys[i] != keys[j]
    ensures multiset(keys)[key] <= 1
  {
    if keys == [] {
    } else {
      var front, last := keys[..|keys| - 1], keys[|keys| - 1];
      assert keys == front + [last];
      OnceEach(front, key);
      assert key == last ==> key !in front;
    }
  }

  lemma TwiceAtLeast(keys: seq<string>, i: nat, j: nat)
    requires i < j < |keys| && keys[i] == keys[j]
    ensures multiset(keys)[keys[i]] >= 2
  {
    assert keys == keys[..j] + [keys[j]] + keys[j + 1..];
    assert keys[i] in keys[..j];
  }

  function Keys(positions: seq<nat>): seq<string> {
    seq(|positions|, i requires 0 <= i < |positions| => Key(positions[i]))
  }

  /** Whatever order the store lists its keys in, sorting them gives the positions in the store in
      ascending order. */
  lemma SortedPositions(w: Window, h: History, keys: seq<string>, sorted: seq<string>) returns (positions: seq<nat>)
    requires RepresentsHistory(w, h) && Lists(keys, w) && SortedKeys(keys, sorted)
    ensures |positions| == |sorted| && Increasing(positions)
    ensures forall i | 0 <= i < |sorted| :: sorted[i] == Key(positions[i])
    ensures forall x :: x in positions <==> InStore(h, x)
  {
    KeyRoundTripAll();
    hide Key, KeyIndex;
    SortedHasSameKeys(keys, sorted);
    positions := Indices(sorted);
    forall i | 0 <= i < |sorted|
      ensures sorted[i] in w.store && sorted[i] == Key(positions[i]) && InStore(h, positions[i])
    {
      assert sorted[i] in sorted;
      var j: nat :| InStore(h, j) && sorted[i] == Key(j);
    }
    forall i, j | 0 <= i < j < |positions|
      ensures positions[i] < positions[j]
    {
      assert sorted[i] != sorted[j];
    }
    forall x
      ensures x in positions <==> InStore(h, x)
    {
      if InStore(h, x) {
        assert Key(x) in w.store && Key(x) in sorted;
        var i :| 0 <= i < |sorted| && sorted[i] == Key(x);
        assert positions[i] == x;
      }
    }
  }

  /** Whatever order the store lists its keys in, the reader's two keys are those of the two newest
      successful writes since the last flush, in order of writing. */
  lemma ReaderSeesNewest(w: Window, log: Log, keys: seq<string>, sorted: seq<string>)
    requires Represents(w, log) && Lists(keys, w) && SortedKeys(keys, sorted)
    ensures |sorted| == |Stored(log)|
    ensures forall i | 0 <= i < |sorted| :: sorted[i] == Key(Stored(log)[i])
    ensures forall i | 0 <= i < |LastN(sorted, 2)| ::
              LastN(sorted, 2)[i] == Key(LastN(Stored(log), 2)[i])
  {
    hide Key, KeyIndex;
    var h := History({}, log);
    var positions := SortedPositions(w, h, keys, sorted);
    assert forall x :: x in positions <==> InStore(h, x);
    IncreasingIsUnique(positions, Stored(log));
  }

  /** With successful writes these are the min(2, k) newest entries: numbers k-2 and k-1 if there are
      that many. */
  lemma NewestWithoutFailures(log: Log)
    requires forall i | 0 <= i < |log| :: log[i].Some?
    ensures var newest := LastN(Stored(log), 2);
            && |newest| == (if |log| < 2 then |log| else 2)
            && forall i | 0 <= i < |newest| :: newest[i] == |log| - |newest| + i
  {
    StoredWithoutFailures(log);
  }

  lemma StoredWithoutFailures(log: Log)
    requires forall i | 0 <= i < |log| :: log[i].Some?
    ensures |Stored(log)| == |log| && forall i | 0 <= i < |log| :: Stored(log)[i] == i
  {
    if log == [] {
    } else {
      StoredWithoutFailures(log[..|log| - 1]);
    }
  }

  /** What the reader reads is an entry reported since the counter was last reset. */
  ghost predicate Current(key: string, log: Log) {
    exists i: nat :: Logs(log, i) && key == Key(i)
  }

  /** The position holds a current entry, or is older than two that do. */
  ghost predicate Covered(log: Log, i: nat) {
    Logs(log, i) || exists a, b :: i < a < b && Logs(log, a) && Logs(log, b)
  }

  /** Nothing that was left behind can be read. */
  ghost predicate AllCovered(h: History) {
    forall i | i in h.left :: Covered(h.log, i)
  }

  /** The reader reads current entries only, exactly when every position left behind is written again,
      or lies below two that are; and then it reads the two newest. */
  lemma ViewIsCurrent(w: Window, h: History, keys: seq<string>, sorted: seq<string>)
    requires RepresentsHistory(w, h) && Lists(keys, w) && SortedKeys(keys, sorted)
    ensures (forall key | key in LastN(sorted, 2) :: Current(key, h.log)) <==> AllCovered(h)
    ensures AllCovered(h) ==> LastN(sorted, 2) == Keys(LastN(Stored(h.log), 2))
  {
    KeyRoundTripAll();
    var at := SortedPositions(w, h, keys, sorted);
    hide Key, KeyIndex, Covered, LastN, RepresentsHistory;
    forall j | 0 <= j < |sorted|
      ensures Current(sorted[j], h.log) <==> Logs(h.log, at[j])
    {
      assert KeyIndex(sorted[j]) == Some(at[j]);
    }
    NewestCovered(sorted, at, h);
    if AllCovered(h) {
      NewestStored(at, h);
      LastKeys(sorted, at);
    }
  }

  lemma LastKeys(sorted: seq<string>, at: seq<nat>)
    requires |sorted| == |at| && forall i | 0 <= i < |sorted| :: sorted[i] == Key(at[i])
    ensures LastN(sorted, 2) == Keys(LastN(at, 2))
  {
    hide Key;
  }

  /** If all that was left behind is covered, the two newest positions are those of the log. */
  lemma NewestStored(at: seq<nat>, h: History)
    requires Increasing(at) && (forall x :: x in at <==> InStore(h, x)) && AllCovered(h)
    ensures LastN(at, 2) == LastN(Stored(h.log), 2)
  {
    var stored, n := Stored(h.log), |at|;
    forall j | 0 <= j < n && n - 2 <= j
      ensures at[j] in stored
    {
      CoveredNearEnd(at, h, j);
    }
    assert forall x | x in stored :: Logs(h.log, x) && InStore(h, x);
    if n <= 2 {
      forall x
        ensures x in at <==> x in stored
      {
      }
      IncreasingIsUnique(at, stored);
    } else {
      SameEnd(at, stored);
    }
  }

  lemma SameEnd(a: seq<nat>, b: seq<nat>)
    requires Increasing(a) && Increasing(b) && |a| > 2 && a[|a| - 1] in b && a[|a| - 2] in b
    requires forall x | x in b :: x in a
    ensures LastN(a, 2) == LastN(b, 2)
  {
    var front, last := WithoutLast(a);
    var i :| 0 <= i < |b| && b[i] == last;
    assert b[|b| - 1] in b && b[|b| - 1] in a;
    assert i == |b| - 1;
    var front', last' := WithoutLast(front);
    assert last' == a[|a| - 2];
    var j :| 0 <= j < |b| && b[j] == last';
    assert j <= |b| - 2 && b[|b| - 2] in b && b[|b| - 2] in a;
    assert b[|b| - 2] in front;
    assert j == |b| - 2;
  }

  lemma NewestCovered(sorted: seq<string>, at: seq<nat>, h: History)
    requires |at| == |sorted| && Increasing(at) && forall x :: x in at <==> InStore(h, x)
    requires forall j | 0 <= j < |sorted| :: Current(sorted[j], h.log) <==> Logs(h.log, at[j])
    ensures (forall key | key in LastN(sorted, 2) :: Current(key, h.log)) <==> AllCovered(h)
  {
    hide Current, LastN;
    if forall key | key in LastN(sorted, 2) :: Current(key, h.log) {
      forall i | i in h.left
        ensures Covered(h.log, i)
      {
        assert InStore(h, i);
        var j :| 0 <= j < |at| && at[j] == i;
        if !Logs(h.log, i) {
          NotAmongLast(sorted, h.log, j);
          assert i < at[|at| - 2] < at[|at| - 1];
        }
      }
    }
    if AllCovered(h) {
      forall key | key in LastN(sorted, 2)
        ensures Current(key, h.log)
      {
        var j := AmongLast(sorted, key);
        CoveredNearEnd(at, h, j);
      }
    }
  }

  lemma CoveredNearEnd(at: seq<nat>, h: History, j: nat)
    requires Increasing(at) && forall x :: x in at <==> InStore(h, x)
    requires |at| - 2 <= j < |at| && AllCovered(h)
    ensures Logs(h.log, at[j])
  {
    assert at[j] in at;
    if !Logs(h.log, at[j]) {
      var a, b :| at[j] < a < b && Logs(h.log, a) && Logs(h.log, b);
      TwoAbove(at, h, j, a, b);
    }
  }

  lemma TwoAbove(at: seq<nat>, h: History, j: nat, a: nat, b: nat)
    requires Increasing(at) && forall x :: x in at <==> InStore(h, x)
    requires j < |at| && at[j] < a < b && InStore(h, a) && InStore(h, b)
    ensures j < |at| - 2
  {
    var p :| 0 <= p < |at| && at[p] == a;
    var q :| 0 <= q < |at| && at[q] == b;
    assert j < p < q;
  }

  lemma AmongLast(sorted: seq<string>, key: string) returns (j: nat)
    requires key in LastN(sorted, 2)
    ensures |sorted| - 2 <= j < |sorted| && sorted[j] == key
  {
    var last := LastN(sorted, 2);
    var i :| 0 <= i < |last| && last[i] == key;
    j := |sorted| - |last| + i;
  }

  lemma LastAreAmong(sorted: seq<string>, j: nat)
    requires |sorted| - 2 <= j < |sorted|
    ensures sorted[j] in LastN(sorted, 2)
  {
    assert sorted[j] == LastN(sorted, 2)[j - (|sorted| - |LastN(sorted, 2)|)];
  }

  lemma NotAmongLast(sorted: seq<string>, log: Log, j: nat)
    requires forall key | key in LastN(sorted, 2) :: Current(key, log)
    requires j < |sorted| && !Current(sorted[j], log)
    ensures j < |sorted| - 2
    ensures Current(sorted[|sorted| - 2], log) && Current(sorted[|sorted| - 1], log)
  {
    hide Current, LastN;
    if |sorted| - 2 <= j {
      LastAreAmong(sorted, j);
    } else {
      LastAreAmong(sorted, |sorted| - 2);
      LastAreAmong(sorted, |sorted| - 1);
    }
  }

  /** Whether the flush at the latest counter reset succeeded; None before the first reset. */
  function LatestFlush(log: Log, reports: seq<Report>): Option<bool> {
    if reports == [] then None
    else
      var front, r := reports[..|reports| - 1], reports[|reports| - 1];
      if r.entry.Some? && |LoggedAll(log, front)| + 1 >= 100 then Some(r.flushes) else LatestFlush(log, front)
  }

  /** Without failed writes. */
  ghost predicate Full(log: Log) {
    |log| < 100 && forall i | 0 <= i < |log| :: log[i].Some?
  }

  /** As long as writes succeed a failed flush leaves all 100 positions behind, and a successful one
      none. */
  lemma {:induction false} LeftWithoutFailedWrites(h: History, reports: seq<Report>)
    requires Full(h.log) && (forall i | i in h.left :: i < 100) && forall r | r in reports :: r.writes
    ensures var h' := RecordedAll(h, reports);
            && Full(h'.log)
            && match LatestFlush(h.log, reports)
               case None => h'.left == h.left
               case Some(flushed) => forall i: nat :: i in h'.left <==> !flushed && i < 100
  {
    if reports == [] {
    } else {
      var front, r := reports[..|reports| - 1], reports[|reports| - 1];
      assert forall x | x in front :: x in reports;
      assert r in reports;
      LeftWithoutFailedWrites(h, front);
      var h' := RecordedAll(h, front);
      if r.entry.Some? && |h'.log| + 1 >= 100 {
        assert |Extended(h'.log, r)| == 100;
        assert forall i: nat :: i in Written(Extended(h'.log, r)) <==> i < 100;
      }
    }
  }

  /** The same over all runs, from any start and whatever writes and flushes fail. */
  lemma CurrentIffCovered(w: Window, h: History, reports: seq<Report>, keys: seq<string>, sorted: seq<string>)
    requires RepresentsHistory(w, h)
    requires var w' := Turns(w, reports); Lists(keys, w') && SortedKeys(keys, sorted)
    ensures var h' := RecordedAll(h, reports);
            && ((forall key | key in LastN(sorted, 2) :: Current(key, h'.log)) <==> AllCovered(h'))
            && (AllCovered(h') ==> LastN(sorted, 2) == Keys(LastN(Stored(h'.log), 2)))
  {
    StoreRefinesHistory(w, h, reports);
    ViewIsCurrent(Turns(w, reports), RecordedAll(h, reports), keys, sorted);
  }

  /** What keeps the reader from seeing old entries, if writes succeed: the flush at the latest counter
      reset; and before the first reset, that the counter has passed all that was there at the start. */
  predicate Fresh(h: History, reports: seq<Report>) {
    match LatestFlush(h.log, reports)
    case None => forall i | i in h.left :: i < |LoggedAll(h.log, reports)|
    case Some(flushed) => flushed
  }

  /** Over all runs whose writes succeed, from any start: the reader reads current entries only, and
      none from beyond the counter, exactly when this is so. */
  lemma CurrentIffLatestFlush(w: Window, h: History, reports: seq<Report>, keys: seq<string>, sorted: seq<string>)
    requires RepresentsHistory(w, h) && Full(h.log) && forall r | r in reports :: r.writes
    requires var w' := Turns(w, reports); Lists(keys, w') && SortedKeys(keys, sorted)
    ensures (forall key | key in LastN(sorted, 2) :: Current(key, LoggedAll(h.log, reports))) <==> Fresh(h, reports)
    ensures (forall key | key in LastN(sorted, 2) :: KeyIndex(key).value < Turns(w, reports).k) <==> Fresh(h, reports)
  {
    var w', h' := Turns(w, reports), RecordedAll(h, reports);
    StoreRefinesHistory(w, h, reports);
    LeftWithoutFailedWrites(h, reports);
    ViewIsCurrent(w', h', keys, sorted);
    ViewIsFresh(w', h', keys, sorted);
    hide Key, KeyIndex, LastN, Current;
    FullCovers(h');
    if LatestFlush(h.log, reports) == Some(false) {
      assert 99 in h'.left;
    }
  }

  lemma FullCovers(h: History)
    requires Full(h.log)
    ensures AllCovered(h) <==> forall i | i in h.left :: i < |h.log|
  {
    forall i | i in h.left
      ensures Covered(h.log, i) <==> i < |h.log|
    {
    }
  }

  /** The reader's keys lie below the counter exactly when all positions left behind do. */
  lemma ViewIsFresh(w: Window, h: History, keys: seq<string>, sorted: seq<string>)
    requires RepresentsHistory(w, h) && Lists(keys, w) && SortedKeys(keys, sorted)
    ensures forall key | key in LastN(sorted, 2) :: KeyIndex(key).Some?
    ensures (forall key | key in LastN(sorted, 2) :: KeyIndex(key).value < w.k) <==> (forall i | i in h.left :: i < w.k)
  {
    KeyRoundTripAll();
    hide Key, KeyIndex;
    var at := SortedPositions(w, h, keys, sorted);
    var n := |sorted|;
    assert |h.log| == w.k;
    hide RepresentsHistory, LastN;
    forall key | key in LastN(sorted, 2)
      ensures key in sorted
    {
      var j := AmongLast(sorted, key);
    }
    forall j | 0 <= j < n
      ensures KeyIndex(sorted[j]) == Some(at[j])
      ensures at[j] in at && InStore(h, at[j])
    {
      assert sorted[j] == Key(at[j]);
    }
    if n > 0 {
      LastAreAmong(sorted, n - 1);
    }
    forall i | i in h.left
      ensures n > 0 && i <= at[n - 1]
    {
      assert InStore(h, i);
      var j :| 0 <= j < n && at[j] == i;
    }
  }

  lemma {:induction false} OldEntryStays(w: Window, reports: seq<Report>)
    requires w.k == 0 && Key(99) in w.store && |reports| < 100
    ensures var w' := Turns(w, reports);
            w'.k <= |reports| && Key(99) in w'.store && w'.store[Key(99)] == w.store[Key(99)]
  {
    KeyRoundTripAll();
    hide Key, KeyIndex;
    if reports == [] {
    } else {
      OldEntryStays(w, reports[..|reports| - 1]);
    }
  }

  /** An entry 99 that is there when the counter is 0 spoils the view: during all of the next 99
      reports, whatever they are and in whatever order keys are listed, it is the newest entry the
      reader sees. */
  lemma {:induction false} OldEntryIsNewest(w: Window, h: History, reports: seq<Report>,
                                            keys: seq<string>, sorted: seq<string>)
    requires RepresentsHistory(w, h) && w.k == 0 && Key(99) in w.store && |reports| < 100
    requires var w' := Turns(w, reports); Lists(keys, w') && SortedKeys(keys, sorted)
    ensures var w' := Turns(w, reports);
            && sorted != [] && sorted[|sorted| - 1] == Key(99)
            && Key(99) in w'.store && w'.store[Key(99)] == w.store[Key(99)]
            && w'.k <= 99
  {
    OldEntryStays(w, reports);
    StoreRefinesHistory(w, h, reports);
    hide Key, KeyIndex, RepresentsHistory, Lists, SortedKeys;
    NewestIs99(Turns(w, reports), RecordedAll(h, reports), keys, sorted);
  }

  lemma NewestIs99(w': Window, h': History, keys: seq<string>, sorted: seq<string>)
    requires RepresentsHistory(w', h') && Lists(keys, w') && SortedKeys(keys, sorted)
    requires Key(99) in w'.store && w'.k <= 99
    ensures sorted != [] && sorted[|sorted| - 1] == Key(99)
  {
    KeyRoundTripAll();
    hide Key, KeyIndex;
    SortedHasSameKeys(keys, sorted);
    var at := SortedPositions(w', h', keys, sorted);
    assert Key(99) in sorted;
    var j :| 0 <= j < |sorted| && sorted[j] == Key(99);
    assert KeyIndex(sorted[j]) == Some(at[j]);
    var n := |sorted|;
    assert at[n - 1] in at && InStore(h', at[n - 1]);
  }

  /** So does a flush that fails, with the entry written just before it. */
  lemma {:induction false} FailedFlushLeavesStaleView(w: Window, h: History, last: Report, reports: seq<Report>,
                                                      keys: seq<string>, sorted: seq<string>)
    requires RepresentsHistory(w, h) && w.k == 99 && last.entry.Some? && last.writes && !last.flushes
    requires |reports| < 100
    requires var w' := Turns(Turn(w, last), reports); Lists(keys, w') && SortedKeys(keys, sorted)
    ensures var w' := Turns(Turn(w, last), reports);
            && sorted != [] && sorted[|sorted| - 1] == Key(99)
            && Key(99) in w'.store && w'.store[Key(99)] == last.entry.value
            && w'.k <= 99
  {
    TurnRefinesHistory(w, h, last);
    OldEntryIsNewest(Turn(w, last), Recorded(h, last), reports, keys, sorted);
  }

  /** And so does a restart: over a namespace that holds an entry 99, the reader still sees it after a
      report that was written, although nothing has failed. */
  lemma RestartLeavesStaleView(earlier: string, entry: string) returns (keys: seq<string>, sorted: seq<string>)
    ensures var w, report := Window(map[Key(99) := earlier], 0), Report(Some(entry), true, true);
            var w' := Turns(w, [report]);
            && RepresentsHistory(w, History({99}, []))
            && Lists(keys, w') && SortedKeys(keys, sorted)
            && LastN(sorted, 2) == [Key(0), Key(99)]
            && w'.store == map[Key(99) := earlier, Key(0) := entry]
            && !Current(Key(99), LoggedAll([], [report]))
  {
    var w, report := Window(map[Key(99) := earlier], 0), Report(Some(entry), true, true);
    keys := [Key(0), Key(99)];
    sorted := keys;
    KeyRoundTrip(0);
    KeyRoundTrip(99);
    OneReport(w, [], report);
    OneLeft(earlier);
    TwoKeys(Key(0), Key(99), Turn(w, report));
    OnlyFirst(Some(entry));
    hide Key, KeyIndex, RepresentsHistory, Current, Lists, SortedKeys, Turns, LoggedAll;
  }

  lemma OneLeft(earlier: string)
    ensures RepresentsHistory(Window(map[Key(99) := earlier], 0), History({99}, []))
  {
    hide Key;
    assert InStore(History({99}, []), 99);
  }

  lemma TwoKeys(x: string, y: string, w: Window)
    requires KeyIndex(x) == Some(0) && KeyIndex(y) == Some(99) && "kpm_" <= x && "kpm_" <= y
    requires forall key :: key in w.store <==> key == x || key == y
    ensures Lists([x, y], w) && SortedKeys([x, y], [x, y])
  {
    hide KeyIndex;
  }

  lemma OnlyFirst(entry: Option<string>)
    ensures !Current(Key(99), [entry])
  {
    KeyRoundTripAll();
    hide Key, KeyIndex;
    forall i: nat | Logs([entry], i)
      ensures Key(99) != Key(i)
    {
      assert KeyIndex(Key(99)) == Some(99) && KeyIndex(Key(i)) == Some(i);
    }
  }

  lemma OneReport(w: Window, log: Log, r: Report)
    ensures Turns(w, [r]) == Turn(w, r) && LoggedAll(log, [r]) == Logged(log, r)
  {
    var none: seq<Report> := [];
    assert [r][..0] == none;
    assert Turns(w, none) == w && LoggedAll(log, none) == log;
  }
}
