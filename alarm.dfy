/*
 * A console alarm clock: a list of (time, message) alarms, an HH:MM
 * validator, adding and removing alarms, and the polling loop that rings
 * every alarm whose time is the current minute, each at most once per run.
 *
 * Console input becomes parameters (the lines typed, the number chosen),
 * the clock becomes the sequence of HH:MM readings the loop sees, and the
 * printed messages are left out.
 */
module Alarm {

  import opened Wrappers

  /** What a call that may raise returns: a value, or the exception it raises. */
  datatype Checked<T> = Returns(value: T) | Raises

  datatype AlarmEntry = AlarmEntry(time: string, message: string)

  // ---------------------------------------------------------------------
  // Characters and strings
  // ---------------------------------------------------------------------

  /** ASCII decimal digit. */
  predicate IsDigit(c: char)
  {
    '0' <= c <= '9'
  }

  /** A non-empty run of ASCII digits, as the digit test of a string requires. */
  predicate IsDigits(s: string)
  {
    |s| > 0 && forall i :: 0 <= i < |s| ==> IsDigit(s[i])
  }

  /** The decimal value of a run of digits, as integer conversion gives it. */
  function DigitsValue(s: string): (n: nat)
    requires forall i :: 0 <= i < |s| ==> IsDigit(s[i])
    ensures |s| == 1 ==> n == s[0] as int - '0' as int && n < 10
    ensures |s| == 2 ==> n == 10 * (s[0] as int - '0' as int) + (s[1] as int - '0' as int) && n < 100
    decreases |s|
  {
    if s == [] then 0
    else
      assert IsDigit(s[|s| - 1]);
      10 * DigitsValue(s[..|s| - 1]) + (s[|s| - 1] as int - '0' as int)
  }

  /** ASCII whitespace: space, tab, line feed, vertical tab, form feed, carriage return, and the separators 0x1C-0x1F. */
  predicate IsSpace(c: char)
  {
    c == ' ' || 9 <= c as int <= 13 || 28 <= c as int <= 31
  }

  function TrimStart(s: string): (t: string)
    ensures |t| <= |s| && t == s[|s| - |t|..]
    ensures t != [] ==> !IsSpace(t[0])
    ensures forall i :: 0 <= i < |s| - |t| ==> IsSpace(s[i])
    decreases |s|
  {
    if s != [] && IsSpace(s[0]) then TrimStart(s[1..]) else s
  }

  function TrimEnd(s: string): (t: string)
    ensures |t| <= |s| && t == s[..|t|]
    ensures t != [] ==> !IsSpace(t[|t| - 1])
    ensures forall i :: |t| <= i < |s| ==> IsSpace(s[i])
    decreases |s|
  {
    if s != [] && IsSpace(s[|s| - 1]) then TrimEnd(s[..|s| - 1]) else s
  }

  /** The string without its leading and trailing whitespace. */
  function Strip(s: string): (t: string)
    ensures |t| <= |s|
    ensures t != [] ==> !IsSpace(t[0]) && !IsSpace(t[|t| - 1])
  {
    TrimEnd(TrimStart(s))
  }

  /** A string that neither starts nor ends with whitespace strips to itself. */
  lemma StripKeepsTrimmed(s: string)
    requires s != [] ==> !IsSpace(s[0]) && !IsSpace(s[|s| - 1])
    ensures Strip(s) == s
  {
  }

  /** Stripping twice is stripping once. */
  lemma StripIdempotent(s: string)
    ensures Strip(Strip(s)) == Strip(s)
  {
    StripKeepsTrimmed(Strip(s));
  }

  /** How many times `c` occurs in `s`. */
  function CountChar(s: string, c: char): nat
  {
    multiset(s)[c]
  }

  /** The pieces of `s` between occurrences of `sep`, empty pieces included. */
  function Split(s: string, sep: char): (parts: seq<string>)
    ensures |parts| == CountChar(s, sep) + 1
    ensures forall i :: 0 <= i < |parts| ==> sep !in parts[i]
    decreases |s|
  {
    if s == [] then [""]
    else
      assert s == [s[0]] + s[1..];
      var rest := Split(s[1..], sep);
      if s[0] == sep then [""] + rest
      else [[s[0]] + rest[0]] + rest[1..]
  }

  /** The pieces joined back together with `sep` between each two. */
  function Join(parts: seq<string>, sep: char): string
  {
    if parts == [] then ""
    else if |parts| == 1 then parts[0]
    else parts[0] + [sep] + Join(parts[1..], sep)
  }

  /** Joining the pieces of a split with the same separator gives back the string. */
  lemma {:induction false} JoinSplit(s: string, sep: char)
    ensures Join(Split(s, sep), sep) == s
    decreases |s|
  {
    if s != [] {
      var rest := Split(s[1..], sep);
      JoinSplit(s[1..], sep);
      if s[0] == sep {
        assert Split(s, sep) == [""] + rest;
        JoinEmptyFirst(rest, sep);
      } else {
        assert Split(s, sep) == [[s[0]] + rest[0]] + rest[1..];
        JoinExtendFirst(s[0], rest, sep);
      }
      assert s == [s[0]] + s[1..];
    }
  }

  /** An empty first piece contributes only the separator after it. */
  lemma JoinEmptyFirst(parts: seq<string>, sep: char)
    requires |parts| >= 1
    ensures Join([""] + parts, sep) == [sep] + Join(parts, sep)
  {
    assert ([""] + parts)[1..] == parts;
  }

  /** A character put in front of the first piece comes first in the join. */
  lemma JoinExtendFirst(c: char, parts: seq<string>, sep: char)
    requires |parts| >= 1
    ensures Join([[c] + parts[0]] + parts[1..], sep) == [c] + Join(parts, sep)
  {
    var longer := [[c] + parts[0]] + parts[1..];
    if |parts| > 1 {
      assert longer[1..] == parts[1..];
      assert Join(longer, sep) == ([c] + parts[0]) + [sep] + Join(parts[1..], sep);
    }
  }

  /** A string without the separator splits into itself alone. */
  lemma {:induction false} SplitWithoutSep(s: string, sep: char)
    requires sep !in s
    ensures Split(s, sep) == [s]
  {
    var parts := Split(s, sep);
    assert multiset(s)[sep] == 0;
    assert |parts| == 1;
    JoinSplit(s, sep);
  }

  /** A string with exactly one separator, at index k, splits into what lies before and after it. */
  lemma SplitAtOnlySep(s: string, sep: char, k: nat)
    requires k < |s| && s[k] == sep && CountChar(s, sep) == 1
    ensures Split(s, sep) == [s[..k], s[k + 1..]]
  {
    assert s == s[..k] + [sep] + s[k + 1..];
    assert multiset(s) == multiset(s[..k]) + multiset{sep} + multiset(s[k + 1..]);
    assert multiset(s[..k])[sep] == 0 && multiset(s[k + 1..])[sep] == 0;
    SplitAtFirstSep(s, sep, k);
    SplitWithoutSep(s[k + 1..], sep);
  }

  /** Splitting at the first separator, at index k: the piece before it, then the split of the rest. */
  lemma {:induction false} SplitAtFirstSep(s: string, sep: char, k: nat)
    requires k < |s| && s[k] == sep && sep !in s[..k]
    ensures Split(s, sep) == [s[..k]] + Split(s[k + 1..], sep)
    decreases k
  {
    if k > 0 {
      assert s[0] == s[..k][0];
      var t := s[1..];
      assert t[..k - 1] == s[1..k];
      assert t[k..] == s[k + 1..];
      SplitAtFirstSep(t, sep, k - 1);
      assert s[..k] == [s[0]] + t[..k - 1];
    }
  }

  // ---------------------------------------------------------------------
  // Validating HH:MM
  // ---------------------------------------------------------------------

  /**
   * The HH:MM check. Five characters with ':' at index 2 are split at every
   * ':' and unpacked into exactly two pieces, which raises when there is a
   * second ':'; both pieces must be digit runs, hours at most 23 and minutes
   * at most 59.
   */
  function ValidateTime(s: string): (r: Checked<bool>)
    ensures r.Returns? && r.value ==> |s| == 5 && s[2] == ':'
  {
    if |s| != 5 || s[2] != ':' then Returns(false)
    else
      var parts := Split(s, ':');
      if |parts| != 2 then Raises
      else
        var h, m := parts[0], parts[1];
        if !(IsDigits(h) && IsDigits(m)) then Returns(false)
        else
          var hours, minutes := DigitsValue(h), DigitsValue(m);
          Returns(0 <= hours <= 23 && 0 <= minutes <= 59)
  }

  /** The hour and minute digits of an accepted time. */
  predicate InRangeClock(s: string)
    requires |s| == 5
  {
    && IsDigits(s[..2]) && IsDigits(s[3..])
    && DigitsValue(s[..2]) <= 23 && DigitsValue(s[3..]) <= 59
  }

  /** Wrong length or no ':' at index 2: rejected without raising. */
  lemma RejectsWrongShape(s: string)
    requires |s| != 5 || s[2] != ':'
    ensures ValidateTime(s) == Returns(false)
  {
  }

  /** With ':' at index 2 and nowhere else, the time is accepted exactly when its two digit pairs are an hour and a minute. */
  lemma {:induction false} ValidateSingleColon(s: string)
    requires |s| == 5 && s[2] == ':' && ':' !in s[..2] && ':' !in s[3..]
    ensures ValidateTime(s) == Returns(InRangeClock(s))
  {
    assert s == s[..2] + [s[2]] + s[3..];
    assert CountChar(s, ':') == 1;
    SplitAtOnlySep(s, ':', 2);
  }

  /** An accepted time is five characters, two digits, ':', two digits, with hours 0..23 and minutes 0..59. */
  lemma {:induction false} AcceptedIsClockTime(s: string)
    requires ValidateTime(s) == Returns(true)
    ensures |s| == 5 && s[2] == ':' && InRangeClock(s)
  {
    assert |Split(s, ':')| == 2;
    SplitAtOnlySep(s, ':', 2);
  }

  /** A second ':' in a five-character string with ':' at index 2 makes the unpacking raise. */
  lemma {:induction false} SecondColonRaises(s: string, j: nat)
    requires |s| == 5 && s[2] == ':' && j < 5 && j != 2 && s[j] == ':'
    ensures ValidateTime(s) == Raises
  {
    if j < 2 {
      assert s == s[..j] + [s[j]] + s[j + 1..2] + [s[2]] + s[3..];
    } else {
      assert s == s[..2] + [s[2]] + s[3..j] + [s[j]] + s[j + 1..];
    }
    assert CountChar(s, ':') >= 2;
  }

  lemma AcceptsSevenThirty()
    ensures ValidateTime("07:30") == Returns(true)
  {
    var s := "07:30";
    assert s[..2] == "07" && s[3..] == "30";
    assert DigitsValue("07") == 7 by { assert "07"[..1] == "0"; }
    assert DigitsValue("30") == 30 by { assert "30"[..1] == "3"; }
    ValidateSingleColon(s);
  }

  lemma AcceptsLastMinute()
    ensures ValidateTime("23:59") == Returns(true)
  {
    var s := "23:59";
    assert s[..2] == "23" && s[3..] == "59";
    assert DigitsValue("23") == 23 by { assert "23"[..1] == "2"; }
    assert DigitsValue("59") == 59 by { assert "59"[..1] == "5"; }
    ValidateSingleColon(s);
  }

  lemma RejectsOutOfRangeHour()
    ensures ValidateTime("24:00") == Returns(false)
  {
    var s := "24:00";
    assert s[..2] == "24" && s[3..] == "00";
    assert DigitsValue("24") == 24 by { assert "24"[..1] == "2"; }
    ValidateSingleColon(s);
  }

  lemma RejectsNonDigits()
    ensures ValidateTime("ab:cd") == Returns(false)
  {
    var s := "ab:cd";
    assert s[..2] == "ab" && s[3..] == "cd";
    assert !IsDigit(s[0]);
    ValidateSingleColon(s);
  }

  lemma RaisesOnSecondColon()
    ensures ValidateTime("12:3:") == Raises
  {
    SecondColonRaises("12:3:", 4);
  }

  // ---------------------------------------------------------------------
  // The alarm list
  // ---------------------------------------------------------------------

  /** How reading time lines ended: the k-th line was accepted, the k-th raised, or the lines ran out. */
  datatype AddOutcome = Added(line: nat) | RaisedAt(line: nat) | InputEnded

  /**
   * The outcome of reading the given time lines, from line `from` on, one
   * after another until one passes validation.
   */
  function FirstAccepted(lines: seq<string>, from: nat := 0): (r: AddOutcome)
    requires from <= |lines|
    ensures r.Added? ==> from <= r.line < |lines| && ValidateTime(Strip(lines[r.line])) == Returns(true)
    ensures r.RaisedAt? ==> from <= r.line < |lines| && ValidateTime(Strip(lines[r.line])) == Raises
    ensures forall k :: from <= k < |lines| && (r.InputEnded? || k < r.line) ==>
              ValidateTime(Strip(lines[k])) == Returns(false)
    decreases |lines| - from
  {
    if from == |lines| then InputEnded
    else
      match ValidateTime(Strip(lines[from]))
      case Returns(true) => Added(from)
      case Raises => RaisedAt(from)
      case Returns(false) => FirstAccepted(lines, from + 1)
  }

  /** Every stored alarm time passes validation. */
  ghost predicate AllTimesValid(alarms: seq<AlarmEntry>)
  {
    forall i :: 0 <= i < |alarms| ==> ValidateTime(alarms[i].time) == Returns(true)
  }

  /** Storing an entry whose time passes validation keeps every stored time valid. */
  lemma AppendKeepsTimesValid(alarms: seq<AlarmEntry>, entry: AlarmEntry)
    requires AllTimesValid(alarms) && ValidateTime(entry.time) == Returns(true)
    ensures AllTimesValid(alarms + [entry])
  {
  }

  class AlarmClock {
    var alarms: seq<AlarmEntry>

    ghost predicate Valid()
      reads this
    {
      AllTimesValid(alarms)
    }

    constructor ()
      ensures alarms == [] && Valid()
    {
      alarms := [];
    }

    /**
     * Reads time lines until one, stripped, passes validation, then stores it
     * with the stripped message. A line on which validation raises ends the
     * call with the list unchanged, as does running out of lines.
     */
    method AddAlarm(lines: seq<string>, message: string) returns (outcome: AddOutcome)
      modifies this
      ensures outcome == FirstAccepted(lines)
      ensures outcome.Added? ==> alarms == old(alarms) + [AlarmEntry(Strip(lines[outcome.line]), Strip(message))]
      ensures !outcome.Added? ==> alarms == old(alarms)
      ensures old(Valid()) ==> Valid()
    {
      var i := 0;
      while i < |lines|
        invariant 0 <= i <= |lines|
        invariant FirstAccepted(lines) == FirstAccepted(lines, i)
        invariant alarms == old(alarms)
      {
        var alarmTime := Strip(lines[i]);
        var verdict := ValidateTime(alarmTime);
        if verdict == Raises {
          return RaisedAt(i);
        } else if verdict.value {
          var entry := AlarmEntry(alarmTime, Strip(message));
          if old(Valid()) {
            AppendKeepsTimesValid(alarms, entry);
          }
          alarms := alarms + [entry];
          return Added(i);
        }
        i := i + 1;
      }
      return InputEnded;
    }

    /**
     * Removes the alarm with the given 1-based number. Nothing happens when
     * the list is empty, when the number typed was not an integer (None), or
     * when it is out of range.
     */
    method RemoveAlarm(choice: Option<int>) returns (removed: Option<AlarmEntry>)
      modifies this
      ensures var n := |old(alarms)|;
        if choice.Some? && 1 <= choice.value <= n then
          && removed == Some(old(alarms)[choice.value - 1])
          && alarms == old(alarms)[..choice.value - 1] + old(alarms)[choice.value..]
        else
          removed == None && alarms == old(alarms)
      ensures old(Valid()) ==> Valid()
      ensures multiset(old(alarms)) == multiset(alarms) + (if removed.Some? then multiset{removed.value} else multiset{})
    {
      if alarms == [] {
        return None;
      }
      match choice
      case None =>
        removed := None;
      case Some(idx) =>
        if 1 <= idx <= |alarms| {
          var entry := alarms[idx - 1];
          assert alarms == alarms[..idx - 1] + [entry] + alarms[idx..];
          alarms := alarms[..idx - 1] + alarms[idx..];
          removed := Some(entry);
        } else {
          removed := None;
        }
    }
  }

  // ---------------------------------------------------------------------
  // Ringing
  // ---------------------------------------------------------------------

  /** Indices in ascending order without repeats. */
  predicate Ascending(s: seq<nat>)
  {
    forall i, j :: 0 <= i < j < |s| ==> s[i] < s[j]
  }

  /**
   * One pass over the alarms at clock reading `now`: rings, in list order,
   * every alarm set for `now` that has not rung yet, and records it.
   */
  method Tick(alarms: seq<AlarmEntry>, now: string, triggered: set<nat>)
    returns (rung: seq<nat>, triggeredAfter: set<nat>)
    ensures Ascending(rung)
    ensures forall i: nat :: i in rung <==> i < |alarms| && alarms[i].time == now && i !in triggered
    ensures forall i: nat :: i in triggeredAfter <==> i in triggered || i in rung
  {
    rung, triggeredAfter := [], triggered;
    var i := 0;
    while i < |alarms|
      invariant 0 <= i <= |alarms|
      invariant Ascending(rung)
      invariant forall j :: 0 <= j < |rung| ==> rung[j] < i
      invariant forall k: nat :: k in rung <==> k < i && alarms[k].time == now && k !in triggered
      invariant forall k: nat :: k in triggeredAfter <==> k in triggered || k in rung
    {
      if alarms[i].time == now && i !in triggeredAfter {
        rung := rung + [i];
        triggeredAfter := triggeredAfter + {i};
      }
      i := i + 1;
    }
  }

  /**
   * The polling loop over the clock readings it sees, one tick per reading.
   * An empty alarm list returns at once. Every alarm rings at the first
   * reading equal to its time and never again.
   */
  method RunAlarmLoop(alarms: seq<AlarmEntry>, readings: seq<string>)
    returns (rings: seq<seq<nat>>, triggered: set<nat>)
    ensures |rings| == if alarms == [] then 0 else |readings|
    ensures alarms == [] ==> triggered == {}
    ensures forall t, j :: 0 <= t < |rings| && 0 <= j < |rings[t]| ==>
              rings[t][j] < |alarms| && alarms[rings[t][j]].time == readings[t]
    ensures forall t, u, j :: 0 <= t < u < |rings| && 0 <= j < |rings[t]| ==> rings[t][j] !in rings[u]
    ensures forall t, i :: 0 <= t < |rings| && 0 <= i < |alarms| ==>
              (i in rings[t] <==> alarms[i].time == readings[t] && alarms[i].time !in readings[..t])
    ensures forall i: nat :: i in triggered <==> i < |alarms| && alarms[i].time in readings[..|rings|]
  {
    rings, triggered := [], {};
    if alarms == [] {
      return;
    }
    var t := 0;
    while t < |readings|
      invariant 0 <= t <= |readings| && |rings| == t
      invariant forall u, j :: 0 <= u < t && 0 <= j < |rings[u]| ==>
                  rings[u][j] < |alarms| && alarms[rings[u][j]].time == readings[u]
      invariant forall u, v, j :: 0 <= u < v < t && 0 <= j < |rings[u]| ==> rings[u][j] !in rings[v]
      invariant forall u, j :: 0 <= u < t && 0 <= j < |rings[u]| ==> rings[u][j] in triggered
      invariant forall u, i :: 0 <= u < t && 0 <= i < |alarms| ==>
                  (i in rings[u] <==> alarms[i].time == readings[u] && alarms[i].time !in readings[..u])
      invariant forall i: nat :: i in triggered <==> i < |alarms| && alarms[i].time in readings[..t]
    {
      var rung, after := Tick(alarms, readings[t], triggered);
      assert readings[..t + 1] == readings[..t] + [readings[t]];
      assert forall j :: 0 <= j < |rung| ==> rung[j] in rung;
      rings := rings + [rung];
      triggered := after;
      t := t + 1;
    }
  }
}
