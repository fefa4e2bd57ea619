/** Writing timed text subtitles as SubRip (SRT): the timestamp format
    (`srt_duration_display`) and the sweep over add/remove events that turns
    possibly overlapping subtitles into numbered, non-overlapping cues
    (`subtitles_to_srt`). */
module Srt {
  import opened Results
  import opened Times

  // ---------------------------------------------------------------------------
  // Decimal digits

  predicate IsDigit(c: char) {
    '0' <= c <= '9'
  }

  predicate AllDigits(s: string) {
    forall i :: 0 <= i < |s| ==> IsDigit(s[i])
  }

  function DigitChar(d: nat): (c: char)
    requires d < 10
    ensures IsDigit(c)
  {
    ('0' as int + d) as char
  }

  function DigitValue(c: char): (d: nat)
    ensures d < 10
  {
    if IsDigit(c) then c as int - '0' as int else 0
  }

  lemma DigitValueOfChar(d: nat)
    requires d < 10
    ensures DigitValue(DigitChar(d)) == d
  {
  }

  /** The decimal representation of n with no leading zeros (`{n}`). */
  function Digits(n: nat): (s: string)
    ensures |s| >= 1 && AllDigits(s)
    decreases n
  {
    if n < 10 then [DigitChar(n)] else Digits(n / 10) + [DigitChar(n % 10)]
  }

  /** The number a string of decimal digits denotes. */
  function Value(s: string): nat {
    if |s| == 0 then 0 else Value(s[..|s| - 1]) * 10 + DigitValue(s[|s| - 1])
  }

  lemma {:induction false} ValueOfDigits(n: nat)
    ensures Value(Digits(n)) == n
    decreases n
  {
    if n >= 10 {
      var init := Digits(n / 10);
      var s := init + [DigitChar(n % 10)];
      assert s[..|s| - 1] == init;
      ValueOfDigits(n / 10);
      DigitValueOfChar(n % 10);
    } else {
      DigitValueOfChar(n);
    }
  }

  function Zeros(k: nat): (s: string)
    ensures |s| == k && AllDigits(s)
  {
    if k == 0 then [] else ['0'] + Zeros(k - 1)
  }

  /** A leading zero does not change a decimal value. */
  lemma {:induction false} ValueLeadingZero(s: string)
    ensures Value(['0'] + s) == Value(s)
    decreases |s|
  {
    if |s| > 0 {
      var init := s[..|s| - 1];
      assert (['0'] + s)[..|s|] == ['0'] + init;
      ValueLeadingZero(init);
    }
  }

  lemma {:induction false} ValueLeadingZeros(k: nat, s: string)
    ensures Value(Zeros(k) + s) == Value(s)
    decreases k
  {
    if k > 0 {
      assert Zeros(k) + s == ['0'] + (Zeros(k - 1) + s);
      ValueLeadingZero(Zeros(k - 1) + s);
      ValueLeadingZeros(k - 1, s);
    } else {
      assert Zeros(0) + s == s;
    }
  }

  /** `{n:0w}`: the decimal digits of n, zero-filled on the left to at least
      `width` characters. */
  function Pad(n: nat, width: nat): (s: string)
    ensures AllDigits(s)
    ensures |s| == if |Digits(n)| >= width then |Digits(n)| else width
    ensures Value(s) == n
  {
    var ds := Digits(n);
    ValueOfDigits(n);
    if |ds| >= width then ds
    else
      ValueLeadingZeros(width - |ds|, ds);
      Zeros(width - |ds|) + ds
  }

  function Pow10(k: nat): (p: nat)
    ensures p >= 1
  {
    if k == 0 then 1 else 10 * Pow10(k - 1)
  }

  /** A number below 10^k has at most k digits. */
  lemma {:induction false} DigitsFit(n: nat, k: nat)
    requires k >= 1 && n < Pow10(k)
    ensures |Digits(n)| <= k
    decreases k
  {
    if n >= 10 {
      DigitsFit(n / 10, k - 1);
    }
  }

  // ---------------------------------------------------------------------------
  // SRT timestamps

  /** A duration split the way an SRT timestamp shows it. */
  datatype Timestamp = Timestamp(hours: nat, minutes: nat, seconds: nat, millis: nat)

  /** The split `srt_duration_display` computes: whole hours, then minutes and
      seconds within the hour and the minute, then whole milliseconds. */
  function Split(d: Duration): (t: Timestamp)
    ensures t.minutes < 60 && t.seconds < 60 && t.millis < 1000
    ensures t.hours * 3600 + t.minutes * 60 + t.seconds == AsSecs(d)
    ensures t.millis == SubsecMillis(d)
  {
    var secs := AsSecs(d);
    HoursMinutesSeconds(secs);
    Timestamp(secs / 3600, (secs / 60) % 60, secs % 60, SubsecMillis(d))
  }

  /** Whole hours, minutes within the hour and seconds within the minute add
      back up to the seconds they were taken from. */
  lemma HoursMinutesSeconds(secs: nat)
    ensures secs / 3600 * 3600 + (secs / 60) % 60 * 60 + secs % 60 == secs
  {
    var mins := secs / 60;
    assert secs == mins * 60 + secs % 60;
    assert mins == mins / 60 * 60 + mins % 60;
    assert mins / 60 == secs / 3600;
    assert mins * 60 == mins / 60 * 3600 + mins % 60 * 60;
  }

  /** `HH:MM:SS,mmm`; the hours take more than two digits when they need them.
      Reading the text back gives the split it was printed from, so the
      format loses nothing, whatever the number of hours. */
  function Display(d: Duration): (s: string)
    ensures |s| >= 12
    ensures s[..|s| - 10] == Pad(Split(d).hours, 2)
    ensures ParseDisplay(s) == Some(Split(d))
  {
    var t := Split(d);
    DigitsFit(t.minutes, 2);
    DigitsFit(t.seconds, 2);
    DigitsFit(t.millis, 3);
    var hh, mm, ss, ms := Pad(t.hours, 2), Pad(t.minutes, 2), Pad(t.seconds, 2), Pad(t.millis, 3);
    Layout(hh, mm, ss, ms);
    hh + ":" + mm + ":" + ss + "," + ms
  }

  /** Reading a timestamp back: everything before the last ten characters
      is the hours, then `:MM:SS,mmm`. */
  function ParseDisplay(s: string): (r: Option<Timestamp>)
    ensures r.Some? ==> r.value.minutes < 100 && r.value.seconds < 100 && r.value.millis < 1000
  {
    if |s| < 12 then None
    else
      var n := |s| - 10;
      var hh, mm, ss, ms := s[..n], s[n + 1..n + 3], s[n + 4..n + 6], s[n + 7..];
      if s[n] == ':' && s[n + 3] == ':' && s[n + 6] == ',' &&
         AllDigits(hh) && AllDigits(mm) && AllDigits(ss) && AllDigits(ms)
      then
        ValueBound(mm);
        ValueBound(ss);
        ValueBound(ms);
        Some(Timestamp(Value(hh), Value(mm), Value(ss), Value(ms)))
      else None
  }

  lemma {:induction false} ValueBound(s: string)
    ensures Value(s) < Pow10(|s|)
    decreases |s|
  {
    if |s| > 0 {
      ValueBound(s[..|s| - 1]);
    }
  }

  /** Where the fields of `HH:MM:SS,mmm` sit. */
  lemma Layout(hh: string, mm: string, ss: string, ms: string)
    requires |mm| == 2 && |ss| == 2 && |ms| == 3
    ensures |hh + ":" + mm + ":" + ss + "," + ms| == |hh| + 10
    ensures (hh + ":" + mm + ":" + ss + "," + ms)[..|hh|] == hh
    ensures (hh + ":" + mm + ":" + ss + "," + ms)[|hh|] == ':'
    ensures (hh + ":" + mm + ":" + ss + "," + ms)[|hh| + 1..|hh| + 3] == mm
    ensures (hh + ":" + mm + ":" + ss + "," + ms)[|hh| + 3] == ':'
    ensures (hh + ":" + mm + ":" + ss + "," + ms)[|hh| + 4..|hh| + 6] == ss
    ensures (hh + ":" + mm + ":" + ss + "," + ms)[|hh| + 6] == ','
    ensures (hh + ":" + mm + ":" + ss + "," + ms)[|hh| + 7..] == ms
  {
    var s := hh + ":" + mm + ":" + ss + "," + ms;
    var n := |hh|;
    assert s[..n] == hh;
    assert s[n + 1..n + 3] == mm;
    assert s[n + 4..n + 6] == ss;
    assert s[n + 7..] == ms;
  }

  /** Distinct durations in different milliseconds display differently. */
  lemma DisplayInjective(d1: Duration, d2: Duration)
    requires d1 / NANOS_PER_MILLI != d2 / NANOS_PER_MILLI
    ensures Display(d1) != Display(d2)
  {
    SplitDeterminesMillis(d1);
    SplitDeterminesMillis(d2);
  }

  /** The split is the duration counted in whole milliseconds. */
  lemma SplitDeterminesMillis(d: Duration)
    ensures var t := Split(d);
            (t.hours * 3600 + t.minutes * 60 + t.seconds) * 1000 + t.millis == d / NANOS_PER_MILLI
  {
  }

  // ---------------------------------------------------------------------------
  // `str::trim`

  /** `char::is_whitespace`: the Unicode White_Space property. */
  predicate IsWhitespace(c: char) {
    || '\t' <= c <= '\r'
    || c == ' '
    || c == '\U{0085}'
    || c == '\U{00A0}'
    || c == '\U{1680}'
    || '\U{2000}' <= c <= '\U{200A}'
    || c == '\U{2028}'
    || c == '\U{2029}'
    || c == '\U{202F}'
    || c == '\U{205F}'
    || c == '\U{3000}'
  }

  predicate Blank(s: string) {
    forall i :: 0 <= i < |s| ==> IsWhitespace(s[i])
  }

  /** `trim_start`: the suffix left after the leading whitespace. */
  function TrimStart(s: string): (r: string)
    ensures |r| <= |s| && r == s[|s| - |r|..]
    ensures forall i :: 0 <= i < |s| - |r| ==> IsWhitespace(s[i])
    ensures r == [] || !IsWhitespace(r[0])
    decreases |s|
  {
    if |s| > 0 && IsWhitespace(s[0]) then TrimStart(s[1..]) else s
  }

  /** `trim_end`: the prefix left before the trailing whitespace. */
  function TrimEnd(s: string): (r: string)
    ensures |r| <= |s| && r == s[..|r|]
    ensures forall i :: |r| <= i < |s| ==> IsWhitespace(s[i])
    ensures r == [] || !IsWhitespace(r[|r| - 1])
    decreases |s|
  {
    if |s| > 0 && IsWhitespace(s[|s| - 1]) then TrimEnd(s[..|s| - 1]) else s
  }

  /** `str::trim`: strip whitespace from both ends. */
  function Trim(s: string): (r: string)
    ensures |r| <= |s|
    ensures r == [] || (!IsWhitespace(r[0]) && !IsWhitespace(r[|r| - 1]))
    decreases |s|
  {
    if |s| > 0 && IsWhitespace(s[0]) then Trim(s[1..])
    else if |s| > 0 && IsWhitespace(s[|s| - 1]) then Trim(s[..|s| - 1])
    else s
  }

  /** Trimming leaves nothing exactly when the text is all whitespace. */
  lemma {:induction false} TrimEmpty(s: string)
    ensures Trim(s) == [] <==> Blank(s)
    decreases |s|
  {
    if |s| > 0 && IsWhitespace(s[0]) {
      TrimEmpty(s[1..]);
      assert s == [s[0]] + s[1..];
      BlankConcat([s[0]], s[1..]);
    } else if |s| > 0 && IsWhitespace(s[|s| - 1]) {
      TrimEmpty(s[..|s| - 1]);
      assert s == s[..|s| - 1] + [s[|s| - 1]];
      BlankConcat(s[..|s| - 1], [s[|s| - 1]]);
    } else if |s| > 0 {
      assert !Blank(s);
    }
  }

  /** `trim` is `trim_start` followed by `trim_end`. */
  lemma {:induction false} TrimIsStartThenEnd(s: string)
    ensures Trim(s) == TrimEnd(TrimStart(s))
    decreases |s|
  {
    if |s| > 0 && IsWhitespace(s[0]) {
      TrimIsStartThenEnd(s[1..]);
    } else if |s| > 0 && IsWhitespace(s[|s| - 1]) {
      TrimIsStartThenEnd(s[..|s| - 1]);
      TrimEndOfDroppedLast(s);
    }
  }

  /** When s starts with a visible character and ends with whitespace,
      `trim_end` may drop that last character first. */
  lemma TrimEndOfDroppedLast(s: string)
    requires |s| > 0 && !IsWhitespace(s[0]) && IsWhitespace(s[|s| - 1])
    ensures TrimEnd(TrimStart(s[..|s| - 1])) == TrimEnd(TrimStart(s))
  {
    assert TrimStart(s) == s;
    assert TrimStart(s[..|s| - 1]) == s[..|s| - 1] by {
      if |s| > 1 {
        assert s[..|s| - 1][0] == s[0];
      }
    }
  }

  lemma BlankConcat(a: string, b: string)
    ensures Blank(a + b) <==> Blank(a) && Blank(b)
  {
    if Blank(a) && Blank(b) {
      forall i | 0 <= i < |a + b|
        ensures IsWhitespace((a + b)[i])
      {
        if i >= |a| {
          assert (a + b)[i] == b[i - |a|];
        }
      }
    }
    if Blank(a + b) {
      forall i | 0 <= i < |a|
        ensures IsWhitespace(a[i])
      {
        assert (a + b)[i] == a[i];
      }
      forall i | 0 <= i < |b|
        ensures IsWhitespace(b[i])
      {
        assert (a + b)[|a| + i] == b[i];
      }
    }
  }

  // ---------------------------------------------------------------------------
  // Subtitles and actions

  datatype TextSubtitle = TextSubtitle(range: TimeRange, text: string)

  datatype ActionKind = Add | Remove

  /** A subtitle, named by its index, appearing or disappearing at a time. */
  datatype Action = Action(kind: ActionKind, subtitle: nat, timestamp: Duration)

  /** Every action names one of the subtitles. */
  predicate NamesSubtitles(actions: seq<Action>, count: nat) {
    forall j :: 0 <= j < |actions| ==> actions[j].subtitle < count
  }

  /** One `Add` at the beginning and one `Remove` at the end of each
      subtitle, subtitle by subtitle. */
  function Actions(subs: seq<TextSubtitle>): (a: seq<Action>)
    ensures |a| == 2 * |subs|
    ensures forall i :: 0 <= i < |subs| ==> a[2 * i] == Action(Add, i, subs[i].range.begin)
    ensures forall i :: 0 <= i < |subs| ==> a[2 * i + 1] == Action(Remove, i, subs[i].range.end)
    ensures NamesSubtitles(a, |subs|)
  {
    if |subs| == 0 then []
    else
      var n := |subs| - 1;
      var init := Actions(subs[..n]);
      var a := init + [Action(Add, n, subs[n].range.begin), Action(Remove, n, subs[n].range.end)];
      assert forall i :: 0 <= i < n ==> a[2 * i] == init[2 * i] && a[2 * i + 1] == init[2 * i + 1];
      a
  }

  // ---------------------------------------------------------------------------
  // Stable sort by timestamp (`Vec::sort` under an order that compares
  // timestamps only)

  predicate Sorted(s: seq<Action>) {
    forall i, j :: 0 <= i < j < |s| ==> s[i].timestamp <= s[j].timestamp
  }

  /** Insert x after every element whose timestamp is not later than its own. */
  function Insert(s: seq<Action>, x: Action): (r: seq<Action>)
    ensures |r| == |s| + 1
    ensures multiset(r) == multiset(s) + multiset{x}
    decreases |s|
  {
    if |s| == 0 || s[|s| - 1].timestamp <= x.timestamp then s + [x]
    else
      var init := s[..|s| - 1];
      assert s == init + [s[|s| - 1]];
      Insert(init, x) + [s[|s| - 1]]
  }

  function SortByTime(s: seq<Action>): (r: seq<Action>)
    ensures |r| == |s|
    ensures multiset(r) == multiset(s)
    decreases |s|
  {
    if |s| == 0 then []
    else
      var init := s[..|s| - 1];
      assert s == init + [s[|s| - 1]];
      Insert(SortByTime(init), s[|s| - 1])
  }

  lemma {:induction false} InsertSorted(s: seq<Action>, x: Action)
    requires Sorted(s)
    ensures Sorted(Insert(s, x))
    decreases |s|
  {
    if |s| > 0 && s[|s| - 1].timestamp > x.timestamp {
      var init := s[..|s| - 1];
      var last := s[|s| - 1];
      InsertSorted(init, x);
      var front := Insert(init, x);
      forall k | 0 <= k < |front|
        ensures front[k].timestamp <= last.timestamp
      {
        assert front[k] in multiset(front);
        if front[k] != x {
          assert front[k] in multiset(init);
        }
      }
    }
  }

  lemma {:induction false} SortByTimeSorted(s: seq<Action>)
    ensures Sorted(SortByTime(s))
    decreases |s|
  {
    if |s| > 0 {
      SortByTimeSorted(s[..|s| - 1]);
      InsertSorted(SortByTime(s[..|s| - 1]), s[|s| - 1]);
    }
  }

  /** The actions with timestamp t, in their order. */
  function At(s: seq<Action>, t: Duration): seq<Action> {
    if |s| == 0 then []
    else At(s[..|s| - 1], t) + (if s[|s| - 1].timestamp == t then [s[|s| - 1]] else [])
  }

  lemma {:induction false} AtConcat(a: seq<Action>, b: seq<Action>, t: Duration)
    ensures At(a + b, t) == At(a, t) + At(b, t)
    decreases |b|
  {
    if |b| > 0 {
      assert (a + b)[..|a + b| - 1] == a + b[..|b| - 1];
      AtConcat(a, b[..|b| - 1], t);
    } else {
      assert a + b == a;
    }
  }

  lemma {:induction false} AtInsert(s: seq<Action>, x: Action, t: Duration)
    ensures At(Insert(s, x), t) == At(s, t) + At([x], t)
    decreases |s|
  {
    if |s| == 0 || s[|s| - 1].timestamp <= x.timestamp {
      AtConcat(s, [x], t);
    } else {
      var init := s[..|s| - 1];
      var last := s[|s| - 1];
      assert s == init + [last];
      assert Insert(s, x) == Insert(init, x) + [last];
      AtInsert(init, x, t);
      AtConcat(Insert(init, x), [last], t);
      AtConcat(init, [last], t);
      // `last` comes strictly after `x`, so at most one of them has time t.
      var ax := At([x], t);
      var al := At([last], t);
      assert ax == [] || al == [];
      assert (At(init, t) + ax) + al == (At(init, t) + al) + ax;
    }
  }

  /** Stability: actions with equal timestamps keep their relative order. */
  lemma {:induction false} SortByTimeStable(s: seq<Action>, t: Duration)
    ensures At(SortByTime(s), t) == At(s, t)
    decreases |s|
  {
    if |s| > 0 {
      var init := s[..|s| - 1];
      var last := s[|s| - 1];
      SortByTimeStable(init, t);
      assert SortByTime(s) == Insert(SortByTime(init), last);
      AtInsert(SortByTime(init), last, t);
      AtSingle(last, t);
      assert At(s, t) == At(init, t) + At([last], t);
    } else {
      assert SortByTime(s) == [];
    }
  }

  lemma AtSingle(x: Action, t: Duration)
    ensures At([x], t) == if x.timestamp == t then [x] else []
  {
    assert [x][..0] == [];
  }

  // ---------------------------------------------------------------------------
  // The on-screen list

  /** `retain(|&x| x != id)`: every occurrence of id goes, the rest keep their order. */
  function Retain(screen: seq<nat>, id: nat): (r: seq<nat>)
    ensures |r| <= |screen|
    ensures forall x :: x in r <==> x in screen && x != id
    decreases |screen|
  {
    if |screen| == 0 then []
    else
      var init := screen[..|screen| - 1];
      var last := screen[|screen| - 1];
      assert screen == init + [last];
      Retain(init, id) + (if last != id then [last] else [])
  }

  lemma {:induction false} RetainConcat(a: seq<nat>, b: seq<nat>, id: nat)
    ensures Retain(a + b, id) == Retain(a, id) + Retain(b, id)
    decreases |b|
  {
    if |b| > 0 {
      assert (a + b)[..|a + b| - 1] == a + b[..|b| - 1];
      RetainConcat(a, b[..|b| - 1], id);
    } else {
      assert a + b == a;
    }
  }

  /** One action applied to the on-screen list. */
  function Apply(screen: seq<nat>, a: Action): seq<nat> {
    match a.kind
    case Add => screen + [a.subtitle]
    case Remove => Retain(screen, a.subtitle)
  }

  /** Some action among positions lo .. hi - 1 removes subtitle id. */
  predicate RemovedIn(actions: seq<Action>, id: nat, lo: nat, hi: nat)
    requires hi <= |actions|
  {
    exists j :: lo <= j < hi && actions[j].kind == Remove && actions[j].subtitle == id
  }

  /** Reference for the list after the first k actions: among the first n
      actions, the subtitles added and not removed later within the first k,
      in the order they were added. */
  function SurvivorsUpTo(actions: seq<Action>, k: nat, n: nat): (r: seq<nat>)
    requires n <= k <= |actions|
    decreases n
  {
    if n == 0 then []
    else
      var a := actions[n - 1];
      SurvivorsUpTo(actions, k, n - 1)
      + (if a.kind == Add && !RemovedIn(actions, a.subtitle, n, k) then [a.subtitle] else [])
  }

  function Survivors(actions: seq<Action>, k: nat): seq<nat>
    requires k <= |actions|
  {
    SurvivorsUpTo(actions, k, k)
  }

  lemma {:induction false} SurvivorsUpToAdd(actions: seq<Action>, k: nat, n: nat)
    requires n <= k < |actions| && actions[k].kind == Add
    ensures SurvivorsUpTo(actions, k + 1, n) == SurvivorsUpTo(actions, k, n)
    decreases n
  {
    if n > 0 {
      SurvivorsUpToAdd(actions, k, n - 1);
      var id := actions[n - 1].subtitle;
      assert RemovedIn(actions, id, n, k + 1) <==> RemovedIn(actions, id, n, k);
    }
  }

  lemma {:induction false} SurvivorsUpToRemove(actions: seq<Action>, k: nat, n: nat)
    requires n <= k < |actions| && actions[k].kind == Remove
    ensures SurvivorsUpTo(actions, k + 1, n) == Retain(SurvivorsUpTo(actions, k, n), actions[k].subtitle)
    decreases n
  {
    var gone := actions[k].subtitle;
    if n > 0 {
      SurvivorsUpToRemove(actions, k, n - 1);
      var id := actions[n - 1].subtitle;
      assert RemovedIn(actions, id, n, k + 1) <==> RemovedIn(actions, id, n, k) || id == gone;
      var tail := if actions[n - 1].kind == Add && !RemovedIn(actions, id, n, k) then [id] else [];
      RetainConcat(SurvivorsUpTo(actions, k, n - 1), tail, gone);
    }
  }

  /** The sweep's list after k + 1 actions is the last action applied to its list after k. */
  lemma SurvivorsStep(actions: seq<Action>, k: nat)
    requires k < |actions|
    ensures Survivors(actions, k + 1) == Apply(Survivors(actions, k), actions[k])
  {
    var a := actions[k];
    assert !RemovedIn(actions, a.subtitle, k + 1, k + 1);
    if a.kind == Add {
      SurvivorsUpToAdd(actions, k, k);
    } else {
      SurvivorsUpToRemove(actions, k, k);
      assert Survivors(actions, k + 1) == SurvivorsUpTo(actions, k + 1, k) + [];
    }
  }

  lemma {:induction false} SurvivorsNameSubtitles(actions: seq<Action>, count: nat, k: nat, n: nat)
    requires n <= k <= |actions| && NamesSubtitles(actions, count)
    ensures forall t :: 0 <= t < |SurvivorsUpTo(actions, k, n)| ==> SurvivorsUpTo(actions, k, n)[t] < count
    decreases n
  {
    if n > 0 {
      SurvivorsNameSubtitles(actions, count, k, n - 1);
    }
  }

  /** The on-screen text: each on-screen subtitle's text followed by a line break. */
  function ScreenText(subs: seq<TextSubtitle>, screen: seq<nat>): string
    requires forall t :: 0 <= t < |screen| ==> screen[t] < |subs|
  {
    if |screen| == 0 then []
    else ScreenText(subs, screen[..|screen| - 1]) + subs[screen[|screen| - 1]].text + "\n"
  }

  /** The on-screen text is blank exactly when every on-screen subtitle's text is. */
  lemma {:induction false} ScreenTextBlank(subs: seq<TextSubtitle>, screen: seq<nat>)
    requires forall t :: 0 <= t < |screen| ==> screen[t] < |subs|
    ensures Blank(ScreenText(subs, screen)) <==> forall t :: 0 <= t < |screen| ==> Blank(subs[screen[t]].text)
    decreases |screen|
  {
    if |screen| > 0 {
      var n := |screen| - 1;
      var init := screen[..n];
      var front := ScreenText(subs, init);
      var text := subs[screen[n]].text;
      ScreenTextBlank(subs, init);
      BlankConcat(front, text);
      BlankConcat(front + text, "\n");
      assert ScreenText(subs, screen) == front + text + "\n";
      assert forall t :: 0 <= t < n ==> init[t] == screen[t];
    }
  }

  /** A cue is written exactly when some subtitle on screen has visible text. */
  lemma CaptionEmpty(subs: seq<TextSubtitle>, screen: seq<nat>)
    requires forall t :: 0 <= t < |screen| ==> screen[t] < |subs|
    ensures Trim(ScreenText(subs, screen)) == [] <==> forall t :: 0 <= t < |screen| ==> Blank(subs[screen[t]].text)
  {
    ScreenTextBlank(subs, screen);
    TrimEmpty(ScreenText(subs, screen));
  }

  // ---------------------------------------------------------------------------
  // Cues

  /** One SRT block: its number, its time range and its text. */
  datatype Cue = Cue(number: nat, range: TimeRange, text: string)

  /** A cue lasts until the next action, or forever after the last one. */
  function NextTimestamp(actions: seq<Action>, i: nat): Duration
    requires i < |actions|
  {
    if i + 1 < |actions| then actions[i + 1].timestamp else DURATION_MAX
  }

  /** The caption after action i: the trimmed text of the subtitles then on screen. */
  function CaptionAfter(subs: seq<TextSubtitle>, actions: seq<Action>, i: nat): string
    requires NamesSubtitles(actions, |subs|) && i < |actions|
  {
    SurvivorsNameSubtitles(actions, |subs|, i + 1, i + 1);
    Trim(ScreenText(subs, Survivors(actions, i + 1)))
  }

  /** The captions after each of the first n actions. */
  function Captions(subs: seq<TextSubtitle>, actions: seq<Action>, n: nat): (captions: seq<string>)
    requires NamesSubtitles(actions, |subs|) && n <= |actions|
    ensures |captions| == n
  {
    if n == 0 then [] else Captions(subs, actions, n - 1) + [CaptionAfter(subs, actions, n - 1)]
  }

  lemma {:induction false} CaptionsAt(subs: seq<TextSubtitle>, actions: seq<Action>, n: nat, i: nat)
    requires NamesSubtitles(actions, |subs|) && i < n <= |actions|
    ensures Captions(subs, actions, n)[i] == CaptionAfter(subs, actions, i)
    decreases n
  {
    if i < n - 1 {
      CaptionsAt(subs, actions, n - 1, i);
    }
  }

  /** The cues written for actions i onwards, numbered from `number`: one
      for every action after which the caption is not empty. */
  function CuesFrom(captions: seq<string>, actions: seq<Action>, i: nat, number: nat): (cues: seq<Cue>)
    requires |captions| == |actions| && i <= |actions|
    ensures |cues| <= |actions| - i
    decreases |actions| - i
  {
    if i == |actions| then []
    else if captions[i] == [] then CuesFrom(captions, actions, i + 1, number)
    else
      var cue := Cue(number, TimeRange(actions[i].timestamp, NextTimestamp(actions, i)), captions[i]);
      [cue] + CuesFrom(captions, actions, i + 1, number + 1)
  }

  /** The actions of `subtitles_to_srt`, in the order it sweeps them. */
  function SortedActions(subs: seq<TextSubtitle>): (actions: seq<Action>)
    ensures |actions| == 2 * |subs|
    ensures Sorted(actions) && NamesSubtitles(actions, |subs|)
    ensures multiset(actions) == multiset(Actions(subs))
  {
    SortByTimeSorted(Actions(subs));
    var actions := SortByTime(Actions(subs));
    forall j | 0 <= j < |actions|
      ensures actions[j].subtitle < |subs|
    {
      assert actions[j] in multiset(Actions(subs));
    }
    actions
  }

  /** The cues of a subtitle list. */
  function Cues(subs: seq<TextSubtitle>): (cues: seq<Cue>)
    ensures |cues| <= 2 * |subs|
  {
    var actions := SortedActions(subs);
    CuesFrom(Captions(subs, actions, |actions|), actions, 0, 1)
  }

  /** Cues numbered consecutively from `number`. */
  predicate Numbered(cues: seq<Cue>, number: nat) {
    forall k :: 0 <= k < |cues| ==> cues[k].number == number + k
  }

  /** A caption worth a cue: not empty, and starting and ending with a
      visible character. */
  predicate Visible(text: string) {
    text != [] && !IsWhitespace(text[0]) && !IsWhitespace(text[|text| - 1])
  }

  predicate AllVisible(cues: seq<Cue>) {
    forall k :: 0 <= k < |cues| ==> Visible(cues[k].text)
  }

  /** No cue ends before it begins. */
  predicate Ordered(cues: seq<Cue>) {
    forall k :: 0 <= k < |cues| ==> cues[k].range.begin <= cues[k].range.end
  }

  lemma {:induction false} CuesFromNumbered(captions: seq<string>, actions: seq<Action>, i: nat, number: nat)
    requires |captions| == |actions| && i <= |actions|
    ensures Numbered(CuesFrom(captions, actions, i, number), number)
    decreases |actions| - i
  {
    if i < |actions| {
      if captions[i] == [] {
        CuesFromNumbered(captions, actions, i + 1, number);
      } else {
        CuesFromNumbered(captions, actions, i + 1, number + 1);
        var rest := CuesFrom(captions, actions, i + 1, number + 1);
        var cues := CuesFrom(captions, actions, i, number);
        assert forall k :: 1 <= k < |cues| ==> cues[k] == rest[k - 1];
      }
    } else {
      assert CuesFrom(captions, actions, i, number) == [];
    }
  }

  /** Cues carry only visible captions. */
  lemma {:induction false} CuesFromVisible(captions: seq<string>, actions: seq<Action>, i: nat, number: nat)
    requires |captions| == |actions| && i <= |actions|
    requires forall j :: 0 <= j < |captions| ==> captions[j] == [] || Visible(captions[j])
    ensures AllVisible(CuesFrom(captions, actions, i, number))
    decreases |actions| - i
  {
    if i < |actions| {
      if captions[i] == [] {
        CuesFromVisible(captions, actions, i + 1, number);
      } else {
        CuesFromVisible(captions, actions, i + 1, number + 1);
        var rest := CuesFrom(captions, actions, i + 1, number + 1);
        var cues := CuesFrom(captions, actions, i, number);
        assert forall k :: 1 <= k < |cues| ==> cues[k] == rest[k - 1];
      }
    } else {
      assert CuesFrom(captions, actions, i, number) == [];
    }
  }

  /** Over sorted actions, no cue ends before it begins. */
  lemma {:induction false} CuesFromOrdered(captions: seq<string>, actions: seq<Action>, i: nat, number: nat)
    requires |captions| == |actions| && i <= |actions| && Sorted(actions)
    ensures Ordered(CuesFrom(captions, actions, i, number))
    decreases |actions| - i
  {
    if i < |actions| {
      if captions[i] == [] {
        CuesFromOrdered(captions, actions, i + 1, number);
      } else {
        CuesFromOrdered(captions, actions, i + 1, number + 1);
        var rest := CuesFrom(captions, actions, i + 1, number + 1);
        var cues := CuesFrom(captions, actions, i, number);
        assert forall k :: 1 <= k < |cues| ==> cues[k] == rest[k - 1];
      }
    } else {
      assert CuesFrom(captions, actions, i, number) == [];
    }
  }

  /** Consecutive cues do not overlap. */
  predicate Disjoint(cues: seq<Cue>) {
    forall k :: 0 <= k < |cues| - 1 ==> cues[k].range.end <= cues[k + 1].range.begin
  }

  /** Over sorted actions, cues written from action i on begin no earlier than it. */
  lemma {:induction false} CuesFromLate(captions: seq<string>, actions: seq<Action>, i: nat, number: nat)
    requires |captions| == |actions| && i < |actions| && Sorted(actions)
    ensures forall k :: 0 <= k < |CuesFrom(captions, actions, i, number)| ==>
              actions[i].timestamp <= CuesFrom(captions, actions, i, number)[k].range.begin
    decreases |actions| - i
  {
    var cues := CuesFrom(captions, actions, i, number);
    if i + 1 < |actions| {
      if captions[i] == [] {
        CuesFromLate(captions, actions, i + 1, number);
      } else {
        CuesFromLate(captions, actions, i + 1, number + 1);
        var rest := CuesFrom(captions, actions, i + 1, number + 1);
        assert forall k :: 1 <= k < |cues| ==> cues[k] == rest[k - 1];
      }
    } else {
      assert CuesFrom(captions, actions, i + 1, number) == [];
      assert CuesFrom(captions, actions, i + 1, number + 1) == [];
    }
  }

  /** Over sorted actions, each cue ends no later than the next one begins. */
  lemma {:induction false} CuesFromDisjoint(captions: seq<string>, actions: seq<Action>, i: nat, number: nat)
    requires |captions| == |actions| && i <= |actions| && Sorted(actions)
    ensures Disjoint(CuesFrom(captions, actions, i, number))
    decreases |actions| - i
  {
    if i < |actions| {
      if captions[i] == [] {
        CuesFromDisjoint(captions, actions, i + 1, number);
      } else {
        CuesFromDisjoint(captions, actions, i + 1, number + 1);
        var rest := CuesFrom(captions, actions, i + 1, number + 1);
        var cues := CuesFrom(captions, actions, i, number);
        assert forall k :: 1 <= k < |cues| ==> cues[k] == rest[k - 1];
        if i + 1 < |actions| {
          CuesFromLate(captions, actions, i + 1, number + 1);
        } else {
          assert rest == [];
        }
      }
    } else {
      assert CuesFrom(captions, actions, i, number) == [];
    }
  }

  /** Every caption is empty or visible. */
  lemma CaptionsVisible(subs: seq<TextSubtitle>, actions: seq<Action>)
    requires NamesSubtitles(actions, |subs|)
    ensures forall j :: 0 <= j < |actions| ==>
              Captions(subs, actions, |actions|)[j] == [] || Visible(Captions(subs, actions, |actions|)[j])
  {
    forall j | 0 <= j < |actions|
      ensures Captions(subs, actions, |actions|)[j] == [] || Visible(Captions(subs, actions, |actions|)[j])
    {
      CaptionsAt(subs, actions, |actions|, j);
      CaptionVisible(subs, actions, j);
    }
  }

  lemma CaptionVisible(subs: seq<TextSubtitle>, actions: seq<Action>, i: nat)
    requires NamesSubtitles(actions, |subs|) && i < |actions|
    ensures CaptionAfter(subs, actions, i) == [] || Visible(CaptionAfter(subs, actions, i))
  {
  }

  /** The cues of a subtitle list are numbered from 1, their texts are
      visible, each ends no earlier than it begins and no later than the
      next one begins. */
  lemma CuesWellFormed(subs: seq<TextSubtitle>)
    ensures Numbered(Cues(subs), 1) && AllVisible(Cues(subs))
    ensures Ordered(Cues(subs)) && Disjoint(Cues(subs))
  {
    var actions := SortedActions(subs);
    var captions := Captions(subs, actions, |actions|);
    assert Cues(subs) == CuesFrom(captions, actions, 0, 1);
    CuesFromNumbered(captions, actions, 0, 1);
    CaptionsVisible(subs, actions);
    CuesFromVisible(captions, actions, 0, 1);
    CuesFromOrdered(captions, actions, 0, 1);
    CuesFromDisjoint(captions, actions, 0, 1);
  }

  /** One action's worth of output: a block when its caption is not empty. */
  lemma RenderCuesFrom(captions: seq<string>, actions: seq<Action>, i: nat, number: nat)
    requires |captions| == |actions| && i < |actions|
    ensures Render(CuesFrom(captions, actions, i, number)) ==
            if captions[i] == [] then Render(CuesFrom(captions, actions, i + 1, number))
            else Block(Cue(number, TimeRange(actions[i].timestamp, NextTimestamp(actions, i)), captions[i]))
                 + Render(CuesFrom(captions, actions, i + 1, number + 1))
  {
    if captions[i] != [] {
      var cue := Cue(number, TimeRange(actions[i].timestamp, NextTimestamp(actions, i)), captions[i]);
      RenderCons(cue, CuesFrom(captions, actions, i + 1, number + 1));
    }
  }

  /** `{n}\n{begin} --> {end}\n{text}\n\n`. */
  function Block(c: Cue): string {
    Digits(c.number) + ("\n" + (Display(c.range.begin) + (" --> " + (Display(c.range.end) + ("\n" + (c.text + "\n\n"))))))
  }

  // ---------------------------------------------------------------------------
  // Reading a block back

  /** Neither a space nor a line break. */
  predicate NoBreak(s: string) {
    forall k :: 0 <= k < |s| ==> s[k] != ' ' && s[k] != '\n'
  }

  /** The position of the first `c` in `s`, or `|s|` when there is none. */
  function Find(s: string, c: char): (i: nat)
    ensures i <= |s|
    ensures i < |s| ==> s[i] == c
    ensures forall k :: 0 <= k < i ==> s[k] != c
  {
    if |s| == 0 then 0 else if s[0] == c then 0 else 1 + Find(s[1..], c)
  }

  /** What a block says: its number, both timestamps' fields and its text. */
  datatype ParsedBlock = ParsedBlock(number: nat, begin: Timestamp, end: Timestamp, text: string)

  /** Reading one SRT block: the digits up to the first line break, then
      the timing line and the text (`ParseTiming`). */
  function ParseBlock(s: string): Option<ParsedBlock> {
    var i := Find(s, '\n');
    if i == |s| || i == 0 || !AllDigits(s[..i]) then None
    else
      var timing := ParseTiming(s[i + 1..]);
      if timing.None? then None
      else Some(ParsedBlock(Value(s[..i]), timing.value.0, timing.value.1, timing.value.2))
  }

  /** The begin timestamp up to the first space, ` --> `, then the end
      timestamp and the text (`ParseEnd`). */
  function ParseTiming(s: string): Option<(Timestamp, Timestamp, string)> {
    var j := Find(s, ' ');
    if j + 5 > |s| || s[j..j + 5] != " --> " then None
    else
      var begin, rest := ParseDisplay(s[..j]), ParseEnd(s[j + 5..]);
      if begin.None? || rest.None? then None
      else Some((begin.value, rest.value.0, rest.value.1))
  }

  /** The end timestamp up to the next line break, then the text, which ends
      with a blank line. */
  function ParseEnd(s: string): Option<(Timestamp, string)> {
    var k := Find(s, '\n');
    if k == |s| then None
    else
      var end, text := ParseDisplay(s[..k]), s[k + 1..];
      if end.None? || |text| < 2 || text[|text| - 2..] != "\n\n" then None
      else Some((end.value, text[..|text| - 2]))
  }

  /** A written block reads back as the cue's number, the split of both ends
      of its range, and its text, whatever line breaks the text holds. */
  lemma BlockParses(c: Cue)
    ensures ParseBlock(Block(c)) == Some(ParsedBlock(c.number, Split(c.range.begin), Split(c.range.end), c.text))
  {
    var d := Digits(c.number);
    var rest := Display(c.range.begin) + (" --> " + (Display(c.range.end) + ("\n" + (c.text + "\n\n"))));
    assert Block(c) == d + ("\n" + rest);
    TimingParses(c.range.begin, c.range.end, c.text);
    NumberLineParses(d, rest);
    ValueOfDigits(c.number);
  }

  lemma NumberLineParses(d: string, rest: string)
    requires |d| > 0 && AllDigits(d) && ParseTiming(rest).Some?
    ensures var t := ParseTiming(rest).value;
            ParseBlock(d + ("\n" + rest)) == Some(ParsedBlock(Value(d), t.0, t.1, t.2))
  {
    DigitsNoBreak(d);
    Pieces(d, "\n", rest);
    FindAt(d, "\n", rest);
  }

  lemma TimingParses(begin: Duration, end: Duration, text: string)
    ensures ParseTiming(Display(begin) + (" --> " + (Display(end) + ("\n" + (text + "\n\n")))))
            == Some((Split(begin), Split(end), text))
  {
    DisplayNoBreak(begin);
    EndParses(end, text);
    RangeLineParses(Display(begin), Display(end) + ("\n" + (text + "\n\n")));
  }

  lemma RangeLineParses(b: string, rest: string)
    requires NoBreak(b) && ParseDisplay(b).Some? && ParseEnd(rest).Some?
    ensures var e := ParseEnd(rest).value;
            ParseTiming(b + (" --> " + rest)) == Some((ParseDisplay(b).value, e.0, e.1))
  {
    Pieces(b, " --> ", rest);
    FindAt(b, " --> ", rest);
  }

  lemma EndParses(end: Duration, text: string)
    ensures ParseEnd(Display(end) + ("\n" + (text + "\n\n"))) == Some((Split(end), text))
  {
    var e, tail := Display(end), text + "\n\n";
    DisplayNoBreak(end);
    Pieces(e, "\n", tail);
    FindAt(e, "\n", tail);
    assert tail[..|tail| - 2] == text && tail[|tail| - 2..] == "\n\n";
  }

  /** The three pieces of `a + (sep + b)`. */
  lemma Pieces(a: string, sep: string, b: string)
    ensures (a + (sep + b))[..|a|] == a
    ensures (a + (sep + b))[|a|..|a| + |sep|] == sep
    ensures (a + (sep + b))[|a| + |sep|..] == b
  {
    var s := a + (sep + b);
    assert s[..|a|] == a;
    assert s[|a|..|a| + |sep|] == sep;
    assert s[|a| + |sep|..] == b;
  }

  /** A break that `a` does not contain is first found where `sep` starts. */
  lemma FindAt(a: string, sep: string, b: string)
    requires NoBreak(a) && |sep| > 0 && sep[0] in {' ', '\n'}
    ensures Find(a + (sep + b), sep[0]) == |a|
  {
    var s := a + (sep + b);
    assert s[|a|] == sep[0];
    assert forall k :: 0 <= k < |a| ==> s[k] == a[k];
  }

  lemma DigitsNoBreak(s: string)
    requires AllDigits(s)
    ensures NoBreak(s)
  {
  }

  /** A displayed timestamp is digits, colons and a comma. */
  lemma DisplayNoBreak(d: Duration)
    ensures NoBreak(Display(d))
  {
    var t := Split(d);
    var hh, mm, ss, ms := Pad(t.hours, 2), Pad(t.minutes, 2), Pad(t.seconds, 2), Pad(t.millis, 3);
    var s := hh + ":" + mm + ":" + ss + "," + ms;
    assert Display(d) == s;
    forall k | 0 <= k < |s|
      ensures s[k] != ' ' && s[k] != '\n'
    {
      if k < |hh| {
        assert s[k] == hh[k];
      } else if k < |hh| + 1 + |mm| + 1 + |ss| + 1 {
        assert k == |hh| || k == |hh| + 1 + |mm| || k == |hh| + 2 + |mm| + |ss| ||
               IsDigit(s[k]);
      } else {
        assert s[k] == ms[k - (|hh| + |mm| + |ss| + 3)];
      }
    }
  }

  function Render(cues: seq<Cue>): string {
    if |cues| == 0 then [] else Block(cues[0]) + Render(cues[1..])
  }

  lemma AppendAssoc(a: string, b: string, c: string)
    ensures a + (b + c) == (a + b) + c
  {
  }

  lemma RenderCons(c: Cue, rest: seq<Cue>)
    ensures Render([c] + rest) == Block(c) + Render(rest)
  {
    assert ([c] + rest)[1..] == rest;
  }

  /** `subtitles_to_srt`: build the actions, sort them, then sweep them once,
      keeping the on-screen list and writing a block whenever its trimmed
      text is not empty. */
  method SubtitlesToSrt(subs: seq<TextSubtitle>) returns (srt: string)
    ensures srt == Render(Cues(subs))
  {
    var actions := SortedActions(subs);
    srt := Sweep(subs, actions);
  }

  /** The sweep of `subtitles_to_srt`: apply each action to the on-screen
      list, and write a block whenever the trimmed on-screen text is not
      empty. */
  method Sweep(subs: seq<TextSubtitle>, actions: seq<Action>) returns (srt: string)
    requires NamesSubtitles(actions, |subs|)
    ensures srt == Render(CuesFrom(Captions(subs, actions, |actions|), actions, 0, 1))
  {
    ghost var captions := Captions(subs, actions, |actions|);
    ghost var all := Render(CuesFrom(captions, actions, 0, 1));
    var onScreen: seq<nat> := [];
    var number := 1;
    srt := [];
    var i := 0;
    while i < |actions|
      invariant i <= |actions|
      invariant onScreen == Survivors(actions, i)
      invariant all == srt + Render(CuesFrom(captions, actions, i, number))
    {
      var action := actions[i];
      SurvivorsStep(actions, i);
      match action.kind {
        case Add => onScreen := onScreen + [action.subtitle];
        case Remove => onScreen := Retain(onScreen, action.subtitle);
      }
      assert onScreen == Survivors(actions, i + 1);
      SurvivorsNameSubtitles(actions, |subs|, i + 1, i + 1);
      var text := Trim(ScreenText(subs, onScreen));
      CaptionsAt(subs, actions, |actions|, i);
      RenderCuesFrom(captions, actions, i, number);
      if text != [] {
        var end := if i + 1 < |actions| then actions[i + 1].timestamp else DURATION_MAX;
        var block := Block(Cue(number, TimeRange(action.timestamp, end), text));
        AppendAssoc(srt, block, Render(CuesFrom(captions, actions, i + 1, number + 1)));
        srt := srt + block;
        number := number + 1;
      }
      i := i + 1;
    }
  }
}
