/** The widget's time-string utilities: `to24h` turns a free-form clock time
    into "HH:MM", `minutesFromHHMM` reads "HH:MM" as minutes since midnight,
    and `format12h` renders it as "H:MM AM" / "H:MM PM". */
module TimeFormat {
  import opened JsBuiltins

  /** `(x < 10 ? '0' + x : '' + x)`; NaN is not below 10 and renders as "NaN". */
  function PadNumber(x: JsNumber): string {
    match x
    case NaN => "NaN"
    case Int(i) => if i < 10 then "0" + IntToString(i) else IntToString(i)
  }

  /** Two decimal digits for a number below 100. */
  function TwoDigits(n: nat): string
    requires n < 100
  {
    [DigitChar(n / 10), DigitChar(n % 10)]
  }

  /** The canonical "HH:MM" text of an hour and a minute. */
  function Clock(h: nat, m: nat): string
    requires h < 100 && m < 100
  {
    TwoDigits(h) + ":" + TwoDigits(m)
  }

  /** Characters of the time part proper: digits and the colon. */
  predicate ClockChars(s: string) {
    forall i :: 0 <= i < |s| ==> IsDigit(s[i]) || s[i] == ':'
  }

  /** `s.indexOf(<a><b>) !== -1` for a two-letter pattern. */
  predicate HasPair(s: string, a: char, b: char) {
    exists i :: 0 <= i < |s| - 1 && s[i] == a && s[i + 1] == b
  }

  /** The length of the run of whitespace that starts `s`. */
  function SpaceRun(s: string): (n: nat)
    ensures n <= |s|
  {
    if s != [] && IsSpace(s[0]) then 1 + SpaceRun(s[1..]) else 0
  }

  /** The run is all whitespace and stops at a non-whitespace character. */
  lemma {:induction false} SpaceRunBounds(s: string)
    ensures AllSpaces(s[..SpaceRun(s)])
    ensures SpaceRun(s) < |s| ==> !IsSpace(s[SpaceRun(s)])
  {
    if s != [] && IsSpace(s[0]) {
      SpaceRunBounds(s[1..]);
      var n := SpaceRun(s);
      assert forall i :: 1 <= i < n ==> s[..n][i] == s[1..][..n - 1][i - 1];
    }
  }

  /** `s.replace(/\s*(am|pm)\s*\/g, '')`: at each position, leftmost first, a
      run of whitespace, "am" or "pm", and a run of whitespace is deleted. */
  function StripMarkers(s: string): string
    decreases |s|
  {
    if s == [] then []
    else
      var j := SpaceRun(s);
      if j + 2 <= |s| && (s[j..j + 2] == "am" || s[j..j + 2] == "pm") then
        StripMarkers(s[j + 2 + SpaceRun(s[j + 2..])..])
      else
        [s[0]] + StripMarkers(s[1..])
  }

  /** The hour rule: "pm" adds 12 below 12, "12 am" is hour 0, no marker
      leaves the hour as it is. */
  function Hour24(h: int, marker: string): int {
    if marker == "pm" && h < 12 then h + 12
    else if marker == "am" && h == 12 then 0
    else h
  }

  /** `to24h(t)` of src/prayertime-widget.js, on string input: trim and
      lower-case, note whether "am" and "pm" occur, delete the markers, split
      at ':' and read the hour and the minute. */
  function To24h(t: string): (r: string)
    ensures r == "" <==> t == ""
  {
    if t == "" then ""
    else
      var s := Lower(Trim(t));
      HourMinute(Split(StripMarkers(s), ':'), HasPair(s, 'a', 'm'), HasPair(s, 'p', 'm'))
  }

  /** The end of to24h: `parseInt(parts[0])`, `parseInt(parts[1] || '0')`,
      the two marker adjustments and the zero-padded result. */
  function HourMinute(parts: seq<string>, am: bool, pm: bool): (r: string)
    requires |parts| >= 1
    ensures r != ""
  {
    var h := ParseInt(parts[0]);
    var m := ParseInt(if |parts| > 1 && parts[1] != "" then parts[1] else "0");
    var h1 := if pm && h.Int? && h.i < 12 then Int(h.i + 12) else h;
    var h2 := if am && h1 == Int(12) then Int(0) else h1;
    PadNumber(h2) + ":" + PadNumber(m)
  }

  /** `minutesFromHHMM(hhmm)`; the empty string stands for a missing or empty
      value, which reads as "00:00". Without a second part it is NaN, as
      `parseInt(undefined)` is. */
  function MinutesFromHHMM(hhmm: string): JsNumber {
    var parts := Split(if hhmm == "" then "00:00" else hhmm, ':');
    var h := ParseInt(parts[0]);
    var m := if |parts| > 1 then ParseInt(parts[1]) else NaN;
    if h.NaN? || m.NaN? then NaN else Int(h.i * 60 + m.i)
  }

  /** `format12h(hhmm)`: the minutes of `hhmm`, then the 12-hour label. For NaN
      minutes every step is NaN, `NaN >= 12` is false and `NaN % 12 || 12` is
      12, giving "12:NaN AM". */
  function Format12h(hhmm: string): string {
    match MinutesFromHHMM(hhmm)
    case NaN => "12:NaN AM"
    case Int(mins) => Label12(mins)
  }

  /** The label of a number of minutes: `Math.floor(mins / 60)` is Dafny's `/`
      for the positive divisor, JavaScript's `%` truncates, an hour of 0
      modulo 12 shows as 12, and the suffix is PM from hour 12 on. */
  function Label12(mins: int): string {
    var h := mins / 60;
    var m := Rem(mins, 60);
    var r := Rem(h, 12);
    IntToString(if r == 0 then 12 else r) + ":" + PadNumber(Int(m)) + " "
    + (if h >= 12 then "PM" else "AM")
  }

  // ---------------------------------------------------------------------
  // Lemmas about the pieces of the to24h pipeline

  lemma LowerUnchanged(s: string)
    requires forall i :: 0 <= i < |s| ==> !('A' <= s[i] <= 'Z')
    ensures Lower(s) == s
  {
  }

  /** No marker can start at a character that is neither whitespace nor a
      marker's first letter. */
  lemma StripMarkersStep(s: string)
    requires s != [] && !IsSpace(s[0]) && s[0] != 'a' && s[0] != 'p'
    ensures StripMarkers(s) == [s[0]] + StripMarkers(s[1..])
  {
    assert SpaceRun(s) == 0;
    if |s| >= 2 {
      assert s[0..2][0] == s[0];
    }
  }

  lemma {:induction false} StripClockPrefix(x: string, rest: string)
    requires ClockChars(x)
    ensures StripMarkers(x + rest) == x + StripMarkers(rest)
  {
    if x != [] {
      ClockCharsTail(x);
      StripClockPrefix(x[1..], rest);
      StripClockCons(x, rest);
    } else {
      assert x + rest == rest;
    }
  }

  lemma StripClockCons(x: string, rest: string)
    requires x != [] && (IsDigit(x[0]) || x[0] == ':')
    requires StripMarkers(x[1..] + rest) == x[1..] + StripMarkers(rest)
    ensures StripMarkers(x + rest) == x + StripMarkers(rest)
  {
    ConsSplit(x, rest);
    ConsSplit(x, StripMarkers(rest));
    StripClockChar(x[0], x[1..] + rest);
  }

  lemma ConsSplit(x: string, a: string)
    requires x != []
    ensures x + a == [x[0]] + (x[1..] + a)
  {
  }

  lemma ClockCharsTail(x: string)
    requires x != [] && ClockChars(x)
    ensures IsDigit(x[0]) || x[0] == ':'
    ensures ClockChars(x[1..])
  {
    forall i | 0 <= i < |x| - 1 ensures IsDigit(x[1..][i]) || x[1..][i] == ':' {
      assert x[1..][i] == x[i + 1];
    }
  }

  lemma StripClockChar(c: char, t: string)
    requires IsDigit(c) || c == ':'
    ensures StripMarkers([c] + t) == [c] + StripMarkers(t)
  {
    var s := [c] + t;
    StripMarkersStep(s);
    assert s[1..] == t;
  }

  lemma SpaceRunOfSpaces(sp: string, rest: string)
    requires AllSpaces(sp) && (rest == [] || !IsSpace(rest[0]))
    ensures SpaceRun(sp + rest) == |sp|
  {
    var s := sp + rest;
    SpaceRunBounds(s);
    assert forall i :: 0 <= i < |sp| ==> s[i] == sp[i];
    assert rest != [] ==> s[|sp|] == rest[0];
  }

  lemma StripMarkerSuffix(sp: string, lm: string)
    requires AllSpaces(sp) && (lm == "am" || lm == "pm")
    ensures StripMarkers(sp + lm) == []
  {
    var s := sp + lm;
    SpaceRunOfSpaces(sp, lm);
    assert s[|sp|..|sp| + 2] == lm;
    assert s[|sp| + 2..] == [];
  }

  lemma MarkerFlags(pre: string, lm: string)
    requires forall i :: 0 <= i < |pre| ==> pre[i] != 'a' && pre[i] != 'p'
    requires lm == "" || lm == "am" || lm == "pm"
    ensures HasPair(pre + lm, 'a', 'm') <==> lm == "am"
    ensures HasPair(pre + lm, 'p', 'm') <==> lm == "pm"
  {
    var s := pre + lm;
    assert forall i :: 0 <= i < |pre| ==> s[i] == pre[i];
    if lm != "" {
      assert s[|pre|] == lm[0] && s[|pre| + 1] == 'm';
    }
  }

  lemma MarkerIsLetters(marker: string)
    requires Lower(marker) == "am" || Lower(marker) == "pm"
    ensures |marker| == 2 && !IsSpace(marker[1])
    ensures forall i :: 0 <= i < |marker| ==> marker[i] != ':' && !IsDigit(marker[i])
  {
    assert Lower(marker)[1] == LowerChar(marker[1]) == 'm';
    assert Lower(marker)[0] == LowerChar(marker[0]);
  }

  /** A clock time as written: hour digits, optionally ':' and minute digits,
      then optionally whitespace and a marker. */
  function TimeText(ht: string, colon: bool, mt: string, sp: string, marker: string): string {
    TimePart(ht, colon, mt) + sp + marker
  }

  /** The hour digits, and when there is a colon, the colon and the minute digits. */
  function TimePart(ht: string, colon: bool, mt: string): string {
    if colon then ht + ":" + mt else ht
  }

  /** The general to24h theorem: an hour in digits, optionally a colon and
      minute digits, and optionally whitespace and an am/pm marker in any
      letter case, give the hour rule's hour and the minute (0 when absent or
      empty), each zero-padded below 10. */
  lemma To24hOfTime(ht: string, colon: bool, mt: string, sp: string, marker: string)
    requires ht != [] && AllDigits(ht) && AllDigits(mt) && AllSpaces(sp)
    requires !colon ==> mt == []
    requires Lower(marker) == "" || Lower(marker) == "am" || Lower(marker) == "pm"
    requires marker == [] ==> sp == []
    ensures To24h(TimeText(ht, colon, mt, sp, marker))
         == PadNumber(Int(Hour24(DigitsValue(ht), Lower(marker)))) + ":" + PadNumber(Int(DigitsValue(mt)))
  {
    var x := TimePart(ht, colon, mt);
    var t := x + sp + marker;
    var lm := Lower(marker);
    TimeTextChars(ht, colon, mt);
    NormalizedTimeText(x, sp, marker);
    var s := x + sp + lm;
    assert Lower(Trim(t)) == s;
    MarkerFlags(x + sp, lm);
    StrippedTimeText(x, sp, lm);
    SplitTimeText(ht, colon, mt);
    HourMinuteOfDigits(ht, colon, mt, lm);
  }

  lemma TimeTextChars(ht: string, colon: bool, mt: string)
    requires AllDigits(ht) && AllDigits(mt)
    ensures ClockChars(TimePart(ht, colon, mt))
  {
    var x := TimePart(ht, colon, mt);
    forall i | 0 <= i < |x| ensures IsDigit(x[i]) || x[i] == ':' {
      if i < |ht| { assert x[i] == ht[i]; }
      else if i > |ht| { assert x[i] == mt[i - |ht| - 1]; }
    }
  }

  /** Trimming and lower-casing leave the time text alone and lower-case the marker. */
  lemma NormalizedTimeText(x: string, sp: string, marker: string)
    requires x != [] && IsDigit(x[0]) && ClockChars(x) && AllSpaces(sp)
    requires Lower(marker) == "" || Lower(marker) == "am" || Lower(marker) == "pm"
    requires marker == [] ==> sp == []
    ensures Lower(Trim(x + sp + marker)) == x + sp + Lower(marker)
  {
    var t := x + sp + marker;
    assert t[0] == x[0];
    if marker != [] {
      MarkerIsLetters(marker);
      assert t[|t| - 1] == marker[1];
    } else {
      assert t == x;
      assert IsDigit(t[|t| - 1]) || t[|t| - 1] == ':';
    }
    TrimUnchanged(t);
    LowerConcat(x + sp, marker);
    LowerConcat(x, sp);
    LowerUnchanged(x);
    LowerUnchanged(sp);
  }

  lemma StrippedTimeText(x: string, sp: string, lm: string)
    requires ClockChars(x) && AllSpaces(sp)
    requires lm == "" || lm == "am" || lm == "pm"
    requires lm == [] ==> sp == []
    ensures StripMarkers(x + sp + lm) == x
  {
    StripClockPrefix(x, sp + lm);
    assert x + sp + lm == x + (sp + lm);
    if lm != "" {
      StripMarkerSuffix(sp, lm);
    } else {
      assert sp + lm == [];
    }
  }

  lemma SplitTimeText(ht: string, colon: bool, mt: string)
    requires AllDigits(ht) && AllDigits(mt)
    ensures Split(TimePart(ht, colon, mt), ':') == if colon then [ht, mt] else [ht]
  {
    assert ':' !in ht;
    if colon {
      assert ':' !in mt;
      SplitTwo(ht, mt, ':');
    } else {
      assert ht + "" == ht;
      SplitOne(ht, ':');
    }
  }

  lemma HourMinuteOfDigits(ht: string, colon: bool, mt: string, lm: string)
    requires ht != [] && AllDigits(ht) && AllDigits(mt)
    requires !colon ==> mt == []
    ensures HourMinute(if colon then [ht, mt] else [ht], lm == "am", lm == "pm")
         == PadNumber(Int(Hour24(DigitsValue(ht), lm))) + ":" + PadNumber(Int(DigitsValue(mt)))
  {
    var parts := if colon then [ht, mt] else [ht];
    ParseIntOfDigits(ht);
    assert parts[0] == ht;
    var mtext := if |parts| > 1 && parts[1] != "" then parts[1] else "0";
    assert ParseInt(mtext) == Int(DigitsValue(mt)) by {
      if colon && mt != [] {
        assert mtext == mt;
        ParseIntOfDigits(mt);
      } else {
        assert mtext == "0" && DigitsValue(mt) == 0;
        ParseIntZero();
      }
    }
    HourMinuteOfValues(parts, lm, DigitsValue(ht), DigitsValue(mt));
  }

  /** The end of to24h once both parts are read as numbers. */
  lemma HourMinuteOfValues(parts: seq<string>, lm: string, h: nat, m: nat)
    requires |parts| >= 1 && ParseInt(parts[0]) == Int(h)
    requires ParseInt(if |parts| > 1 && parts[1] != "" then parts[1] else "0") == Int(m)
    ensures HourMinute(parts, lm == "am", lm == "pm") == PadNumber(Int(Hour24(h, lm))) + ":" + PadNumber(Int(m))
  {
  }

  lemma ParseIntZero()
    ensures ParseInt("0") == Int(0)
  {
    ParseIntOfDigits("0");
  }

  // ---------------------------------------------------------------------
  // Properties of canonical "HH:MM" text

  lemma TwoDigitsValue(n: nat)
    requires n < 100
    ensures AllDigits(TwoDigits(n)) && DigitsValue(TwoDigits(n)) == n
  {
    var s := TwoDigits(n);
    assert s[..1] == [DigitChar(n / 10)];
    assert s[..1][..0] == [];
    assert DigitsValue(s[..1]) == n / 10;
    assert s[1] as int - '0' as int == n % 10;
  }

  lemma PadNumberTwoDigits(n: nat)
    requires n < 100
    ensures PadNumber(Int(n)) == TwoDigits(n)
  {
    if n >= 10 {
      assert NatToString(n) == NatToString(n / 10) + [DigitChar(n % 10)];
    }
  }

  /** to24h is the identity on canonical "HH:MM" text. */
  lemma To24hOfClock(h: nat, m: nat)
    requires h < 100 && m < 100
    ensures To24h(Clock(h, m)) == Clock(h, m)
  {
    TwoDigitsValue(h);
    TwoDigitsValue(m);
    To24hOfTime(TwoDigits(h), true, TwoDigits(m), "", "");
    assert TimeText(TwoDigits(h), true, TwoDigits(m), "", "") == Clock(h, m);
    PadNumberTwoDigits(h);
    PadNumberTwoDigits(m);
  }

  /** minutesFromHHMM reads canonical text as hours * 60 + minutes. */
  lemma MinutesOfClock(h: nat, m: nat)
    requires h < 100 && m < 100
    ensures MinutesFromHHMM(Clock(h, m)) == Int(h * 60 + m)
  {
    TwoDigitsValue(h);
    TwoDigitsValue(m);
    assert ':' !in TwoDigits(h) && ':' !in TwoDigits(m);
    SplitTwo(TwoDigits(h), TwoDigits(m), ':');
    ParseIntOfDigits(TwoDigits(h));
    ParseIntOfDigits(TwoDigits(m));
  }

  /** format12h of a canonical time: the displayed hour `d` is in 1..12 and
      agrees with the hour modulo 12 (so hours 0 and 12 both show as 12), the
      minutes keep their two digits, and the suffix is PM exactly from 12:00. */
  lemma Format12hOfClock(h: nat, m: nat) returns (d: nat, suffix: string)
    requires h < 24 && m < 60
    ensures Format12h(Clock(h, m)) == TimeText(NatToString(d), true, TwoDigits(m), " ", suffix)
    ensures 1 <= d <= 12 && d % 12 == h % 12
    ensures d == Hour12(h) && (h == 0 || h == 12 ==> d == 12)
    ensures (suffix == "PM" <==> h >= 12) && (suffix == "AM" <==> h < 12)
  {
    d := Hour12(h);
    suffix := if h >= 12 then "PM" else "AM";
    Format12hLabel(h, m, d, suffix);
  }

  /** The hour the 12-hour clock shows for a 24-hour hour: 0 and 12 both
      show as 12. */
  function Hour12(h: nat): (d: nat)
    requires h < 24
    ensures 1 <= d <= 12 && d % 12 == h % 12
  {
    if h == 0 || h == 12 then 12 else if h > 12 then h - 12 else h
  }

  lemma Format12hLabel(h: nat, m: nat, d: nat, suffix: string)
    requires h < 24 && m < 60
    requires d == Hour12(h)
    requires suffix == if h >= 12 then "PM" else "AM"
    ensures Format12h(Clock(h, m)) == TimeText(NatToString(d), true, TwoDigits(m), " ", suffix)
  {
    ClockMinutesParts(h, m);
    var mins := MinutesFromHHMM(Clock(h, m)).i;
    Label12OfParts(mins, h, m, d, suffix);
    Format12hOfMinutes(Clock(h, m), mins);
  }

  /** The minutes of canonical text, taken apart again into hour and minute. */
  lemma ClockMinutesParts(h: nat, m: nat)
    requires h < 24 && m < 60
    ensures var t := MinutesFromHHMM(Clock(h, m)); t.Int? && t.i / 60 == h && Rem(t.i, 60) == m
  {
    MinutesOfClock(h, m);
    DivMod60(h, m);
  }

  /** Readable minutes are labelled by `Label12`. */
  lemma Format12hOfMinutes(s: string, mins: int)
    requires MinutesFromHHMM(s) == Int(mins)
    ensures Format12h(s) == Label12(mins)
  {
  }

  lemma Label12OfParts(mins: int, h: nat, m: nat, d: nat, suffix: string)
    requires h < 24 && m < 60
    requires mins / 60 == h && Rem(mins, 60) == m
    requires d == Hour12(h)
    requires suffix == if h >= 12 then "PM" else "AM"
    ensures Label12(mins) == TimeText(NatToString(d), true, TwoDigits(m), " ", suffix)
  {
    assert Rem(h, 12) == (if h >= 12 then h - 12 else h);
    PadNumberTwoDigits(m);
    assert IntToString(d) == NatToString(d);
  }

  lemma DivMod60(h: nat, m: nat)
    requires m < 60
    ensures (h * 60 + m) / 60 == h && (h * 60 + m) % 60 == m
  {
  }

  /** Reading the 12-hour label back with to24h gives the canonical time. */
  lemma To24hOfFormat12h(h: nat, m: nat)
    requires h < 24 && m < 60
    ensures To24h(Format12h(Clock(h, m))) == Clock(h, m)
  {
    var d, suffix := Format12hOfClock(h, m);
    To24hOfLabel(h, m, d, suffix);
  }

  lemma To24hOfLabel(h: nat, m: nat, d: nat, suffix: string)
    requires h < 24 && m < 60
    requires d == Hour12(h)
    requires (suffix == "PM" <==> h >= 12) && (suffix == "AM" <==> h < 12)
    ensures To24h(TimeText(NatToString(d), true, TwoDigits(m), " ", suffix)) == Clock(h, m)
  {
    TwoDigitsValue(m);
    NatToStringDigits(d);
    Hour24OfLabel(h, d, suffix);
    assert PadNumber(Int(h)) + ":" + PadNumber(Int(DigitsValue(TwoDigits(m)))) == Clock(h, m) by {
      PadNumberTwoDigits(h);
      PadNumberTwoDigits(m);
    }
    To24hOfTime(NatToString(d), true, TwoDigits(m), " ", suffix);
  }

  lemma Hour24OfLabel(h: nat, d: nat, suffix: string)
    requires h < 24
    requires d == Hour12(h)
    requires (suffix == "PM" <==> h >= 12) && (suffix == "AM" <==> h < 12)
    ensures Lower(suffix) == "am" || Lower(suffix) == "pm"
    ensures Hour24(DigitsValue(NatToString(d)), Lower(suffix)) == h
  {
    DigitsValueOfNatToString(d);
    assert Lower(suffix) == (if h >= 12 then "pm" else "am");
  }
}
