/**
 * Reminder times. `normalizeTime` turns what a user typed (`7:00`, `7:30 pm`,
 * `12:05 AM`) into the stored 24-hour `HH:MM`; `formatTimeForDisplay` turns a
 * stored time into the 12-hour text shown in reminders (`7:30 PM`).
 */
module TimeFormat {
  import opened Text
  import opened Wrappers

  /** A stored reminder time: two digits, a colon, two digits. */
  predicate WellFormedTime(t: string) {
    |t| == 5 && IsDigit(t[0]) && IsDigit(t[1]) && t[2] == ':' && IsDigit(t[3]) && IsDigit(t[4])
  }

  function HoursOf(t: string): nat
    requires WellFormedTime(t)
  {
    DigitsValue(t[..2])
  }

  // ---------- normalizeTime ----------

  /** `/^\d{1,2}:\d{2}$/`: the whole string is one or two digits, a colon and two digits. */
  predicate StrictForm(s: string) {
    || (|s| == 4 && IsDigit(s[0]) && s[1] == ':' && IsDigit(s[2]) && IsDigit(s[3]))
    || (|s| == 5 && IsDigit(s[0]) && IsDigit(s[1]) && s[2] == ':' && IsDigit(s[3]) && IsDigit(s[4]))
  }

  /** A one- or two-digit field padded with zeros is two digits. */
  lemma PadDigits(x: string)
    requires 1 <= |x| <= 2 && AllDigits(x)
    ensures var p := PadStart(x, 2, '0'); |p| == 2 && AllDigits(p)
  {
  }

  /**
   * The strict branch: both sides of the colon padded to two digits and joined
   * again, which puts a zero before a one-digit hour and changes nothing else.
   */
  function PadFields(s: string): (r: string)
    requires StrictForm(s)
    ensures WellFormedTime(r)
    ensures r == if |s| == 4 then "0" + s else s
  {
    var c := if s[1] == ':' then 1 else 2;
    StrictFieldDigits(s, c);
    PadDigits(s[..c]);
    PadDigits(s[c + 1..]);
    JoinPadded(s, c);
    JoinTime(PadStart(s[..c], 2, '0'), PadStart(s[c + 1..], 2, '0'))
  }

  /** Padding the two sides of the colon of s and joining them again. */
  lemma JoinPadded(s: string, c: nat)
    requires 1 <= c <= 2 && c + 3 == |s| && s[c] == ':'
    ensures PadStart(s[..c], 2, '0') + ":" + PadStart(s[c + 1..], 2, '0') == if c == 1 then "0" + s else s
  {
    PadTwo(s[..c]);
    PadTwo(s[c + 1..]);
    assert s == s[..c] + ":" + s[c + 1..];
  }

  /** Padding a one- or two-character field to two puts one zero before a single character. */
  lemma PadTwo(x: string)
    requires 1 <= |x| <= 2
    ensures PadStart(x, 2, '0') == if |x| == 1 then "0" + x else x
  {
    var p := PadStart(x, 2, '0');
    if |x| == 1 {
      assert p[1..] == x && p[0] == '0';
      assert p == [p[0]] + p[1..];
    } else {
      assert p == p[0..];
    }
  }

  /** The two sides of the colon of a strict time: one or two hour digits and two minute digits. */
  lemma StrictFieldDigits(s: string, c: nat)
    requires StrictForm(s) && c == (if s[1] == ':' then 1 else 2)
    ensures 1 <= c <= 2 && c + 3 == |s| && AllDigits(s[..c]) && AllDigits(s[c + 1..])
  {
    assert forall i :: 0 <= i < c ==> s[..c][i] == s[i];
    assert s[c + 1..][0] == s[c + 1] && s[c + 1..][1] == s[c + 2];
  }

  /** `(\d{1,2}):(\d{2})` matches at i taking two hour digits. */
  predicate TwoDigitAt(s: string, i: nat) {
    i + 5 <= |s| && IsDigit(s[i]) && IsDigit(s[i + 1]) && s[i + 2] == ':' && IsDigit(s[i + 3]) && IsDigit(s[i + 4])
  }

  /** `\d:\d{2}` occurs at i: the one-digit form, and the core of every match. */
  predicate OneDigitAt(s: string, i: nat) {
    i + 4 <= |s| && IsDigit(s[i]) && s[i + 1] == ':' && IsDigit(s[i + 2]) && IsDigit(s[i + 3])
  }

  /** The regular expression matches at i (`\d{1,2}` tries two digits first, then one). */
  predicate MatchAt(s: string, i: nat) {
    TwoDigitAt(s, i) || OneDigitAt(s, i)
  }

  /** `s.match(...)`: the leftmost position, at or after `from`, where the expression matches. */
  function FirstMatch(s: string, from: nat): (r: Option<nat>)
    ensures r.Some? ==> from <= r.value && MatchAt(s, r.value) && forall j :: from <= j < r.value ==> !MatchAt(s, j)
    ensures r.None? ==> forall j :: from <= j ==> !MatchAt(s, j)
    decreases |s| - from
  {
    if from >= |s| then None
    else if MatchAt(s, from) then Some(from)
    else FirstMatch(s, from + 1)
  }

  /** The position of the colon of a match at i: after two hour digits when there are two. */
  function ColonAt(s: string, i: nat): (c: nat)
    requires MatchAt(s, i)
    ensures i < c <= i + 2 && c + 3 <= |s| && s[c] == ':'
    ensures AllDigits(s[i..c]) && AllDigits(s[c + 1..c + 3])
  {
    if TwoDigitAt(s, i) then i + 2 else i + 1
  }

  /** `\s*` from j: the first position at or after j that is not whitespace. */
  function SkipSpaces(s: string, j: nat): (r: nat)
    requires j <= |s|
    ensures j <= r <= |s|
    ensures r == |s| || !IsSpace(s[r])
    decreases |s| - j
  {
    if j < |s| && IsSpace(s[j]) then SkipSpaces(s, j + 1) else j
  }

  datatype Meridiem = AM | PM

  /** `(AM|PM|am|pm)?` at j, case folded as `toLowerCase` would. */
  function MeridiemAt(s: string, j: nat): Option<Meridiem> {
    if j + 2 <= |s| && (s[j..j + 2] == "AM" || s[j..j + 2] == "am") then Some(AM)
    else if j + 2 <= |s| && (s[j..j + 2] == "PM" || s[j..j + 2] == "pm") then Some(PM)
    else None
  }

  /** The 12-hour adjustment: a PM hour below 12 gains 12, 12 AM is hour 0, any other hour stays. */
  function To24(h: nat, ap: Option<Meridiem>): (r: nat)
    ensures h < 100 ==> r < 100
  {
    if ap == Some(PM) && h < 12 then h + 12
    else if ap == Some(AM) && h == 12 then 0
    else h
  }

  lemma DigitsBelow100(x: string)
    requires |x| <= 2 && AllDigits(x)
    ensures DigitsValue(x) < 100
  {
    if |x| > 0 {
      assert DigitsValue(x[..|x| - 1]) < 10 by {
        if |x| == 2 {
          assert x[..1][..0] == [];
        }
      }
    }
  }

  /** The hour of a match at i: its one or two digits, read as a number below 100. */
  function MatchHour(s: string, i: nat): (h: nat)
    requires MatchAt(s, i)
    ensures h < 100
  {
    var c := ColonAt(s, i);
    DigitsBelow100(s[i..c]);
    DigitsValue(s[i..c])
  }

  /** The suffix after the minutes of a match at i, past any whitespace. */
  function MatchMeridiem(s: string, i: nat): Option<Meridiem>
    requires MatchAt(s, i)
  {
    MeridiemAt(s, SkipSpaces(s, ColonAt(s, i) + 3))
  }

  /** The hour field of the match branch: the adjusted hour padded to two digits. */
  function MatchHourField(s: string, i: nat): (r: string)
    requires MatchAt(s, i)
    ensures |r| == 2 && AllDigits(r)
  {
    var h := To24(MatchHour(s, i), MatchMeridiem(s, i));
    Pad2Value(h);
    Pad2(h)
  }

  /** The minutes field of the match branch: the two digits after the colon. */
  function MatchMinutes(s: string, i: nat): (r: string)
    requires MatchAt(s, i)
    ensures |r| == 2 && AllDigits(r)
  {
    var c := ColonAt(s, i);
    s[c + 1..c + 3]
  }

  /** The match branch for a match at i: the adjusted hour padded to two digits, then the minutes. */
  function FromMatch(s: string, i: nat): (r: string)
    requires MatchAt(s, i)
    ensures WellFormedTime(r)
  {
    JoinTime(MatchHourField(s, i), MatchMinutes(s, i))
  }

  /** Two two-digit fields joined by a colon. */
  function JoinTime(hh: string, mm: string): (r: string)
    requires |hh| == 2 && AllDigits(hh) && |mm| == 2 && AllDigits(mm)
    ensures WellFormedTime(r) && r[..2] == hh && r[3..] == mm
  {
    hh + ":" + mm
  }

  /** The fallback branch: the leftmost match converted, or None when nothing matches. */
  function MatchBranch(t: string): (r: Option<string>)
    ensures r.None? <==> forall j: nat :: !MatchAt(t, j)
    ensures r.Some? ==> WellFormedTime(r.value)
  {
    match FirstMatch(t, 0)
    case None => None
    case Some(i) => Some(FromMatch(t, i))
  }

  /** `normalizeTime` after the empty-input test, on trimmed text. */
  function NormalizeTrimmed(t: string): (r: Option<string>)
    ensures r.Some? ==> WellFormedTime(r.value)
  {
    if StrictForm(t) then Some(PadFields(t)) else MatchBranch(t)
  }

  /**
   * `normalizeTime`: the empty string for empty input; otherwise, on the trimmed
   * text, the strict form padded, else the leftmost 12/24-hour match converted,
   * else None (`null`). Whatever it returns for non-empty input is a stored
   * `HH:MM` time.
   */
  function NormalizeTime(s: string): (r: Option<string>)
    ensures s == "" ==> r == Some("")
    ensures s != "" && r.Some? ==> WellFormedTime(r.value)
  {
    if s == "" then Some("") else NormalizeTrimmed(Trim(s))
  }

  /** Any match needs a digit, a colon and two digits somewhere, and one such occurrence is a match. */
  lemma NormalizeTimeNull(s: string)
    ensures NormalizeTime(s) == None <==> s != "" && forall j: nat :: !OneDigitAt(Trim(s), j)
  {
    if s != "" {
      TrimmedNull(Trim(s));
    }
  }

  lemma TrimmedNull(t: string)
    ensures NormalizeTrimmed(t) == None <==> forall j: nat :: !OneDigitAt(t, j)
  {
    NoneIffNoMatch(t);
    NoMatchIffNoCore(t);
  }

  lemma NoneIffNoMatch(t: string)
    ensures NormalizeTrimmed(t) == None <==> forall j: nat :: !MatchAt(t, j)
  {
    assert StrictForm(t) ==> MatchAt(t, 0);
  }

  lemma NoMatchIffNoCore(t: string)
    ensures (exists j: nat :: MatchAt(t, j)) <==> (exists j: nat :: OneDigitAt(t, j))
  {
    if exists j: nat :: MatchAt(t, j) {
      var j: nat :| MatchAt(t, j);
      if TwoDigitAt(t, j) {
        assert OneDigitAt(t, j + 1);
      } else {
        assert OneDigitAt(t, j);
      }
    }
    if exists j: nat :: OneDigitAt(t, j) {
      var j: nat :| OneDigitAt(t, j);
      assert MatchAt(t, j);
    }
  }

  /** Text with no whitespace at either end goes straight to the pattern tests. */
  lemma NormalizeUntrimmed(s: string)
    requires s != [] && !IsSpace(s[0]) && !IsSpace(s[|s| - 1])
    ensures NormalizeTime(s) == NormalizeTrimmed(s)
  {
    TrimEdges(s);
  }

  lemma WellFormedNoSpace(t: string)
    requires WellFormedTime(t)
    ensures Trim(t) == t
  {
    DigitNotSpace(t[0]);
    DigitNotSpace(t[4]);
    TrimEdges(t);
  }

  /** A stored time is its own normal form (`"07:00"` stays `"07:00"`). */
  lemma NormalizeTimeFixes(t: string)
    requires WellFormedTime(t)
    ensures NormalizeTime(t) == Some(t)
  {
    WellFormedNoSpace(t);
    StoredIsStrict(t);
  }

  lemma StoredIsStrict(t: string)
    requires WellFormedTime(t)
    ensures NormalizeTrimmed(t) == Some(t)
  {
    assert StrictForm(t) && t[1] != ':';
    assert PadStart(t[..2], 2, '0') == t[..2];
    assert PadStart(t[3..], 2, '0') == t[3..];
    assert t[..2] + ":" + t[3..] == t;
  }

  /** Normalising a normalised time changes nothing. */
  lemma NormalizeTimeIdempotent(s: string)
    requires NormalizeTime(s).Some?
    ensures NormalizeTime(NormalizeTime(s).value) == NormalizeTime(s)
  {
    if s != "" {
      NormalizeTimeFixes(NormalizeTime(s).value);
    }
  }

  /** `"7:00"` is padded to `"07:00"`. */
  lemma StrictExample()
    ensures NormalizeTime("7:00") == Some("07:00")
  {
    var t := "7:00";
    DigitNotSpace('7');
    DigitNotSpace('0');
    NormalizeUntrimmed(t);
    StrictExampleTrimmed(t);
  }

  lemma StrictExampleTrimmed(t: string)
    requires t == "7:00"
    ensures NormalizeTrimmed(t) == Some("07:00")
  {
    assert StrictForm(t);
    StrictBranch(t);
    StrictExamplePad(t);
  }

  lemma StrictBranch(t: string)
    requires StrictForm(t)
    ensures NormalizeTrimmed(t) == Some(PadFields(t))
  {
  }

  /** A line that is exactly `H:MM` or `HH:MM` comes back with its hour padded to two digits. */
  lemma NormalizeStrict(s: string)
    requires StrictForm(s)
    ensures NormalizeTime(s) == Some(if |s| == 4 then "0" + s else s)
  {
    DigitNotSpace(s[0]);
    DigitNotSpace(s[|s| - 1]);
    NormalizeUntrimmed(s);
    StrictBranch(s);
  }

  lemma StrictExamplePad(t: string)
    requires t == "7:00"
    ensures PadFields(t) == "07:00"
  {
    assert t[1] == ':' && t[..1] == "7" && t[2..] == "00";
    var p := PadStart("7", 2, '0');
    assert p[0] == '0' && p[1] == '7';
    assert p == "07";
  }
  // ---------- formatTimeForDisplay ----------

  /** The index of the first colon, or the length when there is none. */
  function ColonIndex(s: string): (c: nat)
    ensures c <= |s|
    ensures c < |s| ==> s[c] == ':'
    ensures forall k :: 0 <= k < c ==> s[k] != ':'
  {
    if s == [] then 0 else if s[0] == ':' then 0 else 1 + ColonIndex(s[1..])
  }

  /** `t.split(":")[0]`. */
  function Part0(s: string): string {
    s[..ColonIndex(s)]
  }

  /** `t.split(":")[1]`, or None (`undefined`) when there is no colon. */
  function Part1(s: string): Option<string> {
    var c := ColonIndex(s);
    if c == |s| then None
    else
      var rest := s[c + 1..];
      Some(rest[..ColonIndex(rest)])
  }

  /** The longest run of digits at the start of s. */
  function DigitPrefix(s: string): (d: string)
    ensures |d| <= |s| && d == s[..|d|] && AllDigits(d)
    ensures |d| == |s| || !IsDigit(s[|d|])
  {
    if s != [] && IsDigit(s[0]) then [s[0]] + DigitPrefix(s[1..]) else []
  }

  lemma {:induction false} DigitPrefixAll(s: string)
    requires AllDigits(s)
    ensures DigitPrefix(s) == s
  {
    if s != [] {
      DigitPrefixAll(s[1..]);
    }
  }

  /** `parseInt` after leading whitespace: one optional sign, then the longest digit run. */
  function ParseSigned(t: string): Option<int> {
    var neg := |t| > 0 && t[0] == '-';
    var u := if |t| > 0 && (t[0] == '-' || t[0] == '+') then t[1..] else t;
    var d := DigitPrefix(u);
    if d == [] then None
    else
      var v: int := DigitsValue(d);
      Some(if neg then -v else v)
  }

  /** `parseInt(s, 10)`: leading whitespace is skipped; no digits at all is None (`NaN`). */
  function ParseInt(s: string): Option<int> {
    ParseSigned(TrimStart(s))
  }

  /** `parseInt` of a run of digits is its value. */
  lemma ParseDigits(s: string)
    requires s != [] && AllDigits(s)
    ensures ParseInt(s) == Some(DigitsValue(s))
  {
    DigitNotSpace(s[0]);
    assert TrimStart(s) == s;
    DigitPrefixAll(s);
  }

  /** `((hh + 11) % 12) + 1`, with JavaScript's remainder. */
  function DisplayHour(hh: int): int {
    JsRem(hh + 11, 12) + 1
  }

  /** For a 24-hour hour the displayed hour is the 12-hour clock's: 12 for 0 and 12, otherwise hh mod 12. */
  lemma DisplayHourClock(hh: int)
    requires 0 <= hh
    ensures 1 <= DisplayHour(hh) <= 12
    ensures DisplayHour(hh) == if hh % 12 == 0 then 12 else hh % 12
  {
  }

  /** `hh >= 12 ? "PM" : "AM"`. */
  function MeridiemOf(hh: int): Meridiem {
    if hh >= 12 then PM else AM
  }

  function MeridiemText(m: Meridiem): string {
    if m == AM then "AM" else "PM"
  }

  /**
   * `String(mm)` of the minutes field: `"undefined"` when there is no colon (the
   * destructuring then leaves `mm` undefined), `"NaN"` when the field is not a
   * number, and otherwise the number read.
   */
  function MinutesText(t: string): (r: string)
    ensures r == "undefined" <==> Part1(t).None?
    ensures r == "NaN" <==> Part1(t).Some? && ParseInt(Part1(t).value).None?
  {
    match Part1(t)
    case None => "undefined"
    case Some(p) =>
      match ParseInt(p)
      case None => "NaN"
      case Some(v) =>
        var r := IntToString(v);
        assert r[0] == '-' || IsDigit(r[0]);
        r
  }

  /** `${h}:${mm} ${suffix}`. */
  function DisplayText(h: string, mm: string, m: Meridiem): string {
    h + ":" + mm + " " + MeridiemText(m)
  }

  /** The display text for a numeric hour and the minutes text. */
  function Display(hh: int, mm: string): string {
    DisplayText(IntToString(DisplayHour(hh)), PadStart(mm, 2, '0'), MeridiemOf(hh))
  }

  /**
   * `formatTimeForDisplay`: the empty string stays empty, a time whose hour part
   * is not a number comes back unchanged, and anything else becomes
   * `<hour>:<minutes padded to two> AM|PM`.
   */
  function FormatTimeForDisplay(t: string): (r: string)
    ensures t == "" ==> r == ""
    ensures ParseInt(Part0(t)).None? ==> r == t
  {
    if t == "" then ""
    else
      match ParseInt(Part0(t))
      case None => t
      case Some(hh) => Display(hh, MinutesText(t))
  }

  /** A time with no colon keeps its hour but shows `undefined` for the missing minutes. */
  lemma FormatNoColon(t: string, hh: int)
    requires ':' !in t && ParseInt(t) == Some(hh)
    ensures FormatTimeForDisplay(t) == Display(hh, "undefined")
  {
    assert ColonIndex(t) == |t|;
    assert Part0(t) == t;
  }

  /** `"7"` is shown as `"7:undefined AM"`. */
  lemma FormatNoColonExample()
    ensures FormatTimeForDisplay("7") == "7:undefined AM"
  {
    assert Display(7, "undefined") == "7:undefined AM";
    assert "7"[0] == '7';
    ParseDigits("7");
    assert DigitsValue("7") == 7;
    FormatNoColon("7", 7);
  }

  /** The fields of a stored time as `split(":")` sees them. */
  lemma StoredFields(t: string)
    requires WellFormedTime(t)
    ensures Part0(t) == t[..2] && Part1(t) == Some(t[3..])
  {
    assert ColonIndex(t) == 2 by {
      assert t[0] != ':' && t[1] != ':' && t[2] == ':';
    }
    var rest := t[3..];
    assert ColonIndex(rest) == 2 by {
      assert rest[0] != ':' && rest[1] != ':';
    }
    assert rest[..2] == rest;
  }

  /** A stored time takes the numeric branch, with its own hour and its minutes read back as a number. */
  lemma FormatStored(t: string)
    requires WellFormedTime(t)
    ensures FormatTimeForDisplay(t) == Display(HoursOf(t), MinutesText(t))
  {
    StoredFields(t);
    ParseDigits(t[..2]);
  }

  /** The minutes of a stored time, rendered and padded again, are unchanged. */
  lemma MinutesOfStored(t: string)
    requires WellFormedTime(t)
    ensures PadStart(MinutesText(t), 2, '0') == t[3..]
  {
    var mm := t[3..];
    assert AllDigits(mm) by {
      assert mm[0] == t[3] && mm[1] == t[4];
    }
    MinutesTextOf(t);
    Pad2OfDigits(mm);
    assert PadStart(MinutesText(t), 2, '0') == Pad2(DigitsValue(mm));
  }

  lemma MinutesTextOf(t: string)
    requires WellFormedTime(t)
    ensures MinutesText(t) == NatToString(DigitsValue(t[3..]))
  {
    StoredFields(t);
    ParseDigits(t[3..]);
  }

  /**
   * A stored time displays as its 12-hour hour (1 to 12), a colon, its minutes
   * unchanged, and PM exactly for hours from 12 on.
   */
  lemma FormatWellFormed(t: string)
    requires WellFormedTime(t)
    ensures 1 <= DisplayHour(HoursOf(t)) <= 12
    ensures FormatTimeForDisplay(t) == DisplayText(NatToString(DisplayHour(HoursOf(t))), t[3..], MeridiemOf(HoursOf(t)))
  {
    DisplayHourClock(HoursOf(t));
    FormatStored(t);
    MinutesOfStored(t);
  }

  /** The meridiem a typed suffix names: `(AM|PM|am|pm)`, and None for anything else. */
  function SuffixMeridiem(suf: string): (r: Option<Meridiem>)
    ensures r.Some? ==> |suf| == 2
  {
    if suf == "AM" || suf == "am" then Some(AM)
    else if suf == "PM" || suf == "pm" then Some(PM)
    else None
  }

  /** The expression matches at the start of f, with the colon right after the n hour digits. */
  lemma StartMatch(f: string, n: nat)
    requires n == 1 || n == 2
    requires n + 3 <= |f| && AllDigits(f[..n]) && f[n] == ':' && AllDigits(f[n + 1..n + 3])
    ensures MatchAt(f, 0) && ColonAt(f, 0) == n && FirstMatch(f, 0) == Some(0)
  {
    assert IsDigit(f[..n][0]) && IsDigit(f[n + 1..n + 3][0]) && IsDigit(f[n + 1..n + 3][1]);
    if n == 2 {
      assert IsDigit(f[..n][1]);
      assert TwoDigitAt(f, 0);
    } else {
      assert !TwoDigitAt(f, 0);
    }
  }

  /** `\s*` from j steps over m whitespace characters and stops at the next one. */
  lemma {:induction false} SkipOver(f: string, j: nat, m: nat)
    requires j + m <= |f| && forall k :: j <= k < j + m ==> IsSpace(f[k])
    requires j + m == |f| || !IsSpace(f[j + m])
    ensures SkipSpaces(f, j) == j + m
    decreases m
  {
    if m > 0 {
      SkipOver(f, j + 1, m - 1);
    }
  }

  /**
   * A match at the start of f, laid out as n hour digits, a colon, two minute
   * digits and m whitespace characters before position n + 3 + m: its hour,
   * minutes and suffix are those pieces.
   */
  lemma MatchPieces(f: string, n: nat, m: nat)
    requires n == 1 || n == 2
    requires n + 3 + m <= |f| && AllDigits(f[..n]) && f[n] == ':' && AllDigits(f[n + 1..n + 3])
    requires forall k :: n + 3 <= k < n + 3 + m ==> IsSpace(f[k])
    requires n + 3 + m == |f| || !IsSpace(f[n + 3 + m])
    ensures MatchAt(f, 0) && FirstMatch(f, 0) == Some(0)
    ensures MatchHour(f, 0) == DigitsValue(f[..n]) && MatchMinutes(f, 0) == f[n + 1..n + 3]
    ensures MatchMeridiem(f, 0) == MeridiemAt(f, n + 3 + m)
  {
    StartMatch(f, n);
    SkipOver(f, n + 3, m);
    assert f[0..n] == f[..n];
    SuffixAfter(f, 0, n + 3 + m);
  }

  /** The suffix of a match is read where its whitespace ends. */
  lemma SuffixAfter(f: string, i: nat, j: nat)
    requires MatchAt(f, i) && SkipSpaces(f, ColonAt(f, i) + 3) == j
    ensures MatchMeridiem(f, i) == MeridiemAt(f, j)
  {
  }

  /** Text that is not in the strict form and has no whitespace at its ends goes to the match branch. */
  lemma MatchBranchOnly(f: string)
    requires |f| > 5 && !IsSpace(f[0]) && !IsSpace(f[|f| - 1])
    ensures NormalizeTime(f) == MatchBranch(f)
  {
    NormalizeUntrimmed(f);
  }

  /**
   * Text f laid out as the n characters h, a colon, the two characters mm, the
   * text w and then the rest, by position.
   */
  predicate TimePieces(f: string, n: nat, h: string, mm: string, w: string, rest: string) {
    && n == |h| && |mm| == 2 && |f| == n + 3 + |w| + |rest|
    && f[..n] == h && f[n] == ':' && f[n + 1..n + 3] == mm
    && f[n + 3..n + 3 + |w|] == w && f[n + 3 + |w|..] == rest
  }

  /** The text `h:mm`, then w, then the rest, as the positions of its pieces. */
  lemma SplitPieces(f: string, h: string, mm: string, w: string, rest: string)
    requires f == h + ":" + mm + w + rest && |mm| == 2
    ensures TimePieces(f, |h|, h, mm, w, rest)
  {
    assert f == (h + ":" + mm) + w + rest;
  }

  /**
   * `normalizeTime` on a text f that is one or two hour digits h, a colon, two
   * minute digits mm, whitespace w and one of the four suffix spellings suf (f
   * given by the positions of these pieces): under the 12-hour rule a PM hour
   * below 12 gains 12 and 12 AM becomes 0 (any other hour, 25 included, is
   * kept), the hour is padded to two digits and the minutes are kept.
   */
  lemma NormalizeTwelveHour(f: string, n: nat, h: string, mm: string, w: string, suf: string)
    requires 1 <= n <= 2 && AllDigits(h) && AllDigits(mm)
    requires AllSpaces(w)
    requires SuffixMeridiem(suf).Some?
    requires TimePieces(f, n, h, mm, w, suf)
    ensures NormalizeTime(f) == Some(Pad2(To24(DigitsValue(h), SuffixMeridiem(suf))) + ":" + mm)
  {
    var m := |w|;
    SpacesAt(f, n + 3, w);
    SuffixAt(f, n + 3 + m, suf);
    assert f[0] == h[0];
    TypedRead(f, n, m, DigitsValue(h), SuffixMeridiem(suf), mm);
  }

  /** Whitespace w copied into f at i is whitespace in f. */
  lemma SpacesAt(f: string, i: nat, w: string)
    requires i + |w| <= |f| && f[i..i + |w|] == w
    requires AllSpaces(w)
    ensures forall k :: i <= k < i + |w| ==> IsSpace(f[k])
  {
    forall k | i <= k < i + |w|
      ensures IsSpace(f[k])
    {
      assert f[k] == w[k - i];
    }
  }

  /** The suffix read at j is the one the two characters there spell, and neither is whitespace. */
  lemma SuffixAt(f: string, j: nat, suf: string)
    requires j + 2 == |f| && f[j..] == suf
    requires SuffixMeridiem(suf).Some?
    ensures MeridiemAt(f, j) == SuffixMeridiem(suf) && !IsSpace(f[j]) && !IsSpace(f[|f| - 1])
  {
    assert f[j] == suf[0] && f[j + 1] == suf[1];
  }

  /** `normalizeTime` of a match at the start of f laid out as `MatchPieces` describes. */
  lemma TypedRead(f: string, n: nat, m: nat, hour: nat, ap: Option<Meridiem>, mm: string)
    requires n == 1 || n == 2
    requires n + 5 + m == |f| && AllDigits(f[..n]) && f[n] == ':' && AllDigits(f[n + 1..n + 3])
    requires forall k :: n + 3 <= k < n + 3 + m ==> IsSpace(f[k])
    requires !IsSpace(f[n + 3 + m]) && !IsSpace(f[|f| - 1])
    requires hour == DigitsValue(f[..n]) && ap == MeridiemAt(f, n + 3 + m) && mm == f[n + 1..n + 3]
    ensures NormalizeTime(f) == Some(Pad2(To24(hour, ap)) + ":" + mm)
  {
    DigitNotSpace(f[..n][0]);
    MatchBranchOnly(f);
    MatchPieces(f, n, m);
  }

  /**
   * `NormalizeTwelveHour` for a text f whose hour digits h read as hv, and whose
   * adjusted hour is written out as the two digits hh.
   */
  lemma TwelveHourText(f: string, n: nat, h: string, mm: string, w: string, suf: string, hv: nat, hh: string)
    requires 1 <= n <= 2 && AllDigits(h) && AllDigits(mm)
    requires AllSpaces(w)
    requires SuffixMeridiem(suf).Some?
    requires TimePieces(f, n, h, mm, w, suf) && DigitsValue(h) == hv
    requires |hh| == 2 && AllDigits(hh) && DigitsValue(hh) == To24(hv, SuffixMeridiem(suf))
    ensures NormalizeTime(f) == Some(hh + ":" + mm)
  {
    NormalizeTwelveHour(f, n, h, mm, w, suf);
    Pad2OfDigits(hh);
  }

  /** `"7:30 pm"` becomes `"19:30"`. */
  lemma TwelveHourPm(f: string)
    requires f == "7:30 pm"
    ensures NormalizeTime(f) == Some("19:30")
  {
    assert "7" + ":" + "30" + " " + "pm" == f;
    assert "19" + ":" + "30" == "19:30";
    assert DigitsValue("7") == 7;
    assert DigitsValue("19") == 19 by {
      assert "19"[..1] == "1";
    }
    SplitPieces(f, "7", "30", " ", "pm");
    TwelveHourText(f, 1, "7", "30", " ", "pm", 7, "19");
  }

  /** `"12:05am"` becomes `"00:05"`. */
  lemma TwelveHourMidnight(f: string)
    requires f == "12:05am"
    ensures NormalizeTime(f) == Some("00:05")
  {
    assert "12" + ":" + "05" + "" + "am" == f;
    assert "00" + ":" + "05" == "00:05";
    assert DigitsValue("12") == 12 by {
      assert "12"[..1] == "1";
    }
    assert DigitsValue("00") == 0 by {
      assert "00"[..1] == "0";
    }
    SplitPieces(f, "12", "05", "", "am");
    TwelveHourText(f, 2, "12", "05", "", "am", 12, "00");
  }

  /** The hour is not range-checked: `"25:00 pm"` becomes `"25:00"`. */
  lemma TwelveHourOutOfRange(f: string)
    requires f == "25:00 pm"
    ensures NormalizeTime(f) == Some("25:00")
  {
    assert "25" + ":" + "00" + " " + "pm" == f;
    assert "25" + ":" + "00" == "25:00";
    assert DigitsValue("25") == 25 by {
      assert "25"[..1] == "2";
    }
    SplitPieces(f, "25", "00", " ", "pm");
    TwelveHourText(f, 2, "25", "00", " ", "pm", 25, "25");
  }

  /**
   * `normalizeTime` on a text f that is one or two hour digits h, a colon, two
   * minute digits mm, whitespace w and then a tail that does not start with a
   * suffix (f given by the positions of these pieces): the optional group
   * matches nothing, so the hour is only padded to two digits and the minutes
   * are kept.
   */
  lemma NormalizeNoSuffix(f: string, n: nat, h: string, mm: string, w: string, tail: string)
    requires 1 <= n <= 2 && AllDigits(h) && AllDigits(mm)
    requires AllSpaces(w)
    requires NoSuffixTail(tail)
    requires TimePieces(f, n, h, mm, w, tail)
    ensures NormalizeTime(f) == Some(Pad2(DigitsValue(h)) + ":" + mm)
  {
    TailText(f, n, h, mm, w, tail);
    NotStrictBranch(f, n);
  }

  /** The match branch of `NormalizeNoSuffix` on a text f given by the positions of its n hour digits and other pieces. */
  lemma TailText(f: string, n: nat, h: string, mm: string, w: string, tail: string)
    requires 1 <= n <= 2 && AllDigits(h) && AllDigits(mm)
    requires AllSpaces(w)
    requires NoSuffixTail(tail)
    requires TimePieces(f, n, h, mm, w, tail)
    ensures IsDigit(f[0]) && IsDigit(f[n + 1]) && !IsSpace(f[|f| - 1])
    ensures MatchBranch(f) == Some(Pad2(DigitsValue(h)) + ":" + mm)
  {
    var m := |w|;
    SpacesAt(f, n + 3, w);
    TailAt(f, n + 3 + m, tail);
    assert f[0] == h[0] && f[n + 1] == mm[0];
    NoSuffixRead(f, n, m, DigitsValue(h), mm);
  }

  /** Text with a colon after one or two characters and more than two characters after it is not in the strict form. */
  lemma NotStrictBranch(f: string, n: nat)
    requires n == 1 || n == 2
    requires n + 3 < |f| && IsDigit(f[0]) && f[n] == ':' && IsDigit(f[n + 1]) && !IsSpace(f[|f| - 1])
    ensures NormalizeTime(f) == MatchBranch(f)
  {
    DigitNotSpace(f[0]);
    NormalizeUntrimmed(f);
  }

  /** The tail copied into f at j starts and ends where it does in f, and reads the same suffix. */
  lemma TailAt(f: string, j: nat, tail: string)
    requires j + |tail| == |f| && f[j..] == tail && tail != []
    ensures f[j] == tail[0] && f[|f| - 1] == tail[|tail| - 1] && (|tail| >= 2 ==> f[j + 1] == tail[1])
  {
  }

  /** Whitespace only, as `\s*` matches it. */
  predicate AllSpaces(w: string) {
    forall k :: 0 <= k < |w| ==> IsSpace(w[k])
  }

  /** Text that neither starts nor ends with whitespace and does not start with a suffix. */
  predicate NoSuffixTail(tail: string) {
    && tail != [] && !IsSpace(tail[0]) && !IsSpace(tail[|tail| - 1])
    && (|tail| < 2 || !SuffixPair(tail[0], tail[1]))
  }

  /** The two characters spell one of the suffixes `AM`, `am`, `PM`, `pm`. */
  predicate SuffixPair(a: char, b: char) {
    (a == 'A' && b == 'M') || (a == 'a' && b == 'm') || (a == 'P' && b == 'M') || (a == 'p' && b == 'm')
  }

  /** No suffix is read at j unless the two characters there spell one. */
  lemma NoMeridiem(f: string, j: nat)
    requires j + 2 > |f| || !SuffixPair(f[j], f[j + 1])
    ensures MeridiemAt(f, j) == None
  {
    if j + 2 <= |f| {
      var p := f[j..j + 2];
      assert p[0] == f[j] && p[1] == f[j + 1];
    }
  }

  /** The match branch on a match at the start of f whose whitespace is followed by no suffix. */
  lemma NoSuffixRead(f: string, n: nat, m: nat, hour: nat, mm: string)
    requires n == 1 || n == 2
    requires n + 3 + m < |f| && AllDigits(f[..n]) && f[n] == ':' && AllDigits(f[n + 1..n + 3])
    requires forall k :: n + 3 <= k < n + 3 + m ==> IsSpace(f[k])
    requires !IsSpace(f[n + 3 + m]) && !IsSpace(f[|f| - 1])
    requires n + 5 + m > |f| || !SuffixPair(f[n + 3 + m], f[n + 4 + m])
    requires hour == DigitsValue(f[..n]) && mm == f[n + 1..n + 3]
    ensures MatchBranch(f) == Some(Pad2(hour) + ":" + mm)
  {
    NoMeridiem(f, n + 3 + m);
    MatchPieces(f, n, m);
    assert MatchHourField(f, 0) == Pad2(hour);
    assert FromMatch(f, 0) == Pad2(hour) + ":" + mm;
  }

  /** `NormalizeNoSuffix` with the padded hour written out as the two digits hh. */
  lemma NoSuffixText(f: string, n: nat, h: string, mm: string, w: string, tail: string, hh: string)
    requires 1 <= n <= 2 && AllDigits(h) && AllDigits(mm)
    requires AllSpaces(w)
    requires NoSuffixTail(tail)
    requires TimePieces(f, n, h, mm, w, tail)
    requires |hh| == 2 && AllDigits(hh) && DigitsValue(hh) == DigitsValue(h)
    ensures NormalizeTime(f) == Some(hh + ":" + mm)
  {
    NormalizeNoSuffix(f, n, h, mm, w, tail);
    Pad2OfDigits(hh);
  }

  /** `"7:30 p.m."` is not read as PM: the suffix group needs `pm` with no dot, so it becomes `"07:30"`. */
  lemma NoSuffixDotted(f: string)
    requires f == "7:30 p.m."
    ensures NormalizeTime(f) == Some("07:30")
  {
    assert "7" + ":" + "30" + " " + "p.m." == f;
    assert "07" + ":" + "30" == "07:30";
    assert DigitsValue("7") == 7;
    assert DigitsValue("07") == 7 by {
      assert "07"[..1] == "0";
    }
    SplitPieces(f, "7", "30", " ", "p.m.");
    NoSuffixText(f, 1, "7", "30", " ", "p.m.", "07");
  }

  /** The match branch reads a display string back as hour, minutes and suffix. */
  lemma ReadDisplay(h: string, mm: string, m: Meridiem)
    requires 1 <= |h| <= 2 && AllDigits(h) && |mm| == 2 && AllDigits(mm)
    ensures NormalizeTime(DisplayText(h, mm, m)) == Some(Pad2(To24(DigitsValue(h), Some(m))) + ":" + mm)
  {
    assert DisplayText(h, mm, m) == h + ":" + mm + " " + MeridiemText(m);
    assert SuffixMeridiem(MeridiemText(m)) == Some(m);
    SplitPieces(DisplayText(h, mm, m), h, mm, " ", MeridiemText(m));
    NormalizeTwelveHour(DisplayText(h, mm, m), |h|, h, mm, " ", MeridiemText(m));
  }

  /** Turning a display hour and its suffix back into 24-hour time gives the original hour. */
  lemma To24OfDisplay(hh: nat)
    requires hh <= 23
    ensures 1 <= DisplayHour(hh) <= 12
    ensures To24(DisplayHour(hh) as nat, Some(MeridiemOf(hh))) == hh
  {
    DisplayHourClock(hh);
  }

  /** The hour digits of a display text, read back with its suffix, give the two-digit 24-hour field. */
  lemma HourBack(hh: nat)
    requires hh <= 23
    ensures 1 <= DisplayHour(hh) <= 12
    ensures Pad2(To24(DigitsValue(NatToString(DisplayHour(hh))), Some(MeridiemOf(hh)))) == Pad2(hh)
  {
    To24OfDisplay(hh);
    NatToStringValue(DisplayHour(hh));
  }

  /** The display text of a stored time, read back by the match branch, is that time. */
  lemma ReadStoredDisplay(t: string)
    requires WellFormedTime(t) && HoursOf(t) <= 23
    ensures 1 <= DisplayHour(HoursOf(t))
    ensures NormalizeTime(DisplayText(NatToString(DisplayHour(HoursOf(t))), t[3..], MeridiemOf(HoursOf(t)))) == Some(t)
  {
    var hh := HoursOf(t);
    StoredSplit(t);
    HourBack(hh);
    var h := NatToString(DisplayHour(hh));
    assert 1 <= |h| <= 2 && AllDigits(h);
    ReadDisplay(h, t[3..], MeridiemOf(hh));
  }

  /** A stored time is its hour field re-rendered, a colon and its minutes. */
  lemma StoredSplit(t: string)
    requires WellFormedTime(t)
    ensures Pad2(HoursOf(t)) + ":" + t[3..] == t
    ensures |t[3..]| == 2 && AllDigits(t[3..])
  {
    Pad2OfDigits(t[..2]);
    assert t[..2] + ":" + t[3..] == t;
  }

  /**
   * Displaying a stored time and normalising the display text gives the stored
   * time back: the two directions of the 12-hour conversion are inverse.
   */
  lemma DisplayRoundTrip(t: string)
    requires WellFormedTime(t) && HoursOf(t) <= 23
    ensures NormalizeTime(FormatTimeForDisplay(t)) == Some(t)
  {
    FormatWellFormed(t);
    ReadStoredDisplay(t);
  }

  // ---------- the clock reading of checkReminders ----------

  /** The minutes of a stored time as a number. */
  function MinutesOf(t: string): nat
    requires WellFormedTime(t)
  {
    assert AllDigits(t[3..]) by {
      assert t[3..][0] == t[3] && t[3..][1] == t[4];
    }
    DigitsValue(t[3..])
  }

  /** The `current` string of `checkReminders`: hours and minutes, each padded to two digits. */
  function CurrentTime(hour: nat, minute: nat): string {
    Pad2(hour) + ":" + Pad2(minute)
  }

  /** On a clock reading the current string is a stored time naming that hour and minute. */
  lemma CurrentTimeFields(hour: nat, minute: nat)
    requires hour < 24 && minute < 60
    ensures WellFormedTime(CurrentTime(hour, minute))
    ensures HoursOf(CurrentTime(hour, minute)) == hour && MinutesOf(CurrentTime(hour, minute)) == minute
  {
    Pad2Value(hour);
    Pad2Value(minute);
    var c := JoinTime(Pad2(hour), Pad2(minute));
    assert c == CurrentTime(hour, minute);
  }

  /** Every stored time is the current string at its own hour and minute. */
  lemma StoredIsCurrent(t: string)
    requires WellFormedTime(t)
    ensures CurrentTime(HoursOf(t), MinutesOf(t)) == t
  {
    var hh, mm := t[..2], t[3..];
    assert AllDigits(mm) by {
      assert mm[0] == t[3] && mm[1] == t[4];
    }
    Pad2OfDigits(hh);
    Pad2OfDigits(mm);
    assert t == hh + ":" + mm;
  }

  /** A habit's stored time is due exactly at the clock reading of its own hour and minute. */
  lemma CurrentTimeMatches(hour: nat, minute: nat, t: string)
    requires hour < 24 && minute < 60 && WellFormedTime(t)
    ensures CurrentTime(hour, minute) == t <==> HoursOf(t) == hour && MinutesOf(t) == minute
  {
    CurrentTimeFields(hour, minute);
    StoredIsCurrent(t);
  }
}
