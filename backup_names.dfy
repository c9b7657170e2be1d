/**
 * Storage names of backups: `getDate()` turns the clock's ISO-8601 string into
 * `YYYY-MM-DD-HH-MM-SS`, and a backup is stored under `getDate() + "." + title`.
 * The clock is a parameter. Because the stamp is fixed-width and zero-padded,
 * string order on storage names is chronological order of the seconds.
 */
module BackupNames {
  import opened Base
  import opened Lex

  /** A calendar instant, field by field, as `Date` decomposes it in UTC. */
  datatype Instant = Instant(year: int, month: int, day: int,
                             hour: int, minute: int, second: int, millis: int)

  /** The ranges a JavaScript `Date` produces (years as far as the `Date` range reaches). */
  predicate ValidInstant(t: Instant) {
    && -271821 <= t.year <= 275760
    && 1 <= t.month <= 12 && 1 <= t.day <= 31
    && 0 <= t.hour <= 23 && 0 <= t.minute <= 59 && 0 <= t.second <= 59
    && 0 <= t.millis <= 999
  }

  /** Years that `toISOString` writes with exactly four digits. */
  predicate FourDigitYear(t: Instant) {
    0 <= t.year <= 9999
  }

  function Pow10(w: nat): (r: nat)
    ensures r >= 1
  {
    if w == 0 then 1 else 10 * Pow10(w - 1)
  }

  /** The last `w` decimal digits of `n`, zero-padded on the left (like `padStart(w, "0")`). */
  function Pad(n: nat, w: nat): (r: string)
    ensures |r| == w
    ensures forall i :: 0 <= i < w ==> IsDigit(r[i])
    decreases w
  {
    if w == 0 then "" else Pad(n / 10, w - 1) + [Digit(n % 10)]
  }

  /** Padded numbers of one width compare as strings exactly as they compare as numbers. */
  lemma {:induction false} PadOrder(n1: nat, n2: nat, w: nat)
    requires n1 < Pow10(w) && n2 < Pow10(w)
    ensures Less(Pad(n1, w), Pad(n2, w)) <==> n1 < n2
    ensures Pad(n1, w) == Pad(n2, w) <==> n1 == n2
    decreases w
  {
    if w == 0 {
      LessIrreflexive("");
    } else {
      var q1, q2 := n1 / 10, n2 / 10;
      var d1, d2 := [Digit(n1 % 10)], [Digit(n2 % 10)];
      PadOrder(q1, q2, w - 1);
      LessAfterEqualWidth(Pad(q1, w - 1), d1, Pad(q2, w - 1), d2);
      assert Less(d1, d2) <==> n1 % 10 < n2 % 10 by {
        assert d1[1..] == [] && d2[1..] == [];
      }
      if Pad(n1, w) == Pad(n2, w) {
        assert Pad(q1, w - 1) == Pad(n1, w)[..w - 1] == Pad(n2, w)[..w - 1] == Pad(q2, w - 1);
        assert Digit(n1 % 10) == Pad(n1, w)[w - 1] == Pad(n2, w)[w - 1] == Digit(n2 % 10);
      }
    }
  }

  /** `Date.prototype.toISOString`: six signed digits for years outside 0..9999. */
  function YearText(y: int): string
    requires -999999 <= y <= 999999
  {
    if 0 <= y <= 9999 then Pad(y, 4)
    else if y < 0 then "-" + Pad(-y, 6)
    else "+" + Pad(y, 6)
  }

  /** The date half of the ISO string, `YYYY-MM-DD`. */
  function DatePart(t: Instant): string
    requires ValidInstant(t)
  {
    YearText(t.year) + "-" + Pad(t.month, 2) + "-" + Pad(t.day, 2)
  }

  /** The time of day down to the second, `HH<sep>mm<sep>ss`. */
  function TimePart(t: Instant, sep: char): (r: string)
    requires ValidInstant(t)
    ensures |r| == 8
  {
    Pad(t.hour, 2) + [sep] + Pad(t.minute, 2) + [sep] + Pad(t.second, 2)
  }

  /** `new Date().toISOString()`: `YYYY-MM-DDTHH:mm:ss.sssZ` in UTC. */
  function IsoString(t: Instant): string
    requires ValidInstant(t)
  {
    DatePart(t) + "T" + TimePart(t, ':') + "." + Pad(t.millis, 3) + "Z"
  }

  /** The characters JavaScript's `.` does not match. */
  predicate IsLineTerminator(c: char) {
    c == '\n' || c == '\r' || c == '\U{2028}' || c == '\U{2029}'
  }

  /** `d` stands for `\d`; every other template character stands for itself. */
  const StampTemplate: string := "dddd-dd-ddTdd:dd:dd"

  /** Whether `s` matches `/(^\d{4}-\d{2}-\d{2})T(\d{2}:\d{2}:\d{2}).*$/`. */
  predicate MatchesIsoPattern(s: string) {
    && |s| >= 19
    && (forall i :: 0 <= i < 19 ==>
          if StampTemplate[i] == 'd' then IsDigit(s[i]) else s[i] == StampTemplate[i])
    && (forall i :: 19 <= i < |s| ==> !IsLineTerminator(s[i]))
  }

  /** `t.replace(/:/g, '-')`. */
  function ColonsToDashes(s: string): (r: string)
    ensures |r| == |s|
  {
    seq(|s|, i requires 0 <= i < |s| => if s[i] == ':' then '-' else s[i])
  }

  /**
   * `getDate()`: the ISO string rewritten by the regular expression, which
   * keeps the date and the time with `-` for `:` and drops the fraction. When
   * the pattern does not match, `replace` leaves the string as it is.
   */
  function GetDate(t: Instant): string
    requires ValidInstant(t)
  {
    var iso := IsoString(t);
    if MatchesIsoPattern(iso) then iso[..10] + "-" + ColonsToDashes(iso[11..19]) else iso
  }

  /** Fields joined by `-`, each zero-padded to its width. */
  function Stamp(vs: seq<nat>, ws: seq<nat>): string
    requires |vs| == |ws| > 0
    decreases |vs|
  {
    if |vs| == 1 then Pad(vs[0], ws[0])
    else Pad(vs[0], ws[0]) + "-" + Stamp(vs[1..], ws[1..])
  }

  /** `YYYY-MM-DD-HH-MM-SS`, built field by field: the reference for `GetDate`. */
  function DateStamp(t: Instant): string
    requires ValidInstant(t) && FourDigitYear(t)
  {
    Stamp([t.year, t.month, t.day, t.hour, t.minute, t.second], [4, 2, 2, 2, 2, 2])
  }

  /** Lexicographic order on sequences of numbers of one length. */
  predicate NumLexLess(a: seq<nat>, b: seq<nat>)
    requires |a| == |b|
    decreases |a|
  {
    |a| > 0 && (a[0] < b[0] || (a[0] == b[0] && NumLexLess(a[1..], b[1..])))
  }

  /** The instant truncated to whole seconds, most significant field first. */
  function SecondKey(t: Instant): seq<nat>
    requires ValidInstant(t) && FourDigitYear(t)
  {
    [t.year, t.month, t.day, t.hour, t.minute, t.second]
  }

  /** `t1` falls in an earlier second than `t2`. */
  predicate EarlierSecond(t1: Instant, t2: Instant)
    requires ValidInstant(t1) && FourDigitYear(t1)
    requires ValidInstant(t2) && FourDigitYear(t2)
  {
    NumLexLess(SecondKey(t1), SecondKey(t2))
  }

  lemma EqualWidthSplit(a1: string, b1: string, a2: string, b2: string)
    requires |a1| == |a2| && a1 + b1 == a2 + b2
    ensures a1 == a2 && b1 == b2
  {
    assert a1 == (a1 + b1)[..|a1|] && a2 == (a2 + b2)[..|a2|];
    assert b1 == (a1 + b1)[|a1|..] && b2 == (a2 + b2)[|a2|..];
  }

  /** Equal-width prefixes followed by the same separator compare like the prefixes. */
  lemma SeparatedOrder(a1: string, a2: string, sep: string)
    requires |a1| == |a2|
    ensures Less(a1 + sep, a2 + sep) <==> Less(a1, a2)
    ensures a1 + sep == a2 + sep <==> a1 == a2
  {
    LessAfterEqualWidth(a1, sep, a2, sep);
    LessIrreflexive(sep);
    if a1 + sep == a2 + sep {
      EqualWidthSplit(a1, sep, a2, sep);
    }
  }

  function StampWidth(ws: seq<nat>): nat
    decreases |ws|
  {
    if |ws| == 0 then 0 else if |ws| == 1 then ws[0] else ws[0] + 1 + StampWidth(ws[1..])
  }

  lemma {:induction false} StampLength(vs: seq<nat>, ws: seq<nat>)
    requires |vs| == |ws| > 0
    ensures |Stamp(vs, ws)| == StampWidth(ws)
    decreases |vs|
  {
    if |vs| > 1 {
      StampLength(vs[1..], ws[1..]);
    }
  }

  /**
   * Stamps of one layout compare as strings exactly as their fields compare
   * lexicographically, and are equal exactly when the fields are.
   */
  lemma {:induction false} StampOrder(vs1: seq<nat>, vs2: seq<nat>, ws: seq<nat>)
    requires |vs1| == |vs2| == |ws| > 0
    requires forall i :: 0 <= i < |ws| ==> vs1[i] < Pow10(ws[i]) && vs2[i] < Pow10(ws[i])
    ensures Less(Stamp(vs1, ws), Stamp(vs2, ws)) <==> NumLexLess(vs1, vs2)
    ensures Stamp(vs1, ws) == Stamp(vs2, ws) <==> vs1 == vs2
    decreases |ws|
  {
    PadOrder(vs1[0], vs2[0], ws[0]);
    var p1, p2 := Pad(vs1[0], ws[0]), Pad(vs2[0], ws[0]);
    if |ws| == 1 {
      assert !NumLexLess(vs1[1..], vs2[1..]);
      assert vs1 == [vs1[0]] && vs2 == [vs2[0]];
    } else {
      var r1, r2 := Stamp(vs1[1..], ws[1..]), Stamp(vs2[1..], ws[1..]);
      StampOrder(vs1[1..], vs2[1..], ws[1..]);
      SeparatedOrder(p1, p2, "-");
      LessAfterEqualWidth(p1 + "-", r1, p2 + "-", r2);
      if Stamp(vs1, ws) == Stamp(vs2, ws) {
        EqualWidthSplit(p1 + "-", r1, p2 + "-", r2);
      }
      assert vs1 == [vs1[0]] + vs1[1..] && vs2 == [vs2[0]] + vs2[1..];
    }
  }

  lemma TimePartChars(t: Instant, sep: char)
    requires ValidInstant(t)
    ensures forall i :: 0 <= i < 8 ==>
              if i in {2, 5} then TimePart(t, sep)[i] == sep else IsDigit(TimePart(t, sep)[i])
  {
    var h, mi, s := Pad(t.hour, 2), Pad(t.minute, 2), Pad(t.second, 2);
    forall i | 0 <= i < 8
      ensures if i in {2, 5} then TimePart(t, sep)[i] == sep else IsDigit(TimePart(t, sep)[i])
    {
      if i < 2 { assert TimePart(t, sep)[i] == h[i]; }
      else if 2 < i < 5 { assert TimePart(t, sep)[i] == mi[i - 3]; }
      else if 5 < i { assert TimePart(t, sep)[i] == s[i - 6]; }
    }
  }

  lemma DatePartChars(t: Instant)
    requires ValidInstant(t) && FourDigitYear(t)
    ensures |DatePart(t)| == 10
    ensures forall i :: 0 <= i < 10 ==>
              if i in {4, 7} then DatePart(t)[i] == '-' else IsDigit(DatePart(t)[i])
  {
    var y, mo, d := Pad(t.year, 4), Pad(t.month, 2), Pad(t.day, 2);
    forall i | 0 <= i < 10
      ensures if i in {4, 7} then DatePart(t)[i] == '-' else IsDigit(DatePart(t)[i])
    {
      if i < 4 { assert DatePart(t)[i] == y[i]; }
      else if 4 < i < 7 { assert DatePart(t)[i] == mo[i - 5]; }
      else if 7 < i { assert DatePart(t)[i] == d[i - 8]; }
    }
  }

  lemma ColonsBecomeDashes(t: Instant)
    requires ValidInstant(t)
    ensures ColonsToDashes(TimePart(t, ':')) == TimePart(t, '-')
  {
    TimePartChars(t, ':');
    TimePartChars(t, '-');
    var a, b := ColonsToDashes(TimePart(t, ':')), TimePart(t, '-');
    forall i | 0 <= i < 8 ensures a[i] == b[i] {
      if i !in {2, 5} {
        assert TimePart(t, ':')[i] == TimePart(t, '-')[i] by {
          if i < 2 { assert TimePart(t, ':')[i] == Pad(t.hour, 2)[i] == TimePart(t, '-')[i]; }
          else if i < 5 { assert TimePart(t, ':')[i] == Pad(t.minute, 2)[i - 3] == TimePart(t, '-')[i]; }
          else { assert TimePart(t, ':')[i] == Pad(t.second, 2)[i - 6] == TimePart(t, '-')[i]; }
        }
      }
    }
  }

  /** For four-digit years the ISO string matches the pattern `getDate` rewrites with. */
  lemma IsoMatches(t: Instant)
    requires ValidInstant(t) && FourDigitYear(t)
    ensures MatchesIsoPattern(IsoString(t))
    ensures IsoString(t)[..10] == DatePart(t) && IsoString(t)[11..19] == TimePart(t, ':')
  {
    DatePartChars(t);
    TimePartChars(t, ':');
    var date, time, tail := DatePart(t), TimePart(t, ':'), "." + Pad(t.millis, 3) + "Z";
    var iso := IsoString(t);
    assert iso == date + "T" + time + tail;
    forall i | 0 <= i < 19
      ensures if StampTemplate[i] == 'd' then IsDigit(iso[i]) else iso[i] == StampTemplate[i]
    {
      if i < 10 { assert iso[i] == date[i]; }
      else if 10 < i { assert iso[i] == time[i - 11]; }
    }
    forall i | 19 <= i < |iso| ensures !IsLineTerminator(iso[i]) {
      assert iso[i] == tail[i - 19];
      if 20 <= i < 23 { assert iso[i] == Pad(t.millis, 3)[i - 20]; }
    }
    assert iso[..10] == date;
    assert iso[11..19] == time;
  }

  lemma GetDateRewrites(t: Instant)
    requires ValidInstant(t) && FourDigitYear(t)
    ensures GetDate(t) == DatePart(t) + "-" + TimePart(t, '-')
  {
    IsoMatches(t);
    ColonsBecomeDashes(t);
  }

  /** `DateStamp` spelled out field by field. */
  lemma StampOfFields(t: Instant)
    requires ValidInstant(t) && FourDigitYear(t)
    ensures DateStamp(t) == Pad(t.year, 4) + "-" + (Pad(t.month, 2) + "-" + (Pad(t.day, 2) + "-" +
              (Pad(t.hour, 2) + "-" + (Pad(t.minute, 2) + "-" + Pad(t.second, 2)))))
  {
    var ws: seq<nat> := [4, 2, 2, 2, 2, 2];
    var vs: seq<nat> := [t.year, t.month, t.day, t.hour, t.minute, t.second];
    var v1, v2, v3, v4 := vs[1..], vs[2..], vs[3..], vs[4..];
    var w1, w2, w3, w4 := ws[1..], ws[2..], ws[3..], ws[4..];
    assert v1[1..] == v2 && v2[1..] == v3 && v3[1..] == v4 && v4[1..] == [t.second];
    assert w1[1..] == w2 && w2[1..] == w3 && w3[1..] == w4 && w4[1..] == [2];
    assert Stamp(v4, w4) == Pad(t.minute, 2) + "-" + Pad(t.second, 2);
    assert Stamp(v3, w3) == Pad(t.hour, 2) + "-" + Stamp(v4, w4);
    assert Stamp(v2, w2) == Pad(t.day, 2) + "-" + Stamp(v3, w3);
    assert Stamp(v1, w1) == Pad(t.month, 2) + "-" + Stamp(v2, w2);
  }

  lemma StampOfParts(t: Instant)
    requires ValidInstant(t) && FourDigitYear(t)
    ensures DateStamp(t) == DatePart(t) + "-" + TimePart(t, '-')
  {
    StampOfFields(t);
    var y, mo, d := Pad(t.year, 4), Pad(t.month, 2), Pad(t.day, 2);
    var h, mi, s := Pad(t.hour, 2), Pad(t.minute, 2), Pad(t.second, 2);
    assert TimePart(t, '-') == h + "-" + (mi + "-" + s);
    assert DatePart(t) == y + "-" + (mo + "-" + d);
  }

  /**
   * For four-digit years `GetDate` is exactly the fixed-width stamp
   * `YYYY-MM-DD-HH-MM-SS`: 19 characters, digits and dashes only, no `:`.
   */
  lemma GetDateIsStamp(t: Instant)
    requires ValidInstant(t) && FourDigitYear(t)
    ensures GetDate(t) == DateStamp(t)
    ensures |GetDate(t)| == 19 && ':' !in GetDate(t)
    ensures forall i :: 0 <= i < 19 ==>
              if i in {4, 7, 10, 13, 16} then GetDate(t)[i] == '-' else IsDigit(GetDate(t)[i])
  {
    GetDateRewrites(t);
    StampOfParts(t);
    DatePartChars(t);
    TimePartChars(t, '-');
    var date, time := DatePart(t), TimePart(t, '-');
    var r := date + "-" + time;
    forall i | 0 <= i < 19
      ensures if i in {4, 7, 10, 13, 16} then r[i] == '-' else IsDigit(r[i])
    {
      if i < 10 { assert r[i] == date[i]; }
      else if 10 < i { assert r[i] == time[i - 11]; }
    }
  }

  /** Outside years 0..9999 the pattern fails, so `GetDate` keeps the ISO string and its colons. */
  lemma GetDateOfExtendedYear(t: Instant)
    requires ValidInstant(t) && !FourDigitYear(t)
    ensures GetDate(t) == IsoString(t)
    ensures ':' in GetDate(t)
  {
    var iso := IsoString(t);
    var date := DatePart(t);
    assert |date| == 13;
    assert iso == date + "T" + TimePart(t, ':') + "." + Pad(t.millis, 3) + "Z";
    assert iso[0] == date[0] == YearText(t.year)[0];
    assert !IsDigit(iso[0]);
    TimePartChars(t, ':');
    assert iso[16] == TimePart(t, ':')[2] == ':';
  }

  /** Two four-digit-year instants give the same stamp exactly when they fall in the same second. */
  lemma {:induction false} GetDateOrder(t1: Instant, t2: Instant)
    requires ValidInstant(t1) && FourDigitYear(t1)
    requires ValidInstant(t2) && FourDigitYear(t2)
    ensures Less(GetDate(t1), GetDate(t2)) <==> EarlierSecond(t1, t2)
    ensures GetDate(t1) == GetDate(t2) <==> SecondKey(t1) == SecondKey(t2)
  {
    GetDateIsStamp(t1);
    GetDateIsStamp(t2);
    var ws: seq<nat> := [4, 2, 2, 2, 2, 2];
    forall i | 0 <= i < |ws|
      ensures SecondKey(t1)[i] < Pow10(ws[i]) && SecondKey(t2)[i] < Pow10(ws[i])
    {
      assert Pow10(2) == 100 && Pow10(4) == 10000 by {
        assert Pow10(1) == 10 && Pow10(3) == 1000;
      }
    }
    StampOrder(SecondKey(t1), SecondKey(t2), ws);
  }

  /** `getDate() + '.' + backupName`. */
  function BackupName(t: Instant, title: string): string
    requires ValidInstant(t)
  {
    GetDate(t) + "." + title
  }

  /**
   * A backup saved in a later second has a greater storage name whatever the
   * two labels are, so the descending list shows it first.
   */
  lemma LaterSaveSortsAfter(t1: Instant, n1: string, t2: Instant, n2: string)
    requires ValidInstant(t1) && FourDigitYear(t1)
    requires ValidInstant(t2) && FourDigitYear(t2)
    requires EarlierSecond(t1, t2)
    ensures Less(BackupName(t1, n1), BackupName(t2, n2))
  {
    GetDateOrder(t1, t2);
    GetDateIsStamp(t1);
    GetDateIsStamp(t2);
    SeparatedOrder(GetDate(t1), GetDate(t2), ".");
    LessAfterEqualWidth(GetDate(t1) + ".", n1, GetDate(t2) + ".", n2);
  }

  /** Within one second the labels alone order the storage names. */
  lemma SameSecondOrdersByLabel(t1: Instant, n1: string, t2: Instant, n2: string)
    requires ValidInstant(t1) && FourDigitYear(t1)
    requires ValidInstant(t2) && FourDigitYear(t2)
    requires SecondKey(t1) == SecondKey(t2)
    ensures Less(BackupName(t1, n1), BackupName(t2, n2)) <==> Less(n1, n2)
    ensures BackupName(t1, n1) == BackupName(t2, n2) <==> n1 == n2
  {
    GetDateOrder(t1, t2);
    GetDateIsStamp(t1);
    GetDateIsStamp(t2);
    LessAfterEqualWidth(GetDate(t1) + ".", n1, GetDate(t2) + ".", n2);
    LessIrreflexive(GetDate(t1) + ".");
    if BackupName(t1, n1) == BackupName(t2, n2) {
      EqualWidthSplit(GetDate(t1) + ".", n1, GetDate(t2) + ".", n2);
    }
  }
}
