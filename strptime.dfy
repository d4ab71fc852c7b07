/**
  `datetime.strptime` and `datetime.strftime` for the directives the
  timestamp formats use: `%Y %m %b %d %H %M %S`, a blank (which `strptime`
  reads as `\s+`) and literal characters. `strptime` matches the whole text
  case-insensitively and then builds a `datetime`, which rejects a day past the
  end of its month, the second 60 or 61, and the year 0.
*/
module Strptime {
  import opened Wrappers
  import opened Civil
  import opened Patterns

  datatype Directive = Year | Month | MonthAbbr | Day | Hour | Minute | Second | Blank | Lit(c: char)

  type Template = seq<Directive>

  /** `ValueError: time data ... does not match format`, `unconverted data remains`, and the range checks of `datetime()` */
  datatype StrptimeError = DataMismatch | UnconvertedData | OutOfRange

  /** `%b` in the English (C) locale */
  const MonthAbbrs: seq<string> := ["Jan", "Feb", "Mar", "Apr", "May", "Jun", "Jul", "Aug", "Sep", "Oct", "Nov", "Dec"]

  /** The fields `strptime` assumes when a template does not set them. */
  const Defaults: DateTime := DateTime(1900, 1, 1, 0, 0, 0)

  function ToLower(c: char): char {
    if 'A' <= c <= 'Z' then (c as int - 'A' as int + 'a' as int) as char else c
  }

  /** Case-insensitive equality of two strings (ASCII case folding). */
  predicate SameCaseless(a: string, b: string) {
    |a| == |b| && forall i :: 0 <= i < |a| ==> ToLower(a[i]) == ToLower(b[i])
  }

  /** The 0-based month whose abbreviation is `name`, ignoring case. */
  function MonthIndex(name: string, from: nat): (r: Option<nat>)
    requires from <= 12
    ensures r.Some? ==> from <= r.value < 12 && SameCaseless(name, MonthAbbrs[r.value])
    ensures r.None? ==> forall i :: from <= i < 12 ==> !SameCaseless(name, MonthAbbrs[i])
    decreases 12 - from
  {
    if from == 12 then None
    else if SameCaseless(name, MonthAbbrs[from]) then Some(from)
    else MonthIndex(name, from + 1)
  }

  function DigitValue(c: char): nat {
    if IsDigit(c) then c as int - '0' as int else 0
  }

  /** The number a string of decimal digits denotes. */
  function DecimalValue(s: string): nat {
    if s == [] then 0 else DecimalValue(s[..|s| - 1]) * 10 + DigitValue(s[|s| - 1])
  }

  /** `s` starts with `n` digits, one or two, whose value lies in `lo..hi`. */
  predicate InRangeDigits(s: string, lo: int, hi: int, n: nat) {
    1 <= n <= 2 && n <= |s| && AllIn(Digit, s[..n]) && lo <= DecimalValue(s[..n]) <= hi
  }

  /**
    A one- or two-digit field whose value must lie in `lo..hi` (`%m %d %H %M %S`).
    Python reads these with ordered alternations whose two-digit branches come
    first and cover exactly the values in range (`1[0-2]|0[1-9]|[1-9]` for `%m`,
    `6[0-1]|[0-5]\d|\d` for `%S`): two digits when they are in range, otherwise
    the first digit alone when it is.
  */
  function NumberField(s: string, lo: int, hi: int): (r: Option<(int, nat)>)
    ensures r.Some? ==> 1 <= r.value.1 <= 2 && r.value.1 <= |s| && lo <= r.value.0 <= hi
  {
    if |s| >= 2 && IsDigit(s[0]) && IsDigit(s[1]) && lo <= DecimalValue(s[..2]) <= hi then Some((DecimalValue(s[..2]), 2))
    else if |s| >= 1 && IsDigit(s[0]) && lo <= DigitValue(s[0]) <= hi then Some((DigitValue(s[0]), 1))
    else None
  }

  /** A numeric field takes the longest in-range run of one or two digits, and fails when there is none. */
  lemma {:induction false} NumberFieldLongest(s: string, lo: int, hi: int)
    ensures NumberField(s, lo, hi).None? <==> !InRangeDigits(s, lo, hi, 1) && !InRangeDigits(s, lo, hi, 2)
    ensures NumberField(s, lo, hi).Some? ==> var (v, n) := NumberField(s, lo, hi).value;
      InRangeDigits(s, lo, hi, n) && v == DecimalValue(s[..n]) && (n == 1 ==> !InRangeDigits(s, lo, hi, 2))
  {
    if |s| >= 1 {
      assert s[..1][0] == s[0];
      assert s[..1][..0] == [];
      assert DecimalValue(s[..1]) == DigitValue(s[0]);
    }
    if |s| >= 2 {
      assert s[..2][0] == s[0] && s[..2][1] == s[1];
    }
  }

  /** Reads directive `d` at the start of `s`: its value and how many characters it takes. */
  function ReadDirective(d: Directive, s: string): (r: Option<(int, nat)>)
    ensures r.Some? ==> r.value.1 <= |s|
  {
    match d
    case Year => if Run(Digit, s, 4) == 4 then Some((DecimalValue(s[..4]), 4)) else None
    case Month => NumberField(s, 1, 12)
    case Day => NumberField(s, 1, 31)
    case Hour => NumberField(s, 0, 23)
    case Minute => NumberField(s, 0, 59)
    case Second => NumberField(s, 0, 61)
    case MonthAbbr =>
      if |s| >= 3 && MonthIndex(s[..3], 0).Some? then Some((MonthIndex(s[..3], 0).value + 1, 3)) else None
    case Blank => var n := Run(Space, s, |s|); if n >= 1 then Some((0, n)) else None
    case Lit(c) => if |s| >= 1 && ToLower(s[0]) == ToLower(c) then Some((0, 1)) else None
  }

  /** Records the value read for directive `d`. */
  function SetField(acc: DateTime, d: Directive, v: int): DateTime {
    match d
    case Year => acc.(year := v)
    case Month => acc.(month := v)
    case MonthAbbr => acc.(month := v)
    case Day => acc.(day := v)
    case Hour => acc.(hour := v)
    case Minute => acc.(minute := v)
    case Second => acc.(second := v)
    case _ => acc
  }

  /** Matches the template from left to right; the text must be used up. */
  function ReadFields(t: Template, s: string, acc: DateTime): Result<DateTime, StrptimeError>
    decreases |t|
  {
    if t == [] then (if s == [] then Ok(acc) else Err(UnconvertedData))
    else match ReadDirective(t[0], s)
      case None => Err(DataMismatch)
      case Some(r) => ReadFields(t[1..], s[r.1..], SetField(acc, t[0], r.0))
  }

  /** `datetime.strptime(s, t)` */
  function Parse(s: string, t: Template): (r: Result<DateTime, StrptimeError>)
    ensures r.Ok? ==> IsValid(r.value) && InYearRange(r.value)
  {
    match ReadFields(t, s, Defaults)
    case Err(e) => Err(e)
    case Ok(d) => if IsValid(d) && InYearRange(d) then Ok(d) else Err(OutOfRange)
  }

  // ---------------------------------------------------------------------------
  // strftime

  function Pow10(w: nat): nat {
    if w == 0 then 1 else 10 * Pow10(w - 1)
  }

  function DigitChar(n: nat): char
    requires n < 10
  {
    ('0' as int + n) as char
  }

  /** `n` in decimal, zero-padded to width `w` */
  function Pad(n: nat, w: nat): (r: string)
    ensures |r| == w && AllIn(Digit, r)
  {
    if w == 0 then "" else Pad(n / 10, w - 1) + [DigitChar(n % 10)]
  }

  lemma {:induction false} PadValue(n: nat, w: nat)
    requires n < Pow10(w)
    ensures DecimalValue(Pad(n, w)) == n
    decreases w
  {
    if w > 0 {
      PadValue(n / 10, w - 1);
      var p := Pad(n, w);
      assert p[..|p| - 1] == Pad(n / 10, w - 1);
    }
  }

  /**
    Every field lies in the range its directive reads: four digits for `%Y`,
    1 to 12 for `%m`, 1 to 31 for `%d`, 0 to 23 for `%H`, 0 to 59 for `%M` and
    0 to 61 for `%S`, whether or not the fields make a valid date-time.
  */
  predicate InFieldRanges(d: DateTime) {
    && 0 <= d.year <= 9999 && 1 <= d.month <= 12 && 1 <= d.day <= 31
    && 0 <= d.hour <= 23 && 0 <= d.minute <= 59 && 0 <= d.second <= 61
  }

  /** The text `strftime` writes for one directive. */
  function Piece(d: DateTime, dir: Directive): (r: string)
    requires InFieldRanges(d)
    ensures |r| == Width(dir)
  {
    match dir
    case Year => Pad(d.year, 4)
    case Month => Pad(d.month, 2)
    case MonthAbbr => MonthAbbrs[d.month - 1]
    case Day => Pad(d.day, 2)
    case Hour => Pad(d.hour, 2)
    case Minute => Pad(d.minute, 2)
    case Second => Pad(d.second, 2)
    case Blank => " "
    case Lit(c) => [c]
  }

  /** `d.strftime(t)` */
  function Format(d: DateTime, t: Template): string
    requires InFieldRanges(d)
  {
    if t == [] then "" else Piece(d, t[0]) + Format(d, t[1..])
  }

  /** `strftime` writes the pieces of a template one after another. */
  lemma {:induction false} FormatAppend(d: DateTime, a: Template, b: Template)
    requires InFieldRanges(d)
    ensures Format(d, a + b) == Format(d, a) + Format(d, b)
    decreases |a|
  {
    if a == [] {
      assert a + b == b;
    } else {
      assert (a + b)[1..] == a[1..] + b;
      FormatAppend(d, a[1..], b);
    }
  }

  lemma {:induction false} FormatOne(d: DateTime, dir: Directive)
    requires InFieldRanges(d)
    ensures Format(d, [dir]) == Piece(d, dir)
  {
    assert [dir][1..] == [];
  }

  lemma {:induction false} FormatSnoc(d: DateTime, t: Template, dir: Directive)
    requires InFieldRanges(d)
    ensures Format(d, t + [dir]) == Format(d, t) + Piece(d, dir)
  {
    FormatAppend(d, t, [dir]);
    FormatOne(d, dir);
  }

  /** How many characters `strftime` writes for a directive, whatever the date. */
  function Width(dir: Directive): nat {
    match dir
    case Year => 4
    case MonthAbbr => 3
    case Blank => 1
    case Lit(_) => 1
    case _ => 2
  }

  function Widths(t: Template): nat {
    if t == [] then 0 else Width(t[0]) + Widths(t[1..])
  }

  /** Character `j` of what directive `k` writes sits at the same place in every date's text. */
  lemma {:induction false} FormatAt(d: DateTime, t: Template, k: nat, j: nat)
    requires InFieldRanges(d)
    requires k < |t| && j < Width(t[k])
    ensures Widths(t[..k]) + j < |Format(d, t)|
    ensures Format(d, t)[Widths(t[..k]) + j] == Piece(d, t[k])[j]
    decreases k
  {
    if k == 0 {
      assert t[..0] == [];
    } else {
      FormatAt(d, t[1..], k - 1, j);
      assert t[..k][1..] == t[1..][..k - 1];
      assert t[..k][0] == t[0];
    }
  }

  /** The value of `d` that directive `dir` records. */
  function FieldValue(d: DateTime, dir: Directive): int {
    match dir
    case Year => d.year
    case Month => d.month
    case MonthAbbr => d.month
    case Day => d.day
    case Hour => d.hour
    case Minute => d.minute
    case Second => d.second
    case _ => 0
  }

  /** The fields the directives of `t` record from `d`, on top of `acc`. */
  function Recorded(t: Template, d: DateTime, acc: DateTime): DateTime
    decreases |t|
  {
    if t == [] then acc else Recorded(t[1..], d, SetField(acc, t[0], FieldValue(d, t[0])))
  }

  /** A template's literals are not blanks, and no blank follows a blank (as Python collapses whitespace). */
  predicate WellFormed(t: Template) {
    && (forall i :: 0 <= i < |t| ==> t[i].Lit? ==> !IsSpace(t[i].c))
    && (forall i :: 0 <= i < |t| - 1 ==> !(t[i].Blank? && t[i + 1].Blank?))
  }

  /** The template records every field of a `datetime`. */
  predicate SetsAllFields(t: Template) {
    && Year in t && (Month in t || MonthAbbr in t) && Day in t
    && Hour in t && Minute in t && Second in t
  }

  /** No two month abbreviations are equal ignoring case. */
  lemma {:induction false} MonthAbbrsDistinct(i: nat, j: nat)
    requires i < 12 && j < 12 && SameCaseless(MonthAbbrs[i], MonthAbbrs[j])
    ensures i == j
  {
    var a, b := MonthAbbrs[i], MonthAbbrs[j];
    assert ToLower(a[0]) == ToLower(b[0]) && ToLower(a[1]) == ToLower(b[1]) && ToLower(a[2]) == ToLower(b[2]);
  }

  lemma {:induction false} MonthAbbrRoundTrip(m: int)
    requires 1 <= m <= 12
    ensures MonthIndex(MonthAbbrs[m - 1], 0) == Some(m - 1)
  {
    assert SameCaseless(MonthAbbrs[m - 1], MonthAbbrs[m - 1]);
    var r := MonthIndex(MonthAbbrs[m - 1], 0);
    MonthAbbrsDistinct(r.value, m - 1);
  }

  lemma {:induction false} NumberPiece(n: nat, rest: string, lo: int, hi: int)
    requires lo <= n <= hi && n < 100
    ensures NumberField(Pad(n, 2) + rest, lo, hi) == Some((n, 2))
  {
    var s := Pad(n, 2) + rest;
    assert s[..2] == Pad(n, 2);
    assert IsDigit(s[..2][0]) && IsDigit(s[..2][1]);
    PadValue(n, 2);
  }

  /** `strptime` reads a directive and goes on with the rest of the template and the text. */
  lemma {:induction false} ReadStep(t: Template, s: string, acc: DateTime, v: int, n: nat)
    requires t != [] && ReadDirective(t[0], s) == Some((v, n))
    ensures ReadFields(t, s, acc) == ReadFields(t[1..], s[n..], SetField(acc, t[0], v))
  {
  }

  /**
    Two digits past 61 in the last `%S` are read as one digit, and the second
    is left over: `unconverted data remains`.
  */
  lemma {:induction false} SecondLeavesDigit(s: string, acc: DateTime)
    requires |s| == 2 && AllIn(Digit, s) && DecimalValue(s) > 61
    ensures ReadFields([Second], s, acc) == Err(UnconvertedData)
  {
    assert s[..2] == s;
    assert IsDigit(s[0]) && IsDigit(s[1]);
    ReadStep([Second], s, acc, DigitValue(s[0]), 1);
  }

  /** Reading back what `strftime` wrote for one directive gives the field and its width. */
  lemma {:induction false} ReadPiece(d: DateTime, dir: Directive, rest: string)
    requires InFieldRanges(d)
    requires dir.Lit? ==> !IsSpace(dir.c)
    requires dir.Blank? ==> rest == [] || !IsSpace(rest[0])
    ensures ReadDirective(dir, Piece(d, dir) + rest) == Some((FieldValue(d, dir), |Piece(d, dir)|))
  {
    var p := Piece(d, dir);
    var s := p + rest;
    assert s[..|p|] == p;
    match dir
    case Year =>
      assert Run(Digit, s, 4) == 4;
      PadValue(d.year, 4);
    case Month => NumberPiece(d.month, rest, 1, 12);
    case Day => NumberPiece(d.day, rest, 1, 31);
    case Hour => NumberPiece(d.hour, rest, 0, 23);
    case Minute => NumberPiece(d.minute, rest, 0, 59);
    case Second => NumberPiece(d.second, rest, 0, 61);
    case MonthAbbr => MonthAbbrRoundTrip(d.month);
    case Blank =>
      assert Run(Space, s, |s|) == 1;
    case Lit(c) =>
  }

  /** What follows a blank in `strftime` output is not whitespace. */
  lemma {:induction false} AfterBlank(t: Template, d: DateTime, rest: string)
    requires InFieldRanges(d)
    requires WellFormed(t) && t != [] && t[0].Blank?
    requires |t| == 1 && rest != [] ==> !IsSpace(rest[0])
    ensures var after := Format(d, t[1..]) + rest; after == [] || !IsSpace(after[0])
  {
    if |t| > 1 {
      assert !t[1].Blank? && (t[1].Lit? ==> !IsSpace(t[1].c));
      assert (Format(d, t[1..]) + rest)[0] == Piece(d, t[1])[0];
    } else {
      assert t[1..] == [];
    }
  }

  lemma {:induction false} WellFormedTail(t: Template)
    requires WellFormed(t) && t != []
    ensures WellFormed(t[1..]) && (t[0].Lit? ==> !IsSpace(t[0].c))
  {
    assert forall i :: 0 <= i < |t| - 1 ==> t[1..][i] == t[i + 1];
  }

  /** `strptime` reads the first piece `strftime` wrote and goes on with the rest. */
  lemma {:induction false} ReadFirstPiece(t: Template, d: DateTime, acc: DateTime, t2: Template, rest: string)
    requires InFieldRanges(d)
    requires t != [] && (t[0].Lit? ==> !IsSpace(t[0].c))
    requires var after := Format(d, t[1..]) + rest; t[0].Blank? ==> after == [] || !IsSpace(after[0])
    ensures ReadFields(t + t2, Format(d, t) + rest, acc)
         == ReadFields(t[1..] + t2, Format(d, t[1..]) + rest, SetField(acc, t[0], FieldValue(d, t[0])))
  {
    var p := Piece(d, t[0]);
    var after := Format(d, t[1..]) + rest;
    ReadPiece(d, t[0], after);
    var s := Format(d, t) + rest;
    assert s == p + after;
    assert s[|p|..] == after;
    assert (t + t2)[0] == t[0] && (t + t2)[1..] == t[1..] + t2;
    ReadStep(t + t2, s, acc, FieldValue(d, t[0]), |p|);
  }

  /**
    `strptime` reads back the fields that `strftime` wrote with the same
    template, and goes on with whatever follows in the template and the text.
  */
  lemma {:induction false} ReadFormatted(t: Template, d: DateTime, acc: DateTime, t2: Template, rest: string)
    requires InFieldRanges(d)
    requires WellFormed(t)
    requires t != [] && t[|t| - 1].Blank? && rest != [] ==> !IsSpace(rest[0])
    ensures ReadFields(t + t2, Format(d, t) + rest, acc) == ReadFields(t2, rest, Recorded(t, d, acc))
    decreases |t|
  {
    if t == [] {
      assert t + t2 == t2;
      assert Format(d, t) + rest == rest;
    } else {
      WellFormedTail(t);
      if t[0].Blank? {
        AfterBlank(t, d, rest);
      }
      ReadFirstPiece(t, d, acc, t2, rest);
      ReadFormatted(t[1..], d, SetField(acc, t[0], FieldValue(d, t[0])), t2, rest);
    }
  }

  /** Each field ends up recorded from `d` when some directive of `t` records it, and is kept from `acc` otherwise. */
  lemma {:induction false} RecordedFields(t: Template, d: DateTime, acc: DateTime)
    ensures var r := Recorded(t, d, acc);
      && r.year == (if Year in t then d.year else acc.year)
      && r.month == (if Month in t || MonthAbbr in t then d.month else acc.month)
      && r.day == (if Day in t then d.day else acc.day)
      && r.hour == (if Hour in t then d.hour else acc.hour)
      && r.minute == (if Minute in t then d.minute else acc.minute)
      && r.second == (if Second in t then d.second else acc.second)
    decreases |t|
  {
    if t != [] {
      RecordedFields(t[1..], d, SetField(acc, t[0], FieldValue(d, t[0])));
      assert forall x :: x in t <==> x == t[0] || x in t[1..];
    }
  }

  /** A template that records every field reads back all the fields `strftime` wrote with it. */
  lemma {:induction false} ReadAllFields(t: Template, d: DateTime)
    requires InFieldRanges(d)
    requires WellFormed(t) && SetsAllFields(t)
    ensures ReadFields(t, Format(d, t), Defaults) == Ok(d)
  {
    ReadFormatted(t, d, Defaults, [], []);
    assert t + [] == t && Format(d, t) + [] == Format(d, t);
    RecordedFields(t, d, Defaults);
  }

  /** Parsing what `strftime` wrote gives the same date-time back. */
  lemma {:induction false} ParseFormat(t: Template, d: DateTime)
    requires IsValid(d) && InYearRange(d)
    requires WellFormed(t) && SetsAllFields(t)
    ensures Parse(Format(d, t), t) == Ok(d)
  {
    ReadAllFields(t, d);
  }

  /**
    Fields that each lie in their directive's range but do not make a valid
    date-time in the years 1 to 9999 (31 February, second 60 or 61, year 0)
    are read, and then rejected as out of range.
  */
  lemma {:induction false} ParseOutOfRange(t: Template, d: DateTime)
    requires InFieldRanges(d) && !(IsValid(d) && InYearRange(d))
    requires WellFormed(t) && SetsAllFields(t)
    ensures Parse(Format(d, t), t) == Err(OutOfRange)
  {
    ReadAllFields(t, d);
  }
}
