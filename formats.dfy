/**
  The ordered list of timestamp formats of `parse_timeformat` and the loop
  that picks the first one whose pattern matches the start of the input,
  falling back to the text of epoch zero when none does.
*/
module FormatDetection {
  import opened Wrappers
  import opened Patterns
  import opened Civil
  import opened Strptime

  /** A detection pattern with the `strptime` template for what it captures. */
  datatype TimeFormat = TimeFormat(pattern: Pattern, template: Template)

  /** The text `strptime` is given, and the template it is given with it. */
  datatype Detection = Detection(text: string, template: Template)

  function Ch(c: char): Elem { Elem(Char(c), 1, 1) }
  function Digits(n: nat): Elem { Elem(Digit, n, n) }
  const Gap: Elem := Elem(Space, 1, 1)
  const Abbr: Elem := Elem(Word, 3, 3)
  /** `\d{1,2}:\d{1,2}:\d{1,2}` and `%H:%M:%S` */
  const ClockPattern: Pattern := [Elem(Digit, 1, 2), Ch(':'), Elem(Digit, 1, 2), Ch(':'), Elem(Digit, 1, 2)]
  const ClockTemplate: Template := [Hour, Lit(':'), Minute, Lit(':'), Second]
  /** `\d{4}-\d{2}-\d{2}` and `%Y-%m-%d`: the common start of formats 2 to 4, ten characters long. */
  const DatePattern: Pattern := [Digits(4), Ch('-'), Digits(2), Ch('-'), Digits(2)]
  const DateTemplate: Template := [Year, Lit('-'), Month, Lit('-'), Day]

  /** `%Y-%m-%d %H:%M:%S` */
  const SecondsTemplate: Template := DateTemplate + [Blank] + ClockTemplate

  /** `Dec 18, 2018 15:43:52` */
  const MonthNameFormat: TimeFormat :=
    TimeFormat([Abbr, Gap, Digits(2), Ch(','), Gap, Digits(4), Gap] + ClockPattern,
               [MonthAbbr, Blank, Day, Lit(','), Blank, Year, Blank] + ClockTemplate)
  /** `2018-01-01 15:43:52` */
  const DashSpaceFormat: TimeFormat :=
    TimeFormat(DatePattern + [Gap] + ClockPattern, SecondsTemplate)
  /** `2018-01-01:15:43:52` */
  const DashColonFormat: TimeFormat :=
    TimeFormat(DatePattern + [Ch(':')] + ClockPattern, DateTemplate + [Lit(':')] + ClockTemplate)
  /** `2018-01-01T15:43:52` */
  const DashTFormat: TimeFormat :=
    TimeFormat(DatePattern + [Ch('T')] + ClockPattern, DateTemplate + [Lit('T')] + ClockTemplate)
  /** `2018/01/01 15:43:52` */
  const SlashYmdFormat: TimeFormat :=
    TimeFormat([Digits(4), Ch('/'), Digits(2), Ch('/'), Digits(2), Gap] + ClockPattern,
               [Year, Lit('/'), Month, Lit('/'), Day, Blank] + ClockTemplate)
  /** `01/01/2018 15:43:52` */
  const SlashMdyFormat: TimeFormat :=
    TimeFormat([Digits(2), Ch('/'), Digits(2), Ch('/'), Digits(4), Gap] + ClockPattern,
               [Month, Lit('/'), Day, Lit('/'), Year, Blank] + ClockTemplate)
  /** `02/May/2016:14:59:39` in the docstring; the pattern wants a blank before the clock, the template a colon. */
  const AccessLogFormat: TimeFormat :=
    TimeFormat([Digits(2), Ch('/'), Abbr, Ch('/'), Digits(4), Gap] + ClockPattern,
               [Day, Lit('/'), MonthAbbr, Lit('/'), Year, Lit(':')] + ClockTemplate)

  /** `list_timeformats`, top to bottom */
  const Formats: seq<TimeFormat> :=
    [MonthNameFormat, DashSpaceFormat, DashColonFormat, DashTFormat, SlashYmdFormat, SlashMdyFormat, AccessLogFormat]

  /** What is parsed when no format matches: epoch zero, `%Y-%m-%d %H:%M:%S`. */
  const FallbackText: string := "1970-01-01 00:00:00"
  const FallbackTemplate: Template := SecondsTemplate

  /** The first format of `fs` whose pattern matches the start of `s`, with what it captures. */
  function FirstMatch(fs: seq<TimeFormat>, s: string): Option<Detection> {
    if fs == [] then None
    else match MatchPrefix(fs[0].pattern, s)
      case Some(n) => Some(Detection(s[..n], fs[0].template))
      case None => FirstMatch(fs[1..], s)
  }

  /** The text and template `parse_timeformat` hands to `strptime`. */
  function Detect(s: string): Detection {
    match FirstMatch(Formats, s)
    case Some(d) => d
    case None => Detection(FallbackText, FallbackTemplate)
  }

  predicate Matches(fs: seq<TimeFormat>, i: int, s: string) {
    0 <= i < |fs| && MatchPrefix(fs[i].pattern, s).Some?
  }

  /** The first matching format wins, and what it captures is a prefix of the input. */
  lemma {:induction false} FirstMatchIsFirst(fs: seq<TimeFormat>, s: string, i: int)
    requires Matches(fs, i, s)
    requires forall j :: 0 <= j < i ==> !Matches(fs, j, s)
    ensures FirstMatch(fs, s) == Some(Detection(s[..MatchPrefix(fs[i].pattern, s).value], fs[i].template))
    decreases i
  {
    if i > 0 {
      assert !Matches(fs, 0, s);
      assert forall j :: 0 <= j < i - 1 ==> fs[1..][j] == fs[j + 1];
      assert forall j :: 0 <= j < i - 1 ==> !Matches(fs[1..], j, s) by {
        forall j | 0 <= j < i - 1 ensures !Matches(fs[1..], j, s) {
          assert !Matches(fs, j + 1, s);
        }
      }
      FirstMatchIsFirst(fs[1..], s, i - 1);
    }
  }

  lemma {:induction false} MatchesTail(fs: seq<TimeFormat>, s: string, j: int)
    requires fs != [] && 0 <= j
    ensures Matches(fs[1..], j, s) <==> Matches(fs, j + 1, s)
  {
    if 0 <= j < |fs| - 1 {
      assert fs[1..][j] == fs[j + 1];
    }
  }

  /** Nothing is detected exactly when no format matches. */
  lemma {:induction false} FirstMatchNone(fs: seq<TimeFormat>, s: string)
    ensures FirstMatch(fs, s).None? <==> forall j :: 0 <= j < |fs| ==> !Matches(fs, j, s)
    decreases |fs|
  {
    if fs != [] {
      FirstMatchNone(fs[1..], s);
      forall j | 0 <= j < |fs| - 1 ensures Matches(fs[1..], j, s) <==> Matches(fs, j + 1, s) {
        MatchesTail(fs, s, j);
      }
      if MatchPrefix(fs[0].pattern, s).Some? {
        assert Matches(fs, 0, s);
      } else if FirstMatch(fs[1..], s).Some? {
        var j :| 0 <= j < |fs| - 1 && Matches(fs[1..], j, s);
        assert Matches(fs, j + 1, s);
      } else {
        forall j | 0 <= j < |fs| ensures !Matches(fs, j, s) {
          if j > 0 { MatchesTail(fs, s, j - 1); }
        }
      }
    }
  }

  /** A detection comes from the first format that matches. */
  lemma {:induction false} FirstMatchSome(fs: seq<TimeFormat>, s: string)
    requires FirstMatch(fs, s).Some?
    ensures exists i :: && Matches(fs, i, s) && (forall j :: 0 <= j < i ==> !Matches(fs, j, s))
                        && FirstMatch(fs, s) == Some(Detection(s[..MatchPrefix(fs[i].pattern, s).value], fs[i].template))
    decreases |fs|
  {
    if MatchPrefix(fs[0].pattern, s).Some? {
      assert Matches(fs, 0, s);
    } else {
      FirstMatchSome(fs[1..], s);
      var i :| && Matches(fs[1..], i, s) && (forall j :: 0 <= j < i ==> !Matches(fs[1..], j, s))
               && FirstMatch(fs[1..], s) == Some(Detection(s[..MatchPrefix(fs[1..][i].pattern, s).value], fs[1..][i].template));
      MatchesTail(fs, s, i);
      forall j | 0 <= j < i + 1 ensures !Matches(fs, j, s) {
        if j > 0 { MatchesTail(fs, s, j - 1); }
      }
      assert fs[1..][i] == fs[i + 1];
    }
  }

  /** If format `i` is the first to match, the detected text is what it captures and its template comes with it. */
  lemma {:induction false} DetectFirstMatch(s: string, i: int)
    requires Matches(Formats, i, s)
    requires forall j :: 0 <= j < i ==> !Matches(Formats, j, s)
    ensures var n := MatchPrefix(Formats[i].pattern, s).value;
      Detect(s) == Detection(s[..n], Formats[i].template) && Detect(s).text <= s
  {
    FirstMatchIsFirst(Formats, s, i);
  }

  /** If no format matches, the text of epoch zero is parsed with `%Y-%m-%d %H:%M:%S`. */
  lemma {:induction false} DetectFallback(s: string)
    requires forall j :: 0 <= j < |Formats| ==> !Matches(Formats, j, s)
    ensures Detect(s) == Detection(FallbackText, FallbackTemplate)
  {
    FirstMatchNone(Formats, s);
  }

  /** Every detection is either the first match or the fallback. */
  lemma {:induction false} DetectCases(s: string)
    ensures || Detect(s) == Detection(FallbackText, FallbackTemplate)
            || exists i :: Matches(Formats, i, s) && (forall j :: 0 <= j < i ==> !Matches(Formats, j, s))
                 && Detect(s) == Detection(s[..MatchPrefix(Formats[i].pattern, s).value], Formats[i].template)
  {
    if FirstMatch(Formats, s).Some? {
      FirstMatchSome(Formats, s);
    }
  }

  /** Pattern element `e` matches exactly the text `strftime` writes for directive `dir`. */
  predicate ElemFits(e: Elem, dir: Directive) {
    match dir
    case Year => e == Digits(4)
    case Month => e == Digits(2) || e == Elem(Digit, 1, 2)
    case Day => e == Digits(2) || e == Elem(Digit, 1, 2)
    case Hour => e == Digits(2) || e == Elem(Digit, 1, 2)
    case Minute => e == Digits(2) || e == Elem(Digit, 1, 2)
    case Second => e == Digits(2) || e == Elem(Digit, 1, 2)
    case MonthAbbr => e == Abbr
    case Blank => e == Gap
    case Lit(c) => e == Ch(c)
  }

  /** The pattern and the template describe the same text, element by element. */
  predicate Fits(p: Pattern, t: Template) {
    |p| == |t| && forall i :: 0 <= i < |p| ==> ElemFits(p[i], t[i])
  }

  lemma {:induction false} MonthAbbrWord(m: int)
    requires 1 <= m <= 12
    ensures |MonthAbbrs[m - 1]| == 3 && AllIn(Word, MonthAbbrs[m - 1])
  {
  }

  /** What `strftime` writes for a directive is a full run of the element that fits it. */
  lemma {:induction false} PieceFits(e: Elem, dir: Directive, d: DateTime)
    requires InFieldRanges(d) && ElemFits(e, dir)
    ensures var w := Piece(d, dir); e.min <= |w| == e.max && AllIn(e.cls, w)
  {
    if dir.MonthAbbr? {
      MonthAbbrWord(d.month);
    }
  }

  /** A pattern whose first element takes all of `w` and whose rest captures `n` characters of `rest` captures `w` and those. */
  lemma {:induction false} MatchFirst(p: Pattern, s: string, w: string, rest: string, n: nat)
    requires s == w + rest
    requires p != [] && p[0].min <= |w| == p[0].max && AllIn(p[0].cls, w)
    requires MatchPrefix(p[1..], rest) == Some(n)
    ensures MatchPrefix(p, s) == Some(|w| + n)
  {
    assert s[..|w|] == w;
    assert s[|w|..] == rest;
    RunFull(p[0].cls, s, |w|);
    MatchStep(p, s, |w|, n);
  }

  lemma {:induction false} ConcatAssoc(w: string, r: string, tail: string)
    ensures (w + r) + tail == w + (r + tail)
  {
  }

  lemma {:induction false} FormatCons(d: DateTime, t: Template)
    requires InFieldRanges(d) && t != []
    ensures Format(d, t) == Piece(d, t[0]) + Format(d, t[1..])
  {
  }

  lemma {:induction false} FitsTail(p: Pattern, t: Template)
    requires Fits(p, t) && p != []
    ensures ElemFits(p[0], t[0]) && Fits(p[1..], t[1..])
  {
    assert forall i :: 0 <= i < |p| - 1 ==> p[1..][i] == p[i + 1] && t[1..][i] == t[i + 1];
  }

  /** Strings side by side. */
  function Concat(ws: seq<string>): (r: string)
    ensures ws == [] ==> r == []
  {
    if ws == [] then [] else ws[0] + Concat(ws[1..])
  }

  /** The first `|ws|` elements of `p` each take the whole of the matching string of `ws`. */
  predicate TakesPieces(p: Pattern, ws: seq<string>) {
    && |ws| <= |p|
    && forall i :: 0 <= i < |ws| ==> p[i].min <= |ws[i]| == p[i].max && AllIn(p[i].cls, ws[i])
  }

  lemma {:induction false} TakesPiecesTail(p: Pattern, ws: seq<string>)
    requires TakesPieces(p, ws) && ws != []
    ensures p[0].min <= |ws[0]| == p[0].max && AllIn(p[0].cls, ws[0])
    ensures TakesPieces(p[1..], ws[1..]) && p[1..][|ws| - 1..] == p[|ws|..]
  {
    assert forall i :: 0 <= i < |ws| - 1 ==> p[1..][i] == p[i + 1] && ws[1..][i] == ws[i + 1];
  }

  /**
    A pattern whose first elements each take one of the strings `ws` captures
    them all, and its remaining elements then go on to capture what they
    capture of the rest.
  */
  lemma {:induction false} MatchPieces(p: Pattern, ws: seq<string>, f: string, rest: string, n: nat)
    requires f == Concat(ws) && TakesPieces(p, ws)
    requires MatchPrefix(p[|ws|..], rest) == Some(n)
    ensures MatchPrefix(p, f + rest) == Some(|f| + n)
    decreases |ws|
  {
    if ws == [] {
      assert p[|ws|..] == p;
      assert f + rest == rest;
    } else {
      TakesPiecesTail(p, ws);
      var r := Concat(ws[1..]);
      MatchPieces(p[1..], ws[1..], r, rest, n);
      MatchJoined(p, f, ws[0], r, rest, n);
    }
  }

  /** What `strftime` writes for each directive of a template. */
  function Pieces(d: DateTime, t: Template): (ws: seq<string>)
    requires InFieldRanges(d)
    ensures |ws| == |t|
  {
    if t == [] then [] else [Piece(d, t[0])] + Pieces(d, t[1..])
  }

  lemma {:induction false} PiecesAt(d: DateTime, t: Template)
    requires InFieldRanges(d)
    ensures forall i :: 0 <= i < |t| ==> Pieces(d, t)[i] == Piece(d, t[i])
    decreases |t|
  {
    if t != [] {
      PiecesAt(d, t[1..]);
      assert forall i :: 1 <= i < |t| ==> Pieces(d, t)[i] == Pieces(d, t[1..])[i - 1] && t[1..][i - 1] == t[i];
    }
  }

  lemma {:induction false} FormatPieces(d: DateTime, t: Template)
    requires InFieldRanges(d)
    ensures Format(d, t) == Concat(Pieces(d, t))
    decreases |t|
  {
    if t != [] {
      FormatPieces(d, t[1..]);
      var ws := Pieces(d, t);
      assert ws[0] == Piece(d, t[0]) && ws[1..] == Pieces(d, t[1..]);
    }
  }

  lemma {:induction false} FitsPieces(p: Pattern, t: Template, d: DateTime)
    requires InFieldRanges(d)
    requires |t| <= |p| && Fits(p[..|t|], t)
    ensures TakesPieces(p, Pieces(d, t))
  {
    var ws := Pieces(d, t);
    PiecesAt(d, t);
    forall i | 0 <= i < |ws| ensures p[i].min <= |ws[i]| == p[i].max && AllIn(p[i].cls, ws[i]) {
      assert p[..|t|][i] == p[i];
      PieceFits(p[i], t[i], d);
    }
  }

  /** `MatchFirst` on a text written `f + rest` with `f == w + r`. */
  lemma {:induction false} MatchJoined(p: Pattern, f: string, w: string, r: string, rest: string, n: nat)
    requires f == w + r
    requires p != [] && p[0].min <= |w| == p[0].max && AllIn(p[0].cls, w)
    requires MatchPrefix(p[1..], r + rest) == Some(|r| + n)
    ensures MatchPrefix(p, f + rest) == Some(|f| + n)
  {
    ConcatAssoc(w, r, rest);
    MatchFirst(p, f + rest, w, r + rest, |r| + n);
  }

  /** A pattern that fits a template captures exactly what `strftime` writes with it, whatever follows. */
  lemma {:induction false} FormatMatches(p: Pattern, t: Template, d: DateTime, tail: string)
    requires InFieldRanges(d)
    requires Fits(p, t)
    ensures MatchPrefix(p, Format(d, t) + tail) == Some(|Format(d, t)|)
  {
    assert p[..|t|] == p;
    assert MatchPrefix(p[|t|..], tail) == Some(0);
    FitsPieces(p, t, d);
    FormatPieces(d, t);
    MatchPieces(p, Pieces(d, t), Format(d, t), tail, 0);
  }

  /** The pattern describes the template's `strftime` output, which `strptime` reads back. */
  predicate Consistent(f: TimeFormat) {
    Fits(f.pattern, f.template) && WellFormed(f.template) && SetsAllFields(f.template)
  }

  /** Fitting pieces put side by side fit. */
  lemma {:induction false} FitsAppend(p: Pattern, t: Template, p': Pattern, t': Template)
    requires Fits(p, t) && Fits(p', t')
    ensures Fits(p + p', t + t')
  {
    assert forall i :: |p| <= i < |p| + |p'| ==> (p + p')[i] == p'[i - |p|] && (t + t')[i] == t'[i - |t|];
  }

  /** A format whose pattern and template end with the clock. */
  lemma {:induction false} ClockConsistent(f: TimeFormat, p: Pattern, t: Template)
    requires f.pattern == p + ClockPattern && f.template == t + ClockTemplate && Fits(p, t)
    requires WellFormed(f.template) && SetsAllFields(f.template)
    ensures Consistent(f)
  {
    assert Fits(ClockPattern, ClockTemplate);
    FitsAppend(p, t, ClockPattern, ClockTemplate);
  }

  lemma {:induction false} MonthNameConsistent() ensures Consistent(MonthNameFormat) {
    ClockConsistent(MonthNameFormat, [Abbr, Gap, Digits(2), Ch(','), Gap, Digits(4), Gap], [MonthAbbr, Blank, Day, Lit(','), Blank, Year, Blank]);
  }
  lemma {:induction false} DashSpaceConsistent() ensures Consistent(DashSpaceFormat) {
    ClockConsistent(DashSpaceFormat, DatePattern + [Gap], DateTemplate + [Blank]);
  }
  lemma {:induction false} DashColonConsistent() ensures Consistent(DashColonFormat) {
    ClockConsistent(DashColonFormat, DatePattern + [Ch(':')], DateTemplate + [Lit(':')]);
  }
  lemma {:induction false} DashTConsistent() ensures Consistent(DashTFormat) {
    ClockConsistent(DashTFormat, DatePattern + [Ch('T')], DateTemplate + [Lit('T')]);
  }
  lemma {:induction false} SlashYmdConsistent() ensures Consistent(SlashYmdFormat) {
    ClockConsistent(SlashYmdFormat, [Digits(4), Ch('/'), Digits(2), Ch('/'), Digits(2), Gap], [Year, Lit('/'), Month, Lit('/'), Day, Blank]);
  }
  lemma {:induction false} SlashMdyConsistent() ensures Consistent(SlashMdyFormat) {
    ClockConsistent(SlashMdyFormat, [Digits(2), Ch('/'), Digits(2), Ch('/'), Digits(4), Gap], [Month, Lit('/'), Day, Lit('/'), Year, Blank]);
  }

  /** The sixth element of the seventh pattern is a blank, while the template has a colon there. */
  lemma {:induction false} AccessLogInconsistent()
    ensures WellFormed(AccessLogFormat.template) && SetsAllFields(AccessLogFormat.template)
    ensures !Fits(AccessLogFormat.pattern, AccessLogFormat.template)
  {
    assert !ElemFits(AccessLogFormat.pattern[5], AccessLogFormat.template[5]);
  }

  /** Formats 1 to 6 are consistent. */
  lemma {:induction false} FormatsConsistent(i: int)
    requires 0 <= i < 6
    ensures Consistent(Formats[i])
  {
    if i == 0 { MonthNameConsistent(); }
    else if i == 1 { DashSpaceConsistent(); }
    else if i == 2 { DashColonConsistent(); }
    else if i == 3 { DashTConsistent(); }
    else if i == 4 { SlashYmdConsistent(); }
    else { SlashMdyConsistent(); }
  }

  /** A pattern fails on a text when a character at a place it fixes is outside its class there. */
  lemma {:induction false} MissAt(p: Pattern, s: string, k: nat, c: nat)
    requires k < |p| && c < p[k].min && forall i :: 0 <= i < k ==> p[i].min == p[i].max
    requires var o := MaxLength(p[..k]) + c; o < |s| ==> !InClass(p[k].cls, s[o])
    ensures MatchPrefix(p, s).None?
  {
    if MatchPrefix(p, s).Some? {
      MatchAt(p, s, k, c);
    }
  }

  /** The same, for a text `strftime` writes: the character is fixed by the template. */
  lemma {:induction false} Clash(p: Pattern, t: Template, d: DateTime, tail: string, k: nat, c: nat, k2: nat, c2: nat)
    requires InFieldRanges(d)
    requires k < |p| && c < p[k].min && forall i :: 0 <= i < k ==> p[i].min == p[i].max
    requires k2 < |t| && c2 < Width(t[k2])
    requires MaxLength(p[..k]) + c == Widths(t[..k2]) + c2
    requires !InClass(p[k].cls, Piece(d, t[k2])[c2])
    ensures MatchPrefix(p, Format(d, t) + tail).None?
  {
    var s := Format(d, t) + tail;
    FormatAt(d, t, k2, c2);
    var o := Widths(t[..k2]) + c2;
    assert s[o] == Format(d, t)[o];
    MissAt(p, s, k, c);
  }

  /** A year is written with digits only, and the first pattern wants a blank after three characters. */
  lemma {:induction false} MonthNameMisses(t: Template, d: DateTime, tail: string)
    requires InFieldRanges(d) && t != [] && t[0] == Year
    ensures !Matches(Formats, 0, Format(d, t) + tail)
  {
    var p := MonthNameFormat.pattern;
    assert p[..1] == [Abbr];
    assert t[..0] == [];
    Clash(p, t, d, tail, 1, 0, 0, 3);
  }

  /** The numeric patterns want a digit at the third place, where a month-first text has a slash. */
  lemma {:induction false} SlashMdyMisses(j: int, d: DateTime, tail: string)
    requires InFieldRanges(d) && 0 <= j < 5
    ensures !Matches(Formats, j, Format(d, SlashMdyFormat.template) + tail)
  {
    var p, t := Formats[j].pattern, SlashMdyFormat.template;
    assert p[..0] == [] && t[..1] == [Month];
    Clash(p, t, d, tail, 0, 2, 1, 0);
  }

  /** The dash patterns want a dash at the fifth place, where a slashed year-first text has a slash. */
  lemma {:induction false} SlashYmdMisses(j: int, d: DateTime, tail: string)
    requires InFieldRanges(d) && 0 <= j < 4
    ensures !Matches(Formats, j, Format(d, SlashYmdFormat.template) + tail)
  {
    var t := SlashYmdFormat.template;
    if j == 0 {
      MonthNameMisses(t, d, tail);
    } else {
      var p := Formats[j].pattern;
      assert p[..1] == [Digits(4)] && t[..1] == [Year];
      Clash(p, t, d, tail, 1, 0, 1, 0);
    }
  }

  lemma {:induction false} DashPrefix(i: int)
    requires 1 <= i <= 3
    ensures Formats[i].pattern[..5] == DatePattern && Formats[i].template[..5] == DateTemplate
    ensures |Formats[i].pattern| == |Formats[i].template| == 11
    ensures forall k :: 0 <= k < 5 ==> Formats[i].pattern[k].min == Formats[i].pattern[k].max
    ensures Formats[i].pattern[5].min == Width(Formats[i].template[5]) == 1
  {
    if i == 1 {
      DashShape(Formats[1], Gap, Blank);
    } else if i == 2 {
      DashShape(Formats[2], Ch(':'), Lit(':'));
    } else {
      DashShape(Formats[3], Ch('T'), Lit('T'));
    }
  }

  lemma {:induction false} DashShape(f: TimeFormat, sep: Elem, tsep: Directive)
    requires f.pattern == DatePattern + [sep] + ClockPattern && f.template == DateTemplate + [tsep] + ClockTemplate
    ensures f.pattern[..5] == DatePattern && f.template[..5] == DateTemplate
    ensures |f.pattern| == |f.template| == 11 && f.pattern[5] == sep && f.template[5] == tsep
    ensures forall k :: 0 <= k < 5 ==> f.pattern[k].min == f.pattern[k].max
  {
  }

  lemma {:induction false} DateWidths()
    ensures MaxLength(DatePattern) == 10 && Widths(DateTemplate) == 10
  {
  }

  lemma {:induction false} DashSeparators(i: int, j: int, d: DateTime)
    requires InFieldRanges(d) && 1 <= j < i <= 3
    ensures !InClass(Formats[j].pattern[5].cls, Piece(d, Formats[i].template[5])[0])
  {
    assert Formats[1].pattern[5] == Gap && Formats[2].pattern[5] == Ch(':');
    assert Formats[2].template[5] == Lit(':') && Formats[3].template[5] == Lit('T');
  }

  /** The eleventh character tells the dash formats apart: a blank, a colon or a `T`. */
  lemma {:induction false} DashSeparatorMisses(i: int, j: int, d: DateTime, tail: string)
    requires InFieldRanges(d) && 1 <= j < i <= 3
    ensures MatchPrefix(Formats[j].pattern, Format(d, Formats[i].template) + tail).None?
  {
    var p, t := Formats[j].pattern, Formats[i].template;
    DashPrefix(i);
    DashPrefix(j);
    DateWidths();
    DashSeparators(i, j, d);
    Clash(p, t, d, tail, 5, 0, 5, 0);
  }

  /** No format before a dash format matches what `strftime` writes with its template. */
  lemma {:induction false} DashMisses(i: int, j: int, d: DateTime, tail: string)
    requires InFieldRanges(d) && 0 <= j < i && 1 <= i <= 3
    ensures !Matches(Formats, j, Format(d, Formats[i].template) + tail)
  {
    if j == 0 {
      MonthNameMisses(Formats[i].template, d, tail);
    } else {
      DashSeparatorMisses(i, j, d, tail);
    }
  }

  /** No format before format `i` matches what `strftime` writes with template `i`. */
  lemma {:induction false} EarlierMiss(i: int, j: int, d: DateTime, tail: string)
    requires InFieldRanges(d) && 0 <= j < i < 6
    ensures !Matches(Formats, j, Format(d, Formats[i].template) + tail)
  {
    if i <= 3 {
      DashMisses(i, j, d, tail);
    } else if i == 4 {
      SlashYmdMisses(j, d, tail);
    } else {
      SlashMdyMisses(j, d, tail);
    }
  }

  /**
    For formats 1 to 6, a timestamp that starts with what `strftime` writes
    with the format's template is detected by that format, which captures
    exactly that text; this holds for every date-time whose fields lie in
    their directives' ranges, valid or not.
  */
  lemma {:induction false} OwnFormatFound(i: int, d: DateTime, tail: string)
    requires InFieldRanges(d) && 0 <= i < 6
    ensures var text := Format(d, Formats[i].template);
      Detect(text + tail) == Detection(text, Formats[i].template)
  {
    var t := Formats[i].template;
    var text := Format(d, t);
    var s := text + tail;
    FormatsConsistent(i);
    FormatMatches(Formats[i].pattern, t, d, tail);
    forall j | 0 <= j < i ensures !Matches(Formats, j, s) {
      EarlierMiss(i, j, d, tail);
    }
    DetectFirstMatch(s, i);
    assert s[..|text|] == text;
  }

  /**
    For formats 1 to 6, a timestamp that starts with what `strftime` writes
    with the format's template is detected by that format, and `strptime`
    reads the date-time back.
  */
  lemma {:induction false} OwnFormatDetected(i: int, d: DateTime, tail: string)
    requires IsValid(d) && InYearRange(d) && 0 <= i < 6
    ensures var text := Format(d, Formats[i].template);
      && Detect(text + tail) == Detection(text, Formats[i].template)
      && Parse(text, Formats[i].template) == Ok(d)
  {
    OwnFormatFound(i, d, tail);
    FormatsConsistent(i);
    ParseFormat(Formats[i].template, d);
  }

  /**
    For formats 1 to 6, a timestamp that starts with what `strftime` writes
    for fields each in its directive's range but not together a valid
    date-time in the years 1 to 9999 (31 February, second 60, year 0) is
    detected by that format and then rejected by `strptime`.
  */
  lemma {:induction false} OwnFormatOutOfRange(i: int, d: DateTime, tail: string)
    requires InFieldRanges(d) && !(IsValid(d) && InYearRange(d)) && 0 <= i < 6
    ensures var text := Format(d, Formats[i].template);
      && Detect(text + tail) == Detection(text, Formats[i].template)
      && Parse(text, Formats[i].template) == Err(OutOfRange)
  {
    OwnFormatFound(i, d, tail);
    FormatsConsistent(i);
    ParseOutOfRange(Formats[i].template, d);
  }

  /** A two-digit day that a slash follows in the template is read whole, or the text is rejected. */
  lemma {:induction false} TwoDigits(t: Template, s: string, acc: DateTime)
    requires |t| >= 2 && t[0] == Day && t[1] == Lit('/') && |s| >= 2 && AllIn(Digit, s[..2])
    ensures || ReadFields(t, s, acc) == Err(DataMismatch)
            || ReadFields(t, s, acc) == ReadFields(t[1..], s[2..], SetField(acc, Day, DecimalValue(s[..2])))
  {
    assert IsDigit(s[..2][0]) && IsDigit(s[..2][1]);
    match NumberField(s, 1, 31)
    case None =>
    case Some(r) =>
      ReadStep(t, s, acc, r.0, r.1);
      if r.1 == 1 {
        assert s[1..][0] == s[1];
        assert t[1..][0] == Lit('/');
      }
  }

  /** A literal of the template is read when the text has it. */
  lemma {:induction false} ReadLit(t: Template, s: string, acc: DateTime)
    requires t != [] && t[0].Lit? && |s| >= 1 && s[0] == t[0].c
    ensures ReadFields(t, s, acc) == ReadFields(t[1..], s[1..], acc)
  {
    ReadStep(t, s, acc, 0, 1);
  }

  /** After the year, the template wants a colon where the text has a blank. */
  lemma {:induction false} YearThenColon(t: Template, x: string, acc: DateTime)
    requires |t| >= 2 && t[0] == Year && t[1] == Lit(':')
    requires |x| >= 5 && AllIn(Digit, x[..4]) && IsSpace(x[4])
    ensures ReadFields(t, x, acc) == Err(DataMismatch)
  {
    RunCovers(Digit, x, 4, 4);
    ReadStep(t, x, acc, DecimalValue(x[..4]), 4);
    assert x[4..][0] == x[4];
  }

  /** After the month name, a slash, the year and then a blank where the template wants a colon. */
  lemma {:induction false} MonthThenYear(t: Template, x: string, acc: DateTime)
    requires |t| >= 4 && t[0] == MonthAbbr && t[1] == Lit('/') && t[2] == Year && t[3] == Lit(':')
    requires |x| >= 9 && x[3] == '/' && AllIn(Digit, x[4..8]) && IsSpace(x[8])
    ensures ReadFields(t, x, acc) == Err(DataMismatch)
  {
    match ReadDirective(MonthAbbr, x)
    case None =>
    case Some(r) =>
      ReadStep(t, x, acc, r.0, r.1);
      var a := SetField(acc, MonthAbbr, r.0);
      assert x[3..][0] == '/';
      ReadLit(t[1..], x[3..], a);
      assert x[3..][1..] == x[4..];
      assert x[4..][..4] == x[4..8];
      YearThenColon(t[2..], x[4..], a);
  }

  /** After the day: a slash, the month name, a slash, the year and then a blank where the template wants a colon. */
  lemma {:induction false} SlashMonthYear(t: Template, x: string, acc: DateTime)
    requires |t| >= 5 && t[0] == Lit('/') && t[1] == MonthAbbr && t[2] == Lit('/') && t[3] == Year && t[4] == Lit(':')
    requires |x| >= 10 && x[0] == '/' && x[4] == '/' && AllIn(Digit, x[5..9]) && IsSpace(x[9])
    ensures ReadFields(t, x, acc) == Err(DataMismatch)
  {
    ReadLit(t, x, acc);
    assert x[1..][3] == '/' && x[1..][8] == x[9];
    assert x[1..][4..8] == x[5..9];
    MonthThenYear(t[1..], x[1..], acc);
  }

  /** `strptime` with the seventh template fails on any text shaped like `dd/Mon/yyyy hh...`. */
  lemma {:induction false} AccessLogMismatch(w: string, acc: DateTime)
    requires |w| >= 12 && AllIn(Digit, w[..2]) && w[2] == '/' && w[6] == '/'
    requires AllIn(Digit, w[7..11]) && IsSpace(w[11])
    ensures ReadFields(AccessLogFormat.template, w, acc) == Err(DataMismatch)
  {
    var t := AccessLogFormat.template;
    assert t[0] == Day && t[1] == Lit('/');
    TwoDigits(t, w, acc);
    if ReadFields(t, w, acc) != Err(DataMismatch) {
      assert t[1..][1] == MonthAbbr && t[1..][2] == Lit('/') && t[1..][3] == Year && t[1..][4] == Lit(':');
      assert w[2..][0] == '/' && w[2..][4] == '/' && w[2..][9] == w[11];
      assert w[2..][5..9] == w[7..11];
      SlashMonthYear(t[1..], w[2..], SetField(acc, Day, DecimalValue(w[..2])));
    }
  }

  /** The first six elements of the seventh pattern have fixed widths 2, 1, 3, 1, 4 and 1. */
  lemma {:induction false} AccessLogPrefix()
    ensures var p := AccessLogFormat.pattern;
      && |p| == 11
      && (forall i :: 0 <= i < 6 ==> p[i].min == p[i].max)
      && p[0] == Digits(2) && p[1] == Ch('/') && p[3] == Ch('/') && p[4] == Digits(4) && p[5] == Gap
      && MaxLength(p[..0]) == 0 && MaxLength(p[..1]) == 2 && MaxLength(p[..3]) == 6
      && MaxLength(p[..4]) == 7 && MaxLength(p[..5]) == 11
  {
    var p := AccessLogFormat.pattern;
    assert p[..0] == [] && p[..1] == [Elem(Digit, 2, 2)];
    assert p[..3] == [Elem(Digit, 2, 2), Elem(Char('/'), 1, 1), Elem(Word, 3, 3)];
    assert p[..4] == [Elem(Digit, 2, 2), Elem(Char('/'), 1, 1), Elem(Word, 3, 3), Elem(Char('/'), 1, 1)];
    assert p[..5] == [Elem(Digit, 2, 2), Elem(Char('/'), 1, 1), Elem(Word, 3, 3), Elem(Char('/'), 1, 1), Elem(Digit, 4, 4)];
    assert MaxLength([Elem(Digit, 2, 2), Elem(Char('/'), 1, 1), Elem(Word, 3, 3)]) == 6;
    assert MaxLength([Elem(Digit, 2, 2), Elem(Char('/'), 1, 1), Elem(Word, 3, 3), Elem(Char('/'), 1, 1)]) == 7;
    assert MaxLength([Elem(Digit, 2, 2), Elem(Char('/'), 1, 1), Elem(Word, 3, 3), Elem(Char('/'), 1, 1), Elem(Digit, 4, 4)]) == 11;
  }

  /** The day and the two slashes of what the seventh pattern spells. */
  lemma {:induction false} AccessLogShapeDay(w: string)
    requires Spells(AccessLogFormat.pattern, w)
    ensures |w| >= 7 && AllIn(Digit, w[..2]) && w[2] == '/' && w[6] == '/'
  {
    var p := AccessLogFormat.pattern;
    AccessLogPrefix();
    SpellsAt(p, w, 1, 0);
    SpellsAt(p, w, 3, 0);
    forall c | 0 <= c < 2 ensures IsDigit(w[..2][c]) {
      SpellsAt(p, w, 0, c);
    }
  }

  /** The year and the blank of what the seventh pattern spells. */
  lemma {:induction false} AccessLogShapeYear(w: string)
    requires Spells(AccessLogFormat.pattern, w)
    ensures |w| >= 12 && AllIn(Digit, w[7..11]) && IsSpace(w[11])
  {
    var p := AccessLogFormat.pattern;
    AccessLogPrefix();
    SpellsAt(p, w, 5, 0);
    forall c | 0 <= c < 4 ensures IsDigit(w[7..11][c]) {
      SpellsAt(p, w, 4, c);
      assert w[7..11][c] == w[7 + c];
    }
  }

  /**
    Whatever the seventh pattern captures has a blank where its template
    wants the colon, so `strptime` rejects it.
  */
  lemma {:induction false} AccessLogRejected(s: string)
    requires Matches(Formats, 6, s)
    ensures Parse(s[..MatchPrefix(AccessLogFormat.pattern, s).value], AccessLogFormat.template) == Err(DataMismatch)
  {
    MatchSpells(AccessLogFormat.pattern, s);
    var w := s[..MatchPrefix(AccessLogFormat.pattern, s).value];
    AccessLogShapeDay(w);
    AccessLogShapeYear(w);
    AccessLogMismatch(w, Defaults);
  }

  /** `%d/%b/%Y %H:%M:%S`: the text the seventh pattern describes. */
  const AccessLogBlankTemplate: Template := [Day, Lit('/'), MonthAbbr, Lit('/'), Year, Blank] + ClockTemplate

  lemma {:induction false} AccessLogBlankFits()
    ensures Fits(AccessLogFormat.pattern, AccessLogBlankTemplate)
  {
    var p, t := AccessLogFormat.pattern, AccessLogBlankTemplate;
    forall k | 0 <= k < |p| ensures ElemFits(p[k], t[k]) {
    }
  }

  lemma {:induction false} MonthAbbrLetter(m: int)
    requires 1 <= m <= 12
    ensures !IsDigit(MonthAbbrs[m - 1][0])
  {
  }

  /** No pattern before the seventh matches a text that starts `dd/Mon/`. */
  lemma {:induction false} DayMonthEarlierMiss(t: Template, j: int, d: DateTime, tail: string)
    requires InFieldRanges(d) && 0 <= j < 6
    requires t == AccessLogBlankTemplate || t == AccessLogFormat.template
    ensures !Matches(Formats, j, Format(d, t) + tail)
  {
    var p := Formats[j].pattern;
    assert p[..0] == [] && t[..1] == [Day];
    if j < 5 {
      Clash(p, t, d, tail, 0, 2, 1, 0);
    } else {
      assert p[..2] == [Elem(Digit, 2, 2), Elem(Char('/'), 1, 1)];
      assert MaxLength([Elem(Digit, 2, 2), Elem(Char('/'), 1, 1)]) == 3;
      assert t[..2] == [Day, Lit('/')];
      assert Widths([Day, Lit('/')]) == 3;
      MonthAbbrLetter(d.month);
      Clash(p, t, d, tail, 2, 0, 2, 0);
    }
  }

  /**
    A timestamp that starts `dd/Mon/yyyy hh:mm:ss` is detected by the seventh
    format, which captures exactly that text, and `strptime` then rejects it:
    the seventh format accepts a timestamp only to fail on it.
  */
  lemma {:induction false} AccessLogQuirk(d: DateTime, tail: string)
    requires InFieldRanges(d)
    ensures var text := Format(d, AccessLogBlankTemplate);
      && Detect(text + tail) == Detection(text, AccessLogFormat.template)
      && Parse(text, AccessLogFormat.template) == Err(DataMismatch)
  {
    var text := Format(d, AccessLogBlankTemplate);
    var s := text + tail;
    AccessLogBlankFits();
    FormatMatches(AccessLogFormat.pattern, AccessLogBlankTemplate, d, tail);
    forall j | 0 <= j < 6 ensures !Matches(Formats, j, s) {
      DayMonthEarlierMiss(AccessLogBlankTemplate, j, d, tail);
    }
    DetectFirstMatch(s, 6);
    assert s[..|text|] == text;
    AccessLogRejected(s);
  }

  /**
    The seventh format's own `strftime` output, `dd/Mon/yyyy:hh:mm:ss` (the
    docstring's example), matches no pattern, so the fallback is parsed.
  */
  lemma {:induction false} AccessLogOwnOutputFallsBack(d: DateTime, tail: string)
    requires InFieldRanges(d)
    ensures forall j :: 0 <= j < |Formats| ==> !Matches(Formats, j, Format(d, AccessLogFormat.template) + tail)
    ensures Detect(Format(d, AccessLogFormat.template) + tail) == Detection(FallbackText, FallbackTemplate)
  {
    var t := AccessLogFormat.template;
    var s := Format(d, t) + tail;
    forall j | 0 <= j < 6 ensures !Matches(Formats, j, s) {
      DayMonthEarlierMiss(t, j, d, tail);
    }
    AccessLogOwnMiss(d, tail);
    DetectFallback(s);
  }

  /** The seventh pattern wants a blank where its own template writes a colon. */
  lemma {:induction false} AccessLogOwnMiss(d: DateTime, tail: string)
    requires InFieldRanges(d)
    ensures !Matches(Formats, 6, Format(d, AccessLogFormat.template) + tail)
  {
    var t := AccessLogFormat.template;
    AccessLogPrefix();
    assert t[..5] == [Day, Lit('/'), MonthAbbr, Lit('/'), Year];
    assert Widths([Day, Lit('/'), MonthAbbr, Lit('/'), Year]) == 11;
    Clash(AccessLogFormat.pattern, t, d, tail, 5, 0, 5, 0);
  }

  /** The detection loop of `parse_timeformat`; `notice` is set when it falls back. */
  method DetectFormat(asciiTimestamp: string) returns (dateTimeStr: string, strpTimeFormat: Template, notice: bool)
    ensures Detection(dateTimeStr, strpTimeFormat) == Detect(asciiTimestamp)
    ensures notice <==> forall j :: 0 <= j < |Formats| ==> !Matches(Formats, j, asciiTimestamp)
  {
    FirstMatchNone(Formats, asciiTimestamp);
    var found := false;
    dateTimeStr, strpTimeFormat := "", [];
    var i := 0;
    while i < |Formats|
      invariant 0 <= i <= |Formats|
      invariant !found ==> FirstMatch(Formats[i..], asciiTimestamp) == FirstMatch(Formats, asciiTimestamp)
      invariant found ==> Some(Detection(dateTimeStr, strpTimeFormat)) == FirstMatch(Formats, asciiTimestamp)
    {
      var matched := MatchPrefix(Formats[i].pattern, asciiTimestamp);
      if matched.Some? {
        dateTimeStr := asciiTimestamp[..matched.value];
        strpTimeFormat := Formats[i].template;
        found := true;
        break;
      }
      assert Formats[i..][1..] == Formats[i + 1..];
      i := i + 1;
    }
    notice := !found;
    if !found {
      dateTimeStr := FallbackText;
      strpTimeFormat := FallbackTemplate;
    }
  }

  /** Fixed-width elements in front of a determinate pattern keep it determinate. */
  lemma {:induction false} FixedThenDeterminate(a: Pattern, b: Pattern)
    requires forall k :: 0 <= k < |a| ==> a[k].min == a[k].max
    requires Determinate(b)
    ensures Determinate(a + b)
  {
    assert forall k :: |a| <= k < |a| + |b| ==> (a + b)[k] == b[k - |a|];
  }

  /** Every pattern of the list is determinate: the greedy reading is the regular-expression one. */
  lemma {:induction false} FormatsDeterminate(i: int)
    requires 0 <= i < |Formats|
    ensures Determinate(Formats[i].pattern)
  {
    var c := ClockPattern;
    assert Determinate(c) by {
      assert forall k :: 0 <= k < |c| - 1 ==> c[k].min == c[k].max || (c[k + 1] == Ch(':') && c[k].cls == Digit);
    }
    var a := if i == 0 then [Abbr, Gap, Digits(2), Ch(','), Gap, Digits(4), Gap]
      else if i == 1 then DatePattern + [Gap]
      else if i == 2 then DatePattern + [Ch(':')]
      else if i == 3 then DatePattern + [Ch('T')]
      else if i == 4 then [Digits(4), Ch('/'), Digits(2), Ch('/'), Digits(2), Gap]
      else if i == 5 then [Digits(2), Ch('/'), Digits(2), Ch('/'), Digits(4), Gap]
      else [Digits(2), Ch('/'), Abbr, Ch('/'), Digits(4), Gap];
    assert Formats[i].pattern == a + c;
    FixedThenDeterminate(a, c);
  }

  /**
    What the detection loop's `re.match` gives for each pattern: no match
    exactly when no prefix of the timestamp is in the pattern's language, and
    otherwise the longest prefix that is.
  */
  lemma {:induction false} FormatMatchLongest(i: int, s: string)
    requires 0 <= i < |Formats|
    ensures MatchPrefix(Formats[i].pattern, s).None? <==> forall m :: 0 <= m <= |s| ==> !Spells(Formats[i].pattern, s[..m])
    ensures MatchPrefix(Formats[i].pattern, s).Some? ==>
      var n := MatchPrefix(Formats[i].pattern, s).value;
      && Spells(Formats[i].pattern, s[..n])
      && (forall m :: n < m <= |s| ==> !Spells(Formats[i].pattern, s[..m]))
  {
    FormatsDeterminate(i);
    MatchLongest(Formats[i].pattern, s);
  }

  /** `%Y-%m-%d %H:%M:`: the second format's template up to its last directive, `%S`. */
  const SecondsHead: Template := DateTemplate + [Blank, Hour, Lit(':'), Minute, Lit(':')]
  const SecondsHeadPattern: Pattern := DatePattern + [Gap, Elem(Digit, 1, 2), Ch(':'), Elem(Digit, 1, 2), Ch(':')]

  lemma {:induction false} SecondsHeadSplit()
    ensures Fits(SecondsHeadPattern, SecondsHead) && WellFormed(SecondsHead)
    ensures DashSpaceFormat.pattern == SecondsHeadPattern + [Elem(Digit, 1, 2)]
    ensures SecondsTemplate == SecondsHead + [Second]
  {
    var p, t := SecondsHeadPattern, SecondsHead;
    forall k | 0 <= k < |p| ensures ElemFits(p[k], t[k]) {
    }
  }

  /**
    A `yyyy-mm-dd hh:mm:` head followed by two digits is detected by the second
    format, which captures the head and both digits.
  */
  lemma {:induction false} SecondsDetected(d: DateTime, w: string, tail: string)
    requires InFieldRanges(d)
    requires |w| == 2 && AllIn(Digit, w)
    ensures var text := Format(d, SecondsHead) + w;
      Detect(text + tail) == Detection(text, SecondsTemplate)
  {
    var head := Format(d, SecondsHead);
    var text := head + w;
    var s := text + tail;
    SecondsHeadSplit();
    var p := Formats[1].pattern;
    var q := [Elem(Digit, 1, 2)];
    assert MatchPrefix(q[1..], tail) == Some(0);
    MatchFirst(q, w + tail, w, tail, 0);
    assert p[..|SecondsHead|] == SecondsHeadPattern && p[|SecondsHead|..] == q;
    FitsPieces(p, SecondsHead, d);
    FormatPieces(d, SecondsHead);
    MatchPieces(p, Pieces(d, SecondsHead), head, w + tail, 2);
    ConcatAssoc(head, w, tail);
    assert MatchPrefix(Formats[1].pattern, s) == Some(|text|);
    MonthNameMisses(SecondsHead, d, w + tail);
    DetectFirstMatch(s, 1);
    assert s[..|text|] == text;
  }

  /**
    `strptime` with `%Y-%m-%d %H:%M:%S` on such a text whose seconds are past
    61: `%S` takes one digit only (its pattern is `6[0-1]|[0-5]\d|\d`),
    and the other is left unconverted.
  */
  lemma {:induction false} SecondsPastRangeRejected(d: DateTime, w: string)
    requires InFieldRanges(d)
    requires |w| == 2 && AllIn(Digit, w) && DecimalValue(w) > 61
    ensures Parse(Format(d, SecondsHead) + w, SecondsTemplate) == Err(UnconvertedData)
  {
    SecondsHeadSplit();
    ReadFormatted(SecondsHead, d, Defaults, [Second], w);
    SecondLeavesDigit(w, Recorded(SecondsHead, d, Defaults));
  }
}
