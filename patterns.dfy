/**
  The regular expressions of the timestamp formats, as sequences of
  character-class elements `class{min,max}` matched at the start of the
  input (`re.match`). Every element is matched greedily and never given back:
  `MatchPrefix` is sound (`MatchSpells`) and for the determinate patterns used
  here it finds the longest prefix the pattern spells (`MatchLongest`), which
  is what Python's backtracking matcher returns for them.
*/
module Patterns {
  import opened Wrappers

  /** `\d`, `\w`, `\s` and a literal character */
  datatype CharClass = Digit | Word | Space | Char(c: char)

  /** `cls{min,max}`; a bare class or literal is `{1,1}` */
  datatype Elem = Elem(cls: CharClass, min: nat, max: nat)

  type Pattern = seq<Elem>

  predicate IsDigit(c: char) {
    '0' <= c <= '9'
  }

  /** `\w` on ASCII: letters, digits and the underscore */
  predicate IsWordChar(c: char) {
    ('a' <= c <= 'z') || ('A' <= c <= 'Z') || IsDigit(c) || c == '_'
  }

  /** `\s`: the characters for which Python's `str.isspace()` holds */
  predicate IsSpace(c: char) {
    c == ' ' || ('\t' <= c <= '\r') || ('\U{1C}' <= c <= '\U{1F}')
    || c == '\U{85}' || c == '\U{A0}' || c == '\U{1680}' || ('\U{2000}' <= c <= '\U{200A}')
    || c == '\U{2028}' || c == '\U{2029}' || c == '\U{202F}' || c == '\U{205F}' || c == '\U{3000}'
  }

  predicate InClass(k: CharClass, c: char) {
    match k
    case Digit => IsDigit(c)
    case Word => IsWordChar(c)
    case Space => IsSpace(c)
    case Char(l) => c == l
  }

  predicate AllIn(k: CharClass, w: string) {
    forall i :: 0 <= i < |w| ==> InClass(k, w[i])
  }

  /** Greedy repetition: how many leading characters of `s` are in `k`, at most `max`. */
  function Run(k: CharClass, s: string, max: nat): (n: nat)
    ensures n <= max && n <= |s|
    ensures AllIn(k, s[..n])
    ensures n < max && n < |s| ==> !InClass(k, s[n])
  {
    if max == 0 || |s| == 0 || !InClass(k, s[0]) then 0
    else
      var n := 1 + Run(k, s[1..], max - 1);
      assert forall i :: 1 <= i < n ==> s[..n][i] == s[1..][..n - 1][i - 1];
      n
  }

  /** `re.match(p, s)`: the length of the prefix of `s` that `p` captures, or `None`. */
  function MatchPrefix(p: Pattern, s: string): (r: Option<nat>)
    ensures r.Some? ==> r.value <= |s|
  {
    if p == [] then Some(0)
    else
      var k := Run(p[0].cls, s, p[0].max);
      if k < p[0].min then None
      else match MatchPrefix(p[1..], s[k..])
        case None => None
        case Some(n) => Some(k + n)
  }

  /** The language of a pattern: `w` splits into one run per element, each of a permitted length. */
  ghost predicate Spells(p: Pattern, w: string)
    decreases |p|
  {
    if p == [] then w == []
    else exists k :: p[0].min <= k <= p[0].max && k <= |w| && AllIn(p[0].cls, w[..k]) && Spells(p[1..], w[k..])
  }

  /** The longest string a pattern can spell. */
  function MaxLength(p: Pattern): nat {
    if p == [] then 0 else p[0].max + MaxLength(p[1..])
  }

  /**
    Every variable-width element other than the last is followed by a literal
    outside its class, so a greedy run can never eat what the rest needs.
  */
  predicate Determinate(p: Pattern) {
    && (forall i :: 0 <= i < |p| ==> p[i].min <= p[i].max)
    && (forall i :: 0 <= i < |p| - 1 ==>
          p[i].min == p[i].max
          || (p[i + 1].cls.Char? && p[i + 1].min >= 1 && !InClass(p[i].cls, p[i + 1].cls.c)))
  }

  /** What `MatchPrefix` captures the pattern spells. */
  lemma {:induction false} MatchSpells(p: Pattern, s: string)
    requires MatchPrefix(p, s).Some?
    ensures Spells(p, s[..MatchPrefix(p, s).value])
    decreases |p|
  {
    if p != [] {
      var k := Run(p[0].cls, s, p[0].max);
      var n := MatchPrefix(p[1..], s[k..]).value;
      assert MatchPrefix(p, s).value == k + n;
      MatchSpells(p[1..], s[k..]);
      var w := s[..k + n];
      assert w[..k] == s[..k];
      assert w[k..] == s[k..][..n];
      assert p[0].min <= k <= p[0].max && k <= |w| && AllIn(p[0].cls, w[..k]) && Spells(p[1..], w[k..]);
    }
  }

  /** A spelled string is no longer than the pattern allows. */
  lemma {:induction false} SpellsLength(p: Pattern, w: string)
    requires Spells(p, w)
    ensures |w| <= MaxLength(p)
    decreases |p|
  {
    if p != [] {
      var k :| p[0].min <= k <= p[0].max && k <= |w| && AllIn(p[0].cls, w[..k]) && Spells(p[1..], w[k..]);
      SpellsLength(p[1..], w[k..]);
    }
  }

  lemma {:induction false} MaxLengthPrefix(p: Pattern, k: nat)
    requires 0 < k <= |p|
    ensures MaxLength(p[..k]) == p[0].max + MaxLength(p[1..][..k - 1])
  {
    assert p[..k][1..] == p[1..][..k - 1];
  }

  /** The first `min` characters of a spelled string are in the first element's class. */
  lemma {:induction false} SpellsFirstRun(p: Pattern, w: string, j: nat)
    requires Spells(p, w) && p != [] && j < p[0].min
    ensures j < |w| && InClass(p[0].cls, w[j])
  {
    var k0 :| p[0].min <= k0 <= p[0].max && k0 <= |w| && AllIn(p[0].cls, w[..k0]) && Spells(p[1..], w[k0..]);
    assert InClass(p[0].cls, w[..k0][j]);
  }

  /** After a run of fixed-width elements, element `k` spells the characters at a fixed offset. */
  lemma {:induction false} SpellsAt(p: Pattern, w: string, k: nat, j: nat)
    requires Spells(p, w)
    requires k < |p| && j < p[k].min
    requires forall i :: 0 <= i < k ==> p[i].min == p[i].max
    ensures MaxLength(p[..k]) + j < |w| && InClass(p[k].cls, w[MaxLength(p[..k]) + j])
    decreases k
  {
    if k == 0 {
      assert MaxLength(p[..0]) == 0 by { assert p[..0] == []; }
      SpellsFirstRun(p, w, j);
    } else {
      var k0 :| p[0].min <= k0 <= p[0].max && k0 <= |w| && AllIn(p[0].cls, w[..k0]) && Spells(p[1..], w[k0..]);
      assert k0 == p[0].max;
      assert forall i :: 0 <= i < k - 1 ==> p[1..][i].min == p[1..][i].max by {
        assert forall i :: 0 <= i < k - 1 ==> p[1..][i] == p[i + 1];
      }
      assert p[1..][k - 1] == p[k];
      SpellsAt(p[1..], w[k0..], k - 1, j);
      MaxLengthPrefix(p, k);
      var o := MaxLength(p[1..][..k - 1]) + j;
      assert o < |w[k0..]| && InClass(p[k].cls, w[k0..][o]);
      assert w[k0..][o] == w[k0 + o];
      assert MaxLength(p[..k]) + j == k0 + o;
    }
  }

  /** What a match captures past a run of fixed-width elements is in the class of the next element. */
  lemma {:induction false} MatchAt(p: Pattern, s: string, k: nat, j: nat)
    requires MatchPrefix(p, s).Some?
    requires k < |p| && j < p[k].min
    requires forall i :: 0 <= i < k ==> p[i].min == p[i].max
    ensures MaxLength(p[..k]) + j < |s| && InClass(p[k].cls, s[MaxLength(p[..k]) + j])
  {
    var n := MatchPrefix(p, s).value;
    MatchSpells(p, s);
    SpellsAt(p, s[..n], k, j);
    assert s[..n][MaxLength(p[..k]) + j] == s[MaxLength(p[..k]) + j];
  }

  /** A greedy run covers every prefix whose characters are all in the class. */
  lemma {:induction false} RunCovers(k: CharClass, s: string, max: nat, j: nat)
    requires j <= max && j <= |s| && AllIn(k, s[..j])
    ensures j <= Run(k, s, max)
  {
  }

  /** A run over characters all in the class takes exactly `max` of them. */
  lemma {:induction false} RunFull(k: CharClass, s: string, max: nat)
    requires max <= |s| && AllIn(k, s[..max])
    ensures Run(k, s, max) == max
  {
    RunCovers(k, s, max, max);
  }

  /** A match is a run of the first element followed by a match of the rest. */
  lemma {:induction false} MatchStep(p: Pattern, s: string, k: nat, n: nat)
    requires p != [] && Run(p[0].cls, s, p[0].max) == k && p[0].min <= k
    requires MatchPrefix(p[1..], s[k..]) == Some(n)
    ensures MatchPrefix(p, s) == Some(k + n)
  {
  }

  lemma {:induction false} DeterminateTail(p: Pattern)
    requires p != [] && Determinate(p)
    ensures Determinate(p[1..])
  {
    assert forall i :: 0 <= i < |p| - 1 ==> p[1..][i] == p[i + 1];
  }

  /** What follows a variable-width element starts with a character outside its class. */
  lemma {:induction false} SpelledSuccessor(p: Pattern, w: string)
    requires |p| > 1 && Determinate(p) && p[0].min != p[0].max
    requires Spells(p[1..], w)
    ensures |w| > 0 && !InClass(p[0].cls, w[0])
  {
    assert p[1].cls.Char? && p[1].min >= 1 && !InClass(p[0].cls, p[1].cls.c);
    var k1 :| p[1].min <= k1 <= p[1].max && k1 <= |w| && AllIn(p[1].cls, w[..k1]) && Spells(p[2..], w[k1..]);
    assert w[..k1][0] == w[0];
  }

  /** A spelled prefix of `s` starts with a run of the first element. */
  lemma {:induction false} SpellsFirst(p: Pattern, s: string, m: nat)
    requires p != [] && m <= |s| && Spells(p, s[..m])
    ensures exists k :: p[0].min <= k <= p[0].max && k <= m && AllIn(p[0].cls, s[..k]) && Spells(p[1..], s[k..m])
  {
    var w := s[..m];
    var k :| p[0].min <= k <= p[0].max && k <= |w| && AllIn(p[0].cls, w[..k]) && Spells(p[1..], w[k..]);
    assert w[..k] == s[..k];
    assert w[k..] == s[k..m];
  }

  /** In a determinate pattern, the greedy run of a variable-width element stops where the spelled text leaves its class. */
  lemma {:induction false} GreedyStops(p: Pattern, s: string, m: nat, k: nat)
    requires |p| > 1 && Determinate(p) && m <= |s|
    requires p[0].min <= k <= p[0].max && k <= m && AllIn(p[0].cls, s[..k]) && Spells(p[1..], s[k..m])
    ensures Run(p[0].cls, s, p[0].max) == k
  {
    RunCovers(p[0].cls, s, p[0].max, k);
    if p[0].min != p[0].max {
      SpelledSuccessor(p, s[k..m]);
      assert s[k..m][0] == s[k];
      RunStops(p[0].cls, s, p[0].max, k);
    }
  }

  /** A greedy run stops at the first character outside the class. */
  lemma {:induction false} RunStops(k: CharClass, s: string, max: nat, j: nat)
    requires j < |s| && !InClass(k, s[j])
    ensures Run(k, s, max) <= j
    decreases j
  {
    if max > 0 && InClass(k, s[0]) {
      assert s[1..][j - 1] == s[j];
      RunStops(k, s[1..], max - 1, j - 1);
    }
  }

  /**
    For a determinate pattern, if some prefix of `s` is spelled then the greedy
    matcher succeeds and captures at least that prefix.
  */
  lemma {:induction false} MatchComplete(p: Pattern, s: string, m: nat)
    requires Determinate(p)
    requires m <= |s| && Spells(p, s[..m])
    ensures MatchPrefix(p, s).Some? && m <= MatchPrefix(p, s).value
    decreases |p|
  {
    if p != [] {
      SpellsFirst(p, s, m);
      var k :| p[0].min <= k <= p[0].max && k <= m && AllIn(p[0].cls, s[..k]) && Spells(p[1..], s[k..m]);
      if |p| == 1 {
        RunCovers(p[0].cls, s, p[0].max, k);
        var g := Run(p[0].cls, s, p[0].max);
        assert MatchPrefix(p[1..], s[g..]) == Some(0);
        MatchStep(p, s, g, 0);
      } else {
        GreedyStops(p, s, m, k);
        DeterminateTail(p);
        assert s[k..][..m - k] == s[k..m];
        MatchComplete(p[1..], s[k..], m - k);
        MatchStep(p, s, k, MatchPrefix(p[1..], s[k..]).value);
      }
    }
  }

  /**
    What `re.match` returns for a determinate pattern: nothing exactly when no
    prefix of `s` is spelled, and otherwise the longest spelled prefix, which
    is never longer than the pattern allows.
  */
  lemma {:induction false} MatchLongest(p: Pattern, s: string)
    requires Determinate(p)
    ensures MatchPrefix(p, s).None? <==> forall m :: 0 <= m <= |s| ==> !Spells(p, s[..m])
    ensures MatchPrefix(p, s).Some? ==>
      var n := MatchPrefix(p, s).value;
      && Spells(p, s[..n])
      && (forall m :: n < m <= |s| ==> !Spells(p, s[..m]))
      && n <= MaxLength(p)
  {
    forall m | 0 <= m <= |s| && Spells(p, s[..m])
      ensures MatchPrefix(p, s).Some? && m <= MatchPrefix(p, s).value
    {
      MatchComplete(p, s, m);
    }
    if MatchPrefix(p, s).Some? {
      MatchSpells(p, s);
      SpellsLength(p, s[..MatchPrefix(p, s).value]);
    }
  }
}
