/** The component half of the transcript extractor (server/utils/pdfParser.js,
    lines 64-122): a scan over the trimmed, non-empty lines of the text that
    waits for the curricular-components section marker, then reads one
    fixed-shape group of lines per term line it meets, and gives up once a third
    distinct term shows up. */
module Scanner {
  import opened Wrappers
  import opened Text

  const SectionMarker: string := "Componentes Curriculares Cursados/Cursando"
  const DocenteMarker: string := "Docente(s):"

  /** One curricular component, with the field names of the source record. */
  datatype Component = Component(
    periodo: string, componente: string, turma: string, situacao: string,
    codigo: string, frequencia: string, nota: string, ch: string, docente: string)

  /** Before and after the section marker has been seen. */
  datatype Phase = Seeking | Collecting

  /** `/^\d{4}\.\d/.test(line)`: the line opens a term group, as in "2021.2". */
  predicate IsTermLine(line: string) {
    |line| >= 6 && RangeIn(line, 0, 4, Digit) && line[4] == '.' && InClass(line[5], Digit)
  }

  /** What `periodo` holds: the first token of a term line. */
  predicate IsTermToken(p: string) {
    IsTermLine(p) && forall k :: 0 <= k < |p| ==> !IsSpace(p[k])
  }

  // ------- `([A-Z]{3}\d{4})(\d{1,3}\.\d{2})(\d{1,2}\.\d{1})(\d{2}\.\d{2})`

  /** `v` is `\d{n}\.\d{f}`. */
  predicate FixedDecimal(v: string, n: nat, f: nat) {
    |v| == n + 1 + f && RangeIn(v, 0, n, Digit) && v[n] == '.' && RangeIn(v, n + 1, |v|, Digit)
  }

  /** `[A-Z]{3}\d{4}` */
  predicate IsCourseCode(v: string) {
    |v| == 7 && RangeIn(v, 0, 3, Upper) && RangeIn(v, 3, 7, Digit)
  }

  /** `\d{1,3}\.\d{2}` */
  predicate IsFrequencia(v: string) {
    4 <= |v| <= 6 && FixedDecimal(v, |v| - 3, 2)
  }

  /** `\d{1,2}\.\d{1}` */
  predicate IsNota(v: string) {
    3 <= |v| <= 4 && FixedDecimal(v, |v| - 2, 1)
  }

  /** `\d{2}\.\d{2}` */
  predicate IsCargaHoraria(v: string) {
    FixedDecimal(v, 2, 2)
  }

  /** The four groups of the combined code/attendance/grade/hours pattern. */
  datatype Figures = Figures(codigo: string, frequencia: string, nota: string, ch: string)

  /** The combined pattern matches at `p` with `a` digits before the attendance
      dot and `b` digits before the grade dot. */
  predicate FiguresMatchAt(s: string, p: int, a: int, b: int) {
    && 0 <= p && 1 <= a <= 3 && 1 <= b <= 2
    && p + 7 + (a + 3) + (b + 2) + 5 <= |s|
    && IsCourseCode(s[p..p + 7])
    && FixedDecimal(s[p + 7..p + 7 + a + 3], a, 2)
    && FixedDecimal(s[p + 7 + a + 3..p + 7 + a + 3 + b + 2], b, 1)
    && FixedDecimal(s[p + 7 + a + 3 + b + 2..p + 7 + a + 3 + b + 2 + 5], 2, 2)
  }

  function SplitFigures(s: string, p: nat, a: nat, b: nat): (f: Figures)
    requires FiguresMatchAt(s, p, a, b)
    ensures IsCourseCode(f.codigo) && IsFrequencia(f.frequencia) && IsNota(f.nota) && IsCargaHoraria(f.ch)
  {
    var q2 := p + 7;
    var q3 := q2 + a + 3;
    var q4 := q3 + b + 2;
    Figures(s[p..q2], s[q2..q3], s[q3..q4], s[q4..q4 + 5])
  }

  /** The groups when the match starts at `p`. The backtracking matcher tries
      the counts of `\d{1,3}` and then `\d{1,2}`, largest first; since each count
      must end at a dot, at most one of them fits (`FiguresSplitUnique`). */
  function FiguresAt(s: string, p: nat): (r: Option<Figures>)
    ensures r.None? <==> forall a, b :: !FiguresMatchAt(s, p, a, b)
    ensures r.Some? ==> exists a, b :: FiguresMatchAt(s, p, a, b) && r.value == SplitFigures(s, p, a, b)
  {
    FiguresCounts(s, p);
    if FiguresMatchAt(s, p, 3, 2) then Some(SplitFigures(s, p, 3, 2))
    else if FiguresMatchAt(s, p, 3, 1) then Some(SplitFigures(s, p, 3, 1))
    else if FiguresMatchAt(s, p, 2, 2) then Some(SplitFigures(s, p, 2, 2))
    else if FiguresMatchAt(s, p, 2, 1) then Some(SplitFigures(s, p, 2, 1))
    else if FiguresMatchAt(s, p, 1, 2) then Some(SplitFigures(s, p, 1, 2))
    else if FiguresMatchAt(s, p, 1, 1) then Some(SplitFigures(s, p, 1, 1))
    else None
  }

  /** The counts a match can use are the six `FiguresAt` tries. */
  lemma {:induction false} FiguresCounts(s: string, p: nat)
    ensures (forall a, b :: !FiguresMatchAt(s, p, a, b)) <==>
              && !FiguresMatchAt(s, p, 3, 2) && !FiguresMatchAt(s, p, 3, 1)
              && !FiguresMatchAt(s, p, 2, 2) && !FiguresMatchAt(s, p, 2, 1)
              && !FiguresMatchAt(s, p, 1, 2) && !FiguresMatchAt(s, p, 1, 1)
  {
    forall a, b | FiguresMatchAt(s, p, a, b)
      ensures (a, b) in {(3, 2), (3, 1), (2, 2), (2, 1), (1, 2), (1, 1)}
    {
    }
  }

  /** `s.match(/([A-Z]{3}\d{4})(\d{1,3}\.\d{2})(\d{1,2}\.\d{1})(\d{2}\.\d{2})/)`,
      trying start positions from `from` on. */
  function FiguresFrom(s: string, from: nat): (r: Option<Figures>)
    ensures r.None? <==> forall p, a, b :: from <= p ==> !FiguresMatchAt(s, p, a, b)
    ensures r.Some? ==> exists p: nat :: && from <= p && r == FiguresAt(s, p)
                                         && forall p': nat :: from <= p' < p ==> FiguresAt(s, p').None?
    decreases |s| - from
  {
    if from > |s| then None
    else
      var r := FiguresAt(s, from);
      if r.Some? then r else FiguresFrom(s, from + 1)
  }

  /** The combined-field lookup on one line: all four groups of the one
      leftmost match, with their shapes, or nothing exactly when the pattern
      matches nowhere. */
  function FiguresOf(line: string): (r: Option<Figures>)
    ensures r.None? <==> forall p, a, b :: !FiguresMatchAt(line, p, a, b)
    ensures r.Some? ==> exists p: nat, a: nat, b: nat ::
                          && FiguresMatchAt(line, p, a, b) && r.value == SplitFigures(line, p, a, b)
                          && forall p': nat :: p' < p ==> FiguresAt(line, p').None?
    ensures r.Some? ==> && IsCourseCode(r.value.codigo) && IsFrequencia(r.value.frequencia)
                        && IsNota(r.value.nota) && IsCargaHoraria(r.value.ch)
  {
    var r := FiguresFrom(line, 0);
    assert r.Some? ==> exists p: nat, a: nat, b: nat ::
                         && FiguresMatchAt(line, p, a, b) && r.value == SplitFigures(line, p, a, b)
                         && forall p': nat :: p' < p ==> FiguresAt(line, p').None? by {
      if r.Some? {
        var p: nat :| r == FiguresAt(line, p) && forall p': nat :: p' < p ==> FiguresAt(line, p').None?;
        FiguresLeftmost(line, p);
      }
    }
    r
  }

  /** The groups read at the leftmost start position come from one match there. */
  lemma {:induction false} FiguresLeftmost(s: string, p: nat)
    requires FiguresAt(s, p).Some?
    requires forall p': nat :: p' < p ==> FiguresAt(s, p').None?
    ensures exists p0: nat, a: nat, b: nat ::
              && FiguresMatchAt(s, p0, a, b) && FiguresAt(s, p).value == SplitFigures(s, p0, a, b)
              && forall p': nat :: p' < p0 ==> FiguresAt(s, p').None?
  {
    var a, b :| FiguresMatchAt(s, p, a, b) && FiguresAt(s, p).value == SplitFigures(s, p, a, b);
    assert a >= 0 && b >= 0;
    var a': nat, b': nat := a, b;
    assert FiguresMatchAt(s, p, a', b') && FiguresAt(s, p).value == SplitFigures(s, p, a', b');
  }

  /** At one start position the dots force the digit counts: two splits that
      both fit are the same split. */
  lemma {:induction false} FiguresSplitUnique(s: string, p: nat, a: nat, b: nat, a': nat, b': nat)
    requires FiguresMatchAt(s, p, a, b) && FiguresMatchAt(s, p, a', b')
    ensures a == a' && b == b'
  {
    FixedDecimalDot(s, p + 7, a, a', 2);
    FixedDecimalDot(s, p + 7 + a + 3, b, b', 1);
  }

  /** Two `\d{n}\.\d{f}` readings at the same place put the dot in the same place. */
  lemma {:induction false} FixedDecimalDot(s: string, r: nat, n: nat, n': nat, f: nat)
    requires r + n + 1 + f <= |s| && r + n' + 1 + f <= |s|
    requires FixedDecimal(s[r..r + n + 1 + f], n, f) && FixedDecimal(s[r..r + n' + 1 + f], n', f)
    ensures n == n'
  {
    FixedDecimalIn(s, r, n, f);
    FixedDecimalIn(s, r, n', f);
  }

  /** A `\d{n}\.\d{f}` reading at `r`, stated on `s` itself. */
  lemma {:induction false} FixedDecimalIn(s: string, r: nat, n: nat, f: nat)
    requires r + n + 1 + f <= |s| && FixedDecimal(s[r..r + n + 1 + f], n, f)
    ensures s[r + n] == '.' && forall m :: r <= m < r + n ==> InClass(s[m], Digit)
  {
    var v := s[r..r + n + 1 + f];
    assert v[n] == s[r + n];
    forall m | r <= m < r + n ensures InClass(s[m], Digit) {
      assert v[m - r] == s[m];
    }
  }

  /** The sentinel has none of the shapes a match yields. */
  lemma {:induction false} NotFoundIsNoFigure()
    ensures !IsCourseCode(NotFound) && !IsFrequencia(NotFound) && !IsNota(NotFound) && !IsCargaHoraria(NotFound)
    ensures !IsTermToken(NotFound)
  {
    assert |NotFound| == 14;
    assert !InClass(NotFound[0], Digit);
  }

  // ------------------------------------------------------------ one group

  /** `lines[k]` is truthy: the line exists and is not empty. */
  predicate Present(lines: seq<string>, k: nat) {
    k < |lines| && lines[k] != []
  }

  /** `lines[k] || 'Não encontrado'`: never empty, and a line only when one is there. */
  function LineOr(lines: seq<string>, k: nat): (r: string)
    ensures r != []
    ensures r == NotFound || (k < |lines| && r == lines[k])
    ensures k < |lines| && lines[k] != [] ==> r == lines[k]
  {
    if Present(lines, k) then lines[k] else NotFound
  }

  /** Where the group body is read from: after the term line, or after its
      immediate repetition when the next line also matches the term pattern. */
  function BodyStart(lines: seq<string>, t: nat): (b: nat)
    requires t < |lines|
    ensures b == t || b == t + 1
    ensures b == t + 1 <==> t + 1 < |lines| && IsTermLine(lines[t + 1])
  {
    if Present(lines, t + 1) && IsTermLine(lines[t + 1]) then t + 1 else t
  }

  /** The instructor line read as the source does: the text after the first
      marker, trimmed, when the line carries the marker, and the sentinel
      otherwise. */
  function DocenteOf(line: string): (r: string)
    ensures !Contains(line, DocenteMarker) ==> r == NotFound
    ensures Contains(line, DocenteMarker) ==>
              exists k :: FirstAt(line, DocenteMarker, 0, k) && r == Trim(line[..k] + line[k + |DocenteMarker|..])
    ensures Contains(line, DocenteMarker) ==> IsTrimmed(r) && |r| <= |line| - |DocenteMarker|
  {
    if Contains(line, DocenteMarker) then Trim(RemoveFirst(line, DocenteMarker)) else NotFound
  }

  /** A component as every group yields it: a term token, and the four figures
      together, each in its shape, or all four the sentinel. */
  predicate WellFormed(c: Component) {
    && IsTermToken(c.periodo)
    && (c.codigo == NotFound <==> c.frequencia == NotFound)
    && (c.codigo == NotFound <==> c.nota == NotFound)
    && (c.codigo == NotFound <==> c.ch == NotFound)
    && (c.codigo != NotFound ==>
          IsCourseCode(c.codigo) && IsFrequencia(c.frequencia) && IsNota(c.nota) && IsCargaHoraria(c.ch))
  }

  /** The component read from the group whose term line is `lines[t]`. Its
      term is the first token of that line, and a group read at a term line is
      well formed; `GroupLayout` says where each field comes from. */
  function ReadGroup(lines: seq<string>, t: nat): (c: Component)
    requires t < |lines|
    ensures c.periodo == FirstToken(lines[t])
    ensures IsTermLine(lines[t]) ==> WellFormed(c)
  {
    NotFoundIsNoFigure();
    var periodo := FirstToken(lines[t]);
    assert IsTermLine(lines[t]) ==> IsTermToken(periodo) by {
      if IsTermLine(lines[t]) {
        assert |periodo| >= 6 by {
          assert forall k :: 0 <= k < 6 ==> !IsSpace(lines[t][k]);
        }
        assert forall k :: 0 <= k < 6 ==> periodo[k] == lines[t][k];
      }
    }
    var b := BodyStart(lines, t);
    var figures := if Present(lines, b + 4) then FiguresOf(lines[b + 4]) else None;
    var docente := if b + 5 < |lines| then DocenteOf(lines[b + 5]) else NotFound;
    match figures
    case Some(f) =>
      Component(periodo, LineOr(lines, b + 1), LineOr(lines, b + 2), LineOr(lines, b + 3),
                f.codigo, f.frequencia, f.nota, f.ch, docente)
    case None =>
      Component(periodo, LineOr(lines, b + 1), LineOr(lines, b + 2), LineOr(lines, b + 3),
                NotFound, NotFound, NotFound, NotFound, docente)
  }

  /** Where the fields of the group at `lines[t]` come from: name, class and
      status at fixed offsets after the (possibly repeated) term line, the four
      figures from the fourth body line all together or not at all, and the
      instructor from the fifth body line only when it carries the marker. */
  lemma {:induction false} GroupLayout(lines: seq<string>, t: nat)
    requires t < |lines|
    ensures var c, b := ReadGroup(lines, t), BodyStart(lines, t);
            && (c.componente == if Present(lines, b + 1) then lines[b + 1] else NotFound)
            && (c.turma == if Present(lines, b + 2) then lines[b + 2] else NotFound)
            && (c.situacao == if Present(lines, b + 3) then lines[b + 3] else NotFound)
    ensures var c, b := ReadGroup(lines, t), BodyStart(lines, t);
            c.codigo != NotFound <==> Present(lines, b + 4) && FiguresOf(lines[b + 4]).Some?
    ensures var c, b := ReadGroup(lines, t), BodyStart(lines, t);
            Present(lines, b + 4) && FiguresOf(lines[b + 4]).Some? ==>
              Figures(c.codigo, c.frequencia, c.nota, c.ch) == FiguresOf(lines[b + 4]).value
    ensures var c, b := ReadGroup(lines, t), BodyStart(lines, t);
            c.docente == if b + 5 < |lines| then DocenteOf(lines[b + 5]) else NotFound
  {
    NotFoundIsNoFigure();
  }

  /** `ReadGroup` over each of the term lines `ts`, in order. */
  function ReadAll(lines: seq<string>, ts: seq<nat>): (cs: seq<Component>)
    requires forall k :: 0 <= k < |ts| ==> ts[k] < |lines|
    ensures |cs| == |ts|
    ensures forall k :: 0 <= k < |ts| ==> cs[k] == ReadGroup(lines, ts[k])
  {
    if ts == [] then [] else [ReadGroup(lines, ts[0])] + ReadAll(lines, ts[1..])
  }

  // --------------------------------------------------------------- the scan

  /** The term lines the scan reads a group from, continuing at line `i` in
      `phase` with the terms `seen` so far: a reference definition of the loop
      at lines 72-120. A marker line switches to collecting and is never taken
      for a term line; a group moves the scan past its term line, a repeated
      term line and five body lines; a term beyond two distinct ones ends it.
      The term lines are ones after a marker, in increasing order, at least six
      lines apart. */
  function Starts(lines: seq<string>, i: nat, phase: Phase, seen: set<string>): (ts: seq<nat>)
    ensures forall k :: 0 <= k < |ts| ==> i <= ts[k] < |lines| && IsTermLine(lines[ts[k]])
    decreases |lines| - i
  {
    if i >= |lines| then []
    else if Contains(lines[i], SectionMarker) then Starts(lines, i + 1, Collecting, seen)
    else if phase == Collecting && IsTermLine(lines[i]) then
      var periodo := FirstToken(lines[i]);
      if |seen| >= 2 && periodo !in seen then []
      else [i] + Starts(lines, BodyStart(lines, i) + 6, Collecting, seen + {periodo})
    else Starts(lines, i + 1, phase, seen)
  }

  /** The scan never reads a marker line as a term line. */
  lemma {:induction false} StartsSkipMarkers(lines: seq<string>, i: nat, phase: Phase, seen: set<string>)
    ensures forall k :: 0 <= k < |Starts(lines, i, phase, seen)| ==>
              !Contains(lines[Starts(lines, i, phase, seen)[k]], SectionMarker)
    decreases |lines| - i
  {
    if i >= |lines| {
    } else if Contains(lines[i], SectionMarker) {
      StartsSkipMarkers(lines, i + 1, Collecting, seen);
    } else if phase == Collecting && IsTermLine(lines[i]) {
      var periodo := FirstToken(lines[i]);
      if !(|seen| >= 2 && periodo !in seen) {
        StartsSkipMarkers(lines, BodyStart(lines, i) + 6, Collecting, seen + {periodo});
      }
    } else {
      StartsSkipMarkers(lines, i + 1, phase, seen);
    }
  }

  /** Each term line the scan reads is at least six lines after the previous one. */
  lemma {:induction false} StartsGaps(lines: seq<string>, i: nat, phase: Phase, seen: set<string>)
    ensures forall k :: 0 < k < |Starts(lines, i, phase, seen)| ==>
              Starts(lines, i, phase, seen)[k - 1] + 6 <= Starts(lines, i, phase, seen)[k]
    decreases |lines| - i
  {
    if i >= |lines| {
    } else if Contains(lines[i], SectionMarker) {
      StartsGaps(lines, i + 1, Collecting, seen);
    } else if phase == Collecting && IsTermLine(lines[i]) {
      var periodo := FirstToken(lines[i]);
      if !(|seen| >= 2 && periodo !in seen) {
        var j := BodyStart(lines, i) + 6;
        StartsGaps(lines, j, Collecting, seen + {periodo});
        var rest := Starts(lines, j, Collecting, seen + {periodo});
        var ts := Starts(lines, i, phase, seen);
        assert ts == [i] + rest;
        assert forall k :: 0 < k < |ts| ==> ts[k] == rest[k - 1];
      }
    } else {
      StartsGaps(lines, i + 1, phase, seen);
    }
  }

  /** From the seeking phase, every term line read comes after a marker line. */
  lemma {:induction false} StartsAfterMarker(lines: seq<string>, i: nat, seen: set<string>)
    ensures forall k :: 0 <= k < |Starts(lines, i, Seeking, seen)| ==>
              MarkerBefore(lines, i, Starts(lines, i, Seeking, seen)[k])
    decreases |lines| - i
  {
    var ts := Starts(lines, i, Seeking, seen);
    if i >= |lines| {
    } else if Contains(lines[i], SectionMarker) {
      assert ts == Starts(lines, i + 1, Collecting, seen);
      forall k | 0 <= k < |ts|
        ensures MarkerBefore(lines, i, ts[k])
      {
        assert i < ts[k] && Contains(lines[i], SectionMarker);
      }
    } else {
      StartsAfterMarker(lines, i + 1, seen);
      assert ts == Starts(lines, i + 1, Seeking, seen);
      forall k | 0 <= k < |ts|
        ensures MarkerBefore(lines, i, ts[k])
      {
        var m :| i + 1 <= m < ts[k] && 0 <= m < |lines| && Contains(lines[m], SectionMarker);
      }
    }
  }

  /** Some line in `lines[i..t]` holds the section marker. */
  ghost predicate MarkerBefore(lines: seq<string>, i: int, t: int) {
    exists m :: i <= m < t && 0 <= m < |lines| && Contains(lines[m], SectionMarker)
  }

  /** The components of the trimmed, non-empty lines `lines`, by the reference definition. */
  function Scan(lines: seq<string>): (cs: seq<Component>)
  {
    ReadAll(lines, Starts(lines, 0, Seeking, {}))
  }

  /** The terms the components carry. */
  function Periods(cs: seq<Component>): set<string> {
    set c | c in cs :: c.periodo
  }

  lemma {:induction false} PeriodsPrepend(c: Component, cs: seq<Component>)
    ensures Periods([c] + cs) == {c.periodo} + Periods(cs)
  {
    assert forall x :: x in [c] + cs <==> x == c || x in cs;
  }

  /** The first tokens of the term lines `ts`: the terms their groups carry. */
  function TermsOf(lines: seq<string>, ts: seq<nat>): set<string>
    requires forall k :: 0 <= k < |ts| ==> ts[k] < |lines|
  {
    if ts == [] then {} else {FirstToken(lines[ts[0]])} + TermsOf(lines, ts[1..])
  }

  lemma {:induction false} PeriodsOfReadAll(lines: seq<string>, ts: seq<nat>)
    requires forall k :: 0 <= k < |ts| ==> ts[k] < |lines|
    ensures Periods(ReadAll(lines, ts)) == TermsOf(lines, ts)
  {
    if ts != [] {
      PeriodsOfReadAll(lines, ts[1..]);
      PeriodsPrepend(ReadGroup(lines, ts[0]), ReadAll(lines, ts[1..]));
    }
  }

  /** The reference scan keeps to at most two distinct terms, counting the
      terms it has already seen. */
  lemma {:induction false} StartsTermsBound(lines: seq<string>, i: nat, phase: Phase, seen: set<string>)
    requires |seen| <= 2
    ensures |seen + TermsOf(lines, Starts(lines, i, phase, seen))| <= 2
    decreases |lines| - i
  {
    if i >= |lines| {
      assert seen + {} == seen;
    } else if Contains(lines[i], SectionMarker) {
      MarkerStep(lines, i, phase, seen);
      StartsTermsBound(lines, i + 1, Collecting, seen);
    } else if phase == Collecting && IsTermLine(lines[i]) {
      var periodo := FirstToken(lines[i]);
      if |seen| >= 2 && periodo !in seen {
        StopStep(lines, i, seen);
        assert seen + {} == seen;
      } else {
        var seen' := seen + {periodo};
        assert |seen'| <= 2 by {
          if periodo in seen { assert seen' == seen; }
        }
        var j := BodyStart(lines, i) + 6;
        StartsTermsBound(lines, j, Collecting, seen');
        TermStep(lines, i, seen);
        TermsBoundStep(lines, i, Starts(lines, j, Collecting, seen'), seen);
      }
    } else {
      SkipStep(lines, i, phase, seen);
      StartsTermsBound(lines, i + 1, phase, seen);
    }
  }

  /** The term case of `StartsTermsBound`: reading a group adds its term to
      those seen. */
  lemma {:induction false} TermsBoundStep(lines: seq<string>, t: nat, rest: seq<nat>, seen: set<string>)
    requires t < |lines| && forall k :: 0 <= k < |rest| ==> rest[k] < |lines|
    requires |(seen + {FirstToken(lines[t])}) + TermsOf(lines, rest)| <= 2
    ensures |seen + TermsOf(lines, [t] + rest)| <= 2
  {
    TermsOfCons(lines, t, rest);
    UnionShift(seen, FirstToken(lines[t]), TermsOf(lines, rest));
  }

  lemma {:induction false} TermsOfCons(lines: seq<string>, t: nat, rest: seq<nat>)
    requires t < |lines| && forall k :: 0 <= k < |rest| ==> rest[k] < |lines|
    ensures TermsOf(lines, [t] + rest) == {FirstToken(lines[t])} + TermsOf(lines, rest)
  {
    assert ([t] + rest)[1..] == rest;
  }

  lemma {:induction false} UnionShift<T>(a: set<T>, x: T, b: set<T>)
    ensures a + ({x} + b) == (a + {x}) + b
  {
  }

  /** At most two distinct terms in the output of the reference scan. */
  lemma {:induction false} ScanAtMostTwoTerms(lines: seq<string>)
    ensures |Periods(Scan(lines))| <= 2
  {
    var ts := Starts(lines, 0, Seeking, {});
    StartsTermsBound(lines, 0, Seeking, {});
    PeriodsOfReadAll(lines, ts);
    assert {} + TermsOf(lines, ts) == TermsOf(lines, ts);
  }

  lemma {:induction false} ReadAllSnoc(lines: seq<string>, ts: seq<nat>, t: nat)
    requires forall k :: 0 <= k < |ts| ==> ts[k] < |lines|
    requires t < |lines|
    ensures ReadAll(lines, ts + [t]) == ReadAll(lines, ts) + [ReadGroup(lines, t)]
  {
    if ts == [] {
      assert [] + [t] == [t];
    } else {
      assert (ts + [t])[1..] == ts[1..] + [t];
      ReadAllSnoc(lines, ts[1..], t);
    }
  }

  /** One step of the reference scan at a term line it reads. */
  lemma {:induction false} TermStep(lines: seq<string>, i: nat, seen: set<string>)
    requires i < |lines| && IsTermLine(lines[i]) && !Contains(lines[i], SectionMarker)
    requires !(|seen| >= 2 && FirstToken(lines[i]) !in seen)
    ensures Starts(lines, i, Collecting, seen)
         == [i] + Starts(lines, BodyStart(lines, i) + 6, Collecting, seen + {FirstToken(lines[i])})
  {
  }

  /** The loop's view of `TermStep`: the term line joins the lines read. */
  lemma {:induction false} TermAdvance(lines: seq<string>, all: seq<nat>, done: seq<nat>, i: nat, seen: set<string>)
    requires i < |lines| && IsTermLine(lines[i]) && !Contains(lines[i], SectionMarker)
    requires !(|seen| >= 2 && FirstToken(lines[i]) !in seen)
    requires all == done + Starts(lines, i, Collecting, seen)
    ensures all == (done + [i]) + Starts(lines, BodyStart(lines, i) + 6, Collecting, seen + {FirstToken(lines[i])})
  {
    TermStep(lines, i, seen);
    var rest := Starts(lines, BodyStart(lines, i) + 6, Collecting, seen + {FirstToken(lines[i])});
    assert done + ([i] + rest) == (done + [i]) + rest;
  }

  /** The loop invariant of `ScanComponents` carried across a group it reads. */
  lemma {:induction false} TermInvariant(lines: seq<string>, all: seq<nat>, done: seq<nat>, cs: seq<Component>, i: nat, seen: set<string>)
    requires forall k :: 0 <= k < |done| ==> done[k] < |lines|
    requires i < |lines| && IsTermLine(lines[i]) && !Contains(lines[i], SectionMarker)
    requires !(|seen| >= 2 && FirstToken(lines[i]) !in seen)
    requires all == done + Starts(lines, i, Collecting, seen)
    requires cs == ReadAll(lines, done)
    ensures all == (done + [i]) + Starts(lines, BodyStart(lines, i) + 6, Collecting, seen + {FirstToken(lines[i])})
    ensures forall k :: 0 <= k < |done + [i]| ==> (done + [i])[k] < |lines|
    ensures cs + [ReadGroup(lines, i)] == ReadAll(lines, done + [i])
  {
    TermAdvance(lines, all, done, i, seen);
    InRangeSnoc(done, i, |lines|);
    ReadAllSnoc(lines, done, i);
  }

  lemma {:induction false} InRangeSnoc(done: seq<nat>, i: nat, n: nat)
    requires forall k :: 0 <= k < |done| ==> done[k] < n
    requires i < n
    ensures forall k :: 0 <= k < |done + [i]| ==> (done + [i])[k] < n
  {
    forall k | 0 <= k < |done + [i]|
      ensures (done + [i])[k] < n
    {
      if k < |done| { assert (done + [i])[k] == done[k]; }
    }
  }

  /** One step of the reference scan at a marker line. */
  lemma {:induction false} MarkerStep(lines: seq<string>, i: nat, phase: Phase, seen: set<string>)
    requires i < |lines| && Contains(lines[i], SectionMarker)
    ensures Starts(lines, i, phase, seen) == Starts(lines, i + 1, Collecting, seen)
  {
  }

  /** One step of the reference scan at a line it passes over. */
  lemma {:induction false} SkipStep(lines: seq<string>, i: nat, phase: Phase, seen: set<string>)
    requires i < |lines| && !Contains(lines[i], SectionMarker)
    requires !(phase == Collecting && IsTermLine(lines[i]))
    ensures Starts(lines, i, phase, seen) == Starts(lines, i + 1, phase, seen)
  {
  }

  /** The reference scan stops at a third distinct term. */
  lemma {:induction false} StopStep(lines: seq<string>, i: nat, seen: set<string>)
    requires i < |lines| && IsTermLine(lines[i]) && !Contains(lines[i], SectionMarker)
    requires |seen| >= 2 && FirstToken(lines[i]) !in seen
    ensures Starts(lines, i, Collecting, seen) == []
  {
  }

  /** The term lines of the reference scan start after a marker line and are
      at least six apart, so the scan reads at most (|lines| + 4) / 6 groups. */
  lemma {:induction false} ScanCount(lines: seq<string>)
    ensures 6 * |Scan(lines)| <= |lines| + 4
  {
    var ts := Starts(lines, 0, Seeking, {});
    StartsAfterMarker(lines, 0, {});
    StartsGaps(lines, 0, Seeking, {});
    if ts != [] {
      assert MarkerBefore(lines, 0, ts[0]);
      assert forall k :: 0 <= k < |ts| ==> 1 + 6 * k <= ts[k] by {
        forall k | 0 <= k < |ts|
          ensures 1 + 6 * k <= ts[k]
        {
          GapsAccumulate(ts, k);
        }
      }
      assert 1 + 6 * (|ts| - 1) <= ts[|ts| - 1] < |lines|;
    }
  }

  lemma {:induction false} GapsAccumulate(ts: seq<nat>, k: nat)
    requires k < |ts| && 1 <= ts[0]
    requires forall j :: 0 < j < |ts| ==> ts[j - 1] + 6 <= ts[j]
    ensures 1 + 6 * k <= ts[k]
  {
    if k > 0 {
      GapsAccumulate(ts, k - 1);
    }
  }

  /** Without a line holding the section marker the scan reads nothing. */
  lemma {:induction false} ScanNeedsMarker(lines: seq<string>)
    ensures Scan(lines) != [] ==> exists m :: 0 <= m < |lines| && Contains(lines[m], SectionMarker)
  {
    var ts := Starts(lines, 0, Seeking, {});
    StartsAfterMarker(lines, 0, {});
    if ts != [] {
      assert MarkerBefore(lines, 0, ts[0]);
    }
  }

  /** Every component of the reference scan is well formed. */
  lemma {:induction false} ScanWellFormed(lines: seq<string>)
    ensures forall k :: 0 <= k < |Scan(lines)| ==> WellFormed(Scan(lines)[k])
  {
    var ts := Starts(lines, 0, Seeking, {});
    assert forall k :: 0 <= k < |ts| ==> IsTermLine(lines[ts[k]]);
  }

  /** What the reference scan promises, gathered for the loop that computes it. */
  lemma {:induction false} ScanProperties(lines: seq<string>)
    ensures |Periods(Scan(lines))| <= 2
    ensures 6 * |Scan(lines)| <= |lines| + 4
    ensures forall k :: 0 <= k < |Scan(lines)| ==> WellFormed(Scan(lines)[k])
    ensures (forall m :: 0 <= m < |lines| ==> !Contains(lines[m], SectionMarker)) ==> Scan(lines) == []
  {
    ScanAtMostTwoTerms(lines);
    ScanCount(lines);
    ScanWellFormed(lines);
    ScanNeedsMarker(lines);
  }

  /** The scan loop of lines 68-120. It computes exactly the reference scan,
      so `ScanProperties` holds of its result. */
  method ScanComponents(lines: seq<string>) returns (cs: seq<Component>)
    ensures cs == Scan(lines)
  {
    cs := [];
    var i := 0;
    var phase := Seeking;
    var seen: set<string> := {};
    ghost var done: seq<nat> := [];
    ghost var all := Starts(lines, 0, Seeking, {});
    while i < |lines|
      invariant i <= |lines| + 5
      invariant all == done + Starts(lines, i, phase, seen)
      invariant forall k :: 0 <= k < |done| ==> done[k] < |lines|
      invariant cs == ReadAll(lines, done)
      decreases |lines| + 5 - i
    {
      var line := lines[i];
      if Contains(line, SectionMarker) {
        MarkerStep(lines, i, phase, seen);
        phase := Collecting;
        i := i + 1;
      } else if phase == Collecting && IsTermLine(line) {
        var periodo := FirstToken(line);
        if |seen| >= 2 && periodo !in seen {
          StopStep(lines, i, seen);
          break;
        }
        var body := BodyStart(lines, i);
        var c := ReadGroup(lines, i);
        TermInvariant(lines, all, done, cs, i, seen);
        cs, done := cs + [c], done + [i];
        seen := seen + {periodo};
        i := body + 6;
      } else {
        SkipStep(lines, i, phase, seen);
        i := i + 1;
      }
    }
    assert done == all;
  }
}
