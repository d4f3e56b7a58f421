/** The header half of the transcript extractor (server/utils/pdfParser.js,
    lines 5-62): scalar fields recovered from the whole text by first-match
    regular-expression searches, each defaulting to `NotFound`.

    Every JavaScript pattern is modelled by the search its backtracking matcher
    performs: the leftmost start position at which the pattern matches, and
    there, the captures the greedy (or lazy) quantifiers settle on. Each search
    is partnered with a declarative predicate saying when the pattern matches at
    all, and the two are tied together by an if-and-only-if on "not found"; for
    the key-and-decimal searches this holds when every literal piece of the key
    starts with a non-whitespace character, as in all the keys of the record. */
module Header {
  import opened Wrappers
  import opened Text

  // --------------------------------------------------- `Label:\s*([^\n]+)`

  /** `key\s*([^\n]+)` matches at `p` with its capture starting at `k`:
      `\s*` spans `s[p + |key|..k]` and `[^\n]+` needs at least `s[k]`. */
  ghost predicate LabelMatchAt(s: string, key: string, p: int, k: int) {
    && OccursAt(s, p, key)
    && p + |key| <= k < |s|
    && RangeIn(s, p + |key|, k, Space)
    && s[k] != '\n'
  }

  /** The trimmed group 1 of `key\s*([^\n]+)` when the match starts at `p`.

      Greedy `\s*` first takes every whitespace character after the key,
      newlines included. If something follows, `[^\n]+` takes the rest of that
      line. If only whitespace follows to the end of the text, `\s*` gives
      characters back until `[^\n]+` can take one that is not a newline; the
      capture is then whitespace and trims to "". */
  function LabelledValueAt(s: string, key: string, p: nat): (r: Option<string>)
    ensures r.None? <==> forall k :: !LabelMatchAt(s, key, p, k)
    ensures r.Some? ==> IsTrimmed(r.value) && '\n' !in r.value
    ensures r.Some? ==> exists k: nat :: LabelMatchAt(s, key, p, k)
                          && (forall k' :: LabelMatchAt(s, key, p, k') ==> k' <= k)
                          && r.value == Trim(s[k..Span(s, k, LineChar)])
  {
    if !OccursAt(s, p, key) then None
    else
      var q := p + |key|;
      var w := Span(s, q, Space);
      if w < |s| then
        assert LabelMatchAt(s, key, p, w);
        LabelCaptureLast(s, key, p, w);
        var e := Span(s, w, LineChar);
        assert '\n' !in s[w..e] by {
          assert forall m :: 0 <= m < e - w ==> s[w..e][m] == s[w + m];
        }
        TrimNoNewline(s[w..e]);
        Some(Trim(s[w..e]))
      else
        var k := LastLineChar(s, |s|);
        if q <= k then
          LabelCaptureInSpace(s, key, p, k);
          Some("")
        else
          None
  }

  /** The last index before `j` that holds something other than a newline, or
      -1 when `s[..j]` is all newlines. */
  function LastLineChar(s: string, j: nat): (k: int)
    requires j <= |s|
    ensures -1 <= k < j
    ensures k >= 0 ==> s[k] != '\n'
    ensures forall m :: k < m < j ==> s[m] == '\n'
  {
    if j == 0 then -1
    else if s[j - 1] != '\n' then j - 1
    else LastLineChar(s, j - 1)
  }

  /** A capture start that no other capture start exceeds is the one the greedy
      `\s*` leaves. */
  lemma {:induction false} LabelCaptureLast(s: string, key: string, p: nat, k: nat)
    requires LabelMatchAt(s, key, p, k)
    requires k == Span(s, p + |key|, Space)
    ensures forall k' :: LabelMatchAt(s, key, p, k') ==> k' <= k
  {
    forall k' | LabelMatchAt(s, key, p, k') ensures k' <= k {
      assert !InClass(s[k], Space);
    }
  }

  /** With only whitespace after the key, `\s*` backs off to the last character
      that is not a newline, and group 1 is that one whitespace character. */
  lemma {:induction false} LabelCaptureInSpace(s: string, key: string, p: nat, k: nat)
    requires OccursAt(s, p, key) && p + |key| <= k
    requires Span(s, p + |key|, Space) == |s|
    requires k == LastLineChar(s, |s|)
    ensures LabelMatchAt(s, key, p, k)
    ensures forall k' :: LabelMatchAt(s, key, p, k') ==> k' <= k
    ensures Trim(s[k..Span(s, k, LineChar)]) == ""
  {
    assert LabelMatchAt(s, key, p, k);
    forall k' | LabelMatchAt(s, key, p, k') ensures k' <= k {
    }
    assert RangeIn(s, k, k + 1, LineChar);
    SpanExact(s, k, k + 1, LineChar);
    assert AllIn(s[k..k + 1], Space) by {
      assert s[k..k + 1][0] == s[k];
    }
    TrimAllSpace(s[k..k + 1]);
  }

  /** `s.match(/key\s*([^\n]+)/)` with `.trim()` on group 1, trying start
      positions from `from` on: the leftmost match wins. */
  function LabelledValueFrom(s: string, key: string, from: nat): (r: Option<string>)
    ensures r.None? <==> forall p, k :: from <= p ==> !LabelMatchAt(s, key, p, k)
    ensures r.Some? ==> exists p :: from <= p && r == LabelledValueAt(s, key, p)
                          && forall p', k :: from <= p' < p ==> !LabelMatchAt(s, key, p', k)
    decreases |s| - from
  {
    if from > |s| then None
    else
      var r := LabelledValueAt(s, key, from);
      if r.Some? then r else LabelledValueFrom(s, key, from + 1)
  }

  /** `v` is the trimmed group 1 of the leftmost match of `key\s*([^\n]+)` in `s`. */
  ghost predicate LeftmostLabelled(s: string, key: string, v: string) {
    exists p: nat :: LabelledValueAt(s, key, p) == Some(v)
                     && forall p': nat :: p' < p ==> LabelledValueAt(s, key, p').None?
  }

  /** `s.match(/key\s*([^\n]+)/)`, group 1 trimmed: the capture at the leftmost
      match, a trimmed single-line value. */
  function LabelledValue(s: string, key: string): (r: Option<string>)
    ensures r.None? <==> forall p, k :: !LabelMatchAt(s, key, p, k)
    ensures r.Some? ==> LeftmostLabelled(s, key, r.value)
    ensures r.Some? ==> IsTrimmed(r.value) && '\n' !in r.value
  {
    var r := LabelledValueFrom(s, key, 0);
    assert r.Some? ==> LeftmostLabelled(s, key, r.value) by {
      if r.Some? {
        var p: nat :| r == LabelledValueAt(s, key, p) && forall p', k :: 0 <= p' < p ==> !LabelMatchAt(s, key, p', k);
        assert forall p': nat :: p' < p ==> LabelledValueAt(s, key, p').None?;
      }
    }
    r
  }

  // -------------------------------- `IRA\s*-\s*Individual:\s*(\d+\.\d+)` fields

  /** `v` has the shape `\d+\.\d+`. */
  predicate IsDecimal(v: string) {
    exists i :: 0 < i < |v| - 1 && v[i] == '.' && RangeIn(v, 0, i, Digit) && RangeIn(v, i + 1, |v|, Digit)
  }

  /** No whitespace character at `w`: the text ends there or holds something else. */
  predicate NoSpaceAt(s: string, w: int) {
    !(0 <= w < |s| && IsSpace(s[w]))
  }

  /** No digit at `f`. */
  predicate NoDigitAt(s: string, f: int) {
    !(0 <= f < |s| && InClass(s[f], Digit))
  }

  /** Every literal piece of a key starts with a character that `\s` does not match. */
  predicate KeysStartNonSpace(pieces: seq<string>) {
    forall j :: 0 <= j < |pieces| ==> pieces[j] != [] && !IsSpace(pieces[j][0])
  }

  /** The literal `pieces`, each followed by `\s*`, match `s` from `pos` to
      `end`, however much whitespace each `\s*` takes. */
  ghost predicate KeyMatchAt(s: string, pos: int, pieces: seq<string>, end: int)
    decreases |pieces|
  {
    if pieces == [] then end == pos
    else OccursAt(s, pos, pieces[0])
         && exists w :: RangeIn(s, pos + |pieces[0]|, w, Space) && KeyMatchAt(s, w, pieces[1..], end)
  }

  /** Where the match continues after the literal `pieces`, each followed by
      greedy `\s*`, matched from `pos`: each `\s*` takes all the whitespace there. */
  function KeyEnd(s: string, pos: nat, pieces: seq<string>): (r: Option<nat>)
    requires pos <= |s|
    ensures r.Some? ==> pos <= r.value <= |s| && KeyMatchAt(s, pos, pieces, r.value)
    ensures r.Some? && pieces != [] ==> NoSpaceAt(s, r.value)
    decreases |pieces|
  {
    if pieces == [] then Some(pos)
    else if OccursAt(s, pos, pieces[0]) then
      var w := Span(s, pos + |pieces[0]|, Space);
      var r := KeyEnd(s, w, pieces[1..]);
      assert r.Some? ==> RangeIn(s, pos + |pieces[0]|, w, Space) && KeyMatchAt(s, w, pieces[1..], r.value);
      r
    else None
  }

  /** When every piece starts with a non-space character, the whitespace each
      `\s*` takes is forced: a key match that stops before a non-space
      character is the greedy one. */
  lemma {:induction false} KeyEndForced(s: string, pos: nat, pieces: seq<string>, end: int)
    requires pos <= |s| && KeysStartNonSpace(pieces)
    requires KeyMatchAt(s, pos, pieces, end) && NoSpaceAt(s, end)
    ensures KeyEnd(s, pos, pieces) == Some(end)
    decreases |pieces|
  {
    if pieces != [] {
      var q := pos + |pieces[0]|;
      var w :| RangeIn(s, q, w, Space) && KeyMatchAt(s, w, pieces[1..], end);
      assert KeysStartNonSpace(pieces[1..]) by {
        forall j | 0 <= j < |pieces[1..]|
          ensures pieces[1..][j] != [] && !IsSpace(pieces[1..][j][0])
        {
          assert pieces[1..][j] == pieces[j + 1];
        }
      }
      assert NoSpaceAt(s, w) by {
        if pieces[1..] != [] {
          var t := pieces[1..][0];
          assert t == pieces[1] && OccursAt(s, w, t);
          assert s[w] == s[w..w + |t|][0];
        }
      }
      SpanExact(s, q, w, Space);
      KeyEndForced(s, w, pieces[1..], end);
    }
  }

  /** `\d+\.\d+` matches `s[e..f]`, with its dot at `i`. */
  ghost predicate DecimalMatchAt(s: string, e: int, i: int, f: int) {
    && 0 <= e < i && i + 1 < f <= |s|
    && RangeIn(s, e, i, Digit) && s[i] == '.' && RangeIn(s, i + 1, f, Digit)
  }

  /** `(\d+\.\d+)` at `e`: it matches exactly when some dot splits two digit runs
      there; the first run is forced to end at the dot and the greedy second
      run takes every digit after it. */
  function DecimalAt(s: string, e: nat): (r: Option<string>)
    requires e <= |s|
    ensures r.None? <==> forall i, f :: !DecimalMatchAt(s, e, i, f)
    ensures r.Some? ==> exists f :: && (exists i :: DecimalMatchAt(s, e, i, f))
                                    && NoDigitAt(s, f) && r.value == s[e..f]
    ensures r.Some? ==> IsDecimal(r.value) && OccursAt(s, e, r.value)
  {
    var d := Span(s, e, Digit);
    if e < d < |s| && s[d] == '.' && d + 1 < Span(s, d + 1, Digit) then
      var f := Span(s, d + 1, Digit);
      var v := s[e..f];
      assert DecimalMatchAt(s, e, d, f);
      assert v[d - e] == '.';
      assert RangeIn(v, 0, d - e, Digit) && RangeIn(v, d - e + 1, |v|, Digit) by {
        assert forall m :: 0 <= m < |v| ==> v[m] == s[e + m];
      }
      Some(v)
    else
      assert forall i, f :: !DecimalMatchAt(s, e, i, f) by {
        forall i, f | DecimalMatchAt(s, e, i, f)
          ensures false
        {
          SpanExact(s, e, i, Digit);
        }
      }
      None
  }

  /** The key and decimal pattern matches at `p`. */
  ghost predicate DecimalFieldMatches(s: string, pieces: seq<string>, p: int) {
    exists end, i, f :: KeyMatchAt(s, p, pieces, end) && DecimalMatchAt(s, end, i, f)
  }

  /** `v` is group 1 of a match of the key and decimal pattern at `p`, with the
      greedy fraction run. */
  ghost predicate DecimalFieldAt(s: string, pieces: seq<string>, p: int, v: string) {
    exists end, f :: && KeyMatchAt(s, p, pieces, end) && (exists i :: DecimalMatchAt(s, end, i, f))
                     && NoDigitAt(s, f) && v == s[end..f]
  }

  /** At one position, the greedy key match followed by a decimal is the same
      thing as some match of the whole pattern. */
  lemma {:induction false} DecimalFieldAtPosition(s: string, pieces: seq<string>, p: nat)
    requires p <= |s|
    ensures var k := KeyEnd(s, p, pieces);
            k.Some? && DecimalAt(s, k.value).Some? ==> DecimalFieldAt(s, pieces, p, DecimalAt(s, k.value).value)
    ensures KeysStartNonSpace(pieces) ==>
              (DecimalFieldMatches(s, pieces, p) <==>
                 var k := KeyEnd(s, p, pieces); k.Some? && DecimalAt(s, k.value).Some?)
  {
    if KeysStartNonSpace(pieces) && DecimalFieldMatches(s, pieces, p) {
      var end, i, f :| KeyMatchAt(s, p, pieces, end) && DecimalMatchAt(s, end, i, f);
      assert InClass(s[end], Digit);
      KeyEndForced(s, p, pieces, end);
    }
  }

  /** `s.match(/pieces[0]\s*pieces[1]\s*...\s*(\d+\.\d+)/)`, group 1, trying
      start positions from `from` on. A found value is a decimal from a match of
      the pattern (`DecimalValueFromLeftmost` says which match). */
  function DecimalValueFrom(s: string, pieces: seq<string>, from: nat): (r: Option<string>)
    ensures r.Some? ==> IsDecimal(r.value) && Contains(s, r.value)
    ensures r.Some? ==> exists p :: from <= p && DecimalFieldAt(s, pieces, p, r.value)
    decreases |s| - from
  {
    if from > |s| then None
    else
      DecimalFieldAtPosition(s, pieces, from);
      var next := KeyEnd(s, from, pieces);
      if next.Some? && DecimalAt(s, next.value).Some? then
        var v := DecimalAt(s, next.value).value;
        assert OccursAt(s, next.value, v);
        assert DecimalFieldAt(s, pieces, from, v);
        Some(v)
      else DecimalValueFrom(s, pieces, from + 1)
  }

  /** When the key pieces start with non-space characters, as all the keys of
      the record do, nothing is found exactly when the pattern matches nowhere
      from `from` on. */
  lemma {:induction false} DecimalValueFromNone(s: string, pieces: seq<string>, from: nat)
    requires KeysStartNonSpace(pieces)
    ensures DecimalValueFrom(s, pieces, from).None? <==> forall p :: from <= p ==> !DecimalFieldMatches(s, pieces, p)
    decreases |s| - from
  {
    if from > |s| {
      forall p | from <= p
        ensures !DecimalFieldMatches(s, pieces, p)
      {
        DecimalFieldInside(s, pieces, p);
      }
    } else {
      DecimalFieldAtPosition(s, pieces, from);
      var next := KeyEnd(s, from, pieces);
      if next.Some? && DecimalAt(s, next.value).Some? {
        assert DecimalValueFrom(s, pieces, from).Some?;
        assert DecimalFieldMatches(s, pieces, from);
      } else {
        assert DecimalValueFrom(s, pieces, from) == DecimalValueFrom(s, pieces, from + 1);
        DecimalValueFromNone(s, pieces, from + 1);
        assert !DecimalFieldMatches(s, pieces, from);
        assert (forall p :: from <= p ==> !DecimalFieldMatches(s, pieces, p))
               <==> (forall p :: from + 1 <= p ==> !DecimalFieldMatches(s, pieces, p));
      }
    }
  }

  /** With the same premise, a found value comes from the leftmost match. */
  lemma {:induction false} DecimalValueFromLeftmost(s: string, pieces: seq<string>, from: nat)
    requires KeysStartNonSpace(pieces) && DecimalValueFrom(s, pieces, from).Some?
    ensures exists p :: && from <= p && DecimalFieldAt(s, pieces, p, DecimalValueFrom(s, pieces, from).value)
                        && forall p' :: from <= p' < p ==> !DecimalFieldMatches(s, pieces, p')
    decreases |s| - from
  {
    var r := DecimalValueFrom(s, pieces, from);
    DecimalFieldAtPosition(s, pieces, from);
    var next := KeyEnd(s, from, pieces);
    if next.Some? && DecimalAt(s, next.value).Some? {
      assert DecimalFieldAt(s, pieces, from, r.value);
    } else {
      DecimalValueFromLeftmost(s, pieces, from + 1);
      assert !DecimalFieldMatches(s, pieces, from);
      var p :| && from + 1 <= p && DecimalFieldAt(s, pieces, p, r.value)
               && forall p' :: from + 1 <= p' < p ==> !DecimalFieldMatches(s, pieces, p');
      assert forall p' :: from <= p' < p ==> !DecimalFieldMatches(s, pieces, p');
    }
  }

  /** The key and decimal pattern only matches at a position inside the text. */
  lemma {:induction false} DecimalFieldInside(s: string, pieces: seq<string>, p: int)
    ensures DecimalFieldMatches(s, pieces, p) ==> 0 <= p < |s|
  {
    if DecimalFieldMatches(s, pieces, p) {
      var end, i, f :| KeyMatchAt(s, p, pieces, end) && DecimalMatchAt(s, end, i, f);
      KeyMatchBound(s, p, pieces, end);
    }
  }

  /** A key match never starts before the end it reaches. */
  lemma {:induction false} KeyMatchBound(s: string, pos: int, pieces: seq<string>, end: int)
    requires KeyMatchAt(s, pos, pieces, end)
    ensures pos <= end
    decreases |pieces|
  {
    if pieces != [] {
      var w :| RangeIn(s, pos + |pieces[0]|, w, Space) && KeyMatchAt(s, w, pieces[1..], end);
      KeyMatchBound(s, w, pieces[1..], end);
    }
  }

  /** The key and decimal lookup over the whole text. */
  function DecimalValue(s: string, pieces: seq<string>): (r: Option<string>)
    ensures r.Some? ==> IsDecimal(r.value)
    ensures KeysStartNonSpace(pieces) ==> (r.None? <==> forall p :: !DecimalFieldMatches(s, pieces, p))
    ensures KeysStartNonSpace(pieces) && r.Some? ==>
              exists p :: && DecimalFieldAt(s, pieces, p, r.value)
                          && forall p' :: 0 <= p' < p ==> !DecimalFieldMatches(s, pieces, p')
  {
    var r := DecimalValueFrom(s, pieces, 0);
    assert KeysStartNonSpace(pieces) ==> (r.None? <==> forall p :: !DecimalFieldMatches(s, pieces, p)) by {
      if KeysStartNonSpace(pieces) {
        DecimalValueFromNone(s, pieces, 0);
        forall p | p < 0 ensures !DecimalFieldMatches(s, pieces, p) { DecimalFieldInside(s, pieces, p); }
      }
    }
    assert KeysStartNonSpace(pieces) && r.Some? ==>
             exists p :: && DecimalFieldAt(s, pieces, p, r.value)
                         && forall p' :: 0 <= p' < p ==> !DecimalFieldMatches(s, pieces, p') by {
      if KeysStartNonSpace(pieces) && r.Some? { DecimalValueFromLeftmost(s, pieces, 0); }
    }
    r
  }

  /** A decimal is a trimmed, single-line value. */
  lemma {:induction false} DecimalIsField(v: string)
    ensures IsDecimal(v) ==> IsTrimmed(v) && '\n' !in v
  {
    if !IsDecimal(v) { return; }
    var i :| 0 < i < |v| - 1 && v[i] == '.' && RangeIn(v, 0, i, Digit) && RangeIn(v, i + 1, |v|, Digit);
    assert InClass(v[0], Digit) && InClass(v[|v| - 1], Digit);
    forall m | 0 <= m < |v|
      ensures v[m] != '\n'
    {
      if m < i { assert InClass(v[m], Digit); } else if m > i { assert InClass(v[m], Digit); }
    }
  }

  // ------------------ `Dados do Curso\s*([\s\S]*?)(?=\nDados da Instituição)`

  const CourseStart: string := "Dados do Curso"
  const CourseEnd: string := "\nDados da Instituição"

  /** The course-data block can be cut from `p` to `e`. */
  ghost predicate CourseMarkersAt(s: string, p: int, e: int) {
    OccursAt(s, p, CourseStart) && p + |CourseStart| <= e && OccursAt(s, e, CourseEnd)
  }

  /** The trimmed course-data capture when the match starts at `p`.

      Greedy `\s*` takes the whitespace after the opening marker and the lazy
      capture stops at the first closing marker from there on. If the only
      closing markers start inside that whitespace (the closing marker begins
      with a newline), `\s*` backs off, the capture is whitespace and it trims
      to "". */
  function CourseBlockAt(s: string, p: nat): (r: Option<string>)
    ensures r.None? <==> forall e :: !CourseMarkersAt(s, p, e)
    ensures r.Some? ==> exists e :: CourseMarkersAt(s, p, e) && r.value == Trim(s[p + |CourseStart|..e])
    ensures OccursAt(s, p, CourseStart) ==>
              var w := Span(s, p + |CourseStart|, Space);
              forall e :: FirstAt(s, CourseEnd, w, e) ==> r == Some(Trim(s[w..e]))
    ensures OccursAt(s, p, CourseStart) && r.Some? ==>
              var w := Span(s, p + |CourseStart|, Space);
              (forall e :: w <= e ==> !OccursAt(s, e, CourseEnd)) ==> r.value == []
  {
    if !OccursAt(s, p, CourseStart) then None
    else
      var q := p + |CourseStart|;
      var w := Span(s, q, Space);
      var closing := IndexOf(s, CourseEnd, w);
      if closing.Some? then
        var e := closing.value;
        assert FirstAt(s, CourseEnd, w, e);
        assert forall e' :: FirstAt(s, CourseEnd, w, e') ==> e' == e;
        assert CourseMarkersAt(s, p, e);
        CourseCaptureFromSpace(s, q, w, e);
        Some(Trim(s[w..e]))
      else
        assert forall e :: w <= e ==> !OccursAt(s, e, CourseEnd);
        var early := IndexOf(s, CourseEnd, q);
        if early.Some? then
          var e := early.value;
          assert CourseMarkersAt(s, p, e);
          CourseCaptureInSpace(s, q, e);
          Some("")
        else
          None
  }

  lemma {:induction false} CourseCaptureFromSpace(s: string, q: nat, w: nat, e: nat)
    requires q <= w <= e <= |s| && RangeIn(s, q, w, Space)
    ensures Trim(s[q..e]) == Trim(s[w..e])
  {
    assert s[q..e] == s[q..w] + s[w..e];
    assert AllIn(s[q..w], Space) by {
      assert forall m :: 0 <= m < w - q ==> s[q..w][m] == s[q + m];
    }
    TrimSkipsLeadingSpace(s[q..w], s[w..e]);
  }

  lemma {:induction false} CourseCaptureInSpace(s: string, q: nat, e: nat)
    requires q <= e <= |s| && RangeIn(s, q, e, Space)
    ensures Trim(s[q..e]) == []
  {
    assert AllIn(s[q..e], Space) by {
      assert forall m :: 0 <= m < e - q ==> s[q..e][m] == s[q + m];
    }
    TrimAllSpace(s[q..e]);
  }

  /** `s.match(/Dados do Curso\s*([\s\S]*?)(?=\nDados da Instituição)/)`, group 1
      trimmed, trying start positions from `from` on. */
  function CourseBlockFrom(s: string, from: nat): (r: Option<string>)
    ensures r.None? <==> forall p, e :: from <= p ==> !CourseMarkersAt(s, p, e)
    ensures r.Some? ==> exists p :: && from <= p && r == CourseBlockAt(s, p)
                                    && forall p', e :: from <= p' < p ==> !CourseMarkersAt(s, p', e)
    decreases |s| - from
  {
    if from > |s| then None
    else
      var r := CourseBlockAt(s, from);
      if r.Some? then r else CourseBlockFrom(s, from + 1)
  }

  /** The course-data block: found exactly when an opening marker has a
      closing marker after it, and then the capture at the leftmost such
      opening marker, as `CourseBlockAt` cuts it. */
  function CourseBlock(s: string): (r: Option<string>)
    ensures r.None? <==> forall p, e :: !CourseMarkersAt(s, p, e)
    ensures r.Some? ==> exists p: nat :: && r == CourseBlockAt(s, p)
                                         && forall p', e :: 0 <= p' < p ==> !CourseMarkersAt(s, p', e)
  {
    CourseBlockFrom(s, 0)
  }

  // ---------------------------------------------- `(\d+)\s*([A-Z\s]+)\s*Nome:`

  const NameLabel: string := "Nome:"

  /** The registration number and name read together from the joint pattern. */
  datatype Identity = Identity(matricula: string, nome: string)

  /** `(\d+)\s*([A-Z\s]+)\s*Nome:` matches at `p` with `d` digits in group 1 and
      "Nome:" at `b`. Since `\s` lies inside `[A-Z\s]`, the text between the
      digits and "Nome:" is one non-empty run of `[A-Z\s]`, however the two
      `\s*` split it with group 2. */
  ghost predicate IdentityMatchAt(s: string, p: int, d: int, b: int) {
    && 1 <= d && p + d < b
    && RangeIn(s, p, p + d, Digit)
    && RangeIn(s, p + d, b, NameChar)
    && OccursAt(s, b, NameLabel)
  }

  /** A match leaves no choice: group 1 is the whole digit run and "Nome:" sits
      where the `[A-Z\s]` run after it ends (its "N" is the run's last character). */
  lemma {:induction false} IdentityMatchForced(s: string, p: int, d: int, b: int)
    requires IdentityMatchAt(s, p, d, b)
    ensures p + d == Span(s, p, Digit)
    ensures b + 1 == Span(s, p + d, NameChar)
  {
    assert s[b] == s[b..b + 5][0] && s[b + 1] == s[b..b + 5][1];
    assert InClass(s[p + d], NameChar);
    SpanExact(s, p, p + d, Digit);
    SpanExact(s, p + d, b + 1, NameChar);
  }

  /** Both groups trimmed, when the joint pattern's match starts at `p`. Group 2
      is padded only by whitespace, so its trim is the trim of the whole run
      between the digits and "Nome:". */
  function IdentityAt(s: string, p: nat): (r: Option<Identity>)
    ensures r.None? <==> forall d, b :: !IdentityMatchAt(s, p, d, b)
    ensures r.Some? ==> exists d, b :: IdentityMatchAt(s, p, d, b)
                          && r.value.matricula == s[p..p + d] && r.value.nome == Trim(s[p + d..b])
  {
    if p >= |s| || !InClass(s[p], Digit) then None
    else
      var c := Span(s, p, Digit);
      var n := Span(s, c, NameChar);
      if c + 2 <= n && OccursAt(s, n - 1, NameLabel) then
        assert IdentityMatchAt(s, p, c - p, n - 1);
        Some(Identity(s[p..c], Trim(s[c..n - 1])))
      else
        IdentityAbsent(s, p);
        None
  }

  /** When the digit run at `p` is not followed by a `[A-Z\s]` run ending in
      "Nome:", the joint pattern cannot match at `p`. */
  lemma {:induction false} IdentityAbsent(s: string, p: nat)
    requires p < |s|
    requires var c := Span(s, p, Digit); var n := Span(s, c, NameChar);
             !(c + 2 <= n && OccursAt(s, n - 1, NameLabel))
    ensures forall d, b :: !IdentityMatchAt(s, p, d, b)
  {
    var c := Span(s, p, Digit);
    var n := Span(s, c, NameChar);
    forall d, b | IdentityMatchAt(s, p, d, b)
      ensures false
    {
      IdentityMatchForced(s, p, d, b);
    }
  }

  /** `s.match(/(\d+)\s*([A-Z\s]+)\s*Nome:/)`, trying start positions from `from` on. */
  function IdentityFrom(s: string, from: nat): (r: Option<Identity>)
    ensures r.None? <==> forall p, d, b :: from <= p ==> !IdentityMatchAt(s, p, d, b)
    ensures r.Some? ==> exists p :: && from <= p && r == IdentityAt(s, p)
                                    && forall p', d, b :: from <= p' < p ==> !IdentityMatchAt(s, p', d, b)
    decreases |s| - from
  {
    if from > |s| then None
    else
      var r := IdentityAt(s, from);
      if r.Some? then r else IdentityFrom(s, from + 1)
  }

  /** The shape of what a joint match yields: a non-empty run of digits, and a
      trimmed run of capitals and whitespace. */
  lemma {:induction false} IdentityShape(s: string, p: int, d: int, b: int)
    requires IdentityMatchAt(s, p, d, b)
    ensures var m, n := s[p..p + d], Trim(s[p + d..b]);
            && m != [] && AllIn(m, Digit)
            && IsTrimmed(n) && AllIn(n, NameChar)
  {
    SliceIn(s, p, p + d, Digit);
    SliceIn(s, p + d, b, NameChar);
    TrimKeepsClass(s[p + d..b], NameChar);
  }

  /** The joint pattern matches at `p`, and at no earlier position. */
  ghost predicate IdentityMatchFirst(s: string, p: int, d: int, b: int) {
    IdentityMatchAt(s, p, d, b) && forall p': nat :: p' < p ==> IdentityAt(s, p').None?
  }

  /** `m` and `n` are the two captures of the leftmost joint match, the name trimmed. */
  ghost predicate FirstIdentity(s: string, m: string, n: string) {
    exists p, d, b :: IdentityMatchFirst(s, p, d, b) && m == s[p..p + d] && n == Trim(s[p + d..b])
  }

  /** The joint id/name lookup over the whole text: both groups of the leftmost
      match, with their shapes, or nothing exactly when the pattern matches
      nowhere. */
  function IdentityOf(s: string): (r: Option<Identity>)
    ensures r.None? <==> forall p, d, b :: !IdentityMatchAt(s, p, d, b)
    ensures r.Some? ==> FirstIdentity(s, r.value.matricula, r.value.nome)
    ensures r.Some? ==> r.value.matricula != [] && AllIn(r.value.matricula, Digit)
    ensures r.Some? ==> IsTrimmed(r.value.nome) && AllIn(r.value.nome, NameChar)
  {
    var r := IdentityFrom(s, 0);
    if r.Some? then IdentityFromFirst(s); r else r
  }

  /** What the search from the start finds: the captures of its leftmost match,
      with their shapes. */
  lemma {:induction false} IdentityFromFirst(s: string)
    requires IdentityFrom(s, 0).Some?
    ensures var id := IdentityFrom(s, 0).value;
            && id.matricula != [] && AllIn(id.matricula, Digit)
            && IsTrimmed(id.nome) && AllIn(id.nome, NameChar)
            && FirstIdentity(s, id.matricula, id.nome)
  {
    var r := IdentityFrom(s, 0);
    var p :| 0 <= p && r == IdentityAt(s, p) && forall p', d, b :: 0 <= p' < p ==> !IdentityMatchAt(s, p', d, b);
    IdentityLeftmost(s, p);
  }

  /** A match at `p` with none before it is the leftmost one, and what
      `IdentityAt` reads there are its captures, with their shapes. */
  lemma {:induction false} IdentityLeftmost(s: string, p: nat)
    requires IdentityAt(s, p).Some?
    requires forall p', d, b :: 0 <= p' < p ==> !IdentityMatchAt(s, p', d, b)
    ensures var id := IdentityAt(s, p).value;
            && id.matricula != [] && AllIn(id.matricula, Digit)
            && IsTrimmed(id.nome) && AllIn(id.nome, NameChar)
            && FirstIdentity(s, id.matricula, id.nome)
  {
    var id := IdentityAt(s, p).value;
    var d, b :| IdentityMatchAt(s, p, d, b) && id.matricula == s[p..p + d] && id.nome == Trim(s[p + d..b]);
    IdentityShape(s, p, d, b);
    assert IdentityMatchFirst(s, p, d, b);
  }

  // ---------------------------------------------------------------- header

  /** The thirteen scalar fields of the extracted record, named as the source names them. */
  datatype Header = Header(
    matricula: string, nome: string,
    dataNascimento: string, identidade: string, localNascimento: string, nomeMae: string,
    curso: string, municipioCurso: string, modalidade: string,
    iraIndividual: string, iraGeral: string, anoPeriodoInicial: string, previsaoConclusao: string)

  const LabelDataNascimento: string := "Data de Nascimento:"
  const LabelIdentidade: string := "Identidade:"
  const LabelLocalNascimento: string := "Local de Nascimento:"
  const LabelNomeMae: string := "Nome da Mãe:"
  const LabelHabilitacao: string := "Habilitação:"
  const LabelMunicipio: string := "Município:"
  const LabelModalidade: string := "Modalidade:"
  const LabelPrevisao: string := "Para o para Conclusão:"
  const KeyIraIndividual: seq<string> := ["IRA", "-", "Individual:"]
  const KeyIraGeral: seq<string> := ["IRA", "-", "Geral:"]
  const KeyAtoNormativo: seq<string> := ["Ato Normativo:"]

  /** A field as the record holds it: a trimmed single-line string. */
  predicate IsFieldValue(v: string) {
    IsTrimmed(v) && '\n' !in v
  }

  /** The sentinel can never be mistaken for a registration number or a name. */
  lemma {:induction false} NotFoundIsNoIdentity()
    ensures !AllIn(NotFound, Digit) && !AllIn(NotFound, NameChar)
    ensures IsFieldValue(NotFound)
  {
    assert !InClass(NotFound[1], Digit) && !InClass(NotFound[1], NameChar);
  }

  /** The decimal keys of the record start every piece with a non-space
      character, so their whitespace is forced. */
  lemma {:induction false} DecimalKeysStartNonSpace()
    ensures KeysStartNonSpace(KeyIraIndividual)
    ensures KeysStartNonSpace(KeyIraGeral)
    ensures KeysStartNonSpace(KeyAtoNormativo)
  {
  }

  /** What a labelled field holds: the trimmed capture of the leftmost match of
      `key\s*([^\n]+)` in `s`, or the sentinel when there is none. */
  ghost predicate LabelledFieldOf(s: string, key: string, f: string) {
    if exists p, k :: LabelMatchAt(s, key, p, k) then LeftmostLabelled(s, key, f) else f == NotFound
  }

  /** What a decimal field holds: group 1 of the leftmost match of the key and
      decimal pattern in `s`, or the sentinel when there is none. */
  ghost predicate DecimalFieldOf(s: string, pieces: seq<string>, f: string) {
    if exists p :: DecimalFieldMatches(s, pieces, p) then
      exists p :: DecimalFieldAt(s, pieces, p, f) && forall p' :: 0 <= p' < p ==> !DecimalFieldMatches(s, pieces, p')
    else f == NotFound
  }

  /** What the registration number and name hold: both captures of the
      leftmost joint match, trimmed, or both the sentinel when there is none. */
  ghost predicate IdentityFieldsOf(s: string, m: string, n: string) {
    if exists p, d, b :: IdentityMatchAt(s, p, d, b) then
      FirstIdentity(s, m, n)
    else m == NotFound && n == NotFound
  }

  /** `m ? m[1].trim() : 'Não encontrado'` for a labelled lookup over `s`. */
  function LabelledField(s: string, key: string): (f: string)
    ensures IsFieldValue(f)
    ensures LabelledFieldOf(s, key, f)
  {
    NotFoundIsNoIdentity();
    LabelledValue(s, key).GetOr(NotFound)
  }

  /** The same for a decimal lookup: a `\d+\.\d+` found after the key, or the
      sentinel. */
  function DecimalField(s: string, pieces: seq<string>): (f: string)
    ensures IsFieldValue(f)
    ensures f == NotFound || IsDecimal(f)
    ensures KeysStartNonSpace(pieces) ==> DecimalFieldOf(s, pieces, f)
  {
    NotFoundIsNoIdentity();
    var v := DecimalValue(s, pieces);
    DecimalIsField(v.GetOr(NotFound));
    v.GetOr(NotFound)
  }

  /** Registration number and name: both from the one leftmost joint match, or
      both the sentinel. The name is trimmed, but `[A-Z\s]` lets it run over
      newlines. */
  function IdentityFields(text: string): (r: (string, string))
    ensures IdentityFieldsOf(text, r.0, r.1)
    ensures (r.0 == NotFound) == (r.1 == NotFound)
    ensures r.0 != NotFound ==> r.0 != [] && AllIn(r.0, Digit) && AllIn(r.1, NameChar)
    ensures IsFieldValue(r.0) && IsTrimmed(r.1)
  {
    NotFoundIsNoIdentity();
    var id := IdentityOf(text);
    if id.Some? then
      MatriculaIsField(id.value.matricula);
      (id.value.matricula, id.value.nome)
    else (NotFound, NotFound)
  }

  /** Course, municipality and modality, each looked up inside the course-data
      block only, as labelled fields of the block's text; all three are the
      sentinel when the block is absent. */
  function CourseFields(text: string): (r: (string, string, string))
    ensures CourseBlock(text).None? ==> r.0 == NotFound && r.1 == NotFound && r.2 == NotFound
    ensures CourseBlock(text).Some? ==> var block := CourseBlock(text).value;
              && LabelledFieldOf(block, LabelHabilitacao, r.0)
              && LabelledFieldOf(block, LabelMunicipio, r.1)
              && LabelledFieldOf(block, LabelModalidade, r.2)
    ensures IsFieldValue(r.0) && IsFieldValue(r.1) && IsFieldValue(r.2)
  {
    NotFoundIsNoIdentity();
    match CourseBlock(text)
    case Some(block) =>
      (LabelledField(block, LabelHabilitacao), LabelledField(block, LabelMunicipio), LabelledField(block, LabelModalidade))
    case None => (NotFound, NotFound, NotFound)
  }

  /** The header fields of `text`, each as its lookup defines it: the identity
      pair from the leftmost joint match or both the sentinel; the labelled and
      decimal fields from their leftmost matches over the whole text; the course
      trio from the course-data block only, all three the sentinel without it.
      Every field is the sentinel or a trimmed capture, on a single line except
      for the name; the indices are decimals when found. */
  function ExtractHeader(text: string): (h: Header)
    ensures IdentityFieldsOf(text, h.matricula, h.nome)
    ensures (h.matricula == NotFound) == (h.nome == NotFound)
    ensures h.matricula != NotFound ==> h.matricula != [] && AllIn(h.matricula, Digit) && AllIn(h.nome, NameChar)
    ensures && LabelledFieldOf(text, LabelDataNascimento, h.dataNascimento)
            && LabelledFieldOf(text, LabelIdentidade, h.identidade)
            && LabelledFieldOf(text, LabelLocalNascimento, h.localNascimento)
            && LabelledFieldOf(text, LabelNomeMae, h.nomeMae)
            && LabelledFieldOf(text, LabelPrevisao, h.previsaoConclusao)
    ensures CourseBlock(text).None? ==> h.curso == NotFound && h.municipioCurso == NotFound && h.modalidade == NotFound
    ensures CourseBlock(text).Some? ==> var block := CourseBlock(text).value;
              && LabelledFieldOf(block, LabelHabilitacao, h.curso)
              && LabelledFieldOf(block, LabelMunicipio, h.municipioCurso)
              && LabelledFieldOf(block, LabelModalidade, h.modalidade)
    ensures && DecimalFieldOf(text, KeyIraIndividual, h.iraIndividual)
            && DecimalFieldOf(text, KeyIraGeral, h.iraGeral)
            && DecimalFieldOf(text, KeyAtoNormativo, h.anoPeriodoInicial)
    ensures IsTrimmed(h.nome)
    ensures && IsFieldValue(h.matricula)
            && IsFieldValue(h.dataNascimento) && IsFieldValue(h.identidade)
            && IsFieldValue(h.localNascimento) && IsFieldValue(h.nomeMae)
            && IsFieldValue(h.curso) && IsFieldValue(h.municipioCurso) && IsFieldValue(h.modalidade)
            && IsFieldValue(h.iraIndividual) && IsFieldValue(h.iraGeral)
            && IsFieldValue(h.anoPeriodoInicial) && IsFieldValue(h.previsaoConclusao)
    ensures h.iraIndividual == NotFound || IsDecimal(h.iraIndividual)
    ensures h.iraGeral == NotFound || IsDecimal(h.iraGeral)
    ensures h.anoPeriodoInicial == NotFound || IsDecimal(h.anoPeriodoInicial)
  {
    DecimalKeysStartNonSpace();
    var (matricula, nome) := IdentityFields(text);
    var (curso, municipio, modalidade) := CourseFields(text);
    Header(
      matricula := matricula,
      nome := nome,
      dataNascimento := LabelledField(text, LabelDataNascimento),
      identidade := LabelledField(text, LabelIdentidade),
      localNascimento := LabelledField(text, LabelLocalNascimento),
      nomeMae := LabelledField(text, LabelNomeMae),
      curso := curso, municipioCurso := municipio, modalidade := modalidade,
      iraIndividual := DecimalField(text, KeyIraIndividual),
      iraGeral := DecimalField(text, KeyIraGeral),
      anoPeriodoInicial := DecimalField(text, KeyAtoNormativo),
      previsaoConclusao := LabelledField(text, LabelPrevisao))
  }

  lemma {:induction false} MatriculaIsField(m: string)
    requires m != [] && AllIn(m, Digit)
    ensures IsFieldValue(m)
  {
    assert InClass(m[0], Digit) && InClass(m[|m| - 1], Digit);
    assert forall k :: 0 <= k < |m| ==> InClass(m[k], Digit);
  }

  /** Section scoping: a course field that was found is the leftmost labelled
      value inside the course-data block, and its key occurs in that block. */
  lemma {:induction false} CourseFieldsScoped(text: string)
    ensures var h := ExtractHeader(text);
            h.curso != NotFound ==> && CourseBlock(text).Some?
                                    && LeftmostLabelled(CourseBlock(text).value, LabelHabilitacao, h.curso)
                                    && Contains(CourseBlock(text).value, LabelHabilitacao)
    ensures var h := ExtractHeader(text);
            h.municipioCurso != NotFound ==> && CourseBlock(text).Some?
                                             && LeftmostLabelled(CourseBlock(text).value, LabelMunicipio, h.municipioCurso)
                                             && Contains(CourseBlock(text).value, LabelMunicipio)
    ensures var h := ExtractHeader(text);
            h.modalidade != NotFound ==> && CourseBlock(text).Some?
                                         && LeftmostLabelled(CourseBlock(text).value, LabelModalidade, h.modalidade)
                                         && Contains(CourseBlock(text).value, LabelModalidade)
  {
    var block := CourseBlock(text);
    if block.Some? {
      LabelFoundOccurs(block.value, LabelHabilitacao);
      LabelFoundOccurs(block.value, LabelMunicipio);
      LabelFoundOccurs(block.value, LabelModalidade);
    }
  }

  /** A key whose lookup succeeds occurs in the searched text. */
  lemma {:induction false} LabelFoundOccurs(s: string, key: string)
    ensures (exists p, k :: LabelMatchAt(s, key, p, k)) ==> Contains(s, key)
  {
    if exists p, k :: LabelMatchAt(s, key, p, k) {
      var p, k :| LabelMatchAt(s, key, p, k);
    }
  }
}
