/** The string primitives of JavaScript that the transcript extractor relies on:
    the `\s` and `\d` character classes, `trim`, `includes`, `replace` with a
    string pattern, `split('\n')` and `split(/\s+/)[0]`. */
module Text {
  import opened Wrappers

  /** The literal every field takes when its pattern is not found. */
  const NotFound: string := "Não encontrado"

  /** Character classes used by the extractor's regular expressions. */
  datatype CharClass =
    | Space     // `\s`, which is also exactly the set `String.prototype.trim` strips
    | NonSpace  // `\S`
    | Digit     // `\d`: ASCII only, since no pattern carries the `u` flag
    | Upper     // `[A-Z]`
    | NameChar  // `[A-Z\s]`
    | LineChar  // `[^\n]`

  /** ECMAScript WhiteSpace and LineTerminator code points. */
  predicate IsSpace(c: char) {
    || c == '\t' || c == '\n' || c == '\U{B}' || c == '\U{C}' || c == '\r' || c == ' '
    || c == '\U{A0}' || c == '\U{1680}' || ('\U{2000}' <= c <= '\U{200A}')
    || c == '\U{2028}' || c == '\U{2029}' || c == '\U{202F}' || c == '\U{205F}'
    || c == '\U{3000}' || c == '\U{FEFF}'
  }

  predicate InClass(c: char, cls: CharClass) {
    match cls
    case Space => IsSpace(c)
    case NonSpace => !IsSpace(c)
    case Digit => '0' <= c <= '9'
    case Upper => 'A' <= c <= 'Z'
    case NameChar => ('A' <= c <= 'Z') || IsSpace(c)
    case LineChar => c != '\n'
  }

  predicate AllIn(s: string, cls: CharClass) {
    forall k :: 0 <= k < |s| ==> InClass(s[k], cls)
  }

  /** Every character of `s[i..j]` is in `cls`. */
  predicate RangeIn(s: string, i: int, j: int, cls: CharClass) {
    0 <= i <= j <= |s| && forall m :: i <= m < j ==> InClass(s[m], cls)
  }

  /** End of the longest run of `cls` characters that starts at `i`: where a greedy
      `cls*` starting at `i` stops. */
  function Span(s: string, i: nat, cls: CharClass): (r: nat)
    requires i <= |s|
    ensures i <= r <= |s|
    ensures forall k :: i <= k < r ==> InClass(s[k], cls)
    ensures r < |s| ==> !InClass(s[r], cls)
    decreases |s| - i
  {
    if i < |s| && InClass(s[i], cls) then Span(s, i + 1, cls) else i
  }

  /** The span is exactly the run that `RangeIn` describes when the run stops at `j`. */
  lemma {:induction false} SpanExact(s: string, i: nat, j: nat, cls: CharClass)
    requires RangeIn(s, i, j, cls) && (j == |s| || !InClass(s[j], cls))
    ensures Span(s, i, cls) == j
    decreases j - i
  {
    if i < j {
      SpanExact(s, i + 1, j, cls);
    }
  }

  lemma {:induction false} SliceIn(s: string, i: int, j: int, cls: CharClass)
    requires RangeIn(s, i, j, cls)
    ensures AllIn(s[i..j], cls)
  {
    assert forall m :: 0 <= m < j - i ==> s[i..j][m] == s[i + m];
  }

  // ---------------------------------------------------------------- trim

  predicate IsTrimmed(s: string) {
    s == [] || (!IsSpace(s[0]) && !IsSpace(s[|s| - 1]))
  }

  /** `s` with its trailing whitespace removed. */
  function TrimEnd(s: string): (r: string)
    ensures |r| <= |s| && r == s[..|r|]
    ensures AllIn(s[|r|..], Space)
    ensures r == [] || !IsSpace(r[|r| - 1])
    decreases |s|
  {
    if s != [] && IsSpace(s[|s| - 1]) then
      var r := TrimEnd(s[..|s| - 1]);
      assert s[|r|..] == s[..|s| - 1][|r|..] + [s[|s| - 1]];
      r
    else s
  }

  /** `String.prototype.trim`: leading whitespace dropped one character at a
      time, then trailing whitespace. The result has no whitespace at either
      end; `TrimSlice` says where in `s` it sits. */
  function Trim(s: string): (r: string)
    ensures IsTrimmed(r) && |r| <= |s|
    decreases |s|
  {
    if s != [] && IsSpace(s[0]) then Trim(s[1..])
    else
      var r := TrimEnd(s);
      assert r == [] || r[0] == s[0];
      r
  }

  /** The trim of `s` is the slice of `s` that starts at `a`, with only
      whitespace before and after it. */
  lemma {:induction false} TrimSlice(s: string) returns (a: nat)
    ensures a + |Trim(s)| <= |s| && Trim(s) == s[a..a + |Trim(s)|]
    ensures RangeIn(s, 0, a, Space) && RangeIn(s, a + |Trim(s)|, |s|, Space)
    decreases |s|
  {
    var r := Trim(s);
    if s != [] && IsSpace(s[0]) {
      var t := s[1..];
      var a' := TrimSlice(t);
      a := a' + 1;
      assert r == Trim(t);
      assert t[a'..a' + |r|] == s[a..a + |r|];
      RangeTail(s, 0, a', Space);
      RangeTail(s, a' + |r|, |t|, Space);
    } else {
      a := 0;
      assert r == TrimEnd(s);
      TrimEndRange(s);
    }
  }

  /** A range of `s[1..]` is the same range of `s`, one place on. */
  lemma {:induction false} RangeTail(s: string, i: int, j: int, cls: CharClass)
    requires s != [] && RangeIn(s[1..], i, j, cls)
    ensures RangeIn(s, i + 1, j + 1, cls)
  {
    assert forall m :: i + 1 <= m < j + 1 ==> s[m] == s[1..][m - 1];
  }

  /** What `TrimEnd` drops is whitespace, stated on `s` itself. */
  lemma {:induction false} TrimEndRange(s: string)
    ensures RangeIn(s, |TrimEnd(s)|, |s|, Space)
  {
    var r := TrimEnd(s);
    assert forall m :: |r| <= m < |s| ==> s[m] == s[|r|..][m - |r|];
  }

  /** Trimming removes exactly the whitespace padding around a trimmed text, and
      nothing else: together with `Trim`'s contract this pins the result down. */
  lemma {:induction false} TrimOfPadded(a: string, x: string, b: string)
    requires AllIn(a, Space) && AllIn(b, Space) && IsTrimmed(x)
    ensures Trim(a + x + b) == x
  {
    var s := a + x + b;
    var r := Trim(s);
    var i := TrimSlice(s);
    if x == [] {
      if r != [] {
        assert false;
      }
    } else {
      assert s[|a|] == x[0];
      assert s[|a| + |x| - 1] == x[|x| - 1];
      if i > |a| {
        assert false;
      }
      if i < |a| {
        assert false;
      }
      if |r| < |x| {
        assert false;
      }
      if |r| > |x| {
        assert false;
      }
      assert r == s[|a|..|a| + |x|];
    }
  }

  /** Leading whitespace never survives a trim. */
  lemma {:induction false} TrimSkipsLeadingSpace(a: string, y: string)
    requires AllIn(a, Space)
    ensures Trim(a + y) == Trim(y)
    decreases |a|
  {
    if a == [] {
      assert a + y == y;
    } else {
      assert (a + y)[0] == a[0] && IsSpace(a[0]);
      assert (a + y)[1..] == a[1..] + y;
      assert AllIn(a[1..], Space) by {
        assert forall k :: 0 <= k < |a| - 1 ==> a[1..][k] == a[k + 1];
      }
      TrimSkipsLeadingSpace(a[1..], y);
    }
  }

  /** Trimming keeps only characters that were there. */
  lemma {:induction false} TrimKeepsClass(s: string, cls: CharClass)
    requires AllIn(s, cls)
    ensures AllIn(Trim(s), cls)
  {
    var r := Trim(s);
    var a := TrimSlice(s);
    assert forall k :: 0 <= k < |r| ==> r[k] == s[a + k];
  }

  /** A trimmed text is its own trim. */
  lemma {:induction false} TrimTrimmed(x: string)
    requires IsTrimmed(x)
    ensures Trim(x) == x
  {
    assert [] + x + [] == x;
    TrimOfPadded([], x, []);
  }

  /** A text made of whitespace trims to nothing. */
  lemma {:induction false} TrimAllSpace(a: string)
    requires AllIn(a, Space)
    ensures Trim(a) == []
  {
    assert a == a + [] + [];
    TrimOfPadded(a, [], []);
  }

  // ------------------------------------------------------- substring search

  /** `pat` occurs in `s` starting at index `i`. */
  predicate OccursAt(s: string, i: int, pat: string) {
    0 <= i && i + |pat| <= |s| && s[i..i + |pat|] == pat
  }

  /** The first occurrence of `pat` at or after `from` is at `k`. */
  ghost predicate FirstAt(s: string, pat: string, from: int, k: int) {
    from <= k && OccursAt(s, k, pat) && forall j :: from <= j < k ==> !OccursAt(s, j, pat)
  }

  /** `s.indexOf(pat, from)`, as an option: the first occurrence at or after `from`. */
  function IndexOf(s: string, pat: string, from: nat): (r: Option<nat>)
    ensures r.Some? ==> from <= r.value && OccursAt(s, r.value, pat)
    ensures forall j :: from <= j && (r.None? || j < r.value) ==> !OccursAt(s, j, pat)
    decreases |s| - from
  {
    if from + |pat| > |s| then None
    else if s[from..from + |pat|] == pat then Some(from)
    else IndexOf(s, pat, from + 1)
  }

  /** `s.includes(pat)`. */
  function Contains(s: string, pat: string): (b: bool)
    ensures b <==> exists j :: OccursAt(s, j, pat)
  {
    var r := IndexOf(s, pat, 0);
    if r.Some? then assert OccursAt(s, r.value, pat); true else false
  }

  /** An occurrence of an occurrence is an occurrence. */
  lemma {:induction false} OccursAtTrans(s: string, i: int, x: string, j: int, y: string)
    requires OccursAt(s, i, x) && OccursAt(x, j, y)
    ensures OccursAt(s, i + j, y)
  {
    assert s[i..i + |x|][j..j + |y|] == y;
    forall k | 0 <= k < |y|
      ensures s[i + j + k] == y[k]
    {
      assert s[i..i + |x|][j + k] == s[i + j + k];
    }
    assert s[i + j..i + j + |y|] == y;
  }

  lemma {:induction false} ContainsTrans(s: string, x: string, y: string)
    requires Contains(s, x) && Contains(x, y)
    ensures Contains(s, y)
  {
    var i :| OccursAt(s, i, x);
    var j :| OccursAt(x, j, y);
    OccursAtTrans(s, i, x, j, y);
  }

  /** `s.replace(pat, '')` with a string pattern: only the first occurrence of `pat`
      is removed, and `s` is returned unchanged when there is none. */
  function RemoveFirst(s: string, pat: string): (r: string)
    ensures !Contains(s, pat) ==> r == s
    ensures Contains(s, pat) ==> exists k :: FirstAt(s, pat, 0, k) && r == s[..k] + s[k + |pat|..]
  {
    match IndexOf(s, pat, 0)
    case Some(k) => s[..k] + s[k + |pat|..]
    case None => s
  }

  /** `s.split(/\s+/)[0]`: everything before the first whitespace character. */
  function FirstToken(s: string): (r: string)
    ensures |r| <= |s| && r == s[..|r|]
    ensures forall k :: 0 <= k < |r| ==> !IsSpace(r[k])
    ensures |r| < |s| ==> IsSpace(s[|r|])
  {
    s[..Span(s, 0, NonSpace)]
  }

  // ------------------------------------------------------------- lines

  /** The inverse of `split('\n')`: the pieces glued back with newlines. */
  function JoinLines(ls: seq<string>): string
    requires |ls| >= 1
  {
    if |ls| == 1 then ls[0] else ls[0] + "\n" + JoinLines(ls[1..])
  }

  /** `s.split('\n')`: never empty, no piece holds a newline, and joining the
      pieces with newlines gives `s` back. */
  function SplitLines(s: string): (r: seq<string>)
    ensures |r| >= 1
    ensures forall k :: 0 <= k < |r| ==> '\n' !in r[k]
    ensures JoinLines(r) == s
    decreases |s|
  {
    if s == [] then [[]]
    else
      var rest := SplitLines(s[1..]);
      if s[0] == '\n' then
        assert JoinLines([[]] + rest) == "\n" + JoinLines(rest) by {
          assert ([[]] + rest)[1..] == rest;
        }
        [[]] + rest
      else
        var r := [[s[0]] + rest[0]] + rest[1..];
        assert JoinLines(r) == [s[0]] + JoinLines(rest) by {
          if |rest| > 1 {
            assert r[1..] == rest[1..];
          }
        }
        r
  }

  /** Splitting undoes joining, as long as no piece holds a newline. */
  lemma {:induction false} SplitJoin(ls: seq<string>)
    requires |ls| >= 1
    requires forall k :: 0 <= k < |ls| ==> '\n' !in ls[k]
    ensures SplitLines(JoinLines(ls)) == ls
    decreases |ls|, |ls[0]|
  {
    if |ls[0]| == 0 {
      if |ls| == 1 {
      } else {
        SplitJoin(ls[1..]);
        var s := JoinLines(ls);
        assert s == "\n" + JoinLines(ls[1..]);
        assert s[1..] == JoinLines(ls[1..]);
      }
    } else {
      var c, t := ls[0][0], ls[0][1..];
      var ls' := [t] + ls[1..];
      assert ls'[0] == t && ls'[1..] == ls[1..];
      assert '\n' !in t by { assert forall m :: 0 <= m < |t| ==> t[m] == ls[0][m + 1]; }
      SplitJoin(ls');
      assert [c] + t == ls[0];
      assert [[c] + t] + ls[1..] == ls;
      JoinCons(c, ls');
      SplitCons(c, JoinLines(ls'));
    }
  }

  /** A character put in front of the first piece is put in front of the join. */
  lemma {:induction false} JoinCons(c: char, ls: seq<string>)
    requires |ls| >= 1
    ensures JoinLines([[c] + ls[0]] + ls[1..]) == [c] + JoinLines(ls)
  {
    var x := [[c] + ls[0]] + ls[1..];
    assert |x| == |ls| && x[0] == [c] + ls[0];
    if |ls| > 1 {
      assert x[1..] == ls[1..];
      assert JoinLines(x) == x[0] + "\n" + JoinLines(ls[1..]);
      assert JoinLines(ls) == ls[0] + "\n" + JoinLines(ls[1..]);
    }
  }

  /** A character other than a newline joins the first piece. */
  lemma {:induction false} SplitCons(c: char, t: string)
    requires c != '\n'
    ensures SplitLines([c] + t) == [[c] + SplitLines(t)[0]] + SplitLines(t)[1..]
  {
    assert ([c] + t)[1..] == t;
  }

  /** Every piece of a join occurs in the joined text. */
  lemma {:induction false} JoinContains(ls: seq<string>, k: nat)
    requires k < |ls|
    ensures Contains(JoinLines(ls), ls[k])
    decreases k
  {
    var s := JoinLines(ls);
    if k == 0 {
      assert OccursAt(s, 0, ls[0]);
    } else {
      JoinContains(ls[1..], k - 1);
      var t := JoinLines(ls[1..]);
      var j :| OccursAt(t, j, ls[k]);
      var p := ls[0] + "\n";
      assert s == p + t;
      assert OccursAt(s, |p|, t);
      OccursAtTrans(s, |p|, t, j, ls[k]);
    }
  }

  /** `pieces.map(l => l.trim()).filter(l => l !== "")`. */
  function NonBlank(pieces: seq<string>): (ls: seq<string>)
    ensures |ls| <= |pieces|
    ensures forall k :: 0 <= k < |ls| ==> ls[k] != [] && IsTrimmed(ls[k])
  {
    if pieces == [] then []
    else
      var l := Trim(pieces[0]);
      var rest := NonBlank(pieces[1..]);
      if l == [] then rest else [l] + rest
  }

  /** Trimming and dropping blanks leaves lines that are already non-empty
      and trimmed as they are. */
  lemma {:induction false} NonBlankKeeps(ls: seq<string>)
    requires forall k :: 0 <= k < |ls| ==> ls[k] != [] && IsTrimmed(ls[k])
    ensures NonBlank(ls) == ls
  {
    if ls != [] {
      TrimTrimmed(ls[0]);
      NonBlankKeeps(ls[1..]);
      assert [ls[0]] + ls[1..] == ls;
    }
  }

  /** Every kept line is a newline-free stretch of `text` when every piece is. */
  lemma {:induction false} NonBlankProvenance(pieces: seq<string>, text: string)
    requires forall j :: 0 <= j < |pieces| ==> '\n' !in pieces[j] && Contains(text, pieces[j])
    ensures forall k :: 0 <= k < |NonBlank(pieces)| ==> '\n' !in NonBlank(pieces)[k] && Contains(text, NonBlank(pieces)[k])
  {
    if pieces != [] {
      var l := Trim(pieces[0]);
      NonBlankProvenance(pieces[1..], text);
      TrimOccurs(pieces[0]);
      ContainsTrans(text, pieces[0], l);
      NewlineFreePart(pieces[0], l);
    }
  }

  /** A trimmed piece keeps the piece's characters: it occurs in the piece. */
  lemma {:induction false} TrimOccurs(s: string)
    ensures Contains(s, Trim(s))
  {
    var r := Trim(s);
    var a := TrimSlice(s);
    assert OccursAt(s, a, r);
  }

  lemma {:induction false} TrimNoNewline(s: string)
    requires '\n' !in s
    ensures '\n' !in Trim(s)
  {
    TrimOccurs(s);
    NewlineFreePart(s, Trim(s));
  }

  lemma {:induction false} NewlineFreePart(s: string, x: string)
    requires '\n' !in s && Contains(s, x)
    ensures '\n' !in x
  {
    var i :| OccursAt(s, i, x);
  }

  /** The lines of the text the component scanner walks over:
      `text.split('\n').map(l => l.trim()).filter(l => l !== "")`. Each is a
      non-empty, trimmed, newline-free stretch of the text. */
  function Lines(text: string): (ls: seq<string>)
    ensures forall k :: 0 <= k < |ls| ==> ls[k] != [] && IsTrimmed(ls[k])
    ensures forall k :: 0 <= k < |ls| ==> '\n' !in ls[k] && Contains(text, ls[k])
    ensures '\n' !in text ==> ls == if Trim(text) == [] then [] else [Trim(text)]
  {
    var pieces := SplitLines(text);
    assert '\n' !in text ==> pieces == [text] by {
      if '\n' !in text { SplitSingle(text); }
    }
    assert forall j :: 0 <= j < |pieces| ==> Contains(text, pieces[j]) by {
      forall j | 0 <= j < |pieces|
        ensures Contains(text, pieces[j])
      {
        JoinContains(pieces, j);
      }
    }
    NonBlankProvenance(pieces, text);
    var ls := NonBlank(pieces);
    ls
  }

  /** Lines written out one per row come back as they were: the line list of
      the join of non-empty, trimmed, newline-free lines is those lines. */
  lemma {:induction false} LinesOfJoin(ls: seq<string>)
    requires |ls| >= 1
    requires forall k :: 0 <= k < |ls| ==> ls[k] != [] && IsTrimmed(ls[k]) && '\n' !in ls[k]
    ensures Lines(JoinLines(ls)) == ls
  {
    SplitJoin(ls);
    NonBlankKeeps(ls);
  }

  /** Trimming and dropping blanks works piece by piece: the kept lines of two
      runs of pieces are the kept lines of the first run, then of the second. */
  lemma {:induction false} NonBlankConcat(a: seq<string>, b: seq<string>)
    ensures NonBlank(a + b) == NonBlank(a) + NonBlank(b)
    decreases |a|
  {
    if a == [] {
      assert a + b == b;
    } else {
      assert (a + b)[0] == a[0] && (a + b)[1..] == a[1..] + b;
      NonBlankConcat(a[1..], b);
    }
  }

  /** Joining two runs of pieces puts one newline between their joins. */
  lemma {:induction false} JoinAppend(x: seq<string>, y: seq<string>)
    requires |x| >= 1 && |y| >= 1
    ensures JoinLines(x + y) == JoinLines(x) + "\n" + JoinLines(y)
    decreases |x|
  {
    if |x| == 1 {
      assert (x + y)[0] == x[0] && (x + y)[1..] == y;
    } else {
      assert (x + y)[0] == x[0] && (x + y)[1..] == x[1..] + y;
      JoinAppend(x[1..], y);
    }
  }

  /** A text without a newline splits into itself alone. */
  lemma {:induction false} SplitSingle(s: string)
    requires '\n' !in s
    ensures SplitLines(s) == [s]
  {
    SplitJoin([s]);
  }

  /** `split('\n')` cuts at every newline: the pieces of two texts joined by a
      newline are the pieces of the first, then those of the second. */
  lemma {:induction false} SplitAppend(a: string, b: string)
    ensures SplitLines(a + "\n" + b) == SplitLines(a) + SplitLines(b)
  {
    var x, y := SplitLines(a), SplitLines(b);
    JoinAppend(x, y);
    assert forall k :: 0 <= k < |x + y| ==> '\n' !in (x + y)[k] by {
      forall k | 0 <= k < |x + y|
        ensures '\n' !in (x + y)[k]
      {
        if k < |x| { assert (x + y)[k] == x[k]; } else { assert (x + y)[k] == y[k - |x|]; }
      }
    }
    SplitJoin(x + y);
  }

  /** Every non-blank line of the text is listed, trimmed, in order: the lines
      of two texts joined by a newline are the lines of the first followed by
      those of the second. With the single-line case of `Lines`, this pins the
      line list of every text. */
  lemma {:induction false} LinesAppend(a: string, b: string)
    ensures Lines(a + "\n" + b) == Lines(a) + Lines(b)
  {
    SplitAppend(a, b);
    NonBlankConcat(SplitLines(a), SplitLines(b));
  }
}
