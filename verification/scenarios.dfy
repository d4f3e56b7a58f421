/** Worked inputs of the extractor, each pinned to the value the patterns give. */
module Scenarios {
  import opened Wrappers
  import opened Text
  import opened Header
  import opened Scanner

  /** The combined figures line of a typical transcript splits into a seven
      character code, attendance with three integer digits, a one-digit grade
      and the workload. The dots fix every split: with the attendance ending
      two digits after its dot, the grade must be "0.0", since "0.07" is not
      `\d{1,2}\.\d{1}`. */
  lemma {:induction false} FiguresOfTypicalLine()
    ensures FiguresOf("MAT1011085.030.075.00") == Some(Figures("MAT1011", "085.03", "0.0", "75.00"))
  {
    var s := "MAT1011085.030.075.00";
    assert s[0..7] == "MAT1011" && s[7..13] == "085.03" && s[13..16] == "0.0" && s[16..21] == "75.00";
    assert s[13..17] == "0.07";
    assert !FixedDecimal("0.07", 2, 1) by {
      assert !InClass("0.07"[1], Digit);
    }
    assert !FiguresMatchAt(s, 0, 3, 2);
    assert IsCourseCode("MAT1011") by {
      assert forall k :: 0 <= k < 3 ==> InClass("MAT1011"[k], Upper);
      assert forall k :: 3 <= k < 7 ==> InClass("MAT1011"[k], Digit);
    }
    assert FixedDecimal("085.03", 3, 2);
    assert FixedDecimal("0.0", 1, 1);
    assert FixedDecimal("75.00", 2, 2);
    assert FiguresMatchAt(s, 0, 3, 1);
    assert FiguresAt(s, 0) == Some(SplitFigures(s, 0, 3, 1));
  }

  /** The heading that the closing course-data marker puts on its own line;
      `HeadingIsClosing` ties the two together. */
  const Heading: string := "Dados da Instituição"

  /** The closing course-data marker is a newline followed by the heading. */
  lemma {:induction false} HeadingIsClosing()
    ensures CourseEnd == "\n" + Heading
  {
  }

  /** An empty course-data block directly followed by the institution
      heading, a line `x` and the heading once more. */
  function EmptyBlockText(x: string): string {
    CourseStart + "\n" + Heading + "\n" + x + CourseEnd
  }

  /** In such a text the lazy capture runs on past the first heading: `\s*`
      swallows the newline that begins the closing marker, so the block read
      is the heading and `x` rather than nothing. */
  lemma {:induction false} CourseBlockOfEmptyBlock(x: string)
    requires '\n' !in x && (x == [] || x[0] != 'D')
    ensures CourseBlock(EmptyBlockText(x)) == Some(Trim(Heading + "\n" + x))
  {
    var s := EmptyBlockText(x);
    var e := 36 + |x|;
    assert OccursAt(s, 0, CourseStart) by {
      assert s[..14] == CourseStart;
    }
    assert Span(s, 14, Space) == 15 by {
      assert s[14] == '\n' && s[15] == 'D';
      SpanExact(s, 14, 15, Space);
    }
    assert OccursAt(s, e, CourseEnd) by {
      assert s[e..] == CourseEnd;
    }
    NoClosingBefore(x);
    assert FirstAt(s, CourseEnd, 15, e);
    assert s[15..e] == Heading + "\n" + x;
    assert CourseBlockAt(s, 0) == Some(Trim(s[15..e]));
  }

  /** No closing marker starts between the opening marker's newline and the
      last heading. */
  lemma {:induction false} NoClosingBefore(x: string)
    requires '\n' !in x && (x == [] || x[0] != 'D')
    ensures forall j :: 15 <= j < 36 + |x| ==> !OccursAt(EmptyBlockText(x), j, CourseEnd)
  {
    var s := EmptyBlockText(x);
    HeadingOneLine();
    assert s[15..35] == Heading && s[36..36 + |x|] == x;
    assert s[36] != 'D' by {
      if x == [] { assert s[36..] == CourseEnd; }
    }
    forall j | 15 <= j < 36 + |x|
      ensures !OccursAt(s, j, CourseEnd)
    {
      ClosingStarts(s, j);
      if j < 35 {
        assert s[j] == s[15..35][j - 15];
      } else if j > 35 {
        assert s[j] == s[36..36 + |x|][j - 36];
      }
    }
  }

  /** The heading is a single line. */
  lemma {:induction false} HeadingOneLine()
    ensures forall k :: 0 <= k < |Heading| ==> Heading[k] != '\n'
  {
  }

  /** A closing marker starts with a newline and then the heading's "D". */
  lemma {:induction false} ClosingStarts(s: string, j: int)
    ensures OccursAt(s, j, CourseEnd) ==> s[j] == '\n' && s[j + 1] == 'D'
  {
    if OccursAt(s, j, CourseEnd) {
      assert s[j..j + |CourseEnd|][0] == s[j] && s[j..j + |CourseEnd|][1] == s[j + 1];
    }
  }
}
